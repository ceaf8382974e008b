/**
 * Paged listing of delivery operations and received documents,
 * peat-ffi/src/application_delivery.rs.
 *
 * The durable store behind the pages is a parameter: each request sees a snapshot of it.
 */
module Paging {
  import opened Prelude
  import opened Decimal

  const MAX_COLLECTION_BYTES: nat := 128
  const MAX_DOCUMENT_ID_BYTES: nat := 256
  const MAX_BODY_BYTES: nat := 1024 * 1024
  const MAX_PAGE_LIMIT: nat := 100
  const MAX_CURSOR_BYTES: nat := 64
  const MAX_RECEIVED_PAGE_BYTES: nat := 4 * 1024 * 1024

  datatype DeliveryError = InvalidInput | StorageError

  datatype Page<T> = Page(operations: seq<T>, next: Option<string>)

  function Utf8Length(c: char): nat {
    var n := c as int;
    if n < 0x80 then 1 else if n < 0x800 then 2 else if n < 0x10000 then 3 else 4
  }

  /** The length of a string in UTF-8 bytes. */
  function ByteLength(s: string): (n: nat)
    ensures |s| <= n
  {
    if s == [] then 0 else ByteLength(s[..|s| - 1]) + Utf8Length(s[|s| - 1])
  }

  lemma Utf8Lengths()
    ensures ByteLength("z\U{7F}") == 2 && ByteLength("\U{80}\U{7FF}") == 4
    ensures ByteLength("\U{800}\U{FFFF}") == 6 && ByteLength("\U{10000}\U{10FFFF}") == 8
  {
    assert "z\U{7F}" == ['z', '\U{7F}'] && "\U{80}\U{7FF}" == ['\U{80}', '\U{7FF}'];
    assert "\U{800}\U{FFFF}" == ['\U{800}', '\U{FFFF}'] && "\U{10000}\U{10FFFF}" == ['\U{10000}', '\U{10FFFF}'];
    TwoChars('z', '\U{7F}');
    TwoChars('\U{80}', '\U{7FF}');
    TwoChars('\U{800}', '\U{FFFF}');
    TwoChars('\U{10000}', '\U{10FFFF}');
  }

  lemma TwoChars(a: char, b: char)
    ensures ByteLength([a, b]) == Utf8Length(a) + Utf8Length(b)
  {
    assert ByteLength([a]) == Utf8Length(a) by { assert [a][..0] == []; }
    assert [a, b][..1] == [a];
  }

  // --- Cursors ---

  const PREFIX: string := "v1:"

  function Cursor(offset: nat): string { PREFIX + Print(offset) }

  function ParseCursor(cursor: Option<string>): Result<nat, DeliveryError> {
    if cursor.None? then Ok(0)
    else
      var c := cursor.value;
      if ByteLength(c) > MAX_CURSOR_BYTES then Err(InvalidInput)
      else if !(PREFIX <= c) then Err(InvalidInput)
      else
        var offset := ParseUsize(c[|PREFIX|..]);
        if offset.None? then Err(InvalidInput) else Ok(offset.value)
  }

  lemma {:induction false} AsciiLength(s: string)
    requires forall i :: 0 <= i < |s| ==> s[i] as int < 0x80
    ensures ByteLength(s) == |s|
  {
    if s != [] {
      AsciiLength(s[..|s| - 1]);
    }
  }

  lemma Pow10At20()
    ensures Pow10(20) == 100000000000000000000
  {
    assert Pow10(5) == 100000;
    assert Pow10(10) == 10000000000;
    assert Pow10(15) == 1000000000000000;
  }

  /** Parsing undoes printing for every offset a machine word holds: the printed cursor is always short enough. */
  lemma ParseCursorUndoesCursor(offset: nat)
    requires offset < USIZE_LIMIT
    ensures ParseCursor(Some(Cursor(offset))) == Ok(offset)
  {
    var c, digits := Cursor(offset), Print(offset);
    Pow10At20();
    PrintLength(offset, 20);
    forall i | 0 <= i < |c| ensures c[i] as int < 0x80 {
      if i >= 3 { assert IsDigit(digits[i - 3]); }
    }
    AsciiLength(c);
    assert c[|PREFIX|..] == digits;
    ParseUndoesPrint(offset);
  }

  /** What a cursor denotes: at most 64 bytes, the version, and a decimal offset that fits in a word. */
  lemma ParseCursorIff(c: string, n: nat)
    ensures ParseCursor(None) == Ok(0)
    ensures ParseCursor(Some(c)) == Ok(n)
       <==> && ByteLength(c) <= 64 && |c| > 3 && c[..3] == "v1:"
            && var digits := if c[3] == '+' then c[4..] else c[3..];
               digits != [] && AllDigits(digits) && Value(digits) == n < 0x1_0000_0000_0000_0000
  {
    hide ByteLength;
    if PREFIX <= c { assert c[..3] == "v1:"; }
    if |c| > 3 { assert c[|PREFIX|..][1..] == c[4..]; }
  }

  lemma CursorText()
    ensures Cursor(0) == "v1:0" && Cursor(100) == "v1:100"
  {
    assert Print(1) == "1" && Print(10) == "10" && Print(100) == "100";
  }

  // --- One page ---

  function ListPage<T>(listing: Result<seq<T>, DeliveryError>, cursor: Option<string>, limit: nat)
    : Result<Page<T>, DeliveryError>
    requires listing.Ok? ==> |listing.value| < USIZE_LIMIT
  {
    if !(1 <= limit <= MAX_PAGE_LIMIT) then Err(InvalidInput)
    else
      var parsed := ParseCursor(cursor);
      if parsed.Err? then Err(parsed.error)
      else if listing.Err? then Err(listing.error)
      else
        var ops, offset := listing.value, parsed.value;
        if offset > |ops| then Err(InvalidInput)
        else
          var end := Min(Min(offset + limit, USIZE_LIMIT - 1), |ops|);
          Ok(Page(ops[offset..end], if end < |ops| then Some(Cursor(end)) else None))
  }

  /**
   * A page request succeeds exactly for a limit in range, a cursor that parses, a readable store
   * and an offset inside it.
   */
  lemma PageOkIff<T>(listing: Result<seq<T>, DeliveryError>, cursor: Option<string>, limit: nat)
    requires listing.Ok? ==> |listing.value| < USIZE_LIMIT
    ensures ListPage(listing, cursor, limit).Ok?
       <==> && 1 <= limit <= 100 && listing.Ok?
            && ParseCursor(cursor).Ok? && ParseCursor(cursor).value <= |listing.value|
  {
    hide ParseCursor, Cursor;
  }

  lemma PageAt<T>(ops: seq<T>, cursor: Option<string>, offset: nat, limit: nat)
    requires 1 <= limit <= MAX_PAGE_LIMIT && |ops| < USIZE_LIMIT
    requires ParseCursor(cursor) == Ok(offset) && offset <= |ops|
    ensures ListPage(Ok(ops), cursor, limit)
         == if offset + limit < |ops| then Ok(Page(ops[offset..offset + limit], Some(Cursor(offset + limit))))
            else Ok(Page(ops[offset..], None))
  {
    hide ParseCursor, Cursor;
    assert ops[offset..|ops|] == ops[offset..];
  }

  // --- A walk over all pages ---

  /** Every snapshot fits in memory. */
  ghost predicate Addressable<T>(snapshots: seq<seq<T>>) {
    forall i :: 0 <= i < |snapshots| ==> |snapshots[i]| < USIZE_LIMIT
  }

  /** The result of the latest request of a client that starts without a cursor and follows next cursors to the end. */
  ghost function LatestPage<T>(snapshots: seq<seq<T>>, limit: nat): Result<Page<T>, DeliveryError>
    requires snapshots != [] && Addressable(snapshots)
  {
    var n := |snapshots| - 1;
    if n == 0 then ListPage(Ok(snapshots[0]), None, limit)
    else
      var before := LatestPage(snapshots[..n], limit);
      if before.Ok? && before.value.next.Some? then ListPage(Ok(snapshots[n]), before.value.next, limit) else before
  }

  /** Everything the client has read so far. */
  ghost function Gathered<T>(snapshots: seq<seq<T>>, limit: nat): seq<T>
    requires snapshots != [] && Addressable(snapshots)
  {
    var n := |snapshots| - 1;
    var page := LatestPage(snapshots, limit);
    var read := if page.Ok? then page.value.operations else [];
    if n == 0 then read
    else
      var before := LatestPage(snapshots[..n], limit);
      if before.Ok? && before.value.next.Some? then Gathered(snapshots[..n], limit) + read
      else Gathered(snapshots[..n], limit)
  }

  /** The store only grows at its end between requests. */
  ghost predicate GrowsAtEnd<T(!new)>(snapshots: seq<seq<T>>) {
    Addressable(snapshots) && forall i :: 0 < i < |snapshots| ==> snapshots[i - 1] <= snapshots[i]
  }

  /** The client either is at offset `offset` of the newest snapshot, or has read one whole snapshot. */
  ghost predicate WalkInv<T(!new)>(snapshots: seq<seq<T>>, limit: nat)
    requires snapshots != [] && Addressable(snapshots)
  {
    var page := LatestPage(snapshots, limit);
    var last, offset := snapshots[|snapshots| - 1], |snapshots| * limit;
    && page.Ok?
    && (page.value.next.Some? ==>
          && offset < |last| && page.value.next == Some(Cursor(offset)) && Gathered(snapshots, limit) == last[..offset])
    && (page.value.next.None? ==> exists k :: 0 <= k < |snapshots| && Gathered(snapshots, limit) == snapshots[k])
    && (offset >= |last| ==> page.value.next.None?)
  }

  lemma WalkStep<T(!new)>(snapshots: seq<seq<T>>, limit: nat)
    requires |snapshots| > 1 && GrowsAtEnd(snapshots) && 1 <= limit <= MAX_PAGE_LIMIT
    requires WalkInv(snapshots[..|snapshots| - 1], limit)
    ensures WalkInv(snapshots, limit)
  {
    hide ParseCursor, Cursor, ListPage;
    var n := |snapshots| - 1;
    var init, last := snapshots[..n], snapshots[n];
    var before := LatestPage(init, limit);
    assert snapshots[n - 1] <= last;
    if before.value.next.Some? {
      var offset := n * limit;
      ParseCursorUndoesCursor(offset);
      PageAt(last, before.value.next, offset, limit);
      assert init[n - 1][..offset] == last[..offset];
      var next := (n + 1) * limit;
      assert next == offset + limit;
      if next < |last| {
        assert last[..offset] + last[offset..next] == last[..next];
      } else {
        assert last[..offset] + last[offset..] == last;
        assert Gathered(snapshots, limit) == snapshots[n];
      }
    } else {
      var k :| 0 <= k < n && Gathered(init, limit) == init[k];
      assert Gathered(snapshots, limit) == snapshots[k];
    }
  }

  /**
   * A client that pages to completion, over a store that only grows at its end, never meets an error.
   * When the next cursor runs out it has read exactly one snapshot of the store, each operation once
   * and in order; until then it has read a prefix, and the walk goes on after n requests only if the
   * newest snapshot holds more than n times limit operations.
   */
  lemma {:induction false} PagingReadsEverything<T(!new)>(snapshots: seq<seq<T>>, limit: nat)
    requires snapshots != [] && GrowsAtEnd(snapshots) && 1 <= limit <= MAX_PAGE_LIMIT
    ensures WalkInv(snapshots, limit)
  {
    hide ParseCursor, Cursor, ListPage;
    var n := |snapshots| - 1;
    if n == 0 {
      var ops := snapshots[0];
      FirstPage(ops, limit);
      if limit >= |ops| {
        assert ops[0..] == ops;
        assert Gathered(snapshots, limit) == snapshots[0];
      }
    } else {
      PagingReadsEverything(snapshots[..n], limit);
      WalkStep(snapshots, limit);
    }
  }

  lemma FirstPage<T>(ops: seq<T>, limit: nat)
    requires 1 <= limit <= MAX_PAGE_LIMIT && |ops| < USIZE_LIMIT
    ensures ListPage(Ok(ops), None, limit)
         == if limit < |ops| then Ok(Page(ops[..limit], Some(Cursor(limit)))) else Ok(Page(ops[0..], None))
  {
    PageAt(ops, None, 0, limit);
    if limit < |ops| { assert ops[0..limit] == ops[..limit]; }
  }

  /** Over a store that does not change, the walk ends and reads the whole list. */
  lemma PagingAFixedList<T(!new)>(ops: seq<T>, limit: nat, snapshots: seq<seq<T>>)
    requires |ops| < USIZE_LIMIT && 1 <= limit <= MAX_PAGE_LIMIT
    requires snapshots != [] && |snapshots| * limit >= |ops|
    requires forall i :: 0 <= i < |snapshots| ==> snapshots[i] == ops
    ensures LatestPage(snapshots, limit).Ok? && LatestPage(snapshots, limit).value.next.None?
    ensures Gathered(snapshots, limit) == ops
  {
    PagingReadsEverything(snapshots, limit);
  }

  // --- Received documents ---

  datatype Document = Document(collection: string, documentId: string, body: seq<int>)

  datatype DocumentPage = DocumentPage(documents: seq<Document>, next: Option<string>)

  predicate IsControl(c: char) { c as int < 0x20 || 0x7F <= c as int < 0xA0 }

  predicate ValidToken(s: string, maximum: nat) {
    s != [] && ByteLength(s) <= maximum && (forall i :: 0 <= i < |s| ==> !IsControl(s[i]) && s[i] != ':')
  }

  predicate Deliverable(d: Document) {
    && ValidToken(d.collection, MAX_COLLECTION_BYTES) && ValidToken(d.documentId, MAX_DOCUMENT_ID_BYTES)
    && 1 <= |d.body| <= MAX_BODY_BYTES
  }

  function TotalBytes(ds: seq<Document>): (n: nat)
    ensures forall i :: 0 <= i < |ds| ==> |ds[i].body| <= n
  {
    if ds == [] then 0 else TotalBytes(ds[..|ds| - 1]) + |ds[|ds| - 1].body|
  }

  lemma {:induction false} RepeatedLength(n: nat)
    ensures ByteLength(seq(n, _ => 'a')) == n
  {
    if n > 0 {
      RepeatedLength(n - 1);
      assert seq(n, _ => 'a')[..n - 1] == seq(n - 1, _ => 'a');
    }
  }

  /** Where a document stops being deliverable: its name lengths, its characters and its size. */
  lemma DeliverableIff(n: nat, k: nat, body: seq<int>, c: char)
    ensures Deliverable(Document(seq(n, _ => 'a'), seq(k, _ => 'a'), body))
       <==> 1 <= n <= 128 && 1 <= k <= 256 && 1 <= |body| <= 1048576
    ensures ValidToken([c], 128)
       <==> c != ':' && c as int >= 0x20 && !(0x7F <= c as int <= 0x9F)
  {
    RepeatedLength(n);
    RepeatedLength(k);
    assert ByteLength([c]) <= 4 by { assert [c][..0] == []; }
  }

  lemma {:induction false} TotalOfPrefix(ds: seq<Document>, i: nat)
    requires i <= |ds|
    ensures TotalBytes(ds[..i]) <= TotalBytes(ds)
  {
    if i < |ds| {
      TotalOfPrefix(ds[..|ds| - 1], i);
      assert ds[..|ds| - 1][..i] == ds[..i];
    } else {
      assert ds[..i] == ds;
    }
  }

  method ReceivedDocument(d: Document) returns (r: Result<Document, DeliveryError>)
    ensures r.Ok? <==> Deliverable(d)
    ensures r.Ok? ==> r.value == d
  {
    if !ValidToken(d.collection, MAX_COLLECTION_BYTES) {
      return Err(InvalidInput);
    }
    if !ValidToken(d.documentId, MAX_DOCUMENT_ID_BYTES) {
      return Err(InvalidInput);
    }
    if d.body == [] || |d.body| > MAX_BODY_BYTES {
      return Err(StorageError);
    }
    return Ok(d);
  }

  /** A page goes out unchanged exactly when every document is deliverable and the bodies fit in four mebibytes. */
  method ReceivedPage(documents: seq<Document>, next: Option<string>) returns (r: Result<DocumentPage, DeliveryError>)
    requires forall i :: 0 <= i < |documents| ==> |documents[i].body| < USIZE_LIMIT
    ensures r.Ok? <==> (forall i :: 0 <= i < |documents| ==> Deliverable(documents[i]))
                       && TotalBytes(documents) <= 4194304
    ensures r.Ok? ==> r.value == DocumentPage(documents, next)
  {
    var total := 0;
    var sent := [];
    for i := 0 to |documents|
      invariant total == TotalBytes(documents[..i]) <= MAX_RECEIVED_PAGE_BYTES
      invariant sent == documents[..i]
      invariant forall j :: 0 <= j < i ==> Deliverable(documents[j])
    {
      var d := documents[i];
      assert documents[..i + 1][..i] == documents[..i];
      TotalOfPrefix(documents, i + 1);
      if total + |d.body| >= USIZE_LIMIT {
        return Err(StorageError);
      }
      total := total + |d.body|;
      if total > MAX_RECEIVED_PAGE_BYTES {
        return Err(StorageError);
      }
      var one := ReceivedDocument(d);
      if one.Err? {
        return Err(one.error);
      }
      sent := sent + [one.value];
    }
    assert documents[..|documents|] == documents;
    return Ok(DocumentPage(sent, next));
  }
}
