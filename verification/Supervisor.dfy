/**
 * The reconnect supervisor, peat-ffi/src/supervisor.rs: a dial state machine per peer with capped
 * exponential backoff and a jitter taken from a hash of the peer id.
 *
 * Times are milliseconds passed in; the hash is a parameter. Asking whether a peer may be dialed and
 * marking the dial are one step, as the callers in peat-ffi/src/lib.rs pair them.
 */
module Supervisor {
  import opened Prelude

  const BACKOFF_BASE: nat := 2000
  const BACKOFF_MAX: nat := 300000
  const CONNECTING_STUCK: nat := 30000
  const U32_MAX: nat := 0xFFFF_FFFF
  const U64_MAX: nat := 0xFFFF_FFFF_FFFF_FFFF

  datatype Phase = Idle | Connecting | Connected | Backoff

  datatype PeerDial = PeerDial(phase: Phase, attempts: nat, nextMs: nat, sinceMs: nat)

  type Peers = map<string, PeerDial>

  const NEW_PEER := PeerDial(Idle, 0, 0, 0)

  function Entry(peers: Peers, id: string): PeerDial { if id in peers then peers[id] else NEW_PEER }

  // --- Backoff ---

  function Shifted(base: nat, shift: nat): nat { if shift == 0 then base else 2 * Shifted(base, shift - 1) }

  /** The delay before jitter. */
  function CappedDelay(attempts: nat): nat {
    var shift := Min(if attempts == 0 then 0 else attempts - 1, 8);
    Min(Shifted(BACKOFF_BASE, shift), BACKOFF_MAX)
  }

  function Delay(attempts: nat, h: nat): nat {
    var capped := CappedDelay(attempts);
    Min(capped + h % (capped / 5 + 1), U64_MAX)
  }

  lemma CappedDelays(attempts: nat)
    ensures CappedDelay(attempts) ==
      (if attempts <= 1 then 2000 else if attempts == 2 then 4000 else if attempts == 3 then 8000
       else if attempts == 4 then 16000 else if attempts == 5 then 32000 else if attempts == 6 then 64000
       else if attempts == 7 then 128000 else if attempts == 8 then 256000 else 300000)
  {
    assert Shifted(2000, 0) == 2000 && Shifted(2000, 1) == 4000 && Shifted(2000, 2) == 8000;
    assert Shifted(2000, 3) == 16000 && Shifted(2000, 4) == 32000 && Shifted(2000, 5) == 64000;
    assert Shifted(2000, 6) == 128000 && Shifted(2000, 7) == 256000 && Shifted(2000, 8) == 512000;
  }

  /** Jitter adds at most a fifth. */
  lemma DelayBounds(attempts: nat, h: nat)
    ensures CappedDelay(attempts) <= Delay(attempts, h) <= CappedDelay(attempts) + CappedDelay(attempts) / 5
    ensures 5 * Delay(attempts, h) <= 6 * CappedDelay(attempts)
  {
    CappedDelays(attempts);
    var capped := CappedDelay(attempts);
    hide CappedDelay;
    assert 0 <= h % (capped / 5 + 1) <= capped / 5;
  }

  lemma DelayStep(attempts: nat, h: nat)
    requires attempts >= 1
    ensures attempts < 8 ==> Delay(attempts, h) < Delay(attempts + 1, h)
    ensures attempts == 8 ==> Min(Delay(8, h), BACKOFF_MAX) <= BACKOFF_MAX <= Delay(9, h)
    ensures attempts > 8 ==> Delay(attempts + 1, h) == Delay(attempts, h)
  {
    DelayBounds(attempts, h);
    DelayBounds(attempts + 1, h);
    CappedDelays(attempts);
    CappedDelays(attempts + 1);
    hide CappedDelay;
  }

  /** Delays strictly grow through the eighth attempt, and the delay cut at five minutes never shrinks. */
  lemma {:induction false} DelaysGrow(a: nat, b: nat, h: nat)
    requires 1 <= a < b
    ensures b <= 8 ==> Delay(a, h) < Delay(b, h)
    ensures Min(Delay(a, h), BACKOFF_MAX) <= Min(Delay(b, h), BACKOFF_MAX)
    decreases b - a
  {
    hide Delay;
    DelayStep(b - 1, h);
    if a < b - 1 {
      DelaysGrow(a, b - 1, h);
    }
  }

  lemma LastGrowth(h: nat)
    ensures Delay(8, h) == 256000 + h % 51201 && Delay(9, h) == 300000 + h % 60001
  {
    CappedDelays(8);
    CappedDelays(9);
    hide CappedDelay;
  }

  /** The delay after an attempt is never shorter than the delay after an earlier one. */
  ghost predicate NeverShrinks(h: nat) {
    forall a, b :: 1 <= a < b ==> Delay(a, h) <= Delay(b, h)
  }

  lemma {:induction false} DelaysGrowUnless(a: nat, b: nat, h: nat)
    requires 1 <= a < b && Delay(8, h) <= Delay(9, h)
    ensures Delay(a, h) <= Delay(b, h)
    decreases b - a
  {
    hide Delay;
    DelayStep(b - 1, h);
    if a < b - 1 {
      DelaysGrowUnless(a, b - 1, h);
    }
  }

  /** The delay can shrink only between the eighth and ninth attempts, and does so for exactly these hashes. */
  lemma NeverShrinksIff(h: nat)
    ensures NeverShrinks(h) <==> h % 51201 <= 44000 + h % 60001
  {
    LastGrowth(h);
    hide Delay;
    if Delay(8, h) <= Delay(9, h) {
      forall a, b | 1 <= a < b ensures Delay(a, h) <= Delay(b, h) { DelaysGrowUnless(a, b, h); }
    }
  }

  lemma ShrinkingHash()
    ensures !NeverShrinks(660011) && Delay(8, 660011) == 301599 && Delay(9, 660011) == 300000
  {
    hide Delay, NeverShrinks;
    NeverShrinksIff(660011);
    LastGrowth(660011);
  }

  // --- What each operation does ---

  function Reconciled(peers: Peers, live: set<string>): Peers {
    map id | id in peers.Keys + live ::
      if id in live then Entry(peers, id).(phase := Connected, attempts := 0)
      else if peers[id].phase == Connected then peers[id].(phase := Idle)
      else peers[id]
  }

  predicate Eligible(p: PeerDial, now: nat) {
    match p.phase
    case Idle => true
    case Connected => false
    case Backoff => now >= p.nextMs
    case Connecting => Elapsed(now, p.sinceMs) >= CONNECTING_STUCK
  }

  function Dialing(p: PeerDial, now: nat): PeerDial { p.(phase := Connecting, sinceMs := now) }

  function Succeeded(p: PeerDial): PeerDial { p.(phase := Connected, attempts := 0) }

  function FailedDial(p: PeerDial, now: nat, h: nat): PeerDial {
    var attempts := Min(p.attempts + 1, U32_MAX);
    p.(phase := Backoff, attempts := attempts, nextMs := Min(now + Delay(attempts, h), U64_MAX))
  }

  function BackoffReset(p: PeerDial): PeerDial {
    if p.phase == Backoff then p.(phase := Idle, attempts := 0) else p
  }

  class DialSupervisor {
    const hash: string -> nat
    var peers: Peers

    constructor (hash: string -> nat)
      ensures this.hash == hash && peers == map[]
    {
      this.hash := hash;
      peers := map[];
    }

    /** The peers that were not connected and now are, each once, in the order the set yields them. */
    method Reconcile(live: set<string>) returns (newly: seq<string>)
      modifies this
      ensures peers == Reconciled(old(peers), live)
      ensures forall id :: id in newly <==> id in live && Entry(old(peers), id).phase != Connected
      ensures forall i, j :: 0 <= i < j < |newly| ==> newly[i] != newly[j]
      ensures (set id | id in peers && peers[id].phase == Connected) == live
    {
      newly := [];
      var todo := live;
      while todo != {}
        modifies this`peers
        invariant todo <= live && peers.Keys == old(peers).Keys + (live - todo)
        invariant forall id :: id in peers ==>
          peers[id] == if id in live - todo then Succeeded(Entry(old(peers), id)) else old(peers)[id]
        invariant forall id :: id in newly <==> id in live - todo && Entry(old(peers), id).phase != Connected
        invariant forall i, j :: 0 <= i < j < |newly| ==> newly[i] != newly[j]
      {
        var id :| id in todo;
        var entry := Entry(peers, id);
        if entry.phase != Connected {
          newly := newly + [id];
        }
        peers := peers[id := Succeeded(entry)];
        todo := todo - {id};
      }
      DropAbsent(live);
    }

    method DropAbsent(live: set<string>)
      modifies this`peers
      ensures peers.Keys == old(peers).Keys
      ensures forall id :: id in peers ==>
        peers[id] == if id !in live && old(peers)[id].phase == Connected
                     then old(peers)[id].(phase := Idle) else old(peers)[id]
    {
      var todo := peers.Keys;
      while todo != {}
        modifies this`peers
        invariant todo <= peers.Keys == old(peers).Keys
        invariant forall id :: id in peers ==>
          peers[id] == if id !in todo && id !in live && old(peers)[id].phase == Connected
                       then old(peers)[id].(phase := Idle) else old(peers)[id]
      {
        var id :| id in todo;
        if peers[id].phase == Connected && id !in live {
          peers := peers[id := peers[id].(phase := Idle)];
        }
        todo := todo - {id};
      }
    }

    method IsEligible(id: string, now: nat) returns (ok: bool)
      modifies this
      ensures peers == old(peers)[id := Entry(old(peers), id)]
      ensures ok == Eligible(peers[id], now)
    {
      var entry := Entry(peers, id);
      peers := peers[id := entry];
      ok := Eligible(entry, now);
    }

    method MarkConnecting(id: string, now: nat)
      modifies this
      ensures peers == old(peers)[id := Dialing(Entry(old(peers), id), now)]
    {
      peers := peers[id := Entry(peers, id).(phase := Connecting, sinceMs := now)];
    }

    method MarkConnected(id: string)
      modifies this
      ensures peers == old(peers)[id := Succeeded(Entry(old(peers), id))]
    {
      peers := peers[id := Entry(peers, id).(phase := Connected, attempts := 0)];
    }

    method MarkFailed(id: string, now: nat)
      modifies this
      ensures peers == old(peers)[id := FailedDial(Entry(old(peers), id), now, hash(id))]
    {
      var entry := Entry(peers, id);
      var attempts := Min(entry.attempts + 1, U32_MAX);
      var backoff := Delay(attempts, hash(id));
      peers := peers[id := entry.(attempts := attempts, phase := Backoff, nextMs := Min(now + backoff, U64_MAX))];
    }

    method ResetBackoffAll()
      modifies this
      ensures peers.Keys == old(peers).Keys
      ensures forall id :: id in peers ==> peers[id] == BackoffReset(old(peers)[id])
    {
      var todo := peers.Keys;
      while todo != {}
        modifies this`peers
        invariant todo <= peers.Keys == old(peers).Keys
        invariant forall id :: id in peers ==>
            peers[id] == if id in todo then old(peers)[id] else BackoffReset(old(peers)[id])
      {
        var id :| id in todo;
        if peers[id].phase == Backoff {
          peers := peers[id := peers[id].(phase := Idle, attempts := 0)];
        }
        todo := todo - {id};
      }
    }

    method Retain(keep: set<string>)
      modifies this
      ensures peers == map id | id in old(peers) && id in keep :: old(peers)[id]
    {
      peers := map id | id in peers && id in keep :: peers[id];
    }
  }

  // --- Runs ---

  /** Dial asks whether the peer is eligible and, only if so, marks the dial. */
  datatype Event = Reconcile(live: set<string>) | Dial(id: string, now: nat) | Succeed(id: string)
    | Fail(id: string, now: nat) | ResetAll | Retain(keep: set<string>)

  function Step(hash: string -> nat, peers: Peers, e: Event): Peers {
    match e
    case Reconcile(live) => Reconciled(peers, live)
    case Dial(id, now) =>
      var p := Entry(peers, id);
      peers[id := if Eligible(p, now) then Dialing(p, now) else p]
    case Succeed(id) => peers[id := Succeeded(Entry(peers, id))]
    case Fail(id, now) => peers[id := FailedDial(Entry(peers, id), now, hash(id))]
    case ResetAll => map id | id in peers :: BackoffReset(peers[id])
    case Retain(keep) => map id | id in peers && id in keep :: peers[id]
  }

  function Run(hash: string -> nat, peers: Peers, events: seq<Event>): Peers {
    if events == [] then peers else Step(hash, Run(hash, peers, events[..|events| - 1]), events[|events| - 1])
  }

  predicate PeerInv(p: PeerDial) {
    && (p.phase == Idle || p.phase == Connected ==> p.attempts == 0)
    && (p.phase == Backoff ==> p.attempts >= 1)
  }

  lemma StepInv(hash: string -> nat, peers: Peers, e: Event, id: string)
    requires forall p :: p in peers ==> PeerInv(peers[p])
    ensures id in Step(hash, peers, e) ==> PeerInv(Step(hash, peers, e)[id])
  {
    hide Delay;
  }

  /** In every run an idle or connected peer has no failed attempts and a backing-off one has some. */
  lemma {:induction false} AttemptsFollowPhase(hash: string -> nat, events: seq<Event>, id: string)
    ensures id in Run(hash, map[], events) ==> PeerInv(Run(hash, map[], events)[id])
  {
    if events != [] {
      var init := events[..|events| - 1];
      var peers := Run(hash, map[], init);
      forall p | p in peers ensures PeerInv(peers[p]) { AttemptsFollowPhase(hash, init, p); }
      StepInv(hash, peers, events[|events| - 1], id);
    }
  }

  /** The event says something about this peer: an outcome, a live link, or a prune. */
  predicate Touches(e: Event, id: string) {
    match e
    case Reconcile(live) => id in live
    case Succeed(x) => x == id
    case Fail(x, _) => x == id
    case Retain(keep) => id !in keep
    case _ => false
  }

  ghost predicate Untouched(events: seq<Event>, id: string) {
    forall i :: 0 <= i < |events| ==> !Touches(events[i], id)
  }

  /** No event is a dial of this peer that starts. */
  ghost predicate NoDialStarts(hash: string -> nat, peers: Peers, events: seq<Event>, id: string) {
    forall i :: 0 <= i < |events| ==>
      !(events[i].Dial? && events[i].id == id && Eligible(Entry(Run(hash, peers, events[..i]), id), events[i].now))
  }

  lemma {:induction false} DialInFlightStays(hash: string -> nat, peers: Peers, events: seq<Event>, id: string)
    requires id in peers && peers[id].phase == Connecting
    requires Untouched(events, id) && NoDialStarts(hash, peers, events, id)
    ensures id in Run(hash, peers, events) && Run(hash, peers, events)[id] == peers[id]
  {
    if events != [] {
      hide Eligible, Delay;
      var init, e := events[..|events| - 1], events[|events| - 1];
      forall i | 0 <= i < |init| ensures init[..i] == events[..i] {}
      DialInFlightStays(hash, peers, init, id);
      assert !Touches(e, id);
    }
  }

  /**
   * After a dial starts at `first`, with no outcome for the peer, no live link to it and no prune,
   * the next dial is allowed at exactly the times 30 s or more later.
   */
  lemma DialsAreSpaced(hash: string -> nat, peers: Peers, id: string, first: nat, between: seq<Event>, second: nat)
    requires Eligible(Entry(peers, id), first)
    requires var after := Step(hash, peers, Dial(id, first));
             Untouched(between, id) && NoDialStarts(hash, after, between, id)
    ensures var later := Run(hash, Step(hash, peers, Dial(id, first)), between);
            Eligible(Entry(later, id), second) <==> second >= first + 30000
  {
    DialInFlightStays(hash, Step(hash, peers, Dial(id, first)), between, id);
  }

  lemma {:induction false} BackoffStays(hash: string -> nat, peers: Peers, events: seq<Event>, id: string)
    requires id in peers && peers[id].phase == Backoff
    requires Untouched(events, id) && NoDialStarts(hash, peers, events, id) && ResetAll !in events
    ensures id in Run(hash, peers, events) && Run(hash, peers, events)[id] == peers[id]
  {
    if events != [] {
      hide Eligible, Delay;
      var init, e := events[..|events| - 1], events[|events| - 1];
      forall i | 0 <= i < |init| ensures init[..i] == events[..i] {}
      BackoffStays(hash, peers, init, id);
      assert e in events && !Touches(e, id);
    }
  }

  /** After a failure the peer may be dialed again exactly once the delay for its attempt count is over. */
  lemma RetryAfterDelay(hash: string -> nat, peers: Peers, id: string, failed: nat, between: seq<Event>, now: nat)
    requires var after := Step(hash, peers, Fail(id, failed));
             Untouched(between, id) && NoDialStarts(hash, after, between, id) && ResetAll !in between
    ensures var attempts := Min(Entry(peers, id).attempts + 1, 0xFFFF_FFFF);
            var later := Run(hash, Step(hash, peers, Fail(id, failed)), between);
            Eligible(Entry(later, id), now) <==> now >= Min(failed + Delay(attempts, hash(id)), 0xFFFF_FFFF_FFFF_FFFF)
  {
    hide Delay;
    BackoffStays(hash, Step(hash, peers, Fail(id, failed)), between, id);
  }

  /** The event may end a connection: a failure, a prune, or a reconcile that does not see the peer. */
  predicate Drops(e: Event, id: string) {
    match e
    case Reconcile(live) => id !in live
    case Fail(x, _) => x == id
    case Retain(keep) => id !in keep
    case _ => false
  }

  /** A connection reported by one reconcile is not reported again until something drops it. */
  lemma {:induction false} ReportedOnce(hash: string -> nat, peers: Peers, live: set<string>, between: seq<Event>,
          id: string)
    requires id in live && forall i :: 0 <= i < |between| ==> !Drops(between[i], id)
    ensures var later := Run(hash, Step(hash, peers, Reconcile(live)), between);
            id in later && later[id].phase == Connected
  {
    if between != [] {
      hide Delay;
      var init := between[..|between| - 1];
      ReportedOnce(hash, peers, live, init, id);
      assert !Drops(between[|between| - 1], id);
    }
  }

  /** A peer never heard of may be dialed at any time, and so may one whose backoff has been reset. */
  lemma EligibleAtOnce(hash: string -> nat, peers: Peers, id: string, now: nat)
    ensures id !in peers ==> Eligible(Entry(peers, id), now)
    ensures Entry(peers, id).phase == Backoff ==> Eligible(Entry(Step(hash, peers, ResetAll), id), now)
    ensures Entry(peers, id).phase == Connecting || Entry(peers, id).phase == Connected ==>
              Entry(Step(hash, peers, ResetAll), id) == Entry(peers, id)
  {}

  /** The failures of a peer since it was last up, pruned, or reset while backing off; at most the u32 maximum. */
  function Failures(hash: string -> nat, events: seq<Event>, id: string): nat {
    if events == [] then 0
    else
      var init, e := events[..|events| - 1], events[|events| - 1];
      var before := Failures(hash, init, id);
      match e
      case Fail(x, _) => if x == id then Min(before + 1, 0xFFFF_FFFF) else before
      case Succeed(x) => if x == id then 0 else before
      case Reconcile(live) => if id in live then 0 else before
      case Retain(keep) => if id in keep then before else 0
      case ResetAll => if Entry(Run(hash, map[], init), id).phase == Backoff then 0 else before
      case Dial(_, _) => before
  }

  /** In every run the attempt count that drives the backoff is the number of those failures. */
  lemma {:induction false} AttemptsCountFailures(hash: string -> nat, events: seq<Event>, id: string)
    ensures Entry(Run(hash, map[], events), id).attempts == Failures(hash, events, id)
  {
    if events != [] {
      hide Delay, Eligible;
      AttemptsCountFailures(hash, events[..|events| - 1], id);
    }
  }
}
