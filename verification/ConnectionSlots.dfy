/**
 * The connection slots of the BLE radio, examples/m5stack-core2-peat/src/nimble.rs: four slots, a
 * counter, and the older single-connection flag and handle, changed by connect and disconnect events.
 */
module ConnectionSlots {
  const SLOTS: nat := 4
  const NO_HANDLE: nat := 0xFFFF

  type Address = nat

  datatype Slot = Slot(handle: nat, docHandle: nat, active: bool, peer: Address, nodeId: nat, central: bool)

  const FREE := Slot(NO_HANDLE, 0, false, 0, 0, false)

  /** connHandle is the single-connection handle kept beside the slots. */
  datatype State = State(slots: seq<Slot>, count: int, connected: bool, connHandle: nat, disconnected: seq<nat>)

  /** The first position satisfying p, or the length. */
  function First(s: seq<Slot>, p: Slot -> bool): (r: nat)
    ensures r <= |s| && (r < |s| ==> p(s[r])) && forall i :: 0 <= i < r ==> !p(s[i])
  {
    if s == [] then 0
    else
      var r := First(s[..|s| - 1], p);
      if r < |s| - 1 || p(s[|s| - 1]) then r else |s|
  }

  function IsFree(): Slot -> bool { (s: Slot) => !s.active }
  function Holds(h: nat): Slot -> bool { (s: Slot) => s.active && s.handle == h }
  function IsUnnamed(): Slot -> bool { (s: Slot) => s.active && s.nodeId == 0 }

  // --- What each event does ---

  function Initial(): State { State([FREE, FREE, FREE, FREE], 0, false, NO_HANDLE, []) }

  function AfterConnect(s: State, h: nat, peer: Address, central: bool): State {
    var i := First(s.slots, IsFree());
    var t := s.(connected := true, connHandle := h);
    if i < |s.slots|
    then
      var x := s.slots[i].(handle := h, docHandle := 0, active := true, peer := peer, central := central);
      t.(slots := s.slots[i := x], count := s.count + 1)
    else t
  }

  /** The role flag of a freed slot keeps its old value. */
  function Freed(x: Slot): Slot { FREE.(central := x.central) }

  function AfterDisconnect(s: State, h: nat): State {
    var i := First(s.slots, Holds(h));
    var t :=
      if i < |s.slots| then
        var x := s.slots[i];
        s.(slots := s.slots[i := Freed(x)], count := s.count - 1,
           disconnected := if x.nodeId != 0 then s.disconnected + [x.nodeId] else s.disconnected)
      else s;
    t.(connected := t.count > 0, connHandle := if t.count == 0 then NO_HANDLE else t.connHandle)
  }

  function AfterNaming(s: State, nodeId: nat): State {
    var i := First(s.slots, IsUnnamed());
    if i < |s.slots| then s.(slots := s.slots[i := s.slots[i].(nodeId := nodeId)]) else s
  }

  // --- Counting ---

  function ActiveCount(s: seq<Slot>): (n: nat)
    ensures n <= |s|
    ensures n > 0 <==> exists i :: 0 <= i < |s| && s[i].active
  {
    if s == [] then 0
    else ActiveCount(s[..|s| - 1]) + if s[|s| - 1].active then 1 else 0
  }

  lemma {:induction false} CountUpdate(s: seq<Slot>, i: nat, x: Slot)
    requires i < |s|
    ensures ActiveCount(s[i := x]) == ActiveCount(s) - (if s[i].active then 1 else 0) + (if x.active then 1 else 0)
  {
    var n := |s| - 1;
    if i < n {
      CountUpdate(s[..n], i, x);
      assert s[i := x][..n] == s[..n][i := x];
    } else {
      assert s[i := x][..n] == s[..n];
    }
  }

  lemma {:induction false} FullCount(s: seq<Slot>)
    requires forall i :: 0 <= i < |s| ==> s[i].active
    ensures ActiveCount(s) == |s|
  {
    if s != [] {
      FullCount(s[..|s| - 1]);
    }
  }

  /**
   * The counter is the number of active slots, the flag says whether there is one, and a slot that is
   * not active has been cleared, so a new connection never inherits a node id.
   */
  ghost predicate Inv(s: State) {
    && |s.slots| == SLOTS && s.count == ActiveCount(s.slots)
    && s.connected == (s.count > 0)
    && (!s.connected ==> s.connHandle == 0xFFFF)
    && (forall i :: 0 <= i < SLOTS && !s.slots[i].active ==> s.slots[i] == Freed(s.slots[i]))
  }

  lemma ConnectInv(s: State, h: nat, peer: Address, central: bool)
    requires Inv(s)
    ensures Inv(AfterConnect(s, h, peer, central))
    ensures var i := First(s.slots, IsFree());
            i < SLOTS ==> AfterConnect(s, h, peer, central).slots[i] == Slot(h, 0, true, peer, 0, central)
    ensures First(s.slots, IsFree()) < SLOTS <==> s.count < SLOTS
  {
    var i := First(s.slots, IsFree());
    if i < SLOTS {
      var x := s.slots[i];
      assert !x.active;
      CountUpdate(s.slots, i, x.(handle := h, docHandle := 0, active := true, peer := peer, central := central));
    } else {
      forall k | 0 <= k < SLOTS ensures s.slots[k].active { assert !IsFree()(s.slots[k]); }
      FullCount(s.slots);
    }
  }

  lemma DisconnectInv(s: State, h: nat)
    requires Inv(s)
    ensures Inv(AfterDisconnect(s, h))
    ensures First(s.slots, Holds(h)) < SLOTS ==> s.count > 0
  {
    var i := First(s.slots, Holds(h));
    if i < SLOTS {
      assert s.slots[i].active;
      CountUpdate(s.slots, i, Freed(s.slots[i]));
    }
  }

  lemma NamingInv(s: State, nodeId: nat)
    requires Inv(s)
    ensures Inv(AfterNaming(s, nodeId))
  {
    var i := First(s.slots, IsUnnamed());
    if i < SLOTS {
      CountUpdate(s.slots, i, s.slots[i].(nodeId := nodeId));
    }
  }

  class Radio {
    const slots: array<Slot>
    var count: int
    var connected: bool
    var connHandle: nat
    var disconnected: seq<nat>

    function AsState(): State
      reads this, slots
    {
      State(slots[..], count, connected, connHandle, disconnected)
    }

    ghost predicate Valid()
      reads this, slots
    {
      Inv(AsState())
    }

    constructor ()
      ensures fresh(slots) && AsState() == Initial() && Valid()
    {
      slots := new Slot[SLOTS](_ => FREE);
      count, connected, connHandle, disconnected := 0, false, NO_HANDLE, [];
      new;
      assert slots[..] == Initial().slots;
      assert ActiveCount(slots[..]) == 0;
    }

    method OnConnect(h: nat, peer: Address, central: bool)
      requires Valid()
      modifies this, slots
      ensures Valid() && AsState() == AfterConnect(old(AsState()), h, peer, central)
    {
      ConnectInv(AsState(), h, peer, central);
      ghost var before := slots[..];
      var i := 0;
      while i < slots.Length && slots[i].active
        invariant i <= slots.Length && forall k :: 0 <= k < i ==> slots[k].active
      {
        i := i + 1;
      }
      assert i == First(before, IsFree());
      if i < slots.Length {
        slots[i] := slots[i].(handle := h, docHandle := 0, active := true, peer := peer, central := central);
        count := count + 1;
      }
      connected := true;
      connHandle := h;
    }

    /** The counter never goes below zero: a slot is freed only while one is active. */
    method OnDisconnect(h: nat)
      requires Valid()
      modifies this, slots
      ensures Valid() && AsState() == AfterDisconnect(old(AsState()), h)
    {
      DisconnectInv(AsState(), h);
      ghost var before := slots[..];
      var i := 0;
      while i < slots.Length && !(slots[i].active && slots[i].handle == h)
        invariant i <= slots.Length && forall k :: 0 <= k < i ==> !(slots[k].active && slots[k].handle == h)
      {
        i := i + 1;
      }
      assert i == First(before, Holds(h));
      if i < slots.Length {
        if slots[i].nodeId != 0 {
          disconnected := disconnected + [slots[i].nodeId];
        }
        slots[i] := slots[i].(active := false, handle := NO_HANDLE, docHandle := 0, peer := 0, nodeId := 0);
        count := count - 1;
      }
      connected := count > 0;
      if count == 0 {
        connHandle := NO_HANDLE;
      }
    }

    method SetConnectionNodeId(nodeId: nat)
      requires Valid()
      modifies slots
      ensures Valid() && AsState() == AfterNaming(old(AsState()), nodeId)
    {
      NamingInv(AsState(), nodeId);
      ghost var before := slots[..];
      var i := 0;
      while i < slots.Length && !(slots[i].active && slots[i].nodeId == 0)
        invariant i <= slots.Length && forall k :: 0 <= k < i ==> !(slots[k].active && slots[k].nodeId == 0)
      {
        i := i + 1;
      }
      assert i == First(before, IsUnnamed());
      if i < slots.Length {
        slots[i] := slots[i].(nodeId := nodeId);
      }
    }
  }

  // --- Runs ---

  datatype Event = Connect(handle: nat, peer: Address, central: bool) | Disconnect(handle: nat) | Name(nodeId: nat)

  function Step(s: State, e: Event): State {
    match e
    case Connect(h, peer, central) => AfterConnect(s, h, peer, central)
    case Disconnect(h) => AfterDisconnect(s, h)
    case Name(n) => AfterNaming(s, n)
  }

  function Run(events: seq<Event>): State {
    if events == [] then Initial() else Step(Run(events[..|events| - 1]), events[|events| - 1])
  }

  lemma {:induction false} RunInv(events: seq<Event>)
    ensures Inv(Run(events))
  {
    if events == [] {
      assert ActiveCount(Initial().slots) == 0;
    } else {
      var init, e := events[..|events| - 1], events[|events| - 1];
      RunInv(init);
      match e
      case Connect(h, peer, central) => ConnectInv(Run(init), h, peer, central);
      case Disconnect(h) => DisconnectInv(Run(init), h);
      case Name(n) => NamingInv(Run(init), n);
    }
  }

  lemma RunSnoc(events: seq<Event>, e: Event)
    ensures Run(events + [e]) == Step(Run(events), e)
  {
    assert (events + [e])[..|events|] == events;
  }
}
