/**
  The receive ring of kernel/src/e1000.rs: the card fills slots from RDH up to RDT, the driver drains
  them from rx_index (section 3.2.6 of the Intel 8254x Software Developer's Manual). Card and driver
  steps interleave freely.
 */
module E1000Rx {
  import opened Bytes
  import Arith

  const RING: nat := 32

  /** How far a poll has got: status seen set, status cleared, index advanced but tail not yet rung. */
  datatype Stage = Idle | Found | Cleared | Ringing(slot: nat)

  /** `received` and `delivered` record every packet the card stored and every one handed out. */
  datatype State = State(
    rdh: nat, rdt: nat, rxIndex: nat, done: seq<bool>, buffers: seq<Text>, stage: Stage,
    received: seq<Text>, delivered: seq<Text>)

  predicate Shape(s: State) {
    s.rdh < RING && s.rdt < RING && s.rxIndex < RING && |s.done| == RING && |s.buffers| == RING
  }

  /** `init_rx_ring`: head 0, tail 31, no descriptor done. */
  function Start(buffers: seq<Text>): State
    requires |buffers| == RING
  {
    State(0, RING - 1, 0, seq(RING, _ => false), buffers, Idle, [], [])
  }

  /** The card stores a packet; it owns no slot while head and tail meet. */
  function Fill(s: State, packet: Text): State
    requires Shape(s)
  {
    if s.rdh == s.rdt then s
    else s.(buffers := s.buffers[s.rdh := packet], done := s.done[s.rdh := true],
            rdh := (s.rdh + 1) % RING, received := s.received + [packet])
  }

  /** One step of `poll_receive`. */
  function DriverStep(s: State): State
    requires Shape(s)
  {
    match s.stage
    case Idle => if s.done[s.rxIndex] then s.(stage := Found) else s
    case Found => s.(done := s.done[s.rxIndex := false], stage := Cleared)
    case Cleared =>
      s.(rxIndex := (s.rxIndex + 1) % RING, stage := Ringing(s.rxIndex),
         delivered := s.delivered + [s.buffers[s.rxIndex]])
    case Ringing(slot) => if slot < RING then s.(rdt := slot, stage := Idle) else s
  }

  datatype Label = Card(packet: Text) | Driver

  function Step(s: State, l: Label): State
    requires Shape(s)
  {
    match l
    case Card(packet) => Fill(s, packet)
    case Driver => DriverStep(s)
  }

  // ---------------------------------------------------------------- the invariant

  /** The slot of the k-th packet. */
  function Slot(k: nat): (i: nat)
    ensures i < RING
  {
    k % RING
  }

  lemma SlotsDiffer(a: nat, b: nat)
    requires a < b < a + RING
    ensures Slot(a) != Slot(b)
  {
  }

  /** Packets whose slot has been given back to the card. */
  function Returned(s: State): int {
    if s.stage.Ringing? then |s.delivered| - 1 else |s.delivered|
  }

  predicate Indices(s: State) {
    var f, p := |s.received|, |s.delivered|;
    && s.rdh == Slot(f) && s.rxIndex == Slot(p)
    && Returned(s) >= 0 && s.rdt == Slot(Returned(s) + RING - 1)
    && p <= f < Returned(s) + RING
    && (s.stage.Ringing? ==> s.stage.slot == Slot(Returned(s)))
    && (s.stage in {Found, Cleared} ==> p < f)
  }

  /** Exactly the slots filled and not yet taken carry the done bit. */
  predicate DoneBits(s: State)
    requires Shape(s)
  {
    var f, p := |s.received|, |s.delivered|;
    forall k :: p <= k < p + RING ==>
      (s.done[Slot(k)] <==> k < f && !(s.stage == Cleared && k == p))
  }

  /** Waiting packets, and the one handed out last, are still in their slots. */
  predicate Intact(s: State)
    requires Shape(s)
  {
    var f, p := |s.received|, |s.delivered|;
    forall k :: 0 <= k && p - 1 <= k < f ==> s.buffers[Slot(k)] == s.received[k]
  }

  predicate Inv(s: State) {
    Shape(s) && Indices(s) && DoneBits(s) && Intact(s) && s.delivered <= s.received
  }

  lemma StartInv(buffers: seq<Text>)
    requires |buffers| == RING
    ensures Inv(Start(buffers))
  {
  }

  /** The card may store a packet exactly while fewer than 31 slots are out of its hands. */
  lemma CardRoom(s: State)
    requires Inv(s)
    ensures s.rdh != s.rdt <==> |s.received| < Returned(s) + 31
  {
  }

  lemma NextSlot(k: nat)
    ensures Slot(k + 1) == (Slot(k) + 1) % RING
    ensures Slot(k + RING) == Slot(k)
  {
    Arith.NextMod(k, RING);
    Arith.AddDivisor(k, RING);
  }

  lemma SlotBefore(k: nat)
    ensures Slot(k + RING - 1) == (Slot(k) + RING - 1) % RING
  {
    NextSlot(k + RING - 1);
    AddRing(k);
  }

  lemma AddRing(k: nat)
    ensures Slot(k + RING) == Slot(k)
  {
    Arith.AddDivisor(k, RING);
  }

  lemma FillDone(s: State, packet: Text)
    requires Inv(s) && s.rdh != s.rdt
    ensures DoneBits(Fill(s, packet))
  {
    CardRoom(s);
    var f, p := |s.received|, |s.delivered|;
    var done' := Fill(s, packet).done;
    forall k | p <= k < p + RING
      ensures done'[Slot(k)] <==> k < f + 1 && !(s.stage == Cleared && k == p)
    {
      if k < f {
        SlotsDiffer(k, f);
      } else if k > f {
        SlotsDiffer(f, k);
      }
    }
  }

  lemma FillIntact(s: State, packet: Text)
    requires Inv(s) && s.rdh != s.rdt
    ensures Intact(Fill(s, packet))
  {
    CardRoom(s);
    var f, p := |s.received|, |s.delivered|;
    var s' := Fill(s, packet);
    forall k | 0 <= k && p - 1 <= k < f + 1
      ensures s'.buffers[Slot(k)] == s'.received[k]
    {
      if k < f {
        SlotsDiffer(k, f);
      }
    }
  }

  lemma FillInv(s: State, packet: Text)
    requires Inv(s)
    ensures Inv(Fill(s, packet))
  {
    if s.rdh != s.rdt {
      CardRoom(s);
      FillDone(s, packet);
      FillIntact(s, packet);
      NextSlot(|s.received|);
    }
  }

  lemma ClearInv(s: State)
    requires Inv(s) && s.stage == Found
    ensures Inv(DriverStep(s))
  {
    var p := |s.delivered|;
    forall k | p < k < p + RING
      ensures Slot(k) != s.rxIndex
    {
      SlotsDiffer(p, k);
    }
  }

  lemma AdvanceInv(s: State)
    requires Inv(s) && s.stage == Cleared
    ensures Inv(DriverStep(s))
  {
    var p := |s.delivered|;
    var s' := DriverStep(s);
    NextSlot(p);
    assert s.buffers[Slot(p)] == s.received[p];
    assert !s.done[Slot(p)];
    assert DoneBits(s') by {
      forall k | p + 1 <= k < p + 1 + RING
        ensures s'.done[Slot(k)] <==> k < |s.received|
      {
        assert k < p + RING ==> (s.done[Slot(k)] <==> k < |s.received|);
      }
    }
  }

  lemma RingInv(s: State)
    requires Inv(s) && s.stage.Ringing?
    ensures Inv(DriverStep(s))
  {
    NextSlot(Returned(s));
  }

  lemma DriverInv(s: State)
    requires Inv(s)
    ensures Inv(DriverStep(s))
  {
    match s.stage
    case Idle => assert s.done[Slot(|s.delivered|)] ==> |s.delivered| < |s.received|;
    case Found => ClearInv(s);
    case Cleared => AdvanceInv(s);
    case Ringing(_) => RingInv(s);
  }

  // ---------------------------------------------------------------- whole runs

  function Run(s: State, ls: seq<Label>): (r: State)
    requires Shape(s)
    ensures Shape(r)
  {
    if ls == [] then s else Step(Run(s, ls[..|ls| - 1]), ls[|ls| - 1])
  }

  lemma {:induction false} RunInv(s: State, ls: seq<Label>)
    requires Inv(s)
    ensures Inv(Run(s, ls))
  {
    if ls == [] {
    } else {
      RunInv(s, ls[..|ls| - 1]);
      var r := Run(s, ls[..|ls| - 1]);
      match ls[|ls| - 1]
      case Card(packet) => FillInv(r, packet);
      case Driver => DriverInv(r);
    }
  }

  /**
    In every interleaving: packets are handed out exactly once and in order, between polls the tail is
    one behind rx_index, and the slice handed out last still holds its packet.
   */
  lemma ReceiveInOrder(buffers: seq<Text>, ls: seq<Label>)
    requires |buffers| == RING
    ensures InOrder(Run(Start(buffers), ls))
  {
    StartInv(buffers);
    RunInv(Start(buffers), ls);
    InvInOrder(Run(Start(buffers), ls));
  }

  predicate InOrder(r: State) {
    && Shape(r)
    && r.delivered <= r.received
    && (r.stage == Idle ==> r.rdt == (r.rxIndex + 31) % 32)
    && (r.delivered != [] ==>
          r.buffers[(|r.delivered| - 1) % 32] == r.delivered[|r.delivered| - 1])
  }

  lemma InvInOrder(r: State)
    requires Inv(r)
    ensures InOrder(r)
  {
    var p := |r.delivered|;
    SlotBefore(p);
    if p > 0 {
      assert r.buffers[Slot(p - 1)] == r.received[p - 1];
    }
  }

  /** A whole poll with no card step in between. */
  function Poll(s: State): State
    requires Shape(s)
  {
    if s.done[s.rxIndex] then
      s.(done := s.done[s.rxIndex := false], rxIndex := (s.rxIndex + 1) % RING, rdt := s.rxIndex,
         delivered := s.delivered + [s.buffers[s.rxIndex]])
    else s
  }

  lemma FourSteps(s: State)
    requires Shape(s) && s.stage == Idle
    ensures Poll(s) == DriverStep(DriverStep(DriverStep(DriverStep(s))))
  {
  }

  lemma PollIsFourSteps(s: State)
    requires Inv(s) && s.stage == Idle
    ensures Poll(s) == DriverStep(DriverStep(DriverStep(DriverStep(s))))
    ensures Inv(Poll(s))
  {
    var s1 := DriverStep(s);
    var s2 := DriverStep(s1);
    var s3 := DriverStep(s2);
    FourSteps(s);
    assert Inv(DriverStep(s3)) by {
      DriverInv(s);
      DriverInv(s1);
      DriverInv(s2);
      DriverInv(s3);
    }
  }

  /** A waiting packet is handed out by the next poll. */
  lemma PollDelivers(s: State)
    requires Inv(s) && s.stage == Idle
    ensures s.done[s.rxIndex] <==> |s.delivered| < |s.received|
    ensures |s.delivered| < |s.received| ==> Poll(s).delivered == s.received[..|s.delivered| + 1]
    ensures |s.delivered| == |s.received| ==> Poll(s) == s
  {
    var p := |s.delivered|;
    assert s.done[Slot(p)] <==> p < |s.received|;
    if p < |s.received| {
      assert s.buffers[Slot(p)] == s.received[p];
    }
  }

  // ---------------------------------------------------------------- the driver

  class E1000Driver {
    var rdh: nat
    var rdt: nat
    var rxIndex: nat
    const done: array<bool>
    const buffers: array<Text>
    ghost var received: seq<Text>
    ghost var delivered: seq<Text>

    ghost function View(): State
      reads this, done, buffers
    {
      State(rdh, rdt, rxIndex, done[..], buffers[..], Idle, received, delivered)
    }

    ghost predicate Valid()
      reads this, done, buffers
    {
      done.Length == RING && buffers.Length == RING && Inv(View())
    }

    constructor ()
      ensures Valid() && received == [] && delivered == [] && fresh(done) && fresh(buffers)
      ensures rdh == 0 && rdt == 31 && rxIndex == 0 && forall i :: 0 <= i < 32 ==> !done[i]
    {
      rdh, rdt, rxIndex := 0, RING - 1, 0;
      done := new bool[RING](_ => false);
      buffers := new Text[RING](_ => []);
      received, delivered := [], [];
      new;
      StartInv(buffers[..]);
      assert View() == Start(buffers[..]);
    }

    /** The card's side of the ring, for use between polls. */
    method CardStores(packet: Text) returns (stored: bool)
      requires Valid()
      modifies this, done, buffers
      ensures Valid() && View() == Fill(old(View()), packet)
      ensures stored <==> |old(received)| < |old(delivered)| + 31
    {
      CardRoom(View());
      FillInv(View(), packet);
      stored := rdh != rdt;
      if stored {
        buffers[rdh] := packet;
        done[rdh] := true;
        rdh := (rdh + 1) % RING;
        received := received + [packet];
      }
    }

    /** `poll_receive`: the oldest packet not yet handed out, if there is one. */
    method PollReceive() returns (packet: Option<Text>)
      requires Valid()
      modifies this, done
      ensures Valid() && received == old(received)
      ensures packet == if |old(delivered)| < |received| then Some(received[|old(delivered)|]) else None
      ensures delivered == if packet.Some? then old(delivered) + [packet.value] else old(delivered)
    {
      PollDelivers(View());
      PollIsFourSteps(View());
      if !done[rxIndex] {
        return None;
      }
      var data := buffers[rxIndex];
      done[rxIndex] := false;
      var oldIndex := rxIndex;
      rxIndex := (rxIndex + 1) % RING;
      rdt := oldIndex;
      delivered := delivered + [data];
      assert View() == Poll(old(View()));
      return Some(data);
    }
  }
}
