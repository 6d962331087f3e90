/**
  The VirtIO queue of kernel/src/virtqueue.rs and the way kernel/src/virtio_gpu.rs pops, publishes and
  reclaims descriptors (section 2.4 of VIRTIO 1.0 describes the split virtqueue).
 */
module VirtQueue {
  import Arith

  const QUEUE_SIZE: nat := 64
  const U16_LIMIT: nat := 0x10000

  const F_NEXT: nat := 1
  const F_WRITE: nat := 2

  datatype Desc = Desc(addr: nat, len: nat, flags: nat, next: nat)

  /** A piece of memory the driver hands over. */
  datatype Area = Area(addr: nat, len: nat)

  /** A buffer as the device sees it: bit 1 of the flags lets it write there. */
  datatype Buffer = Buffer(addr: nat, len: nat, writable: bool)

  function Seen(d: Desc): Buffer { Buffer(d.addr, d.len, d.flags / 2 % 2 == 1) }

  /** What the device is to see of a command: one buffer to read, one to answer into. */
  function Exchange(command: Area, reply: Area): seq<Buffer> {
    [Buffer(command.addr, command.len, false), Buffer(reply.addr, reply.len, true)]
  }

  /** The chain the device reads from `head`: it follows `next` only where bit 0 of the flags is set. */
  function Walk(ds: seq<Desc>, head: nat, limit: nat): seq<Buffer>
    decreases limit
  {
    if head >= |ds| || limit == 0 then []
    else if ds[head].flags % 2 == 1 then [Seen(ds[head])] + Walk(ds, ds[head].next, limit - 1)
    else [Seen(ds[head])]
  }

  lemma WalkPair(ds: seq<Desc>, head: nat, tail: nat, command: Area, reply: Area, limit: nat)
    requires Loaded(ds, head, tail, command, reply) && limit >= 2
    ensures Walk(ds, head, limit) == Exchange(command, reply)
  {
    assert Walk(ds, tail, limit - 1) == [Seen(ds[tail])];
  }

  /** The descriptors `head` and `tail` carry a command and its reply envelope. */
  predicate Loaded(ds: seq<Desc>, head: nat, tail: nat, command: Area, reply: Area) {
    && head < |ds| && tail < |ds|
    && ds[head] == Desc(command.addr, command.len, F_NEXT, tail)
    && ds[tail] == Desc(reply.addr, reply.len, F_WRITE, ds[tail].next)
  }

  // ---------------------------------------------------------------- the free list

  predicate Distinct(free: seq<nat>) {
    forall i, j :: 0 <= i < j < |free| ==> free[i] != free[j]
  }

  /** Following `next` from `head` visits the descriptors of `free`, all different. */
  predicate FreeList(ds: seq<Desc>, head: nat, free: seq<nat>) {
    && Distinct(free)
    && (forall i :: 0 <= i < |free| ==> free[i] < |ds|)
    && (free != [] ==> head == free[0])
    && (forall i :: 0 <= i < |free| - 1 ==> ds[free[i]].next == free[i + 1])
  }

  /** What a command does to the free list; `kept` says its descriptors were reclaimed. */
  datatype Command = Pair(kept: bool) | Flush

  function FreeAfter(free: seq<nat>, c: Command): seq<nat> {
    match c
    case Pair(kept) => if kept || |free| < 2 then free else free[2..]
    case Flush => if |free| < 4 then free else [free[2], free[3], free[0], free[1]] + free[4..]
  }

  function FreeAfterAll(free: seq<nat>, cs: seq<Command>): seq<nat> {
    if cs == [] then free else FreeAfter(FreeAfterAll(free, cs[..|cs| - 1]), cs[|cs| - 1])
  }

  function Leaks(cs: seq<Command>): nat {
    if cs == [] then 0 else Leaks(cs[..|cs| - 1]) + (if cs[|cs| - 1] == Pair(false) then 1 else 0)
  }

  /** A flush only reorders the free list. */
  lemma FlushReorders(free: seq<nat>)
    ensures multiset(FreeAfter(free, Flush)) == multiset(free)
  {
    if |free| >= 4 {
      var a, b, rest := free[..2], free[2..4], free[4..];
      assert free == a + b + rest;
      assert FreeAfter(free, Flush) == b + a + rest;
    }
  }

  /** Each failed command costs two descriptors; nothing else changes how many are free. */
  lemma {:induction false} FreeCount(free: seq<nat>, cs: seq<Command>)
    requires |free| >= 2 * Leaks(cs)
    ensures |FreeAfterAll(free, cs)| == |free| - 2 * Leaks(cs)
    ensures Leaks(cs) == 0 ==> multiset(FreeAfterAll(free, cs)) == multiset(free)
  {
    if cs == [] {
    } else {
      FreeCount(free, cs[..|cs| - 1]);
      FlushReorders(FreeAfterAll(free, cs[..|cs| - 1]));
    }
  }

  // ---------------------------------------------------------------- the available ring

  lemma ModOfMod(k: nat)
    ensures (k % U16_LIMIT) % QUEUE_SIZE == k % QUEUE_SIZE
  {
    var q, r := k / U16_LIMIT, k % U16_LIMIT;
    assert k == q * U16_LIMIT + r;
    Arith.DivModUnique(k, QUEUE_SIZE, q * 1024 + r / QUEUE_SIZE, r % QUEUE_SIZE);
  }

  /** The running 16-bit index still selects slot k mod 64, because 64 divides 65536. */
  lemma SlotSurvivesWrap(k: nat)
    ensures (k % 65536) % 64 == k % 64
    ensures (k % 65536 + 1) % 65536 == (k + 1) % 65536
  {
    ModOfMod(k);
    Arith.NextMod(k, U16_LIMIT);
    Arith.NextMod(k % U16_LIMIT, U16_LIMIT);
  }

  function Slot(k: nat): (s: nat)
    ensures s < QUEUE_SIZE
  {
    k % QUEUE_SIZE
  }

  /** The last 64 published heads are in their slots. */
  predicate RingHolds(ring: seq<nat>, published: seq<nat>)
    requires |ring| == QUEUE_SIZE
  {
    forall k :: 0 <= k < |published| <= k + QUEUE_SIZE ==> ring[Slot(k)] == published[k]
  }

  lemma PublishHolds(ring: seq<nat>, published: seq<nat>, head: nat)
    requires |ring| == QUEUE_SIZE && RingHolds(ring, published)
    ensures RingHolds(ring[Slot(|published|) := head], published + [head])
  {
    var n := |published|;
    var ring' := ring[Slot(n) := head];
    forall k | 0 <= k < n + 1 <= k + QUEUE_SIZE
      ensures ring'[Slot(k)] == (published + [head])[k]
    {
      if k < n {
        assert Slot(k) != Slot(n);
      }
    }
  }

  // ---------------------------------------------------------------- the queue

  datatype Outcome = Done(ok: bool) | Underflow

  class VirtQueue {
    const descriptors: array<Desc>
    const ring: array<nat>
    var availIdx: nat
    var freeHead: nat
    var numFree: nat
    ghost var free: seq<nat>
    ghost var published: seq<nat>

    ghost predicate Valid()
      reads this, descriptors, ring
    {
      && descriptors.Length == QUEUE_SIZE && ring.Length == QUEUE_SIZE && descriptors as object != ring
      && numFree == |free| && FreeList(descriptors[..], freeHead, free)
      && availIdx == |published| % U16_LIMIT && RingHolds(ring[..], published)
    }

    /** `new`: all 64 descriptors chained in order. */
    constructor ()
      ensures Valid() && fresh(descriptors) && fresh(ring)
      ensures free == seq(64, i => i) && published == []
    {
      descriptors := new Desc[QUEUE_SIZE](_ => Desc(0, 0, 0, 0));
      ring := new nat[QUEUE_SIZE](_ => 0);
      availIdx, freeHead, numFree := 0, 0, QUEUE_SIZE;
      free, published := seq(QUEUE_SIZE, i => i), [];
      new;
      for i := 0 to QUEUE_SIZE - 1
        modifies descriptors
        invariant forall j :: 0 <= j < i ==> descriptors[j].next == j + 1
      {
        descriptors[i] := descriptors[i].(next := i + 1);
      }
    }

    /** Puts a chain head in the next available slot and moves the 16-bit index on. */
    method Publish(head: nat)
      requires Valid() && head < QUEUE_SIZE
      modifies ring, this`availIdx, this`published
      ensures Valid() && published == old(published) + [head]
      ensures ring[|old(published)| % 64] == head && availIdx == |published| % 65536
      ensures forall k :: 0 <= k < |published| <= k + 64 ==> ring[Slot(k)] == published[k]
    {
      SlotSurvivesWrap(|published|);
      PublishHolds(ring[..], published, head);
      ring[availIdx % QUEUE_SIZE] := head;
      assert ring[..] == old(ring[..])[Slot(|published|) := head];
      availIdx := (availIdx + 1) % U16_LIMIT;
      published := published + [head];
    }

    /** Takes two descriptors off the free list and writes a command and its reply envelope. */
    method PopPair(command: Area, reply: Area) returns (head: nat, next: nat)
      requires Valid() && numFree >= 2
      modifies descriptors, this`freeHead, this`numFree, this`free
      ensures Valid()
      ensures head == old(free)[0] && next == old(free)[1] && free == old(free)[2..]
      ensures Loaded(descriptors[..], head, next, command, reply)
      ensures forall i :: 0 <= i < QUEUE_SIZE && i != head && i != next ==> descriptors[i] == old(descriptors[i])
    {
      head := freeHead;
      next := descriptors[head].next;
      assert head == free[0] && next == free[1];
      freeHead := descriptors[next].next;
      numFree := numFree - 2;
      descriptors[head] := Desc(command.addr, command.len, F_NEXT, next);
      descriptors[next] := Desc(reply.addr, reply.len, F_WRITE, descriptors[next].next);
      free := free[2..];
    }

    /** Puts a finished pair back in front of the free list; the device's view of it does not change. */
    method ReclaimPair(head: nat, next: nat)
      requires Valid() && head < QUEUE_SIZE && next < QUEUE_SIZE && head != next
      requires head !in free && next !in free
      requires descriptors[head].next == next
      modifies descriptors, this`freeHead, this`numFree, this`free
      ensures Valid() && free == [head, next] + old(free)
      ensures forall i :: 0 <= i < QUEUE_SIZE && i != next ==> descriptors[i] == old(descriptors[i])
      ensures descriptors[next] == old(descriptors[next]).(next := descriptors[next].next)
    {
      descriptors[next] := descriptors[next].(next := freeHead);
      freeHead := head;
      numFree := numFree + 2;
      free := [head, next] + free;
    }

    /**
      `get_display_info` (which always reclaims) and the three setup commands (which reclaim only on
      success). Underflow is the panic of `num_free -= 2` on an exhausted queue.
     */
    method SendCommand(command: Area, reply: Area, alwaysReclaim: bool) returns (r: Outcome)
      requires Valid()
      modifies this, descriptors, ring
      ensures Valid()
      ensures r.Underflow? <==> |old(free)| < 2
      ensures r.Underflow? ==> free == old(free) && published == old(published)
      ensures r.Done? ==>
                && free == FreeAfter(old(free), Pair(alwaysReclaim || r.ok))
                && published == old(published) + [old(free)[0]]
                && Walk(descriptors[..], old(free)[0], 64) == Exchange(command, reply)
    {
      if numFree < 2 {
        return Underflow;
      }
      var head, next := PopPair(command, reply);
      Publish(head);
      var ok: bool := *;                 // the device's answer, once the used index has moved
      if alwaysReclaim || ok {
        ReclaimPair(head, next);
        assert free == old(free);
      }
      WalkPair(descriptors[..], head, next, command, reply, QUEUE_SIZE);
      return Done(ok);
    }

    /** `flush_to_screen`: two commands published at once, all four descriptors reclaimed at once. */
    method FlushToScreen(command1: Area, reply1: Area, command2: Area, reply2: Area) returns (sent: bool)
      requires Valid()
      modifies this, descriptors, ring
      ensures Valid() && free == FreeAfter(old(free), Flush)
      ensures sent <==> |old(free)| >= 4
      ensures !sent ==> published == old(published)
      ensures sent ==>
                && published == old(published) + [old(free)[0], old(free)[2]]
                && Walk(descriptors[..], old(free)[0], 64) == Exchange(command1, reply1)
                && Walk(descriptors[..], old(free)[2], 64) == Exchange(command2, reply2)
    {
      if numFree < 4 {
        return false;
      }
      var head, idx2 := PopPair(command1, reply1);
      var idx3, tail := PopPair(command2, reply2);
      assert old(free) == [head, idx2, idx3, tail] + free;
      Publish(head);
      Publish(idx3);
      assert Loaded(descriptors[..], head, idx2, command1, reply1);
      BlindReclaim(head, idx2, idx3, tail);
      WalkPair(descriptors[..], head, idx2, command1, reply1, QUEUE_SIZE);
      WalkPair(descriptors[..], idx3, tail, command2, reply2, QUEUE_SIZE);
      return true;
    }

    /** The reclaim at the end of a flush, while the device may still be reading both chains. */
    method BlindReclaim(head: nat, idx2: nat, idx3: nat, tail: nat)
      requires Valid() && Distinct([head, idx2, idx3, tail] + free)
      requires head < QUEUE_SIZE && idx2 < QUEUE_SIZE && idx3 < QUEUE_SIZE && tail < QUEUE_SIZE
      requires descriptors[head].next == idx2 && descriptors[idx3].next == tail
      modifies descriptors, this`freeHead, this`numFree, this`free
      ensures Valid() && free == [idx3, tail, head, idx2] + old(free)
      ensures forall i :: 0 <= i < QUEUE_SIZE ==>
                descriptors[i] == old(descriptors[i]).(next := descriptors[i].next)
      ensures descriptors[head].next == idx2 && descriptors[idx3].next == tail
    {
      ghost var all := [head, idx2, idx3, tail] + free;
      assert forall i :: 0 <= i < |free| ==> all[i + 4] == free[i];
      assert all[0] == head && all[1] == idx2 && all[2] == idx3 && all[3] == tail;
      ReclaimPair(head, idx2);
      ReclaimPair(idx3, tail);
    }
  }
}
