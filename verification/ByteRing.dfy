/**
  The zero-allocation byte ring shared by kernel/src/task/keyboard.rs, serial_stream.rs and
  mouse_stream.rs: the interrupt side fills it, the polling side drains it. The
  capacity is that of the buffer: 256 for the keyboard and 65536 for the two streams.
 */
module ByteRing {
  import opened Bytes
  import opened Arith

  datatype Ring = Ring(buffer: Text, head: nat, tail: nat)

  predicate RingOk(r: Ring) {
    r.head < |r.buffer| && r.tail < |r.buffer|
  }

  function Next(i: nat, size: nat): (n: nat)
    requires i < size
    ensures n == if i + 1 == size then 0 else i + 1
  {
    assert (i + 1) % size == if i + 1 == size then 0 else i + 1 by {
      if i + 1 == size {
        DivModUnique(size, size, 1, 0);
      } else {
        DivModUnique(i + 1, size, 0, i + 1);
      }
    }
    (i + 1) % size
  }

  /** The bytes waiting in the ring, oldest first. */
  function Contents(r: Ring): Text
    requires RingOk(r)
  {
    if r.tail <= r.head then r.buffer[r.tail..r.head]
    else r.buffer[r.tail..] + r.buffer[..r.head]
  }

  predicate HasData(r: Ring) {
    r.head != r.tail
  }

  predicate Full(r: Ring)
    requires RingOk(r)
  {
    Next(r.head, |r.buffer|) == r.tail
  }

  /** The interrupt side: a full ring drops the byte. */
  function Add(r: Ring, b: byte): Ring
    requires RingOk(r)
  {
    if Full(r) then r else r.(buffer := r.buffer[r.head := b], head := Next(r.head, |r.buffer|))
  }

  function Advance(r: Ring): Ring
    requires RingOk(r)
  {
    r.(tail := Next(r.tail, |r.buffer|))
  }

  /** One slot stays free: the ring is full with one byte less than its size. */
  lemma FullIff(r: Ring)
    requires RingOk(r)
    ensures Full(r) <==> |Contents(r)| == |r.buffer| - 1
    ensures HasData(r) <==> Contents(r) != []
  {
  }

  lemma AddAppends(r: Ring, b: byte)
    requires RingOk(r)
    ensures RingOk(Add(r, b)) && |Add(r, b).buffer| == |r.buffer|
    ensures Contents(Add(r, b)) == if Full(r) then Contents(r) else Contents(r) + [b]
  {
    if !Full(r) {
      var a := Add(r, b);
      if r.head + 1 < |r.buffer| {
        assert a.buffer[..a.head] == r.buffer[..r.head] + [b];
      } else {
        assert a.buffer[r.tail..] == r.buffer[r.tail..r.head] + [b];
      }
    }
  }

  /** Adding never touches the slot the polling side is about to read. */
  lemma AddKeepsFront(r: Ring, b: byte)
    requires RingOk(r) && HasData(r)
    ensures Add(r, b).tail == r.tail && Add(r, b).buffer[r.tail] == r.buffer[r.tail]
    ensures HasData(Add(r, b))
  {
  }

  lemma DropFirst(s: Text, lo: nat, hi: nat)
    requires lo < hi <= |s|
    ensures s[lo..hi] == [s[lo]] + s[lo + 1..hi]
  {
  }

  /** The first byte of a content that wraps around the end of the buffer. */
  lemma DropWrapped(s: Text, tail: nat, head: nat)
    requires head <= tail < |s|
    ensures s[tail..] + s[..head] == [s[tail]] + (s[tail + 1..] + s[..head])
    ensures tail + 1 == |s| ==> s[tail + 1..] + s[..head] == s[..head]
  {
    assert s[tail..] == [s[tail]] + s[tail + 1..];
    Assoc([s[tail]], s[tail + 1..], s[..head]);
  }

  lemma AdvanceDropsFront(r: Ring)
    requires RingOk(r) && HasData(r)
    ensures RingOk(Advance(r))
    ensures Contents(r) == [r.buffer[r.tail]] + Contents(Advance(r))
  {
    if r.tail < r.head {
      DropFirst(r.buffer, r.tail, r.head);
    } else {
      DropWrapped(r.buffer, r.tail, r.head);
      assert r.tail + 1 == |r.buffer| ==> r.buffer[0..r.head] == r.buffer[..r.head];
    }
  }

  /** The static BUFFER, HEAD and TAIL of one stream. */
  class StreamBuffer {
    const buffer: array<byte>
    var head: nat
    var tail: nat

    ghost predicate Valid()
      reads this
    {
      head < buffer.Length && tail < buffer.Length
    }

    ghost function View(): Ring
      reads this, buffer
    {
      Ring(buffer[..], head, tail)
    }

    constructor (size: nat)
      requires size > 0
      ensures Valid() && fresh(buffer) && buffer.Length == size
      ensures Contents(View()) == []
    {
      buffer := new byte[size](_ => 0);
      head, tail := 0, 0;
    }

    /** `add_scancode` / `add_byte`, up to the wake-up that follows a stored byte. */
    method AddByte(b: byte) returns (stored: bool)
      requires Valid()
      modifies this, buffer
      ensures Valid()
      ensures View() == Add(old(View()), b)
      ensures stored <==> !old(Full(View()))
    {
      var nextHead := (head + 1) % buffer.Length;
      if nextHead != tail {
        buffer[head] := b;
        head := nextHead;
        stored := true;
      } else {
        stored := false;
      }
    }

    /** `has_data`, and the check made at both ends of a poll. */
    method Check() returns (some: bool)
      requires Valid()
      ensures some == HasData(View())
      ensures some <==> Contents(View()) != []
    {
      some := head != tail;
    }

    /** The two statements that hand out the oldest byte. */
    method Take() returns (b: byte)
      requires Valid() && HasData(View())
      modifies this
      ensures Valid()
      ensures View() == Advance(old(View()))
      ensures old(Contents(View())) == [b] + Contents(View())
    {
      AdvanceDropsFront(View());
      b := buffer[tail];
      tail := (tail + 1) % buffer.Length;
    }
  }
}
