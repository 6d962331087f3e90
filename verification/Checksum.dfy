/** The Internet checksum of kernel/src/e1000.rs (section 1 of RFC 1071). */
module Checksum {
  import opened Bytes
  import Arith

  const U32_LIMIT: nat := 0x1_0000_0000
  const ONES: nat := 0xFFFF

  /** The big-endian 16-bit word at `i`; a missing last byte counts as zero. */
  function WordAt(data: Text, i: nat): nat
    requires i < |data|
  {
    (data[i] as int) * 256 + (if i + 1 < |data| then data[i + 1] else 0)
  }

  /** The sum of the words from `i` on. */
  function SumFrom(data: Text, i: nat): nat
    decreases |data| - i
  {
    if i >= |data| then 0 else WordAt(data, i) + SumFrom(data, i + 2)
  }

  function SumWords(data: Text): nat {
    SumFrom(data, 0)
  }

  /** End-around carry until 16 bits are left. */
  function Fold(n: nat): nat {
    if n < 0x10000 then n else Fold(n % 0x10000 + n / 0x10000)
  }

  function Checksum(data: Text): nat {
    ONES - Residue(SumWords(data))
  }

  /** The one's-complement value of `n`: its residue modulo 65535, with 65535 for non-zero multiples. */
  function Residue(n: nat): (r: nat)
    ensures r <= ONES
  {
    if n == 0 then 0 else 1 + (n - 1) % ONES
  }

  /** Folding terminates at the residue modulo 65535. */
  lemma {:induction false} FoldIsResidue(n: nat)
    ensures Fold(n) == Residue(n)
  {
    if n >= 0x10000 {
      var m := n % 0x10000 + n / 0x10000;
      FoldIsResidue(m);
      assert n - 1 == m - 1 + n / 0x10000 * ONES;
      Arith.AddMultiple(m - 1, ONES, n / 0x10000);
    }
  }

  /** `calculate_checksum`, with None for an overflow of its u32 accumulator. */
  method CalculateChecksum(data: Text) returns (r: Option<nat>)
    ensures r == if SumWords(data) < U32_LIMIT then Some(Checksum(data)) else None
  {
    var sum, i := 0, 0;
    while i < |data|
      invariant 0 <= i && 0 <= sum < U32_LIMIT
      invariant sum + SumFrom(data, i) == SumWords(data)
    {
      var word0: int := data[i];
      var word1: int := if i + 1 < |data| then data[i + 1] else 0;
      sum := sum + (word0 * 256 + word1);
      if sum >= U32_LIMIT {
        return None;
      }
      i := i + 2;
    }
    FoldIsResidue(sum);
    while sum / 0x10000 != 0
      invariant sum >= 0 && Fold(sum) == Residue(SumWords(data))
      decreases sum
    {
      sum := sum % 0x10000 + sum / 0x10000;
    }
    return Some(ONES - sum);
  }

  // ---------------------------------------------------------------- room in the accumulator

  lemma {:induction false} SumBound(data: Text, i: nat)
    requires i <= |data| + 1
    ensures SumFrom(data, i) <= ONES * ((|data| + 1 - i) / 2)
    decreases |data| - i
  {
    if i < |data| {
      SumBound(data, i + 2);
    }
  }

  function AllOnes(n: nat): Text {
    seq(n, _ => 255)
  }

  lemma {:induction false} SumOfOnes(n: nat, i: nat)
    requires i <= n
    ensures SumFrom(AllOnes(n), i) >= ONES * ((n - i) / 2) + (if (n - i) % 2 == 1 then 255 * 256 else 0)
    decreases n - i
  {
    if i + 1 < n {
      SumOfOnes(n, i + 2);
    }
  }

  /** The u32 accumulator is large enough for every input of a length exactly up to 131,074 bytes. */
  lemma AccumulatorRoom(n: nat)
    ensures (forall data: Text :: |data| == n ==> SumWords(data) < U32_LIMIT) <==> n <= 131_074
  {
    if n <= 131_074 {
      forall data: Text | |data| == n
        ensures SumWords(data) < U32_LIMIT
      {
        SumBound(data, 0);
      }
    } else {
      SumOfOnes(n, 0);
      assert |AllOnes(n)| == n && SumWords(AllOnes(n)) >= U32_LIMIT;
    }
  }

  // ---------------------------------------------------------------- bytes and words

  /** The example of section 3 of RFC 1071: 00 01 f2 03 f4 f5 f6 f7 sums to ddf2. */
  lemma RfcExample()
    ensures Checksum([0x00, 0x01, 0xF2, 0x03, 0xF4, 0xF5, 0xF6, 0xF7]) == 0xFFFF - 0xDDF2
  {
    var d: Text := [0x00, 0x01, 0xF2, 0x03, 0xF4, 0xF5, 0xF6, 0xF7];
    assert SumFrom(d, 6) == 0xF6F7 && SumFrom(d, 4) == 0xF4F5 + 0xF6F7;
    assert SumFrom(d, 2) == 0xF203 + 0xF4F5 + 0xF6F7;
  }

  /** One word: the high-order byte comes first. */
  lemma WordChecksum(a: byte, b: byte)
    ensures Checksum([a, b]) == 0xFFFF - (256 * (a as int) + (b as int))
  {
    assert SumFrom([a, b], 0) == WordAt([a, b], 0) + SumFrom([a, b], 2);
  }

  lemma {:induction false} SumConcat(data: Text, rest: Text, i: nat)
    requires |data| % 2 == 0 && i % 2 == 0 && i <= |data|
    ensures SumFrom(data + rest, i) == SumFrom(data, i) + SumFrom(rest, 0)
    decreases |data| - i
  {
    if i == |data| {
      SumShift(data, rest, 0);
    } else {
      SumConcat(data, rest, i + 2);
      assert WordAt(data + rest, i) == WordAt(data, i);
    }
  }

  lemma {:induction false} SumShift(data: Text, rest: Text, j: nat)
    ensures SumFrom(data + rest, |data| + j) == SumFrom(rest, j)
    decreases |rest| - j
  {
    if j < |rest| {
      SumShift(data, rest, j + 2);
      assert WordAt(data + rest, |data| + j) == WordAt(rest, j);
    }
  }

  /** Words add up, so the sum of even-length data and whatever follows is the sum of the two sums. */
  lemma SumOfParts(data: Text, rest: Text)
    requires |data| % 2 == 0
    ensures SumWords(data + rest) == SumWords(data) + SumWords(rest)
  {
    SumConcat(data, rest, 0);
  }

  /** A zero byte after odd-length data changes nothing. */
  lemma OddPadding(data: Text)
    requires |data| % 2 == 1
    ensures Checksum(data + [0]) == Checksum(data)
  {
    var init, b := data[..|data| - 1], data[|data| - 1];
    SumOfParts(init, [b]);
    SumOfParts(init, [b, 0]);
    assert data == init + [b] && data + [0] == init + [b, 0];
    assert SumFrom([b], 0) == WordAt([b], 0) + SumFrom([b], 2);
    assert SumFrom([b, 0], 0) == WordAt([b, 0], 0) + SumFrom([b, 0], 2);
  }

  // ---------------------------------------------------------------- filling in the field

  /** `data` with the 16-bit value `w` stored big-endian at `off`. */
  function PutWord(data: Text, off: nat, w: nat): (d: Text)
    requires off + 1 < |data| && w <= ONES
    ensures |d| == |data|
  {
    data[off := w / 256][off + 1 := w % 256]
  }

  lemma {:induction false} SumOfPut(data: Text, off: nat, w: nat, i: nat)
    requires off + 1 < |data| && off % 2 == 0 && i % 2 == 0 && w <= ONES
    ensures SumFrom(PutWord(data, off, w), i)
         == SumFrom(data, i) + (if i <= off then w - WordAt(data, off) else 0)
    decreases |data| - i
  {
    if i < |data| {
      SumOfPut(data, off, w, i + 2);
    }
  }

  /** Writing the checksum into its zeroed, even-offset field makes the recomputed checksum zero. */
  lemma FilledFieldVerifies(data: Text, off: nat)
    requires off + 1 < |data| && off % 2 == 0 && data[off] == 0 && data[off + 1] == 0
    ensures Checksum(PutWord(data, off, Checksum(data))) == 0
  {
    var s, c := SumWords(data), Checksum(data);
    SumOfPut(data, off, c, 0);
    assert SumWords(PutWord(data, off, c)) == s + c;
    if s != 0 {
      assert s - 1 == (s - 1) / ONES * ONES + (s - 1) % ONES;
      assert s + c - 1 == (s - 1) / ONES * ONES + (ONES - 1);
    }
  }

  /** A block verifies exactly when its words sum to a non-zero multiple of 65535. */
  lemma VerifiesIff(data: Text)
    ensures Checksum(data) == 0 <==> SumWords(data) > 0 && SumWords(data) % ONES == 0
  {
    var s := SumWords(data);
    if s > 0 {
      assert s - 1 == (s - 1) / ONES * ONES + (s - 1) % ONES;
    }
  }

  /**
    Changing one 16-bit word of a block that verifies is noticed, except when the change exchanges
    0x0000 and 0xFFFF and the block does not become all zero.
   */
  lemma OneWordChangeNoticed(data: Text, off: nat, w: nat)
    requires off + 1 < |data| && off % 2 == 0 && w <= ONES && w != WordAt(data, off)
    requires Checksum(data) == 0
    ensures Checksum(PutWord(data, off, w)) == 0
       <==> {w, WordAt(data, off)} == {0, ONES} && SumWords(PutWord(data, off, w)) > 0
  {
    var v := WordAt(data, off);
    SumOfPut(data, off, w, 0);
    VerifiesIff(data);
    VerifiesIff(PutWord(data, off, w));
    SumCovers(data, off, 0);
    SameResidue(SumWords(data), v, w);
  }

  lemma {:induction false} SumCovers(data: Text, off: nat, i: nat)
    requires off < |data| && off % 2 == 0 && i % 2 == 0 && i <= off
    ensures SumFrom(data, i) >= WordAt(data, off)
    decreases off - i
  {
    if i < off {
      SumCovers(data, off, i + 2);
    }
  }

  lemma SameResidue(s: nat, v: nat, w: nat)
    requires s % ONES == 0 && v <= ONES && w <= ONES && v != w && s >= v
    ensures (s + w - v) % ONES == 0 <==> {w, v} == {0, ONES}
  {
    assert {0, ONES} == {ONES, 0};
    if {w, v} == {0, ONES} {
      assert w in {0, ONES} && v in {0, ONES};
    }
  }
}
