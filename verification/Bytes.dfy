/** Bytes, byte strings and the result types shared by the storage stack. */
module Bytes {
  type byte = x: int | 0 <= x < 256

  type u32 = x: int | 0 <= x < 0x1_0000_0000

  /** A byte string; table text is ASCII. */
  type Text = seq<byte>

  datatype Option<+T> = None | Some(value: T)

  datatype Result<+T, +E> = Ok(value: T) | Err(error: E)

  const U64_LIMIT: nat := 0x1_0000_0000_0000_0000

  /** The position of the first `b` in `s`, or |s| when there is none. */
  function IndexOf(s: Text, b: byte): (k: nat)
    ensures k <= |s|
    ensures forall i :: 0 <= i < k ==> s[i] != b
    ensures k < |s| ==> s[k] == b
  {
    if s == [] || s[0] == b then 0
    else 1 + IndexOf(s[1..], b)
  }

  lemma Assoc<T>(a: seq<T>, b: seq<T>, c: seq<T>)
    ensures (a + b) + c == a + (b + c)
  {
  }

  function Zeros(n: nat): (z: Text)
    ensures |z| == n
    ensures forall i :: 0 <= i < n ==> z[i] == 0
  {
    seq(n, _ => 0)
  }

  /** The low-order bytes of `n` first. */
  function LittleEndian(n: nat, width: nat): (s: Text)
    ensures |s| == width
  {
    if width == 0 then [] else [n % 256] + LittleEndian(n / 256, width - 1)
  }

  function FromLittleEndian(s: Text): nat {
    if s == [] then 0 else s[0] + 256 * FromLittleEndian(s[1..])
  }

  function Pow256(width: nat): nat {
    if width == 0 then 1 else 256 * Pow256(width - 1)
  }

  /** Writing a number in `width` bytes and reading it back keeps it, if it fits. */
  lemma {:induction false} LittleEndianRoundTrip(n: nat, width: nat)
    requires n < Pow256(width)
    ensures FromLittleEndian(LittleEndian(n, width)) == n
  {
    if width == 0 {
    } else {
      LittleEndianRoundTrip(n / 256, width - 1);
      assert LittleEndian(n, width)[1..] == LittleEndian(n / 256, width - 1);
    }
  }

  /** Four bytes, the low-order one first. */
  lemma LittleEndianFour(s: Text)
    requires |s| == 4
    ensures FromLittleEndian(s) == (s[0] as int) + 256 * (s[1] as int) + 65536 * (s[2] as int) + 16777216 * (s[3] as int)
  {
    var s1, s2, s3 := s[1..], s[2..], s[3..];
    assert s1[1..] == s2 && s2[1..] == s3 && s3[1..] == [];
    assert FromLittleEndian(s3) == s[3];
    assert FromLittleEndian(s2) == (s[2] as int) + 256 * (s[3] as int);
  }
}
