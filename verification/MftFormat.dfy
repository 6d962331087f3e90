/**
  The file table as text, byte by byte (kernel/src/mfs.rs): the numerals, the lines, what ends the text
  and which names a lookup takes for the same.
 */
module MftFormat {
  import opened Bytes
  import opened Decimal
  import opened Disk
  import opened Mft
  import Arith

  // ---------------------------------------------------------------- numerals

  lemma {:induction false} Pow10Positive(k: nat)
    ensures Pow10(k) >= 1
  {
    if k == 0 {
    } else {
      Pow10Positive(k - 1);
    }
  }

  lemma DivTen(n: nat, p: nat)
    requires p >= 1
    ensures n / (10 * p) == (n / 10) / p
  {
    var q := (n / 10) / p;
    assert n / 10 == q * p + (n / 10) % p;
    assert q * (10 * p) == 10 * (q * p);
    assert n == q * (10 * p) + (10 * ((n / 10) % p) + n % 10);
    Arith.DivModUnique(n, 10 * p, q, 10 * ((n / 10) % p) + n % 10);
  }

  /** A printed number has no superfluous digit. */
  lemma {:induction false} DigitCount(n: nat)
    ensures n < Pow10(|Digits(n)|) && (n >= 10 ==> Pow10(|Digits(n)| - 1) <= n)
  {
    var m := |Digits(n)| - 1;
    assert Pow10(m + 1) == 10 * Pow10(m);
    if n < 10 {
      assert Pow10(0) == 1;
    } else {
      DigitCount(n / 10);
      assert |Digits(n / 10)| == m >= 1;
      assert Pow10(m) == 10 * Pow10(m - 1);
    }
  }

  /** Its k-th digit from the right is the k-th decimal one. */
  lemma {:induction false} DecimalDigits(n: nat, k: nat)
    requires k < |Digits(n)|
    ensures Pow10(k) >= 1 && Digits(n)[|Digits(n)| - 1 - k] == 48 + n / Pow10(k) % 10
    decreases n
  {
    Pow10Positive(k);
    if k == 0 {
    } else {
      DecimalDigits(n / 10, k - 1);
      DivTen(n, Pow10(k - 1));
      assert Digits(n)[|Digits(n)| - 1 - k] == Digits(n / 10)[|Digits(n / 10)| - 1 - (k - 1)];
    }
  }

  /** k zeros. */
  function ZeroDigits(k: nat): Text {
    seq(k, _ => 48)
  }

  lemma {:induction false} LeadingZeros(k: nat, s: Text)
    requires AllDigits(s)
    ensures AllDigits(ZeroDigits(k) + s) && Value(ZeroDigits(k) + s) == Value(s)
    decreases |s|, k
  {
    var t := ZeroDigits(k) + s;
    if s != [] {
      LeadingZeros(k, s[..|s| - 1]);
      assert t[..|t| - 1] == ZeroDigits(k) + s[..|s| - 1];
    } else if k > 0 {
      LeadingZeros(k - 1, []);
      assert t[..|t| - 1] == ZeroDigits(k - 1) + [];
    }
  }

  lemma ParseDigitString(d: Text)
    requires d != [] && AllDigits(d)
    ensures var r := if Value(d) < 0x1_0000_0000_0000_0000 then Some(Value(d)) else None;
            ParseU64(d) == r && ParseU64([43] + d) == r
  {
    assert IsDigit(d[0]);
    assert ([43] + d)[1..] == d;
  }

  /** A numeral may have leading zeros and one plus sign; it is read if its value is below 2^64. */
  lemma ParseNumeral(k: nat, n: nat)
    ensures var r := if n < 0x1_0000_0000_0000_0000 then Some(n) else None;
            ParseU64(ZeroDigits(k) + Digits(n)) == r && ParseU64([43] + (ZeroDigits(k) + Digits(n))) == r
  {
    LeadingZeros(k, Digits(n));
    ValueOfDigits(n);
    ParseDigitString(ZeroDigits(k) + Digits(n));
  }

  /** Nothing else is a numeral: no digit at all, or any byte but a digit after the sign. */
  lemma NoNumeral(s: Text)
    requires var d := if s != [] && s[0] == 43 then s[1..] else s;
             d == [] || exists i :: 0 <= i < |d| && !(48 <= d[i] <= 57)
    ensures ParseU64(s) == None
  {
  }

  // ---------------------------------------------------------------- lines and fields

  /** The block written for a one-entry table. */
  lemma OneEntryBlock(name: Text, start: nat, count: nat)
    requires |name| + |Digits(start)| + |Digits(count)| + 10 <= 4096
    ensures Encode([Entry(name, start, count)])
         == Pad([77, 70, 83, 95, 86, 49, 10] + name + [58] + Digits(start) + [58] + Digits(count) + [10])
  {
    var e := Entry(name, start, count);
    assert PrintEntries([e]) == PrintEntry(e) + PrintEntries([]);
    assert Print([e]) == [77, 70, 83, 95, 86, 49, 10] + name + [58] + Digits(start) + [58] + Digits(count) + [10];
  }

  /** Later entries follow line by line. */
  lemma MoreEntries(es: seq<Entry>, e: Entry)
    ensures Print(es + [e]) == Print(es) + (e.name + [58] + Digits(e.start) + [58] + Digits(e.count) + [10])
  {
    var line := e.name + [58] + Digits(e.start) + [58] + Digits(e.count) + [10];
    PrintLast(es, e);
    Assoc(PrintEntries(es), LineOf(e), [NEWLINE]);
    Assoc(HEADER + [NEWLINE], PrintEntries(es), line);
  }

  /** The text ends at the first NUL, whatever follows it, and a block with a byte above 127 is no text. */
  lemma TextEndsAtNul(text: Text, junk: Text)
    requires forall i :: 0 <= i < |text| ==> text[i] != 0
    ensures CleanText(text + [0] + junk)
         == if forall i :: 0 <= i < |text + [0] + junk| ==> (text + [0] + junk)[i] < 128 then text else []
  {
    var block := text + [0] + junk;
    assert block[|text|] == 0;
    assert forall i :: 0 <= i < |text| ==> block[i] == text[i];
    assert IndexOf(block, NUL) == |text|;
    assert block[..|text|] == text;
  }

  /** A line may end in a carriage return. */
  lemma CarriageReturnIgnored(e: Entry, rest: Text)
    requires CleanEntry(e)
    ensures ParseText(LineOf(e) + [13] + [10] + rest) == [e] + ParseText(rest)
  {
    var line := LineOf(e) + [13];
    LineOfBytes(e);
    assert LineBytes(line);
    FirstNewline(line, rest);
    var s := line + [10] + rest;
    assert s[..|line|] == line && s[|line| + 1..] == rest;
    assert StripReturn(line) == LineOf(e);
    assert Lines(s) == [LineOf(e)] + Lines(rest);
    ParseWholeLine(e);
    assert ([LineOf(e)] + Lines(rest))[1..] == Lines(rest);
  }

  /** Fields after the third are ignored. */
  lemma ExtraFieldsIgnored(e: Entry, junk: Text)
    requires CleanEntry(e)
    ensures ParseLine(LineOf(e) + [58] + junk) == Some(e)
  {
    var a, b, c := e.name, Digits(e.start), Digits(e.count);
    DigitsHaveNoColon(b);
    DigitsHaveNoColon(c);
    assert LineOf(e) + [58] + junk == a + [COLON] + (b + [COLON] + (c + [COLON] + junk));
    SplitAt(a, b + [COLON] + (c + [COLON] + junk), COLON);
    SplitAt(b, c + [COLON] + junk, COLON);
    SplitAt(c, junk, COLON);
    ParseDigits(e.start);
    ParseDigits(e.count);
  }

  /** A line with fewer than three fields is no entry. */
  lemma TwoFieldsAreNoEntry(a: Text, b: Text)
    requires COLON !in a && COLON !in b
    ensures ParseLine(a).None? && ParseLine(a + [58] + b).None?
  {
    SplitNone(a, COLON);
    SplitNone(b, COLON);
    SplitAt(a, b, COLON);
  }

  // ---------------------------------------------------------------- names

  predicate Blanks(s: Text) {
    forall i :: 0 <= i < |s| ==> s[i] in {9, 10, 11, 12, 13, 32}
  }

  /** Neither end is blank. */
  predicate Tight(s: Text) {
    s != [] ==> !Blanks(s[..1]) && !Blanks(s[|s| - 1..])
  }

  lemma {:induction false} TrimStartIs(p: Text, s: Text)
    requires Blanks(p) && (s != [] ==> !Blanks(s[..1]))
    ensures TrimStart(p + s) == s
  {
    if p == [] {
      assert p + s == s;
      assert s != [] ==> s[..1][0] == s[0];
    } else {
      var t, rest := p + s, p[1..];
      assert t[0] == p[0] && t[1..] == rest + s;
      TrimStartIs(rest, s);
      assert TrimStart(t) == TrimStart(rest + s);
    }
  }

  lemma {:induction false} TrimEndIs(s: Text, q: Text)
    requires Blanks(q) && (s != [] ==> !Blanks(s[|s| - 1..]))
    ensures TrimEnd(s + q) == s
    decreases |q|
  {
    if q == [] {
      assert s + q == s;
      assert s != [] ==> s[|s| - 1..][0] == s[|s| - 1];
    } else {
      var t, init := s + q, q[..|q| - 1];
      assert t[|t| - 1] == q[|q| - 1] && t[..|t| - 1] == s + init;
      TrimEndIs(s, init);
      assert TrimEnd(t) == TrimEnd(s + init);
    }
  }

  lemma TrimIs(p: Text, s: Text, q: Text)
    requires Blanks(p) && Blanks(q) && Tight(s)
    ensures Trim(p + s + q) == s
  {
    if s == [] {
      assert p + s + q == (p + q) + [];
      TrimStartIs(p + q, []);
      TrimEndIs([], []);
      assert s + s == s;
    } else {
      assert p + s + q == p + (s + q);
      assert (s + q)[..1] == s[..1];
      TrimStartIs(p, s + q);
      TrimEndIs(s, q);
    }
  }

  /** The same letter but for the case of A to Z, or the same byte. */
  predicate SameLetter(x: byte, y: byte) {
    x == y || (65 <= x <= 90 && y == x + 32) || (65 <= y <= 90 && x == y + 32)
  }

  /** Two names match exactly when, without the blanks around them, they agree up to the case of A to Z. */
  lemma NamesMatchIff(p: Text, a: Text, q: Text, r: Text, b: Text, s: Text)
    requires Blanks(p) && Blanks(q) && Blanks(r) && Blanks(s) && Tight(a) && Tight(b)
    ensures NameMatches(p + a + q, r + b + s)
       <==> |a| == |b| && forall i :: 0 <= i < |a| ==> SameLetter(a[i], b[i])
  {
    TrimIs(p, a, q);
    TrimIs(r, b, s);
    assert forall x: byte, y: byte :: Lower(x) == Lower(y) <==> SameLetter(x, y);
  }
}
