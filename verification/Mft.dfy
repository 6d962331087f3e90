/**
  The text of the Master File Table kept in block 0 (kernel/src/mfs.rs): its printer, its parser,
  and the fused lookup scan of `find_file`.
 */
module Mft {
  import opened Bytes
  import opened Decimal
  import opened Disk

  const NUL: byte := 0
  const NEWLINE: byte := 10
  const RETURN: byte := 13
  const COLON: byte := 58

  /** "MFS_V1" */
  const HEADER: Text := [77, 70, 83, 95, 86, 49]

  datatype Entry = Entry(name: Text, start: nat, count: nat)

  // ---------------------------------------------------------------- splitting text

  /** `str::lines` drops a '\r' that stands before the line feed. */
  function StripReturn(s: Text): Text {
    if s != [] && s[|s| - 1] == RETURN then s[..|s| - 1] else s
  }

  function Lines(s: Text): seq<Text>
    decreases |s|
  {
    if s == [] then []
    else
      var k := IndexOf(s, NEWLINE);
      if k == |s| then [s] else [StripReturn(s[..k])] + Lines(s[k + 1..])
  }

  function Split(s: Text, sep: byte): (parts: seq<Text>)
    ensures parts != []
    decreases |s|
  {
    var k := IndexOf(s, sep);
    if k == |s| then [s] else [s[..k]] + Split(s[k + 1..], sep)
  }

  // ---------------------------------------------------------------- parsing

  function ParseLine(line: Text): Option<Entry> {
    var parts := Split(line, COLON);
    if |parts| < 3 then None
    else
      match (ParseU64(parts[1]), ParseU64(parts[2]))
      case (Some(start), Some(count)) => Some(Entry(parts[0], start, count))
      case _ => None
  }

  function ParseLines(lines: seq<Text>): seq<Entry> {
    if lines == [] then []
    else
      var rest := ParseLines(lines[1..]);
      match ParseLine(lines[0])
      case Some(e) => [e] + rest
      case None => rest
  }

  function ParseText(text: Text): seq<Entry> {
    ParseLines(Lines(text))
  }

  predicate Ascii(s: Text) {
    forall i :: 0 <= i < |s| ==> s[i] < 128
  }

  /** The table text: the block up to its first NUL, or nothing when the block is not text. */
  function CleanText(block: Text): Text {
    if Ascii(block) then block[..IndexOf(block, NUL)] else []
  }

  function SkipFirst(lines: seq<Text>): seq<Text> {
    if lines == [] then [] else lines[1..]
  }

  predicate HasHeader(text: Text) {
    HEADER <= text
  }

  function ReadMft(block: Text): seq<Entry> {
    var text := CleanText(block);
    if HasHeader(text) then ParseLines(SkipFirst(Lines(text))) else []
  }

  // ---------------------------------------------------------------- printing

  function PrintEntry(e: Entry): Text {
    e.name + [COLON] + Digits(e.start) + [COLON] + Digits(e.count) + [NEWLINE]
  }

  function PrintEntries(es: seq<Entry>): Text {
    if es == [] then [] else PrintEntry(es[0]) + PrintEntries(es[1..])
  }

  function Print(es: seq<Entry>): Text {
    HEADER + [NEWLINE] + PrintEntries(es)
  }

  /** The text fits its block; losing only the final line feed does no harm. */
  predicate Fits(es: seq<Entry>) {
    |Print(es)| <= BLOCK_SIZE + 1
  }

  /** The block `write_mft` stores: the text cut at 4096 bytes, zero filled. */
  function Encode(es: seq<Entry>): Block {
    var text := Print(es);
    if |text| <= BLOCK_SIZE then Pad(text) else text[..BLOCK_SIZE]
  }

  // ---------------------------------------------------------------- lookup

  predicate IsSpace(b: byte) {
    9 <= b <= 13 || b == 32
  }

  function TrimStart(s: Text): Text {
    if s != [] && IsSpace(s[0]) then TrimStart(s[1..]) else s
  }

  function TrimEnd(s: Text): Text {
    if s != [] && IsSpace(s[|s| - 1]) then TrimEnd(s[..|s| - 1]) else s
  }

  function Trim(s: Text): Text {
    TrimEnd(TrimStart(s))
  }

  function Lower(b: byte): byte {
    if 65 <= b <= 90 then b + 32 else b
  }

  predicate EqIgnoreCase(a: Text, b: Text) {
    |a| == |b| && forall i :: 0 <= i < |a| ==> Lower(a[i]) == Lower(b[i])
  }

  predicate NameMatches(name: Text, target: Text) {
    EqIgnoreCase(Trim(name), Trim(target))
  }

  /** `find_file`'s loop: the name is compared before the numbers are parsed. */
  function FindInLines(lines: seq<Text>, target: Text): Option<Entry> {
    if lines == [] then None
    else
      var parts := Split(lines[0], COLON);
      if |parts| < 3 || !NameMatches(parts[0], target) then FindInLines(lines[1..], target)
      else
        match (ParseU64(parts[1]), ParseU64(parts[2]))
        case (Some(start), Some(count)) => Some(Entry(parts[0], start, count))
        case _ => FindInLines(lines[1..], target)
  }

  /** `find_file` on a block: unlike `read_mft` it never looks at the header. */
  function FindFile(block: Text, target: Text): Option<Entry> {
    FindInLines(SkipFirst(Lines(CleanText(block))), target)
  }

  /** The reference lookup: the first listed entry whose name matches. */
  function FirstMatch(es: seq<Entry>, target: Text): (r: Option<Entry>)
    ensures r.Some? ==> r.value in es && NameMatches(r.value.name, target)
    ensures r.None? ==> forall e :: e in es ==> !NameMatches(e.name, target)
  {
    if es == [] then None
    else if NameMatches(es[0].name, target) then Some(es[0])
    else FirstMatch(es[1..], target)
  }

  lemma {:induction false} FindIsFirstMatch(lines: seq<Text>, target: Text)
    ensures FindInLines(lines, target) == FirstMatch(ParseLines(lines), target)
  {
    if lines == [] {
    } else {
      FindIsFirstMatch(lines[1..], target);
      match ParseLine(lines[0])
      case None =>
      case Some(e) =>
        assert ([e] + ParseLines(lines[1..]))[1..] == ParseLines(lines[1..]);
    }
  }

  /** With a valid header the fused scan is exactly "first matching entry of the parsed table". */
  lemma FindFileAgreesWithReadMft(block: Text, target: Text)
    requires HasHeader(CleanText(block))
    ensures FindFile(block, target) == FirstMatch(ReadMft(block), target)
  {
    FindIsFirstMatch(SkipFirst(Lines(CleanText(block))), target);
  }

  /** The two readers agree on every name exactly when the header is there or no line parses. */
  lemma ReadersAgreeIff(block: Text)
    ensures (forall t :: FindFile(block, t) == FirstMatch(ReadMft(block), t))
       <==> HasHeader(CleanText(block)) || ParseLines(SkipFirst(Lines(CleanText(block)))) == []
  {
    var lines := SkipFirst(Lines(CleanText(block)));
    forall t
      ensures FindFile(block, t) == FirstMatch(ParseLines(lines), t)
    {
      FindIsFirstMatch(lines, t);
    }
    if !HasHeader(CleanText(block)) && ParseLines(lines) != [] {
      var t := ParseLines(lines)[0].name;
      assert NameMatches(t, t);
      assert FindFile(block, t) != FirstMatch(ReadMft(block), t);
    }
  }

  // ---------------------------------------------------------------- round trip

  predicate CleanName(name: Text) {
    forall i :: 0 <= i < |name| ==> name[i] < 128 && name[i] !in {NUL, NEWLINE, COLON}
  }

  predicate CleanEntry(e: Entry) {
    CleanName(e.name) && e.start < U64_LIMIT && e.count < U64_LIMIT
  }

  predicate CleanTable(es: seq<Entry>) {
    forall i :: 0 <= i < |es| ==> CleanEntry(es[i])
  }

  /** `got` is what can be read back from a cut table: a prefix whose last count may be cut short. */
  predicate CutOf(got: seq<Entry>, es: seq<Entry>) {
    && |got| <= |es|
    && (forall i :: 0 <= i < |got| - 1 ==> got[i] == es[i])
    && (got != [] ==>
          var g, e := got[|got| - 1], es[|got| - 1];
          g.name == e.name && g.start == e.start && DecimalPrefix(g.count, e.count))
  }

  /** Bytes of a table line: no NUL, no line feed, plain ASCII. */
  predicate LineBytes(s: Text) {
    forall i :: 0 <= i < |s| ==> s[i] < 128 && s[i] != NUL && s[i] != NEWLINE
  }

  /** The line printed for `e`, without its line feed. */
  function LineOf(e: Entry): Text {
    e.name + [COLON] + Digits(e.start) + [COLON] + Digits(e.count)
  }

  lemma LineOfBytes(e: Entry)
    requires CleanEntry(e)
    ensures PrintEntry(e) == LineOf(e) + [NEWLINE]
    ensures LineBytes(LineOf(e))
    ensures LineOf(e)[|LineOf(e)| - 1] != RETURN
  {
    var ds, dc := Digits(e.start), Digits(e.count);
    forall i | 0 <= i < |LineOf(e)|
      ensures LineOf(e)[i] < 128 && LineOf(e)[i] != NUL && LineOf(e)[i] != NEWLINE
    {
      var n := |e.name|;
      if i < n {
        assert LineOf(e)[i] == e.name[i];
      } else if n < i <= n + |ds| {
        assert LineOf(e)[i] == ds[i - n - 1];
      } else if i > n + |ds| + 1 {
        assert LineOf(e)[i] == dc[i - n - |ds| - 2];
      }
    }
    assert LineOf(e)[|LineOf(e)| - 1] == dc[|dc| - 1];
    assert IsDigit(dc[|dc| - 1]);
  }

  lemma SplitAt(a: Text, rest: Text, sep: byte)
    requires sep !in a
    ensures Split(a + [sep] + rest, sep) == [a] + Split(rest, sep)
  {
    var s := a + [sep] + rest;
    assert s[|a|] == sep;
    assert forall i :: 0 <= i < |a| ==> s[i] == a[i];
    assert IndexOf(s, sep) == |a|;
    assert s[..|a|] == a && s[|a| + 1..] == rest;
  }

  lemma SplitNone(a: Text, sep: byte)
    requires sep !in a
    ensures Split(a, sep) == [a]
  {
    assert IndexOf(a, sep) == |a|;
  }

  lemma DigitsHaveNoColon(s: Text)
    requires AllDigits(s)
    ensures COLON !in s
  {
  }

  lemma SplitThree(a: Text, b: Text, c: Text)
    requires COLON !in a && COLON !in b && COLON !in c
    ensures Split(a + [COLON] + b + [COLON] + c, COLON) == [a, b, c]
  {
    var rest := b + [COLON] + c;
    assert a + [COLON] + b + [COLON] + c == a + [COLON] + rest;
    calc {
      Split(a + [COLON] + rest, COLON);
      { SplitAt(a, rest, COLON); }
      [a] + Split(rest, COLON);
      { SplitAt(b, c, COLON); }
      [a] + ([b] + Split(c, COLON));
      { SplitNone(c, COLON); }
      [a, b, c];
    }
  }

  /** A line with both separators and a (possibly cut, non-empty) count parses to its own fields. */
  lemma ParseFields(name: Text, start: nat, cut: Text)
    requires COLON !in name && start < U64_LIMIT && AllDigits(cut)
    ensures ParseLine(name + [COLON] + Digits(start) + [COLON] + cut)
         == match ParseU64(cut) { case Some(c) => Some(Entry(name, start, c)) case None => None }
  {
    DigitsHaveNoColon(Digits(start));
    DigitsHaveNoColon(cut);
    SplitThree(name, Digits(start), cut);
    ParseDigits(start);
  }

  lemma ParseWholeLine(e: Entry)
    requires CleanEntry(e)
    ensures ParseLine(LineOf(e)) == Some(e)
  {
    ParseFields(e.name, e.start, Digits(e.count));
    ParseDigits(e.count);
  }

  /** A cut line is dropped, or keeps its name and start and a decimal prefix of its count. */
  lemma ParseCutLine(e: Entry, k: nat)
    requires CleanEntry(e)
    requires k <= |LineOf(e)|
    ensures match ParseLine(LineOf(e)[..k])
            case None => true
            case Some(g) => g.name == e.name && g.start == e.start && DecimalPrefix(g.count, e.count)
  {
    var n, ds, dc := |e.name|, Digits(e.start), Digits(e.count);
    var cut := LineOf(e)[..k];
    DigitsHaveNoColon(ds);
    if k <= n {
      assert cut == e.name[..k];
      SplitNone(cut, COLON);
    } else if k <= n + 1 + |ds| {
      var d := ds[..k - n - 1];
      assert cut == e.name + [COLON] + d;
      SplitNone(d, COLON);
      SplitAt(e.name, d, COLON);
    } else {
      var c := dc[..k - n - |ds| - 2];
      assert cut == e.name + [COLON] + ds + [COLON] + c;
      ParseFields(e.name, e.start, c);
      if c != [] {
        ParseCut(e.count, |c|);
      }
    }
  }

  lemma LinesOne(line: Text, rest: Text)
    requires LineBytes(line)
    requires line != [] ==> line[|line| - 1] != RETURN
    ensures Lines(line + [NEWLINE] + rest) == [line] + Lines(rest)
  {
    var s := line + [NEWLINE] + rest;
    FirstNewline(line, rest);
    assert s[..|line|] == line && s[|line| + 1..] == rest;
  }

  lemma FirstNewline(line: Text, rest: Text)
    requires LineBytes(line)
    ensures IndexOf(line + [NEWLINE] + rest, NEWLINE) == |line|
  {
    var s := line + [NEWLINE] + rest;
    assert s[|line|] == NEWLINE;
    assert forall i :: 0 <= i < |line| ==> s[i] == line[i];
  }

  lemma LinesLast(line: Text)
    requires LineBytes(line)
    ensures Lines(line) == if line == [] then [] else [line]
  {
    assert line != [] ==> IndexOf(line, NEWLINE) == |line|;
  }

  /** A whole line in front of any text adds its entry in front of what that text parses to. */
  lemma ParseConsLine(e: Entry, rest: Text)
    requires CleanEntry(e)
    ensures ParseText(PrintEntry(e) + rest) == [e] + ParseText(rest)
  {
    LineOfBytes(e);
    LinesOne(LineOf(e), rest);
    ParseWholeLine(e);
    assert ([LineOf(e)] + Lines(rest))[1..] == Lines(rest);
  }

  lemma ParseTextOne(line: Text)
    requires LineBytes(line)
    ensures ParseText(line) == if line != [] && ParseLine(line).Some? then [ParseLine(line).value] else []
  {
    LinesLast(line);
    if line != [] {
      assert ParseLines([line][1..]) == [];
      assert ParseLine([line][0]) == ParseLine(line);
    }
  }

  /** A cut that ends inside the first line leaves at most one entry. */
  lemma ParseInsideLine(e: Entry, k: nat)
    requires CleanEntry(e) && k <= |LineOf(e)|
    ensures var got := ParseText(LineOf(e)[..k]);
            |got| <= 1 && (got != [] ==>
              got[0].name == e.name && got[0].start == e.start && DecimalPrefix(got[0].count, e.count))
  {
    LineOfBytes(e);
    ParseCutLine(e, k);
    ParseTextOne(LineOf(e)[..k]);
  }

  lemma CutPrint(es: seq<Entry>, k: nat)
    requires es != [] && k <= |PrintEntries(es)|
    ensures PrintEntries(es)[..k]
         == if k < |PrintEntry(es[0])| then LineOf(es[0])[..k]
            else PrintEntry(es[0]) + PrintEntries(es[1..])[..k - |PrintEntry(es[0])|]
  {
    assert PrintEntry(es[0]) == LineOf(es[0]) + [NEWLINE];
  }

  /** What a cut table parses to. */
  function ParseCutAt(es: seq<Entry>, k: nat): seq<Entry>
    requires k <= |PrintEntries(es)|
  {
    ParseText(PrintEntries(es)[..k])
  }

  lemma ParseCutStep(es: seq<Entry>, k: nat)
    requires CleanTable(es) && es != []
    requires |PrintEntry(es[0])| <= k <= |PrintEntries(es)|
    ensures ParseCutAt(es, k) == [es[0]] + ParseCutAt(es[1..], k - |PrintEntry(es[0])|)
  {
    CutPrint(es, k);
    ParseConsLine(es[0], PrintEntries(es[1..])[..k - |PrintEntry(es[0])|]);
  }

  lemma ParseCutFirst(es: seq<Entry>, k: nat)
    requires CleanTable(es) && es != []
    requires k <= |PrintEntries(es)| && k < |PrintEntry(es[0])|
    ensures CutOf(ParseCutAt(es, k), es)
  {
    CutPrint(es, k);
    ParseInsideLine(es[0], k);
  }

  /** Cutting the printed entries anywhere leaves text that parses to a cut of the entries. */
  lemma {:induction false} ParseCutEntries(es: seq<Entry>, k: nat)
    requires CleanTable(es)
    requires k <= |PrintEntries(es)|
    ensures CutOf(ParseCutAt(es, k), es)
    decreases |es|
  {
    if es == [] {
    } else {
      var e, rest := es[0], es[1..];
      if k < |PrintEntry(e)| {
        ParseCutFirst(es, k);
      } else {
        var j := k - |PrintEntry(e)|;
        ParseCutEntries(rest, j);
        ParseCutStep(es, k);
        CutCons(e, ParseCutAt(rest, j), rest);
        assert [e] + rest == es;
      }
    }
  }

  lemma {:induction false} PrintConcat(a: seq<Entry>, b: seq<Entry>)
    ensures PrintEntries(a + b) == PrintEntries(a) + PrintEntries(b)
  {
    if a == [] {
      assert a + b == b;
    } else {
      assert (a + b)[1..] == a[1..] + b;
      calc {
        PrintEntries(a + b);
        PrintEntry(a[0]) + PrintEntries(a[1..] + b);
        { PrintConcat(a[1..], b); }
        PrintEntry(a[0]) + (PrintEntries(a[1..]) + PrintEntries(b));
        { Assoc(PrintEntry(a[0]), PrintEntries(a[1..]), PrintEntries(b)); }
        PrintEntries(a) + PrintEntries(b);
      }
    }
  }

  lemma {:induction false} ParseConcat(a: seq<Entry>, text: Text)
    requires CleanTable(a)
    ensures ParseText(PrintEntries(a) + text) == a + ParseText(text)
  {
    if a == [] {
      assert PrintEntries(a) + text == text;
    } else {
      Assoc(PrintEntry(a[0]), PrintEntries(a[1..]), text);
      ParseConsLine(a[0], PrintEntries(a[1..]) + text);
      ParseConcat(a[1..], text);
      Assoc([a[0]], a[1..], ParseText(text));
      assert [a[0]] + a[1..] == a;
    }
  }

  /** A cut loses no entry whose line lies wholly before it. */
  lemma CutKeepsWholeLines(es: seq<Entry>, k: nat, m: nat)
    requires CleanTable(es)
    requires k <= |PrintEntries(es)| && m <= |es|
    requires |PrintEntries(es[..m])| <= k
    ensures es[..m] <= ParseCutAt(es, k)
  {
    var a, b := es[..m], es[m..];
    PrintConcat(a, b);
    assert a + b == es;
    var text := PrintEntries(b)[..k - |PrintEntries(a)|];
    assert PrintEntries(es)[..k] == PrintEntries(a) + text;
    ParseConcat(a, text);
  }

  lemma CutCons(e: Entry, got: seq<Entry>, es: seq<Entry>)
    requires CutOf(got, es)
    ensures CutOf([e] + got, [e] + es)
  {
  }

  lemma {:induction false} PrintEntriesBytes(es: seq<Entry>)
    requires CleanTable(es)
    ensures forall i :: 0 <= i < |PrintEntries(es)| ==> 0 < PrintEntries(es)[i] < 128
  {
    if es == [] {
    } else {
      LineOfBytes(es[0]);
      PrintEntriesBytes(es[1..]);
    }
  }

  lemma CleanTextOfBlock(text: Text, block: Block)
    requires forall i :: 0 <= i < |text| ==> 0 < text[i] < 128
    requires |text| <= BLOCK_SIZE && block == Pad(text)
    ensures CleanText(block) == text
  {
    assert forall i :: 0 <= i < |text| ==> block[i] == text[i];
    assert |text| < BLOCK_SIZE ==> block[|text|] == NUL;
    assert IndexOf(block, NUL) == |text|;
    assert block[..|text|] == text;
  }

  lemma CleanTextOfEncode(es: seq<Entry>)
    requires CleanTable(es)
    ensures CleanText(Encode(es)) == if |Print(es)| <= BLOCK_SIZE then Print(es) else Print(es)[..BLOCK_SIZE]
  {
    PrintEntriesBytes(es);
    var text := Print(es);
    if |text| <= BLOCK_SIZE {
      CleanTextOfBlock(text, Encode(es));
    } else {
      CleanTextOfBlock(text[..BLOCK_SIZE], Encode(es));
    }
  }

  /** How many bytes of the printed entries reach the block. */
  function CutPoint(es: seq<Entry>): (k: nat)
    ensures k <= |PrintEntries(es)|
  {
    if |Print(es)| <= BLOCK_SIZE then |PrintEntries(es)| else BLOCK_SIZE - |HEADER| - 1
  }

  lemma ReadIsCut(es: seq<Entry>)
    requires CleanTable(es)
    ensures ReadMft(Encode(es)) == ParseCutAt(es, CutPoint(es))
  {
    var body := PrintEntries(es)[..CutPoint(es)];
    CleanTextOfEncode(es);
    var text := CleanText(Encode(es));
    assert text == HEADER + [NEWLINE] + body;
    LinesOne(HEADER, body);
    assert Lines(text)[1..] == Lines(body);
  }

  lemma PrintLast(init: seq<Entry>, e: Entry)
    ensures PrintEntries(init + [e]) == PrintEntries(init) + LineOf(e) + [NEWLINE]
  {
    PrintConcat(init, [e]);
    assert PrintEntries([e]) == PrintEntry(e) + PrintEntries([]);
    Assoc(PrintEntries(init), LineOf(e), [NEWLINE]);
  }

  lemma ParseLast(init: seq<Entry>, e: Entry)
    requires CleanTable(init) && CleanEntry(e)
    ensures ParseText(PrintEntries(init) + LineOf(e)) == init + [e]
  {
    LineOfBytes(e);
    ParseConcat(init, LineOf(e));
    ParseTextOne(LineOf(e));
    ParseWholeLine(e);
  }

  /** Losing the final line feed loses no entry. */
  lemma CutFinalNewline(es: seq<Entry>)
    requires CleanTable(es) && es != []
    ensures 0 < |PrintEntries(es)|
    ensures ParseCutAt(es, |PrintEntries(es)| - 1) == es
  {
    var init, e := es[..|es| - 1], es[|es| - 1];
    assert es == init + [e];
    PrintLast(init, e);
    DropLast(PrintEntries(init) + LineOf(e));
    ParseLast(init, e);
  }

  lemma DropLast(text: Text)
    ensures (text + [NEWLINE])[..|text|] == text
  {
  }

  /** What is read back from a written table, whether or not its text was cut at 4096 bytes. */
  lemma ReadWrittenTable(es: seq<Entry>)
    requires CleanTable(es)
    ensures CutOf(ReadMft(Encode(es)), es)
    ensures Fits(es) ==> ReadMft(Encode(es)) == es
  {
    var body, k := PrintEntries(es), CutPoint(es);
    ReadIsCut(es);
    ParseCutEntries(es, k);
    if |Print(es)| <= BLOCK_SIZE {
      ParseConcat(es, []);
      assert body[..k] == body + [];
    } else if Fits(es) {
      CutFinalNewline(es);
    }
  }

  // ---------------------------------------------------------------- exactly when it round-trips

  predicate AllLineBytes(lines: seq<Text>) {
    forall i :: 0 <= i < |lines| ==> LineBytes(lines[i])
  }

  /** Text of the table: no NUL, plain ASCII. */
  predicate TextBytes(s: Text) {
    forall i :: 0 <= i < |s| ==> 0 < s[i] < 128
  }

  lemma FirstLineClean(s: Text)
    requires TextBytes(s)
    ensures LineBytes(s[..IndexOf(s, NEWLINE)]) && LineBytes(StripReturn(s[..IndexOf(s, NEWLINE)]))
  {
  }

  lemma ConsLineBytes(line: Text, rest: seq<Text>)
    requires LineBytes(line) && AllLineBytes(rest)
    ensures AllLineBytes([line] + rest)
  {
  }

  lemma {:induction false} LinesClean(s: Text)
    requires TextBytes(s)
    ensures AllLineBytes(Lines(s))
    decreases |s|
  {
    if s == [] {
    } else {
      var k := IndexOf(s, NEWLINE);
      FirstLineClean(s);
      if k < |s| {
        var rest := s[k + 1..];
        assert TextBytes(rest);
        LinesClean(rest);
        ConsLineBytes(StripReturn(s[..k]), Lines(rest));
      } else {
        assert s[..k] == s;
      }
    }
  }

  lemma ParsedLineClean(line: Text)
    requires LineBytes(line)
    ensures ParseLine(line).Some? ==> CleanEntry(ParseLine(line).value)
  {
    var k := IndexOf(line, COLON);
    assert CleanName(line[..k]);
    assert k < |line| ==> Split(line, COLON)[0] == line[..k];
  }

  lemma {:induction false} ParsedEntriesClean(lines: seq<Text>)
    requires AllLineBytes(lines)
    ensures CleanTable(ParseLines(lines))
  {
    if lines == [] {
    } else {
      ParsedEntriesClean(lines[1..]);
      ParsedLineClean(lines[0]);
    }
  }

  /** Whatever the block holds, every entry read from it has a clean name and u64 fields. */
  lemma ReadMftIsClean(block: Text)
    ensures CleanTable(ReadMft(block))
  {
    var text := CleanText(block);
    LinesClean(text);
    ParsedEntriesClean(SkipFirst(Lines(text)));
  }

  /** A line that misses part of its count is lost or changed. */
  lemma ShortLineDiffers(e: Entry, k: nat)
    requires CleanEntry(e) && k < |LineOf(e)|
    ensures ParseText(LineOf(e)[..k]) != [e]
  {
    LineOfBytes(e);
    ParseTextOne(LineOf(e)[..k]);
    if |e.name| + |Digits(e.start)| + 2 <= k {
      ShortCountDiffers(e, k);
    } else {
      NoCountNoEntry(e, k);
    }
  }

  lemma ShortCountDiffers(e: Entry, k: nat)
    requires CleanEntry(e) && |e.name| + |Digits(e.start)| + 2 <= k < |LineOf(e)|
    ensures ParseLine(LineOf(e)[..k]) != Some(e)
  {
    var c := Digits(e.count)[..k - |e.name| - |Digits(e.start)| - 2];
    assert LineOf(e)[..k] == e.name + [COLON] + Digits(e.start) + [COLON] + c;
    ParseFields(e.name, e.start, c);
    CutIsSmaller(e.count, |c|);
  }

  lemma NoCountNoEntry(e: Entry, k: nat)
    requires CleanEntry(e) && k < |e.name| + |Digits(e.start)| + 2 && k <= |LineOf(e)|
    ensures ParseLine(LineOf(e)[..k]).None?
  {
    var n, ds := |e.name|, Digits(e.start);
    var cut := LineOf(e)[..k];
    DigitsHaveNoColon(ds);
    if k <= n {
      assert cut == e.name[..k];
      SplitNone(cut, COLON);
    } else {
      var d := ds[..k - n - 1];
      assert cut == e.name + [COLON] + d;
      SplitNone(d, COLON);
      SplitAt(e.name, d, COLON);
    }
  }

  lemma {:induction false} CutTooShort(es: seq<Entry>, k: nat)
    requires CleanTable(es) && k + 2 <= |PrintEntries(es)|
    ensures ParseCutAt(es, k) != es
    decreases |es|
  {
    var e, rest := es[0], es[1..];
    if k < |PrintEntry(e)| {
      CutPrint(es, k);
      ParseInsideLine(e, k);
      if |es| == 1 {
        assert PrintEntries(es) == PrintEntry(e) + PrintEntries([]);
        assert es == [e];
        ShortLineDiffers(e, k);
      }
    } else {
      ParseCutStep(es, k);
      CutTooShort(rest, k - |PrintEntry(e)|);
      assert es[1..] == rest;
    }
  }

  /**
    A written table is read back unchanged exactly when its entries are clean and its text fits. This
    is the ASCII reading: names in UTF-8 beyond ASCII round-trip in the code and are not clean here.
   */
  lemma RoundTripIff(es: seq<Entry>)
    ensures ReadMft(Encode(es)) == es <==> CleanTable(es) && Fits(es)
  {
    ReadMftIsClean(Encode(es));
    if CleanTable(es) {
      ReadWrittenTable(es);
      if !Fits(es) {
        ReadIsCut(es);
        CutTooShort(es, CutPoint(es));
      }
    }
  }

  // ---------------------------------------------------------------- exactly what a cut keeps

  lemma PrintGrows(a: seq<Entry>, b: seq<Entry>)
    ensures PrintEntries(a) <= PrintEntries(a + b)
  {
    PrintConcat(a, b);
  }

  lemma PrefixPrints(es: seq<Entry>, m: nat)
    requires m <= |es|
    ensures PrintEntries(es[..m]) <= PrintEntries(es)
  {
    var a, b := es[..m], es[m..];
    assert es == a + b;
    PrintGrows(a, b);
  }

  /** A cut inside the first m lines leaves what it leaves of those lines alone. */
  lemma CutOfPrefix(es: seq<Entry>, m: nat, k: nat)
    requires m <= |es| && k <= |PrintEntries(es[..m])|
    ensures k <= |PrintEntries(es)| && ParseCutAt(es, k) == ParseCutAt(es[..m], k)
  {
    PrefixPrints(es, m);
    assert PrintEntries(es)[..k] == PrintEntries(es[..m])[..k];
  }

  /** The cut takes only the last line feed of the first m lines. */
  lemma CutAtLastNewline(es: seq<Entry>, m: nat)
    requires CleanTable(es) && 0 < m <= |es| && CutPoint(es) + 1 == |PrintEntries(es[..m])|
    ensures ParseCutAt(es, CutPoint(es)) == es[..m]
  {
    CutOfPrefix(es, m, CutPoint(es));
    CutFinalNewline(es[..m]);
  }

  lemma FittingLinesSurvive(es: seq<Entry>, m: nat)
    requires CleanTable(es) && m <= |es| && Fits(es[..m])
    ensures es[..m] <= ParseCutAt(es, CutPoint(es))
  {
    PrefixPrints(es, m);
    if |PrintEntries(es[..m])| <= CutPoint(es) {
      CutKeepsWholeLines(es, CutPoint(es), m);
    } else {
      CutAtLastNewline(es, m);
    }
  }

  lemma CutLinesAreLost(es: seq<Entry>, m: nat)
    requires CleanTable(es) && m <= |es| && !Fits(es[..m])
    ensures !(es[..m] <= ParseCutAt(es, CutPoint(es)))
  {
    var k := CutPoint(es);
    PrefixPrints(es, m);
    CutOfPrefix(es, m, k);
    CutTooShort(es[..m], k);
    ParseCutEntries(es[..m], k);
  }

  /** The first m entries are read back if and only if their lines lie in the block, the last line feed aside. */
  lemma LinesSurviveIff(es: seq<Entry>, m: nat)
    requires CleanTable(es) && m <= |es|
    ensures es[..m] <= ReadMft(Encode(es)) <==> Fits(es[..m])
  {
    ReadIsCut(es);
    if Fits(es[..m]) {
      FittingLinesSurvive(es, m);
    } else {
      CutLinesAreLost(es, m);
    }
  }
}
