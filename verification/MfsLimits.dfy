/** Inputs on which the file system does not keep its promises, as concrete runs. */
module MfsLimits {
  import opened Bytes
  import opened Decimal
  import opened Disk
  import opened Mft
  import opened MdoVm
  import opened MfsModel
  import opened MfsRead

  /** "a:5:1" */
  const COLON_NAME: Text := [97, COLON, 53, COLON, 49]

  lemma SplitColonLine(rest: Text)
    ensures var parts := Split([97] + [COLON] + ([53] + [COLON] + ([49] + [COLON] + rest)), COLON);
            |parts| >= 3 && parts[0] == [97] && parts[1] == [53] && parts[2] == [49]
  {
    SplitAt([49], rest, COLON);
    SplitAt([53], [49] + [COLON] + rest, COLON);
    SplitAt([97], [53] + [COLON] + ([49] + [COLON] + rest), COLON);
  }

  /** A name with separators in it is taken for fields: the saved file is listed where it does not lie. */
  lemma ColonInNameMisplacesFile()
    ensures var op := Save(COLON_NAME, [7]);
            Table(Exec(BLANK, op, |Plan(BLANK, op)|)) == [Entry([97], 5, 1)]
  {
    var op := Save(COLON_NAME, [7]);
    BlankTable();
    var e := Entry(COLON_NAME, 1, 1);
    assert NewTable(BLANK, op) == Ok([] + [e]);
    FullLeavesTable(BLANK, op, |Plan(BLANK, op)|);
    ColonEntryReads(e);
  }

  /** "a:5:1:1:1" */
  const COLON_LINE: Text := COLON_NAME + [COLON, 49, COLON, 49]

  lemma ColonLineParses()
    ensures ParseLine(COLON_LINE) == Some(Entry([97], 5, 1))
  {
    assert COLON_LINE == [97] + [COLON] + ([53] + [COLON] + ([49] + [COLON] + [49, COLON, 49]));
    SplitColonLine([49, COLON, 49]);
    assert Digits(5) == [53] && Digits(1) == [49];
    ParseDigits(5);
    ParseDigits(1);
  }

  lemma ParseOne(line: Text)
    ensures ParseLines([line]) == if ParseLine(line).Some? then [ParseLine(line).value] else []
  {
    assert ParseLines([line][1..]) == [];
    assert ParseLine([line][0]) == ParseLine(line);
  }

  predicate PlainLine(line: Text) {
    LineBytes(line) && line != [] && line[|line| - 1] != RETURN
  }

  lemma LinesTwo(first: Text, line: Text)
    requires PlainLine(first) && PlainLine(line)
    ensures SkipFirst(Lines(first + [NEWLINE] + (line + [NEWLINE] + []))) == [line]
  {
    LinesOne(first, line + [NEWLINE] + []);
    LinesOne(line, []);
    assert ([first] + [line])[1..] == [line];
  }

  /** A block of two lines: what is parsed after the first one is skipped. */
  lemma TwoLines(first: Text, line: Text, text: Text)
    requires PlainLine(first) && PlainLine(line)
    requires text == first + [NEWLINE] + (line + [NEWLINE] + []) && |text| <= BLOCK_SIZE
    ensures CleanText(Pad(text)) == text
    ensures ParseLines(SkipFirst(Lines(text))) == if ParseLine(line).Some? then [ParseLine(line).value] else []
  {
    CleanTextOfBlock(text, Pad(text));
    LinesTwo(first, line);
    ParseOne(line);
  }

  lemma ColonEntryText(e: Entry)
    requires e == Entry(COLON_NAME, 1, 1)
    ensures Print([] + [e]) == HEADER + [NEWLINE] + (COLON_LINE + [NEWLINE] + [])
  {
    assert Digits(1) == [49];
    assert PrintEntry(e) == COLON_LINE + [NEWLINE];
    assert PrintEntries([] + [e]) == PrintEntry(e) + PrintEntries([]);
  }

  lemma ColonEntryReads(e: Entry)
    requires e == Entry(COLON_NAME, 1, 1)
    ensures ReadMft(Encode([] + [e])) == [Entry([97], 5, 1)]
  {
    ColonEntryText(e);
    ColonLineParses();
    TwoLines(HEADER, COLON_LINE, Print([] + [e]));
  }

  // ---------------------------------------------------------------- a block without a header

  /** "a:1:1" */
  const PLAIN_LINE: Text := [97, COLON, 49, COLON, 49]

  /** A first line that is not the header, then an entry. */
  const FOREIGN_BLOCK: Block := Pad([88] + [NEWLINE] + (PLAIN_LINE + [NEWLINE] + []))

  lemma PlainLineParses()
    ensures ParseLine(PLAIN_LINE) == Some(Entry([97], 1, 1))
  {
    var e := Entry([97], 1, 1);
    assert Digits(1) == [49];
    assert PLAIN_LINE == LineOf(e);
    ParseWholeLine(e);
  }

  /** `find_file` finds a file in a block that `read_mft` takes for no table at all. */
  lemma ReadersDisagree()
    ensures ReadMft(FOREIGN_BLOCK) == [] && FindFile(FOREIGN_BLOCK, [97]) == Some(Entry([97], 1, 1))
  {
    var text := [88] + [NEWLINE] + (PLAIN_LINE + [NEWLINE] + []);
    var e := Entry([97], 1, 1);
    PlainLineParses();
    TwoLines([88], PLAIN_LINE, text);
    assert text[0] != HEADER[0];
    FindIsFirstMatch(SkipFirst(Lines(text)), [97]);
    assert NameMatches([e][0].name, [97]);
  }

  // ---------------------------------------------------------------- empty files

  /**
    An empty file owns no block: reading it asks the script in, and returns part of, whatever block
    lies at its start.
   */
  lemma ReadEmptyFile(d: Disk, e: Entry, ctx: Context)
    requires FirstMatch(Table(d), e.name) == Some(e) && e.count == 0
    ensures var gate := Gate(Get(d, e.start), ctx);
            ReadFile(d, e.name, ctx) ==
            if gate.Err? then Err(gate.error) else Ok(Get(d, e.start)[gate.value..])
  {
    ReadFirstMatch(d, e.name, ctx);
    ReadEntryBytes(d, e, ctx);
  }

  lemma FirstChunkLands(d: Disk, es: seq<Entry>, data: Text, table: Block)
    requires es != [] && es[|es| - 1].count == 0 && NextLba(es) >= 1 && data != []
    ensures Get(Apply(d, WritePlan(NextLba(es), Chunks(data), table)), es[|es| - 1].start) == Chunk(data, 0)
  {
    FullPlanData(d, NextLba(es), Chunks(data), table, 0);
  }

  /** And the next save puts its own first block exactly there. */
  lemma NextSaveTakesEmptyStart(d: Disk, op: Op, e: Entry)
    requires WellFormed(Table(d)) && op.Save? && op.data != [] && NewTable(d, op).Ok?
    requires Table(d) != [] && e == Table(d)[|Table(d)| - 1] && e.count == 0
    ensures Get(Exec(d, op, |Plan(d, op)|), e.start) == Chunk(op.data, 0)
  {
    NextLbaIsBeyond(Table(d));
    ExecFull(d, op);
    FirstChunkLands(d, Table(d), op.data, Encode(NewTable(d, op).value));
  }

  lemma {:induction false} FirstMatchAppend(es: seq<Entry>, e: Entry, target: Text)
    requires FirstMatch(es, target).Some?
    ensures FirstMatch(es + [e], target) == FirstMatch(es, target)
  {
    if NameMatches(es[0].name, target) {
    } else {
      assert (es + [e])[1..] == es[1..] + [e];
      FirstMatchAppend(es[1..], e, target);
    }
  }

  /** The table after a completed save. */
  lemma SavedTable(d: Disk, op: Op)
    requires WellFormed(Table(d)) && CleanOp(op) && op.Save? && NewTable(d, op).Ok? && Fits(NewTable(d, op).value)
    ensures var d' := Exec(d, op, |Plan(d, op)|);
            && WellFormed(Table(d'))
            && Table(d') == Table(d) + [Entry(op.name, NextLba(Table(d)), BlocksNeeded(|op.data|))]
  {
    NewTableWellFormed(d, op);
    FullLeavesTable(d, op, |Plan(d, op)|);
    ReadWrittenTable(NewTable(d, op).value);
  }

  /**
    Once the next file is saved, the empty one before it is that file's alias: its script rules
    reading, deleting and renaming the empty file, and a read returns the other's first block.
   */
  lemma EmptyFileServesNeighbour(d: Disk, op: Op, e: Entry, newName: Text, ctx: Context)
    requires WellFormed(Table(d)) && CleanOp(op) && op.Save? && op.data != []
    requires NewTable(d, op).Ok? && Fits(NewTable(d, op).value)
    requires Table(d) != [] && e == Table(d)[|Table(d)| - 1] && e.count == 0
    requires FirstMatch(Table(d), e.name) == Some(e)
    ensures var d', gate := Exec(d, op, |Plan(d, op)|), Gate(Chunk(op.data, 0), ctx);
            && ReadFile(d', e.name, ctx) == (if gate.Err? then Err(gate.error) else Ok(Chunk(op.data, 0)[gate.value..]))
            && (NewTable(d', Delete(e.name, ctx)).Ok? <==> gate.Ok?)
            && (NewTable(d', Rename(e.name, newName, ctx)).Ok? <==> !Listed(Table(d'), newName) && gate.Ok?)
  {
    var d' := Exec(d, op, |Plan(d, op)|);
    SavedTable(d, op);
    FirstMatchAppend(Table(d), Table(d')[|Table(d)|], e.name);
    NextSaveTakesEmptyStart(d, op, e);
    ReadEmptyFile(d', e, ctx);
    DeleteAllowedIff(d', e, ctx);
    RenameAllowedIff(d', e, newName, ctx);
  }

  /** The run: save an empty "a", then any non-empty "b". */
  const NAME_A: Text := [97]
  const NAME_B: Text := [98]

  function AfterEmptySave(): Disk {
    Exec(BLANK, Save(NAME_A, []), |Plan(BLANK, Save(NAME_A, []))|)
  }

  lemma ShortTableFits(count: nat)
    requires count < U64_LIMIT
    ensures Fits([Entry(NAME_A, 1, 0)])
    ensures Fits([Entry(NAME_A, 1, 0)] + [Entry(NAME_B, 1, count)])
  {
    var a, b := Entry(NAME_A, 1, 0), Entry(NAME_B, 1, count);
    assert Digits(1) == [49] && Digits(0) == [48];
    U64Digits(count);
    assert PrintEntries([a]) == PrintEntry(a) + PrintEntries([]);
    assert PrintEntries([b]) == PrintEntry(b) + PrintEntries([]);
    PrintConcat([a], [b]);
  }

  lemma SecondSaveServes(d: Disk, data: Text, ctx: Context)
    requires Table(d) == [Entry(NAME_A, 1, 0)] && data != [] && BlocksNeeded(|data|) + 1 <= U64_LIMIT
    ensures var op, gate := Save(NAME_B, data), Gate(Chunk(data, 0), ctx);
            ReadFile(Exec(d, op, |Plan(d, op)|), NAME_A, ctx)
            == if gate.Err? then Err(gate.error) else Ok(Chunk(data, 0)[gate.value..])
  {
    var e := Entry(NAME_A, 1, 0);
    ShortTableFits(BlocksNeeded(|data|));
    SecondSave(d, data);
    assert NameMatches([e][0].name, NAME_A);
    EmptyFileServesNeighbour(d, Save(NAME_B, data), e, [], ctx);
  }

  /** After those two saves, reading "a" returns the start of "b". */
  lemma EmptyThenFull(data: Text, ctx: Context)
    requires data != [] && BlocksNeeded(|data|) + 1 <= U64_LIMIT
    ensures var d, op := AfterEmptySave(), Save(NAME_B, data);
            var gate := Gate(Chunk(data, 0), ctx);
            ReadFile(Exec(d, op, |Plan(d, op)|), NAME_A, ctx)
            == if gate.Err? then Err(gate.error) else Ok(Chunk(data, 0)[gate.value..])
  {
    ShortTableFits(0);
    BlankSave(NAME_A, []);
    SecondSaveServes(AfterEmptySave(), data, ctx);
  }

  lemma SecondSave(d: Disk, data: Text)
    requires Table(d) == [Entry(NAME_A, 1, 0)] && BlocksNeeded(|data|) + 1 <= U64_LIMIT
    ensures NewTable(d, Save(NAME_B, data)) == Ok([Entry(NAME_A, 1, 0)] + [Entry(NAME_B, 1, BlocksNeeded(|data|))])
  {
    var es := [Entry(NAME_A, 1, 0)];
    assert NAME_A[0] != NAME_B[0];
    assert Position(es, NAME_B) == 1;
    assert Edit(es, Save(NAME_B, data)) == Ok(es + [Entry(NAME_B, 1, BlocksNeeded(|data|))]);
  }

  /** A file whose script grants everything, with the payload byte 7. */
  const OPEN_FILE: Text := MAGIC + Zeros(72) + [1, 0, 0, 0] + Zeros(48) + [OP_HALT_OK, 7]

  lemma HaltGrants(ctx: Context)
    ensures Check([OP_HALT_OK], ctx).Ok?
  {
    assert Decode([OP_HALT_OK], 0, ctx) == Program([], Ok(()));
  }

  lemma OpenFileGate(ctx: Context)
    ensures |OPEN_FILE| == 130
    ensures Gate(Chunk(OPEN_FILE, 0), ctx) == Ok(129) && Chunk(OPEN_FILE, 0)[129] == 7
  {
    var block := Chunk(OPEN_FILE, 0);
    assert block == Pad(OPEN_FILE) by {
      assert OPEN_FILE[0..130] == OPEN_FILE;
    }
    assert block[..4] == MAGIC;
    assert block[76..80] == [1, 0, 0, 0];
    LittleEndianOne();
    assert block[128..129] == [OP_HALT_OK];
    HaltGrants(ctx);
  }

  lemma LittleEndianOne()
    ensures FromLittleEndian([1, 0, 0, 0]) == 1
  {
    assert Pow256(1) == 256 && Pow256(4) == 256 * Pow256(3);
    assert LittleEndian(0, 1) == [0] && LittleEndian(0, 2) == [0, 0] && LittleEndian(0, 3) == [0, 0, 0];
    assert LittleEndian(1, 4) == [1] + LittleEndian(0, 3);
    LittleEndianRoundTrip(1, 4);
  }

  /** Save an empty "a", save that file as "b": reading "a" returns what was stored in "b". */
  lemma EmptyFileReadsOther(ctx: Context)
    ensures var d, op := AfterEmptySave(), Save(NAME_B, OPEN_FILE);
            var r := ReadFile(Exec(d, op, |Plan(d, op)|), NAME_A, ctx);
            r.Ok? && [7] <= r.value
  {
    OpenFileGate(ctx);
    EmptyThenFull(OPEN_FILE, ctx);
  }

  // ---------------------------------------------------------------- names that do not fit

  /** What a one-entry table is read back as when its text does not fit. */
  lemma OneEntryCut(e: Entry)
    requires CleanEntry(e) && |Print([e])| > BLOCK_SIZE
    ensures var k := BLOCK_SIZE - |HEADER| - 1;
            k <= |LineOf(e)| && ReadMft(Encode([e])) == ParseText(LineOf(e)[..k])
  {
    assert PrintEntries([e]) == PrintEntry(e) + PrintEntries([]);
    assert PrintEntry(e) == LineOf(e) + [NEWLINE];
    ReadIsCut([e]);
    CutPrint([e], CutPoint([e]));
  }

  /** A save on a blank drive is reported done, but its file is not listed, exactly for names this long. */
  lemma LongNameIsLostIff(name: Text, data: Text)
    requires CleanName(name) && BlocksNeeded(|data|) + 1 <= U64_LIMIT
    ensures NewTable(BLANK, Save(name, data)).Ok?
    ensures Table(Exec(BLANK, Save(name, data), |Plan(BLANK, Save(name, data))|)) == [] <==> |name| >= 4086
  {
    var op, e := Save(name, data), Entry(name, 1, BlocksNeeded(|data|));
    BlankTable();
    assert Edit([], op) == Ok([] + [e]);
    assert [] + [e] == [e];
    FullLeavesTable(BLANK, op, |Plan(BLANK, op)|);
    OneEntryListedIff(e);
  }

  /** 4096 times the letter a. */
  const LONG_NAME: Text := seq(4096, _ => 97)

  lemma LongNameIsLost()
    ensures NewTable(BLANK, Save(LONG_NAME, [7])).Ok?
    ensures Table(Exec(BLANK, Save(LONG_NAME, [7]), |Plan(BLANK, Save(LONG_NAME, [7]))|)) == []
  {
    LongNameIsLostIff(LONG_NAME, [7]);
  }

  lemma OneEntryListedIff(e: Entry)
    requires CleanEntry(e) && e.start == 1
    ensures ReadMft(Encode([e])) == [] <==> |e.name| >= 4086
  {
    var k := BLOCK_SIZE - |HEADER| - 1;
    assert Digits(1) == [49];
    assert PrintEntries([e]) == PrintEntry(e) + PrintEntries([]);
    if |Print([e])| <= BLOCK_SIZE {
      ReadWrittenTable([e]);
    } else {
      OneEntryCut(e);
      LineOfBytes(e);
      ParseTextOne(LineOf(e)[..k]);
      CutEntryListedIff(e, k);
    }
  }

  /** A cut line is still an entry exactly when a digit of its count is left. */
  lemma CutEntryListedIff(e: Entry, k: nat)
    requires CleanEntry(e) && k <= |LineOf(e)|
    ensures ParseLine(LineOf(e)[..k]).Some? <==> k > |e.name| + |Digits(e.start)| + 2
  {
    var ds := Digits(e.start);
    var n := |e.name| + |ds| + 2;
    if k < n {
      NoCountNoEntry(e, k);
    } else {
      var c := Digits(e.count)[..k - n];
      assert LineOf(e)[..k] == e.name + [COLON] + ds + [COLON] + c;
      ParseFields(e.name, e.start, c);
      if c != [] {
        ParseCut(e.count, |c|);
      }
    }
  }
}
