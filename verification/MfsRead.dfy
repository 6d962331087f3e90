/** Reading files back: `read_file`, and what it returns after any later operations on other files. */
module MfsRead {
  import opened Bytes
  import opened Disk
  import opened Mft
  import opened MdoVm
  import opened MfsModel

  function Concat(bs: seq<Block>): Text {
    if bs == [] then [] else Concat(bs[..|bs| - 1]) + bs[|bs| - 1]
  }

  /** The blocks after the first one of an extent. */
  function TailBlocks(d: Disk, e: Entry): seq<Block> {
    if e.count == 0 then [] else Extent(d, e)[1..]
  }

  /** The gated read of one entry: what follows the script in its first block, then the other blocks. */
  function ReadEntry(d: Disk, e: Entry, ctx: Context): Result<Text, Error> {
    var first := Get(d, e.start);
    match Gate(first, ctx)
    case Err(error) => Err(error)
    case Ok(offset) => Ok(first[offset..] + Concat(TailBlocks(d, e)))
  }

  /** `read_file`: look up, ask the gate in the file's first block, return what follows the script. */
  function ReadFile(d: Disk, target: Text, ctx: Context): Result<Text, Error> {
    match FindFile(Get(d, 0), target)
    case None => Err(NotFound)
    case Some(e) => ReadEntry(d, e, ctx)
  }

  // ---------------------------------------------------------------- zero padding

  function PadFile(data: Text): Text {
    data + Zeros(BlocksNeeded(|data|) * BLOCK_SIZE - |data|)
  }

  lemma {:induction false} ConcatAt(bs: seq<Block>, i: nat)
    requires i < |bs| * BLOCK_SIZE
    ensures |Concat(bs)| == |bs| * BLOCK_SIZE
    ensures Concat(bs)[i] == bs[i / BLOCK_SIZE][i % BLOCK_SIZE]
  {
    var n := |bs| - 1;
    if n == 0 {
    } else {
      ConcatAt(bs[..n], if i < n * BLOCK_SIZE then i else 0);
    }
  }

  /** Chopping a file into blocks and gluing them together only adds zeros at the end. */
  lemma ConcatChunks(data: Text)
    ensures Concat(Chunks(data)) == PadFile(data)
  {
    var n := BlocksNeeded(|data|);
    if n != 0 {
      ConcatAt(Chunks(data), 0);
    }
    forall i | 0 <= i < n * BLOCK_SIZE
      ensures Concat(Chunks(data))[i] == PadFile(data)[i]
    {
      ConcatAt(Chunks(data), i);
      ChunkAt(data, i);
    }
  }

  lemma ChunkAt(data: Text, i: nat)
    requires i < BlocksNeeded(|data|) * BLOCK_SIZE
    ensures Chunk(data, i / BLOCK_SIZE)[i % BLOCK_SIZE] == PadFile(data)[i]
  {
    var q, r := i / BLOCK_SIZE, i % BLOCK_SIZE;
    ChunkBounds(|data|, q);
    assert i == q * BLOCK_SIZE + r;
  }

  lemma {:induction false} ConcatCons(b: Block, bs: seq<Block>)
    ensures Concat([b] + bs) == b + Concat(bs)
  {
    if bs == [] {
      assert ([b] + bs)[..0] == [];
    } else {
      var n := |bs| - 1;
      assert ([b] + bs)[..|bs|] == [b] + bs[..n];
      ConcatCons(b, bs[..n]);
    }
  }

  // ---------------------------------------------------------------- one read

  /** On a table with entries, `read_file` reads the first entry whose name matches. */
  lemma ReadFirstMatch(d: Disk, target: Text, ctx: Context)
    requires FirstMatch(Table(d), target).Some?
    ensures ReadFile(d, target, ctx) == ReadEntry(d, FirstMatch(Table(d), target).value, ctx)
  {
    var block := Get(d, 0);
    assert HasHeader(CleanText(block));
    FindFileAgreesWithReadMft(block, target);
  }

  /** A non-empty entry gives its own bytes after the script, an empty one part of a foreign block. */
  lemma ReadEntryBytes(d: Disk, e: Entry, ctx: Context)
    ensures var first := Get(d, e.start);
            var gate := Gate(first, ctx);
            ReadEntry(d, e, ctx) ==
            if gate.Err? then Err(gate.error)
            else if e.count == 0 then Ok(first[gate.value..])
            else Ok(Concat(Extent(d, e))[gate.value..])
  {
    var first := Get(d, e.start);
    var gate := Gate(first, ctx);
    if e.count == 0 {
      assert gate.Ok? ==> first[gate.value..] + [] == first[gate.value..];
    } else {
      var bs := Extent(d, e);
      assert bs == [first] + bs[1..];
      ConcatCons(first, bs[1..]);
      assert gate.Ok? ==> (first + Concat(bs[1..]))[gate.value..] == first[gate.value..] + Concat(bs[1..]);
    }
  }

  // ---------------------------------------------------------------- survival

  /** The operation neither deletes nor renames the file called `name`. */
  predicate Spares(op: Op, name: Text) {
    op.Save? || op.name != name
  }

  /** No table that the run gets onto the drive overflows its block. */
  predicate FitsAll(d: Disk, trace: seq<Event>) {
    trace == [] ||
    var init, last := trace[..|trace| - 1], trace[|trace| - 1];
    && FitsAll(d, init)
    && (Commits(Run(d, init), last.op, last.writes) ==> Fits(NewTable(Run(d, init), last.op).value))
  }

  /** In every table that the run gets onto the drive, the line of the file called `name` fits. */
  predicate LineFitsAll(d: Disk, trace: seq<Event>, name: Text) {
    trace == [] ||
    var init, last := trace[..|trace| - 1], trace[|trace| - 1];
    && LineFitsAll(d, init, name)
    && (Commits(Run(d, init), last.op, last.writes) ==> LineFits(NewTable(Run(d, init), last.op).value, name))
  }

  lemma {:induction false} RemoveSpares(fs: seq<File>, name: Text, f: File)
    requires f in fs && f.name != name
    ensures f in RemoveFile(fs, name)
  {
    if fs[0] != f && fs[0].name != name {
      RemoveSpares(fs[1..], name, f);
    }
  }

  lemma {:induction false} RenameSpares(fs: seq<File>, name: Text, newName: Text, f: File)
    requires f in fs && f.name != name
    ensures f in RenameFile(fs, name, newName)
  {
    if fs[0] != f && fs[0].name != name {
      RenameSpares(fs[1..], name, newName, f);
    }
  }

  lemma StepSpares(fs: seq<File>, op: Op, f: File)
    requires f in fs && Spares(op, f.name)
    ensures f in FilesAfter(fs, op)
  {
    match op
    case Save(_, _) =>
    case Delete(name, _) => RemoveSpares(fs, name, f);
    case Rename(name, newName, _) => RenameSpares(fs, name, newName, f);
  }

  lemma StepSurvives(d: Disk, op: Op, k: nat, f: File)
    requires WellFormed(Table(d)) && CleanOp(op) && f in Files(d) && Spares(op, f.name)
    requires Commits(d, op, k) ==> LineFits(NewTable(d, op).value, f.name)
    ensures f in Files(Exec(d, op, k))
  {
    if Commits(d, op, k) {
      StepSpares(Files(d), op, f);
      CommitKeepsFileIff(d, op, k, f);
    } else {
      CrashLeavesCut(d, op, k);
    }
  }

  /**
    A file keeps its name and every byte through any run, crashes and overflowing tables included,
    that spares it and keeps its line in the block.
   */
  lemma {:induction false} FileSurvives(d: Disk, trace: seq<Event>, f: File)
    requires WellFormed(Table(d)) && CleanTrace(trace) && LineFitsAll(d, trace, f.name)
    requires f in Files(d)
    requires forall i :: 0 <= i < |trace| ==> Spares(trace[i].op, f.name)
    ensures f in Files(Run(d, trace))
  {
    if trace == [] {
    } else {
      var init, last := trace[..|trace| - 1], trace[|trace| - 1];
      FileSurvives(d, init, f);
      RunKeepsTable(d, init);
      StepSurvives(Run(d, init), last.op, last.writes, f);
    }
  }

  /** The operations of a run that were allowed and got all their writes onto the drive, in order. */
  function Committed(d: Disk, trace: seq<Event>): seq<Op> {
    if trace == [] then []
    else
      var init, last := trace[..|trace| - 1], trace[|trace| - 1];
      var before := Run(d, init);
      if Commits(before, last.op, last.writes)
      then Committed(d, init) + [last.op]
      else Committed(d, init)
  }

  function FilesAfterAll(fs: seq<File>, ops: seq<Op>): seq<File> {
    if ops == [] then fs else FilesAfter(FilesAfterAll(fs, ops[..|ops| - 1]), ops[|ops| - 1])
  }

  lemma FilesAfterLast(fs: seq<File>, ops: seq<Op>, op: Op)
    ensures FilesAfterAll(fs, ops + [op]) == FilesAfter(FilesAfterAll(fs, ops), op)
  {
    assert (ops + [op])[..|ops|] == ops;
  }

  /**
    Whole runs refine the reference file system: whatever the crashes, the drive holds exactly the
    files that the committed operations produce one after the other.
   */
  lemma {:induction false} RunRefinesReference(d: Disk, trace: seq<Event>)
    requires WellFormed(Table(d)) && CleanTrace(trace) && FitsAll(d, trace)
    ensures Files(Run(d, trace)) == FilesAfterAll(Files(d), Committed(d, trace))
  {
    if trace == [] {
    } else {
      var init, last := trace[..|trace| - 1], trace[|trace| - 1];
      RunRefinesReference(d, init);
      RunKeepsTable(d, init);
      CrashAtomic(Run(d, init), last.op, last.writes);
      FilesAfterLast(Files(d), Committed(d, init), last.op);
    }
  }

  // ---------------------------------------------------------------- which operations are allowed

  /** Some entry has exactly this name, byte for byte. */
  ghost predicate NameTaken(es: seq<Entry>, name: Text) {
    exists i :: 0 <= i < |es| && es[i].name == name
  }

  /** Entry p is the first with this name. */
  predicate FirstNamed(es: seq<Entry>, name: Text, p: nat) {
    p < |es| && es[p].name == name && forall i :: 0 <= i < p ==> es[i].name != name
  }

  lemma TakenIff(es: seq<Entry>, name: Text)
    ensures Listed(es, name) <==> NameTaken(es, name)
    ensures forall p :: FirstNamed(es, name, p) ==> Position(es, name) == p
  {
  }

  /**
    A save is refused exactly when the very name is taken or the extent does not fit below 2^64, and
    otherwise adds one entry, behind the last extent or at block 1, of (|data| + 4095) / 4096 blocks.
   */
  lemma SaveOutcome(d: Disk, name: Text, data: Text)
    ensures var es := Table(d);
            var start := if es == [] then 1 else es[|es| - 1].start + es[|es| - 1].count;
            var count := (|data| + 4095) / 4096;
            NewTable(d, Save(name, data)) ==
            if NameTaken(es, name) then Err(AlreadyExists)
            else if start >= 0x1_0000_0000_0000_0000 || start + count > 0x1_0000_0000_0000_0000
                    || count >= 0x1_0000_0000_0000_0000 then Err(AddressOverflow)
            else Ok(es + [Entry(name, start, count)])
  {
    TakenIff(Table(d), name);
  }

  lemma DeleteEdit(es: seq<Entry>, name: Text, ctx: Context, p: nat)
    ensures !NameTaken(es, name) ==> Edit(es, Delete(name, ctx)) == Err(NotFound)
    ensures FirstNamed(es, name, p) ==>
              Position(es, name) == p && Edit(es, Delete(name, ctx)) == Ok(es[..p] + es[p + 1..])
  {
    TakenIff(es, name);
  }

  lemma RenameEdit(es: seq<Entry>, name: Text, newName: Text, ctx: Context, p: nat)
    ensures NameTaken(es, newName) ==> Edit(es, Rename(name, newName, ctx)) == Err(AlreadyExists)
    ensures !NameTaken(es, newName) && !NameTaken(es, name) ==> Edit(es, Rename(name, newName, ctx)) == Err(NotFound)
    ensures FirstNamed(es, name, p) ==> Position(es, name) == p
    ensures !NameTaken(es, newName) && FirstNamed(es, name, p) ==>
              Edit(es, Rename(name, newName, ctx)) == Ok(es[p := Entry(newName, es[p].start, es[p].count)])
  {
    TakenIff(es, name);
    TakenIff(es, newName);
  }

  /** A delete is refused when there is no such name or by the gate, and otherwise removes one entry. */
  lemma DeleteOutcome(d: Disk, name: Text, ctx: Context, p: nat)
    ensures var es := Table(d);
            && (!NameTaken(es, name) ==> NewTable(d, Delete(name, ctx)) == Err(NotFound))
            && (FirstNamed(es, name, p) ==>
                  NewTable(d, Delete(name, ctx)) ==
                  var gate := Gate(Get(d, es[p].start), ctx);
                  if gate.Err? then Err(gate.error) else Ok(es[..p] + es[p + 1..]))
  {
    DeleteEdit(Table(d), name, ctx, p);
  }

  /** A rename asks for the new name first, then for the old one, then the gate, and changes one name. */
  lemma RenameOutcome(d: Disk, name: Text, newName: Text, ctx: Context, p: nat)
    ensures var es := Table(d);
            && (NameTaken(es, newName) ==> NewTable(d, Rename(name, newName, ctx)) == Err(AlreadyExists))
            && (!NameTaken(es, newName) && !NameTaken(es, name) ==>
                  NewTable(d, Rename(name, newName, ctx)) == Err(NotFound))
            && (!NameTaken(es, newName) && FirstNamed(es, name, p) ==>
                  NewTable(d, Rename(name, newName, ctx)) ==
                  var gate := Gate(Get(d, es[p].start), ctx);
                  if gate.Err? then Err(gate.error) else Ok(es[p := Entry(newName, es[p].start, es[p].count)]))
  {
    RenameEdit(Table(d), name, newName, ctx, p);
  }

  // ---------------------------------------------------------------- read back

  lemma ListedFileBlocks(d: Disk, f: File, e: Entry)
    requires WellFormed(Table(d)) && f in Files(d) && e in Table(d) && e.name == f.name
    ensures Extent(d, e) == f.blocks
  {
    var es := Table(d);
    var i :| 0 <= i < |es| && Files(d)[i] == f;
    var j :| 0 <= j < |es| && es[j] == e;
    assert i == j;
  }

  /** The block whose script rules a listed file: its own first one; an empty file has only a start. */
  function RulingBlock(d: Disk, e: Entry): Block {
    if e.count > 0 then Extent(d, e)[0] else Get(d, e.start)
  }

  lemma PositionOf(es: seq<Entry>, e: Entry)
    requires DistinctNames(es) && e in es
    ensures Listed(es, e.name) && es[Position(es, e.name)] == e
  {
    var i :| 0 <= i < |es| && es[i] == e;
    assert Position(es, e.name) == i;
  }

  lemma RulingBlockIs(d: Disk, e: Entry)
    ensures RulingBlock(d, e) == Get(d, e.start)
  {
  }

  lemma EditOfListed(es: seq<Entry>, e: Entry, newName: Text, ctx: Context)
    requires DistinctNames(es) && e in es
    ensures es[Position(es, e.name)] == e
    ensures Edit(es, Delete(e.name, ctx)).Ok?
    ensures Edit(es, Rename(e.name, newName, ctx)).Ok? <==> !Listed(es, newName)
  {
    PositionOf(es, e);
  }

  /** A listed file is deleted exactly when the script in its ruling block agrees. */
  lemma DeleteAllowedIff(d: Disk, e: Entry, ctx: Context)
    requires WellFormed(Table(d)) && e in Table(d)
    ensures NewTable(d, Delete(e.name, ctx)).Ok? <==> Gate(RulingBlock(d, e), ctx).Ok?
  {
    EditOfListed(Table(d), e, [], ctx);
    RulingBlockIs(d, e);
  }

  /** It is renamed exactly when the new name is free and that script agrees. */
  lemma RenameAllowedIff(d: Disk, e: Entry, newName: Text, ctx: Context)
    requires WellFormed(Table(d)) && e in Table(d)
    ensures NewTable(d, Rename(e.name, newName, ctx)).Ok?
       <==> !Listed(Table(d), newName) && Gate(RulingBlock(d, e), ctx).Ok?
  {
    EditOfListed(Table(d), e, newName, ctx);
    RulingBlockIs(d, e);
  }

  /**
    A committed save of non-empty data reads back, after any run that spares the file and keeps its line
    in the block, as the saved bytes zero filled to whole blocks, from the end of its script on, and only
    if the script in the file's own first block grants access.
   */
  lemma ReadBack(d: Disk, name: Text, data: Text, trace: seq<Event>, target: Text, ctx: Context)
    requires WellFormed(Table(d)) && CleanName(name) && data != []
    requires NewTable(d, Save(name, data)).Ok? && Fits(NewTable(d, Save(name, data)).value)
    requires var saved := Exec(d, Save(name, data), |Plan(d, Save(name, data))|);
             && CleanTrace(trace) && LineFitsAll(saved, trace, name)
             && (forall i :: 0 <= i < |trace| ==> Spares(trace[i].op, name))
             && FirstMatch(Table(Run(saved, trace)), target).Some?
             && FirstMatch(Table(Run(saved, trace)), target).value.name == name
    ensures var saved := Exec(d, Save(name, data), |Plan(d, Save(name, data))|);
            var gate := Gate(Chunk(data, 0), ctx);
            ReadFile(Run(saved, trace), target, ctx) ==
            if gate.Err? then Err(gate.error) else Ok(PadFile(data)[gate.value..])
  {
    var op := Save(name, data);
    var saved := Exec(d, op, |Plan(d, op)|);
    var f := File(name, Chunks(data));
    CrashAtomic(d, op, |Plan(d, op)|);
    assert f in Files(saved);
    ExecKeepsTable(d, op, |Plan(d, op)|);
    FileSurvives(saved, trace, f);
    RunKeepsTable(saved, trace);
    ReadSurvivor(Run(saved, trace), name, data, target, ctx);
  }

  lemma ReadOwnBlocks(d: Disk, e: Entry, data: Text, ctx: Context)
    requires data != [] && Extent(d, e) == Chunks(data)
    ensures var gate := Gate(Chunk(data, 0), ctx);
            ReadEntry(d, e, ctx) ==
            if gate.Err? then Err(gate.error) else Ok(PadFile(data)[gate.value..])
  {
    assert e.count == |Extent(d, e)| == BlocksNeeded(|data|);
    assert Extent(d, e)[0] == Get(d, e.start) == Chunk(data, 0);
    ReadEntryBytes(d, e, ctx);
    ConcatChunks(data);
  }

  lemma ReadSurvivor(d: Disk, name: Text, data: Text, target: Text, ctx: Context)
    requires WellFormed(Table(d)) && data != [] && File(name, Chunks(data)) in Files(d)
    requires FirstMatch(Table(d), target).Some? && FirstMatch(Table(d), target).value.name == name
    ensures var gate := Gate(Chunk(data, 0), ctx);
            ReadFile(d, target, ctx) ==
            if gate.Err? then Err(gate.error) else Ok(PadFile(data)[gate.value..])
  {
    var e := FirstMatch(Table(d), target).value;
    ListedFileBlocks(d, File(name, Chunks(data)), e);
    ReadFirstMatch(d, target, ctx);
    ReadOwnBlocks(d, e, data, ctx);
  }

  lemma BlankSave(name: Text, data: Text)
    requires CleanName(name) && BlocksNeeded(|data|) + 1 <= U64_LIMIT
    requires Fits([Entry(name, 1, BlocksNeeded(|data|))])
    ensures NewTable(BLANK, Save(name, data)) == Ok([Entry(name, 1, BlocksNeeded(|data|))])
    ensures Table(Exec(BLANK, Save(name, data), |Plan(BLANK, Save(name, data))|)) == [Entry(name, 1, BlocksNeeded(|data|))]
  {
    var op, e := Save(name, data), Entry(name, 1, BlocksNeeded(|data|));
    BlankTable();
    assert Edit([], op) == Ok([] + [e]);
    assert [] + [e] == [e];
    FullLeavesTable(BLANK, op, |Plan(BLANK, op)|);
    ReadWrittenTable([e]);
  }

  /** The simplest instance: a file saved on a blank drive reads back under its own name. */
  lemma BlankSaveReadsBack(name: Text, data: Text, ctx: Context)
    requires CleanName(name) && data != [] && BlocksNeeded(|data|) + 1 <= U64_LIMIT
    requires Fits([Entry(name, 1, BlocksNeeded(|data|))])
    ensures var op := Save(name, data);
            var gate := Gate(Chunk(data, 0), ctx);
            ReadFile(Exec(BLANK, op, |Plan(BLANK, op)|), name, ctx) ==
            if gate.Err? then Err(gate.error) else Ok(PadFile(data)[gate.value..])
  {
    var op := Save(name, data);
    BlankTable();
    BlankSave(name, data);
    assert NameMatches(name, name);
    assert Run(Exec(BLANK, op, |Plan(BLANK, op)|), []) == Exec(BLANK, op, |Plan(BLANK, op)|);
    ReadBack(BLANK, name, data, [], name, ctx);
  }
}
