/**
  The file system of kernel/src/mfs.rs over the abstract drive: what each operation writes, in which
  order, and what a crash after any of those writes leaves behind.
 */
module MfsModel {
  import opened Bytes
  import opened Disk
  import opened Mft
  import opened MdoVm
  import Decimal

  datatype Error =
    | Offline | DeviceFault | AlreadyExists | NotFound | NotMdo | ScriptTooLarge | Denied | AddressOverflow

  // ---------------------------------------------------------------- the access gate

  const MAGIC: Text := [0x4D, 0x44, 0x4F, 0x01]
  const SCRIPT_START: nat := 128
  const SCRIPT_LIMIT: nat := 3968

  /** `verify_mdo_access` on the first block of a file: the payload offset, or the refusal. */
  function Gate(block: Block, ctx: Context): (r: Result<nat, Error>)
    ensures r.Ok? ==> SCRIPT_START <= r.value <= BLOCK_SIZE
    ensures r.Err? ==> r.error in {NotMdo, ScriptTooLarge, Denied}
    ensures r.Ok? ==> block[..4] == MAGIC && Check(block[SCRIPT_START..r.value], ctx).Ok?
  {
    if block[..4] != MAGIC then Err(NotMdo)
    else
      var len := FromLittleEndian(block[76..80]);
      if len > SCRIPT_LIMIT then Err(ScriptTooLarge)
      else if Check(block[SCRIPT_START..SCRIPT_START + len], ctx).Err? then Err(Denied)
      else Ok(SCRIPT_START + len)
  }

  // ---------------------------------------------------------------- what each operation writes

  function Table(d: Disk): seq<Entry> {
    ReadMft(Get(d, 0))
  }

  /** The position of the first entry called `name`, or |es|. */
  function Position(es: seq<Entry>, name: Text): (p: nat)
    ensures p <= |es|
    ensures forall i :: 0 <= i < p ==> es[i].name != name
    ensures p < |es| ==> es[p].name == name
  {
    if es == [] || es[0].name == name then 0 else 1 + Position(es[1..], name)
  }

  predicate Listed(es: seq<Entry>, name: Text) {
    Position(es, name) < |es|
  }

  function NextLba(es: seq<Entry>): nat {
    if es == [] then 1 else es[|es| - 1].start + es[|es| - 1].count
  }

  function BlocksNeeded(len: nat): nat {
    (len + (BLOCK_SIZE - 1)) / BLOCK_SIZE
  }

  lemma ChunkBounds(len: nat, i: nat)
    requires i < BlocksNeeded(len)
    ensures i * BLOCK_SIZE < len
  {
  }

  /** The i-th data block of a file, zero filled. */
  function Chunk(data: Text, i: nat): Block
    requires i < BlocksNeeded(|data|)
  {
    ChunkBounds(|data|, i);
    var lo := i * BLOCK_SIZE;
    var hi := if lo + BLOCK_SIZE < |data| then lo + BLOCK_SIZE else |data|;
    Pad(data[lo..hi])
  }

  function Chunks(data: Text): seq<Block> {
    seq(BlocksNeeded(|data|), i requires 0 <= i < BlocksNeeded(|data|) => Chunk(data, i))
  }

  /** Data blocks in ascending order from `start`, then the table block as the commit. */
  function WritePlan(start: nat, blocks: seq<Block>, table: Block): seq<Write> {
    seq(|blocks|, i requires 0 <= i < |blocks| => Write(start + i, blocks[i])) + [Write(0, table)]
  }

  datatype Op =
    | Save(name: Text, data: Text)
    | Delete(name: Text, ctx: Context)
    | Rename(name: Text, newName: Text, ctx: Context)

  /** The edit an operation makes to the table, or why it is refused before the gate is asked. */
  function Edit(es: seq<Entry>, op: Op): Result<seq<Entry>, Error> {
    match op
    case Save(name, data) =>
      if Listed(es, name) then Err(AlreadyExists)
      else if NextLba(es) >= U64_LIMIT || NextLba(es) + BlocksNeeded(|data|) > U64_LIMIT
              || BlocksNeeded(|data|) >= U64_LIMIT then Err(AddressOverflow)
      else Ok(es + [Entry(name, NextLba(es), BlocksNeeded(|data|))])
    case Delete(name, _) =>
      var p := Position(es, name);
      if p == |es| then Err(NotFound) else Ok(es[..p] + es[p + 1..])
    case Rename(name, newName, _) =>
      var p := Position(es, name);
      if Listed(es, newName) then Err(AlreadyExists)
      else if p == |es| then Err(NotFound)
      else Ok(es[p := es[p].(name := newName)])
  }

  /** The table an operation means to leave behind, once the gate of the named file has agreed. */
  function NewTable(d: Disk, op: Op): Result<seq<Entry>, Error> {
    var es := Table(d);
    var edit := Edit(es, op);
    if op.Save? || edit.Err? then edit
    else
      var gate := Gate(Get(d, es[Position(es, op.name)].start), op.ctx);
      if gate.Err? then Err(gate.error) else edit
  }

  function NewBlocks(op: Op): seq<Block> {
    if op.Save? then Chunks(op.data) else []
  }

  /** The block writes of an operation in order: data first, the table block last. */
  function Plan(d: Disk, op: Op): seq<Write> {
    match NewTable(d, op)
    case Err(_) => []
    case Ok(es) => WritePlan(NextLba(Table(d)), NewBlocks(op), Encode(es))
  }

  /** The drive when the machine stops after the first `k` writes of an operation. */
  function Exec(d: Disk, op: Op, k: nat): Disk {
    var ws := Plan(d, op);
    Apply(d, if k < |ws| then ws[..k] else ws)
  }

  /** A run: operations, each cut off after some number of its block writes. */
  datatype Event = Event(op: Op, writes: nat)

  function Run(d: Disk, trace: seq<Event>): Disk {
    if trace == [] then d
    else
      var last := trace[|trace| - 1];
      Exec(Run(d, trace[..|trace| - 1]), last.op, last.writes)
  }

  predicate CleanOp(op: Op) {
    match op
    case Save(name, _) => CleanName(name)
    case Delete(_, _) => true
    case Rename(_, newName, _) => CleanName(newName)
  }

  predicate CleanTrace(trace: seq<Event>) {
    forall i :: 0 <= i < |trace| ==> CleanOp(trace[i].op)
  }

  // ---------------------------------------------------------------- the table invariant

  predicate DistinctNames(es: seq<Entry>) {
    forall i, j :: 0 <= i < j < |es| ==> es[i].name != es[j].name
  }

  /** Extents start at block 1 or later and each ends before the next begins. */
  predicate OrderedExtents(es: seq<Entry>) {
    && (forall i :: 0 <= i < |es| ==> 1 <= es[i].start)
    && (forall i, j :: 0 <= i < j < |es| ==> es[i].start + es[i].count <= es[j].start)
  }

  predicate WellFormed(es: seq<Entry>) {
    CleanTable(es) && DistinctNames(es) && OrderedExtents(es)
  }

  lemma NextLbaIsBeyond(es: seq<Entry>)
    requires OrderedExtents(es)
    ensures 1 <= NextLba(es)
    ensures forall i :: 0 <= i < |es| ==> es[i].start + es[i].count <= NextLba(es)
  {
  }

  lemma AppendWellFormed(es: seq<Entry>, name: Text, count: nat)
    requires WellFormed(es) && CleanEntry(Entry(name, NextLba(es), count)) && !Listed(es, name)
    ensures WellFormed(es + [Entry(name, NextLba(es), count)])
  {
    NextLbaIsBeyond(es);
  }

  lemma RemoveWellFormed(es: seq<Entry>, p: nat)
    requires WellFormed(es) && p < |es|
    ensures WellFormed(es[..p] + es[p + 1..])
  {
    var rest := es[..p] + es[p + 1..];
    assert forall i :: 0 <= i < |rest| ==> rest[i] == es[if i < p then i else i + 1];
  }

  lemma RenameWellFormed(es: seq<Entry>, p: nat, newName: Text)
    requires WellFormed(es) && p < |es| && CleanName(newName) && !Listed(es, newName)
    ensures WellFormed(es[p := es[p].(name := newName)])
  {
  }

  lemma EditWellFormed(es: seq<Entry>, op: Op)
    requires WellFormed(es) && CleanOp(op) && Edit(es, op).Ok?
    ensures WellFormed(Edit(es, op).value)
  {
    match op
    case Save(name, data) =>
      assert Edit(es, op).value == es + [Entry(name, NextLba(es), BlocksNeeded(|data|))];
      AppendWellFormed(es, name, BlocksNeeded(|data|));
    case Delete(name, _) =>
      var p := Position(es, name);
      assert Edit(es, op).value == es[..p] + es[p + 1..];
      RemoveWellFormed(es, p);
    case Rename(name, newName, _) =>
      var p := Position(es, name);
      assert Edit(es, op).value == es[p := es[p].(name := newName)];
      RenameWellFormed(es, p, newName);
  }

  lemma NewTableWellFormed(d: Disk, op: Op)
    requires WellFormed(Table(d)) && CleanOp(op) && NewTable(d, op).Ok?
    ensures WellFormed(NewTable(d, op).value)
  {
    EditWellFormed(Table(d), op);
  }

  lemma CutWellFormed(got: seq<Entry>, es: seq<Entry>)
    requires WellFormed(es) && CutOf(got, es)
    ensures WellFormed(got)
  {
    if got != [] {
      Decimal.PrefixIsSmaller(got[|got| - 1].count, es[|got| - 1].count);
      forall i | 0 <= i < |got|
        ensures got[i].name == es[i].name && got[i].start == es[i].start && got[i].count <= es[i].count
      {
      }
    }
  }

  lemma WrittenTableWellFormed(es: seq<Entry>)
    requires WellFormed(es)
    ensures WellFormed(ReadMft(Encode(es)))
  {
    ReadWrittenTable(es);
    CutWellFormed(ReadMft(Encode(es)), es);
  }

  /** Data writes never touch block 0 or a block of a listed file. */
  lemma DataWritesAvoidListedFiles(d: Disk, op: Op, i: nat, e: Entry)
    requires WellFormed(Table(d))
    requires i + 1 < |Plan(d, op)| && e in Table(d)
    ensures Plan(d, op)[i].lba != 0
    ensures !(e.start <= Plan(d, op)[i].lba < e.start + e.count)
  {
    NextLbaIsBeyond(Table(d));
  }

  /** Until the table block lands, nothing before `start` changes. */
  lemma PartialPlanFrame(d: Disk, start: nat, blocks: seq<Block>, table: Block, k: nat, lba: nat)
    requires k <= |blocks| && lba < start
    ensures Get(Apply(d, WritePlan(start, blocks, table)[..k]), lba) == Get(d, lba)
  {
    ApplyFrame(d, WritePlan(start, blocks, table)[..k], lba);
  }

  lemma FullPlanFrame(d: Disk, start: nat, blocks: seq<Block>, table: Block, lba: nat)
    requires 1 <= lba < start
    ensures Get(Apply(d, WritePlan(start, blocks, table)), lba) == Get(d, lba)
  {
    ApplyFrame(d, WritePlan(start, blocks, table), lba);
  }

  /** A finished plan has put the table in block 0 and every data block in its place. */
  lemma FullPlanTable(d: Disk, start: nat, blocks: seq<Block>, table: Block)
    ensures Get(Apply(d, WritePlan(start, blocks, table)), 0) == table
  {
    ApplyHit(d, WritePlan(start, blocks, table), |blocks|);
  }

  lemma FullPlanData(d: Disk, start: nat, blocks: seq<Block>, table: Block, i: nat)
    requires 1 <= start && i < |blocks|
    ensures Get(Apply(d, WritePlan(start, blocks, table)), start + i) == blocks[i]
  {
    ApplyHit(d, WritePlan(start, blocks, table), i);
  }

  lemma ExecFull(d: Disk, op: Op)
    requires NewTable(d, op).Ok?
    ensures Exec(d, op, |Plan(d, op)|)
         == Apply(d, WritePlan(NextLba(Table(d)), NewBlocks(op), Encode(NewTable(d, op).value)))
  {
  }

  lemma PartialKeepsTable(d: Disk, op: Op, k: nat)
    requires WellFormed(Table(d)) && k < |Plan(d, op)|
    ensures Table(Exec(d, op, k)) == Table(d)
  {
    NextLbaIsBeyond(Table(d));
    PartialPlanFrame(d, NextLba(Table(d)), NewBlocks(op), Encode(NewTable(d, op).value), k, 0);
  }

  lemma FullLeavesTable(d: Disk, op: Op, k: nat)
    requires NewTable(d, op).Ok? && k >= |Plan(d, op)|
    ensures Table(Exec(d, op, k)) == ReadMft(Encode(NewTable(d, op).value))
  {
    FullPlanTable(d, NextLba(Table(d)), NewBlocks(op), Encode(NewTable(d, op).value));
  }

  /** One operation, cut anywhere, keeps the table invariant, even when the text overflows. */
  lemma ExecKeepsTable(d: Disk, op: Op, k: nat)
    requires WellFormed(Table(d)) && CleanOp(op)
    ensures WellFormed(Table(Exec(d, op, k)))
  {
    if k < |Plan(d, op)| {
      PartialKeepsTable(d, op, k);
    } else if NewTable(d, op).Ok? {
      FullLeavesTable(d, op, k);
      NewTableWellFormed(d, op);
      WrittenTableWellFormed(NewTable(d, op).value);
    }
  }

  lemma BlankTable()
    ensures Table(BLANK) == []
  {
    assert IndexOf(Zeros(BLOCK_SIZE), NUL) == 0;
  }

  lemma {:induction false} RunKeepsTable(d: Disk, trace: seq<Event>)
    requires WellFormed(Table(d)) && CleanTrace(trace)
    ensures WellFormed(Table(Run(d, trace)))
  {
    if trace == [] {
    } else {
      RunKeepsTable(d, trace[..|trace| - 1]);
      ExecKeepsTable(Run(d, trace[..|trace| - 1]), trace[|trace| - 1].op, trace[|trace| - 1].writes);
    }
  }

  /** In every run from a blank drive, crashes included, names are distinct and extents disjoint. */
  lemma EveryRunIsWellFormed(trace: seq<Event>)
    requires CleanTrace(trace)
    ensures WellFormed(Table(Run(BLANK, trace)))
  {
    BlankTable();
    RunKeepsTable(BLANK, trace);
  }

  // ---------------------------------------------------------------- crash atomicity

  /** A file as its user sees it. */
  datatype File = File(name: Text, blocks: seq<Block>)

  function Extent(d: Disk, e: Entry): seq<Block> {
    seq<Block>(e.count, i requires 0 <= i => Get(d, e.start + i))
  }

  function FilesOf(d: Disk, es: seq<Entry>): seq<File> {
    seq(|es|, i requires 0 <= i < |es| => File(es[i].name, Extent(d, es[i])))
  }

  /** The files on a drive: names and contents in table order. */
  function Files(d: Disk): seq<File> {
    FilesOf(d, Table(d))
  }

  /** The reference file system: an ordered list of files, changed by one whole operation. */
  function FilesAfter(fs: seq<File>, op: Op): seq<File> {
    match op
    case Save(name, data) => fs + [File(name, Chunks(data))]
    case Delete(name, _) => RemoveFile(fs, name)
    case Rename(name, newName, _) => RenameFile(fs, name, newName)
  }

  function RemoveFile(fs: seq<File>, name: Text): seq<File> {
    if fs == [] then []
    else if fs[0].name == name then fs[1..]
    else [fs[0]] + RemoveFile(fs[1..], name)
  }

  function RenameFile(fs: seq<File>, name: Text, newName: Text): seq<File> {
    if fs == [] then []
    else if fs[0].name == name then [fs[0].(name := newName)] + fs[1..]
    else [fs[0]] + RenameFile(fs[1..], name, newName)
  }

  lemma {:induction false} RemoveFileAt(fs: seq<File>, name: Text, p: nat)
    requires p < |fs| && fs[p].name == name && forall i :: 0 <= i < p ==> fs[i].name != name
    ensures RemoveFile(fs, name) == fs[..p] + fs[p + 1..]
  {
    if p == 0 {
    } else {
      RemoveFileAt(fs[1..], name, p - 1);
    }
  }

  lemma {:induction false} RenameFileAt(fs: seq<File>, name: Text, newName: Text, p: nat)
    requires p < |fs| && fs[p].name == name && forall i :: 0 <= i < p ==> fs[i].name != name
    ensures RenameFile(fs, name, newName) == fs[p := fs[p].(name := newName)]
  {
    if p == 0 {
    } else {
      RenameFileAt(fs[1..], name, newName, p - 1);
    }
  }

  lemma ExtentFrame(d: Disk, d': Disk, e: Entry)
    requires forall lba :: e.start <= lba < e.start + e.count ==> Get(d', lba) == Get(d, lba)
    ensures Extent(d', e) == Extent(d, e)
  {
  }

  lemma FilesOfFrame(d: Disk, d': Disk, es: seq<Entry>)
    requires WellFormed(es)
    requires forall lba :: 1 <= lba < NextLba(es) ==> Get(d', lba) == Get(d, lba)
    ensures FilesOf(d', es) == FilesOf(d, es)
  {
    NextLbaIsBeyond(es);
    forall i | 0 <= i < |es|
      ensures Extent(d', es[i]) == Extent(d, es[i])
    {
      ExtentFrame(d, d', es[i]);
    }
  }

  lemma FilesOfAppend(d: Disk, es: seq<Entry>, e: Entry)
    ensures FilesOf(d, es + [e]) == FilesOf(d, es) + [File(e.name, Extent(d, e))]
  {
  }

  lemma FilesOfCut(d: Disk, es: seq<Entry>, p: nat)
    requires p < |es|
    ensures FilesOf(d, es[..p] + es[p + 1..]) == FilesOf(d, es)[..p] + FilesOf(d, es)[p + 1..]
  {
    var rest := es[..p] + es[p + 1..];
    assert forall i :: 0 <= i < |rest| ==> rest[i] == es[if i < p then i else i + 1];
  }

  lemma FilesOfRemove(d: Disk, es: seq<Entry>, name: Text)
    requires Listed(es, name)
    ensures var p := Position(es, name);
            FilesOf(d, es[..p] + es[p + 1..]) == RemoveFile(FilesOf(d, es), name)
  {
    var p := Position(es, name);
    RemoveFileAt(FilesOf(d, es), name, p);
    FilesOfCut(d, es, p);
  }

  lemma FilesOfRename(d: Disk, es: seq<Entry>, name: Text, newName: Text)
    requires Listed(es, name)
    ensures var p := Position(es, name);
            FilesOf(d, es[p := es[p].(name := newName)]) == RenameFile(FilesOf(d, es), name, newName)
  {
    var p := Position(es, name);
    RenameFileAt(FilesOf(d, es), name, newName, p);
    assert Extent(d, es[p].(name := newName)) == Extent(d, es[p]);
  }

  /** A plan cut before its last write changes no listed file. */
  lemma PartialKeepsFiles(d: Disk, es: seq<Entry>, blocks: seq<Block>, table: Block, k: nat)
    requires WellFormed(es) && k <= |blocks|
    ensures FilesOf(Apply(d, WritePlan(NextLba(es), blocks, table)[..k]), es) == FilesOf(d, es)
  {
    forall lba | 1 <= lba < NextLba(es)
      ensures Get(Apply(d, WritePlan(NextLba(es), blocks, table)[..k]), lba) == Get(d, lba)
    {
      PartialPlanFrame(d, NextLba(es), blocks, table, k, lba);
    }
    FilesOfFrame(d, Apply(d, WritePlan(NextLba(es), blocks, table)[..k]), es);
  }

  /** A finished plan changes no listed file either, and its data lies in the extent it allotted. */
  lemma FullKeepsFiles(d: Disk, es: seq<Entry>, blocks: seq<Block>, table: Block, name: Text)
    requires WellFormed(es)
    ensures var d' := Apply(d, WritePlan(NextLba(es), blocks, table));
            FilesOf(d', es) == FilesOf(d, es) && Extent(d', Entry(name, NextLba(es), |blocks|)) == blocks
  {
    var d' := Apply(d, WritePlan(NextLba(es), blocks, table));
    forall lba | 1 <= lba < NextLba(es)
      ensures Get(d', lba) == Get(d, lba)
    {
      FullPlanFrame(d, NextLba(es), blocks, table, lba);
    }
    FilesOfFrame(d, d', es);
    NextLbaIsBeyond(es);
    forall i | 0 <= i < |blocks|
      ensures Get(d', NextLba(es) + i) == blocks[i]
    {
      FullPlanData(d, NextLba(es), blocks, table, i);
    }
  }

  lemma FilesStep(d: Disk, d': Disk, es: seq<Entry>, op: Op)
    requires Edit(es, op).Ok?
    requires FilesOf(d', es) == FilesOf(d, es)
    requires op.Save? ==> Extent(d', Entry(op.name, NextLba(es), |NewBlocks(op)|)) == NewBlocks(op)
    ensures FilesOf(d', Edit(es, op).value) == FilesAfter(FilesOf(d, es), op)
  {
    match op
    case Save(name, data) => FilesOfAppend(d', es, Entry(name, NextLba(es), |Chunks(data)|));
    case Delete(name, _) => FilesOfRemove(d', es, name);
    case Rename(name, newName, _) => FilesOfRename(d', es, name, newName);
  }

  lemma CommittedFiles(d: Disk, op: Op, k: nat)
    requires WellFormed(Table(d)) && NewTable(d, op).Ok? && k >= |Plan(d, op)|
    ensures FilesOf(Exec(d, op, k), NewTable(d, op).value) == FilesAfter(Files(d), op)
  {
    FullKeepsFiles(d, Table(d), NewBlocks(op), Encode(NewTable(d, op).value), if op.Save? then op.name else []);
    FilesStep(d, Exec(d, op, k), Table(d), op);
  }

  /** The operation is allowed and all its writes, the table's included, reach the drive. */
  predicate Commits(d: Disk, op: Op, k: nat) {
    NewTable(d, op).Ok? && k >= |Plan(d, op)|
  }

  /**
    Crash atomicity. Stopping after any number of block writes leaves either all the old files with
    all their bytes, or exactly the files the whole operation produces.
   */
  lemma CrashAtomic(d: Disk, op: Op, k: nat)
    requires WellFormed(Table(d)) && CleanOp(op)
    requires Commits(d, op, k) ==> Fits(NewTable(d, op).value)
    ensures Files(Exec(d, op, k)) == if Commits(d, op, k) then FilesAfter(Files(d), op) else Files(d)
  {
    if NewTable(d, op).Ok? {
      var es' := NewTable(d, op).value;
      if k < |Plan(d, op)| {
        PartialKeepsTable(d, op, k);
        PartialKeepsFiles(d, Table(d), NewBlocks(op), Encode(es'), k);
      } else {
        FullLeavesTable(d, op, k);
        NewTableWellFormed(d, op);
        ReadWrittenTable(es');
        CommittedFiles(d, op, k);
      }
    }
  }

  /** Two tables that agree on names and starts and list the same files are the same table. */
  lemma SameFilesSameTable(d: Disk, got: seq<Entry>, es: seq<Entry>)
    requires CutOf(got, es) && FilesOf(d, got) == FilesOf(d, es)
    ensures got == es
  {
    assert |got| == |FilesOf(d, got)| == |es|;
    forall i | 0 <= i < |es|
      ensures got[i] == es[i]
    {
      assert FilesOf(d, got)[i] == FilesOf(d, es)[i];
      assert |Extent(d, got[i])| == got[i].count && |Extent(d, es[i])| == es[i].count;
    }
  }

  /** Every file on any drive has a clean name. */
  lemma ListedNamesAreClean(d: Disk, i: nat)
    requires i < |Files(d)|
    ensures CleanName(Files(d)[i].name)
  {
    ReadMftIsClean(Get(d, 0));
    assert CleanEntry(Table(d)[i]);
  }

  /** The files an operation should leave include the name it introduces. */
  lemma NewNameIsListed(d: Disk, op: Op) returns (i: nat)
    requires NewTable(d, op).Ok? && !op.Delete?
    ensures i < |FilesAfter(Files(d), op)|
    ensures FilesAfter(Files(d), op)[i].name == if op.Save? then op.name else op.newName
  {
    var es := Table(d);
    if op.Save? {
      i := |es|;
    } else {
      i := Position(es, op.name);
      RenameFileAt(FilesOf(d, es), op.name, op.newName, i);
    }
  }

  lemma EffectNeedsCleanName(d: Disk, op: Op, k: nat)
    requires NewTable(d, op).Ok? && Files(Exec(d, op, k)) == FilesAfter(Files(d), op)
    ensures CleanOp(op)
  {
    if !op.Delete? {
      var i := NewNameIsListed(d, op);
      ListedNamesAreClean(Exec(d, op, k), i);
    }
  }

  /** A completed operation has its whole effect exactly when its name is clean and the new table fits. */
  lemma CompleteIffFits(d: Disk, op: Op, k: nat)
    requires WellFormed(Table(d)) && Commits(d, op, k)
    ensures Files(Exec(d, op, k)) == FilesAfter(Files(d), op) <==> CleanOp(op) && Fits(NewTable(d, op).value)
  {
    var es' := NewTable(d, op).value;
    if CleanOp(op) && Fits(es') {
      CrashAtomic(d, op, k);
    } else if Files(Exec(d, op, k)) == FilesAfter(Files(d), op) {
      EffectNeedsCleanName(d, op, k);
      CommittedCut(d, op, k);
      SameFilesSameTable(Exec(d, op, k), ReadMft(Encode(es')), es');
      RoundTripIff(es');
    }
  }

  // ---------------------------------------------------------------- when the table overflows

  /** All files but the last are whole; the last keeps its name and a first part of its blocks. */
  predicate CutFiles(got: seq<File>, fs: seq<File>) {
    && |got| <= |fs|
    && (forall i :: 0 <= i < |got| - 1 ==> got[i] == fs[i])
    && (got != [] ==>
          got[|got| - 1].name == fs[|got| - 1].name && got[|got| - 1].blocks <= fs[|got| - 1].blocks)
  }

  lemma FilesOfCutTable(d: Disk, got: seq<Entry>, es: seq<Entry>)
    requires CutOf(got, es)
    ensures CutFiles(FilesOf(d, got), FilesOf(d, es))
  {
    if got != [] {
      var g, e := got[|got| - 1], es[|got| - 1];
      Decimal.PrefixIsSmaller(g.count, e.count);
      assert Extent(d, g) <= Extent(d, e);
    }
  }

  /**
    Crash safety without a bound on the table: a stop before the last write changes no file; after it
    the drive lists the files of the whole operation up to some point, where the last may have lost
    blocks.
   */
  lemma CrashLeavesCut(d: Disk, op: Op, k: nat)
    requires WellFormed(Table(d)) && CleanOp(op)
    ensures !Commits(d, op, k) ==> Files(Exec(d, op, k)) == Files(d)
    ensures Commits(d, op, k) ==> CutFiles(Files(Exec(d, op, k)), FilesAfter(Files(d), op))
  {
    if NewTable(d, op).Ok? {
      var es' := NewTable(d, op).value;
      if k < |Plan(d, op)| {
        PartialKeepsTable(d, op, k);
        PartialKeepsFiles(d, Table(d), NewBlocks(op), Encode(es'), k);
      } else {
        CommittedCut(d, op, k);
        FilesOfCutTable(Exec(d, op, k), ReadMft(Encode(es')), es');
      }
    }
  }

  lemma CommittedCut(d: Disk, op: Op, k: nat)
    requires WellFormed(Table(d)) && CleanOp(op) && Commits(d, op, k)
    ensures var es' := NewTable(d, op).value;
            && CutOf(ReadMft(Encode(es')), es')
            && Files(Exec(d, op, k)) == FilesOf(Exec(d, op, k), ReadMft(Encode(es')))
            && FilesOf(Exec(d, op, k), es') == FilesAfter(Files(d), op)
  {
    FullLeavesTable(d, op, k);
    NewTableWellFormed(d, op);
    ReadWrittenTable(NewTable(d, op).value);
    CommittedFiles(d, op, k);
  }

  /** The table line of the file called `name`, and all lines before it, lie in the block. */
  predicate LineFits(es: seq<Entry>, name: Text) {
    Listed(es, name) && Fits(es[..Position(es, name) + 1])
  }

  lemma CutNames(got: seq<Entry>, es: seq<Entry>, j: nat)
    requires CutOf(got, es) && j < |got|
    ensures got[j].name == es[j].name && got[j].start == es[j].start
    ensures forall k :: 0 <= k < j ==> got[k] == es[k]
  {
  }

  lemma KeptFileWasWhole(d: Disk, got: seq<Entry>, es: seq<Entry>, i: nat, j: nat)
    requires DistinctNames(es) && CutOf(got, es) && i < |es| && j < |got|
    requires FilesOf(d, got)[j] == FilesOf(d, es)[i]
    ensures i == j && es[..i + 1] <= got
  {
    CutNames(got, es, j);
    SameBlocksSameEntry(d, got[i], es[i]);
  }

  /** A file of a table is among the files of what was read back exactly when its entry was kept whole. */
  lemma KeptFileIff(d: Disk, got: seq<Entry>, es: seq<Entry>, f: File)
    requires DistinctNames(es) && CutOf(got, es) && f in FilesOf(d, es)
    ensures Listed(es, f.name)
    ensures f in FilesOf(d, got) <==> es[..Position(es, f.name) + 1] <= got
  {
    var i :| 0 <= i < |es| && FilesOf(d, es)[i] == f;
    assert es[i].name == f.name && Position(es, f.name) == i;
    if es[..i + 1] <= got {
      assert got[i] == es[..i + 1][i];
      assert FilesOf(d, got)[i] == f;
    } else if f in FilesOf(d, got) {
      var j :| 0 <= j < |got| && FilesOf(d, got)[j] == f;
      KeptFileWasWhole(d, got, es, i, j);
    }
  }

  lemma SameBlocksSameEntry(d: Disk, g: Entry, e: Entry)
    requires g.name == e.name && g.start == e.start && Extent(d, g) == Extent(d, e)
    ensures g == e
  {
    assert |Extent(d, g)| == g.count && |Extent(d, e)| == e.count;
  }

  lemma WrittenFileIff(d: Disk, es: seq<Entry>, f: File)
    requires WellFormed(es) && f in FilesOf(d, es)
    ensures f in FilesOf(d, ReadMft(Encode(es))) <==> LineFits(es, f.name)
  {
    ReadWrittenTable(es);
    KeptFileIff(d, ReadMft(Encode(es)), es, f);
    LinesSurviveIff(es, Position(es, f.name) + 1);
  }

  /** A committed operation keeps a file that it should leave if and only if that file's line fits. */
  lemma CommitKeepsFileIff(d: Disk, op: Op, k: nat, f: File)
    requires WellFormed(Table(d)) && CleanOp(op) && Commits(d, op, k) && f in FilesAfter(Files(d), op)
    ensures f in Files(Exec(d, op, k)) <==> LineFits(NewTable(d, op).value, f.name)
  {
    CommittedCut(d, op, k);
    NewTableWellFormed(d, op);
    WrittenFileIff(Exec(d, op, k), NewTable(d, op).value, f);
  }
}
