/**
  The operations of kernel/src/mfs.rs as they run, block by block, over the NVMe driver. Each one is
  proved to leave the drive where the corresponding plan of MfsModel, cut after some number of writes,
  leaves it; so every crash result proved there holds for the running code.
 */
module Mfs {
  import opened Bytes
  import opened Disk
  import opened Mft
  import opened MdoVm
  import opened MfsModel
  import opened MfsRead
  import opened Nvme

  ghost function Footprint(drive: NvmeController?): set<object> {
    if drive == null then {} else {drive, drive.ioSq, drive.ioCq}
  }

  ghost predicate Ready(drive: NvmeController?)
    reads Footprint(drive)
  {
    drive != null ==> drive.Valid()
  }

  /** `read_mft`: the parsed table, or a device error. */
  method ReadTable(drive: NvmeController?) returns (r: Result<seq<Entry>, Error>)
    requires Ready(drive)
    modifies Footprint(drive)
    ensures Ready(drive)
    ensures drive == null ==> r == Err(Offline)
    ensures drive != null ==> drive.disk == old(drive.disk)
    ensures drive != null ==> r == Err(DeviceFault) || r == Ok(Table(drive.disk))
    ensures drive != null ==> drive.faults == old(drive.faults) + (if r == Err(DeviceFault) then 1 else 0)
  {
    if drive == null {
      return Err(Offline);
    }
    var block := drive.ReadBlock(0);
    return match block case Err(_) => Err(DeviceFault) case Ok(b) => Ok(Mft.ReadMft(b));
  }

  lemma PrintNext(es: seq<Entry>, i: nat)
    requires i < |es|
    ensures Print(es[..i + 1]) == Print(es[..i]) + PrintEntry(es[i])
  {
    assert es[..i + 1] == es[..i] + [es[i]];
    PrintConcat(es[..i], [es[i]]);
    assert PrintEntries([es[i]]) == PrintEntry(es[i]) + PrintEntries([]);
    Assoc(HEADER + [NEWLINE], PrintEntries(es[..i]), PrintEntry(es[i]));
  }

  /** The table text, grown one entry at a time. */
  method FormatTable(es: seq<Entry>) returns (text: Text)
    ensures text == Print(es)
  {
    text := HEADER + [NEWLINE];
    for i := 0 to |es|
      invariant text == Print(es[..i])
    {
      PrintNext(es, i);
      text := text + PrintEntry(es[i]);
    }
    assert es[..|es|] == es;
  }

  /** `write_mft`: one block write of the printed table. */
  method WriteTable(drive: NvmeController?, es: seq<Entry>) returns (r: Result<(), Error>)
    requires Ready(drive)
    modifies Footprint(drive)
    ensures Ready(drive)
    ensures drive == null ==> r == Err(Offline)
    ensures drive != null ==> r == Ok(()) || r == Err(DeviceFault)
    ensures drive != null ==> drive.faults == old(drive.faults) + (if r == Err(DeviceFault) then 1 else 0)
    ensures drive != null ==> r.Ok? ==> drive.disk == old(drive.disk)[0 := Encode(es)]
    ensures drive != null ==> drive.disk == old(drive.disk) || drive.disk == old(drive.disk)[0 := Encode(es)]
  {
    if drive == null {
      return Err(Offline);
    }
    var text := FormatTable(es);
    var n := if |text| <= BLOCK_SIZE then |text| else BLOCK_SIZE;
    var buffer := text[..n] + Zeros(BLOCK_SIZE - n);
    assert buffer == Encode(es);
    assert Pad(buffer) == buffer;
    var done := drive.WriteBlock(0, buffer);
    return match done case Ok(_) => Ok(()) case Err(_) => Err(DeviceFault);
  }

  lemma ExecPrefix(d: Disk, op: Op, k: nat)
    requires k <= |Plan(d, op)|
    ensures Exec(d, op, k) == Apply(d, Plan(d, op)[..k])
  {
    if k == |Plan(d, op)| {
      assert Plan(d, op)[..k] == Plan(d, op);
    }
  }

  /** One more block write takes the drive from one cut of the plan to the next. */
  lemma ExecNext(d: Disk, op: Op, k: nat)
    requires k < |Plan(d, op)|
    ensures var w := Plan(d, op)[k];
            Exec(d, op, k + 1) == Exec(d, op, k)[w.lba := w.block]
  {
    ExecPrefix(d, op, k);
    ExecPrefix(d, op, k + 1);
    ApplyNext(d, Plan(d, op), k);
  }

  /** How an operation may end: `k` of its writes done, all of them on success. */
  ghost predicate Ended(before: Disk, after: Disk, op: Op, r: Result<(), Error>, k: nat) {
    && k <= |Plan(before, op)|
    && after == Exec(before, op, k)
    && (r.Ok? ==> NewTable(before, op).Ok? && k == |Plan(before, op)|)
    && (r.Err? && r.error != DeviceFault ==>
          NewTable(before, op).Err? && r.error == NewTable(before, op).error)
  }

  /** Refused by the table: nothing is written. */
  lemma EndsRefused(d: Disk, es: seq<Entry>, op: Op, e: Error)
    requires es == Table(d) && Edit(es, op) == Err(e)
    ensures Ended(d, d, op, Err(e), 0)
  {
  }

  /** Refused by the gate: nothing is written. */
  lemma EndsDenied(d: Disk, es: seq<Entry>, op: Op, e: Error)
    requires es == Table(d) && !op.Save? && Edit(es, op).Ok?
    requires Gate(Get(d, es[Position(es, op.name)].start), op.ctx) == Err(e)
    ensures Ended(d, d, op, Err(e), 0)
  {
  }

  /** A device error before the first write. */
  lemma EndsFaulted(d: Disk, op: Op)
    ensures Ended(d, d, op, Err(DeviceFault), 0)
  {
    ExecPrefix(d, op, 0);
  }

  lemma SavePlanned(d: Disk, es: seq<Entry>, name: Text, data: Text)
    requires es == Table(d) && Edit(es, Save(name, data)).Ok?
    ensures NewTable(d, Save(name, data)) == Edit(es, Save(name, data))
    ensures |Plan(d, Save(name, data))| == BlocksNeeded(|data|) + 1
    ensures forall i :: 0 <= i < BlocksNeeded(|data|) ==>
              Plan(d, Save(name, data))[i] == Write(NextLba(es) + i, Chunk(data, i))
  {
  }

  lemma GatedPlanned(d: Disk, es: seq<Entry>, op: Op)
    requires es == Table(d) && !op.Save? && Edit(es, op).Ok?
    requires Gate(Get(d, es[Position(es, op.name)].start), op.ctx).Ok?
    ensures NewTable(d, op) == Edit(es, op)
    ensures |Plan(d, op)| == 1 && Exec(d, op, 0) == d
  {
    ExecPrefix(d, op, 0);
  }

  /** The commit step shared by all three operations: the table write is the last of the plan. */
  method Commit(drive: NvmeController, ghost before: Disk, ghost op: Op, es: seq<Entry>)
    returns (r: Result<(), Error>, ghost k: nat)
    requires drive.Valid()
    requires NewTable(before, op) == Ok(es)
    requires drive.disk == Exec(before, op, |Plan(before, op)| - 1)
    modifies Footprint(drive)
    ensures drive.Valid()
    ensures Ended(before, drive.disk, op, r, k)
    ensures drive.faults == old(drive.faults) + (if r == Err(DeviceFault) then 1 else 0)
  {
    ghost var n := |Plan(before, op)| - 1;
    ExecNext(before, op, n);
    r := WriteTable(drive, es);
    k := if drive.disk == Exec(before, op, n + 1) then n + 1 else n;
  }

  /** The data loop of `save_file`; a failing block write stops it before or just after that block. */
  method WriteData(drive: NvmeController, ghost before: Disk, ghost ws: seq<Write>, next: nat, data: Text)
    returns (r: Result<(), Error>, ghost k: nat)
    requires drive.Valid() && drive.disk == before
    requires next + BlocksNeeded(|data|) <= U64_LIMIT && BlocksNeeded(|data|) <= |ws|
    requires forall i :: 0 <= i < BlocksNeeded(|data|) ==> ws[i] == Write(next + i, Chunk(data, i))
    modifies Footprint(drive)
    ensures drive.Valid()
    ensures k <= BlocksNeeded(|data|) && drive.disk == Apply(before, ws[..k])
    ensures r == Ok(()) || r == Err(DeviceFault)
    ensures r.Ok? ==> k == BlocksNeeded(|data|)
    ensures drive.faults == old(drive.faults) + (if r == Err(DeviceFault) then 1 else 0)
  {
    var blocks := BlocksNeeded(|data|);
    var i := 0;
    while i < blocks
      invariant 0 <= i <= blocks
      invariant drive.Valid()
      invariant drive.disk == Apply(before, ws[..i]) && drive.faults == old(drive.faults)
    {
      ChunkBounds(|data|, i);
      var offset := i * BLOCK_SIZE;
      var chunkEnd := if offset + BLOCK_SIZE < |data| then offset + BLOCK_SIZE else |data|;
      assert ws[i] == Write(next + i, Pad(data[offset..chunkEnd]));
      ApplyNext(before, ws, i);
      var done := drive.WriteBlock(next + i, data[offset..chunkEnd]);
      if done.Err? {
        return Err(DeviceFault), if drive.disk == Apply(before, ws[..i]) then i else i + 1;
      }
      i := i + 1;
    }
    return Ok(()), i;
  }

  /** `save_file` once the table is known. */
  method SaveListed(drive: NvmeController, es: seq<Entry>, name: Text, data: Text)
    returns (r: Result<(), Error>, ghost k: nat)
    requires drive.Valid() && es == Table(drive.disk)
    modifies Footprint(drive)
    ensures drive.Valid()
    ensures Ended(old(drive.disk), drive.disk, Save(name, data), r, k)
    ensures drive.faults == old(drive.faults) + (if r == Err(DeviceFault) then 1 else 0)
  {
    ghost var before, op := drive.disk, Save(name, data);
    if Listed(es, name) {
      EndsRefused(before, es, op, AlreadyExists);
      return Err(AlreadyExists), 0;
    }
    var next := NextLba(es);
    var blocks := BlocksNeeded(|data|);
    if next >= U64_LIMIT || next + blocks > U64_LIMIT || blocks >= U64_LIMIT {
      EndsRefused(before, es, op, AddressOverflow);
      return Err(AddressOverflow), 0;
    }
    var es' := es + [Entry(name, next, blocks)];
    SavePlanned(before, es, name, data);
    var done;
    done, k := WriteData(drive, before, Plan(before, op), next, data);
    ExecPrefix(before, op, k);
    if done.Err? {
      return Err(DeviceFault), k;
    }
    r, k := Commit(drive, before, op, es');
  }

  /** `save_file`: refuse duplicates, write the data blocks in order, then commit the table. */
  method SaveFile(drive: NvmeController?, name: Text, data: Text) returns (r: Result<(), Error>, ghost k: nat)
    requires Ready(drive)
    modifies Footprint(drive)
    ensures Ready(drive)
    ensures drive == null ==> r == Err(Offline)
    ensures drive != null ==> Ended(old(drive.disk), drive.disk, Save(name, data), r, k)
    ensures drive != null ==> drive.faults == old(drive.faults) + (if r == Err(DeviceFault) then 1 else 0)
  {
    var table := ReadTable(drive);
    if table.Err? {
      if drive != null {
        EndsFaulted(drive.disk, Save(name, data));
      }
      return Err(table.error), 0;
    }
    r, k := SaveListed(drive, table.value, name, data);
  }

  /** `verify_mdo_access`: the gate over the block at `lba`. */
  method VerifyMdoAccess(drive: NvmeController, lba: nat, ctx: Context) returns (r: Result<nat, Error>)
    requires drive.Valid() && lba < U64_LIMIT
    modifies Footprint(drive)
    ensures drive.Valid() && drive.disk == old(drive.disk)
    ensures r == Err(DeviceFault) || r == Gate(Get(drive.disk, lba), ctx)
    ensures drive.faults == old(drive.faults) + (if r == Err(DeviceFault) then 1 else 0)
  {
    var read := drive.ReadBlock(lba);
    if read.Err? {
      return Err(DeviceFault);
    }
    var block := read.value;
    if block[0..4] != MAGIC {
      return Err(NotMdo);
    }
    var len := FromLittleEndian(block[76..80]);
    if len > SCRIPT_LIMIT {
      return Err(ScriptTooLarge);
    }
    var verdict := ExecuteMictCheck(block[SCRIPT_START..SCRIPT_START + len], ctx);
    return if verdict.Err? then Err(Denied) else Ok(SCRIPT_START + len);
  }

  /** The gate of the p-th entry, as the model asks it. */
  method AskGate(drive: NvmeController, es: seq<Entry>, p: nat, ctx: Context) returns (r: Result<nat, Error>)
    requires drive.Valid() && es == Table(drive.disk) && p < |es|
    modifies Footprint(drive)
    ensures drive.Valid() && drive.disk == old(drive.disk)
    ensures r == Err(DeviceFault) || r == Gate(Get(drive.disk, es[p].start), ctx)
    ensures drive.faults == old(drive.faults) + (if r == Err(DeviceFault) then 1 else 0)
  {
    ReadMftIsClean(Get(drive.disk, 0));
    r := VerifyMdoAccess(drive, es[p].start, ctx);
  }

  /** The part `delete_file` and `rename_file` share: the gate first, then the edited table. */
  method GatedCommit(drive: NvmeController, es: seq<Entry>, p: nat, ctx: Context, ghost op: Op, es': seq<Entry>)
    returns (r: Result<(), Error>, ghost k: nat)
    requires drive.Valid() && es == Table(drive.disk) && p < |es|
    requires !op.Save? && op.ctx == ctx && p == Position(es, op.name) && Edit(es, op) == Ok(es')
    modifies Footprint(drive)
    ensures drive.Valid()
    ensures Ended(old(drive.disk), drive.disk, op, r, k)
    ensures drive.faults == old(drive.faults) + (if r == Err(DeviceFault) then 1 else 0)
  {
    ghost var before := drive.disk;
    var gate := AskGate(drive, es, p, ctx);
    if gate.Err? {
      if gate.error == DeviceFault {
        EndsFaulted(before, op);
      } else {
        EndsDenied(before, es, op, gate.error);
      }
      return Err(gate.error), 0;
    }
    GatedPlanned(before, es, op);
    r, k := Commit(drive, before, op, es');
  }

  /** `delete_file`: the entry goes if its own script allows it; the data stays where it was. */
  method DeleteFile(drive: NvmeController?, name: Text, ctx: Context) returns (r: Result<(), Error>, ghost k: nat)
    requires Ready(drive)
    modifies Footprint(drive)
    ensures Ready(drive)
    ensures drive == null ==> r == Err(Offline)
    ensures drive != null ==> Ended(old(drive.disk), drive.disk, Delete(name, ctx), r, k)
    ensures drive != null ==> drive.faults == old(drive.faults) + (if r == Err(DeviceFault) then 1 else 0)
  {
    var table := ReadTable(drive);
    if table.Err? {
      if drive != null {
        EndsFaulted(drive.disk, Delete(name, ctx));
      }
      return Err(table.error), 0;
    }
    var es := table.value;
    var p := Position(es, name);
    if p == |es| {
      EndsRefused(drive.disk, es, Delete(name, ctx), NotFound);
      return Err(NotFound), 0;
    }
    r, k := GatedCommit(drive, es, p, ctx, Delete(name, ctx), es[..p] + es[p + 1..]);
  }

  /** `rename_file`: refuse a taken target, ask the gate, commit the changed entry. */
  method RenameFile(drive: NvmeController?, name: Text, newName: Text, ctx: Context)
    returns (r: Result<(), Error>, ghost k: nat)
    requires Ready(drive)
    modifies Footprint(drive)
    ensures Ready(drive)
    ensures drive == null ==> r == Err(Offline)
    ensures drive != null ==> Ended(old(drive.disk), drive.disk, Rename(name, newName, ctx), r, k)
    ensures drive != null ==> drive.faults == old(drive.faults) + (if r == Err(DeviceFault) then 1 else 0)
  {
    ghost var op := Rename(name, newName, ctx);
    var table := ReadTable(drive);
    if table.Err? {
      if drive != null {
        EndsFaulted(drive.disk, op);
      }
      return Err(table.error), 0;
    }
    var es := table.value;
    if Listed(es, newName) {
      EndsRefused(drive.disk, es, op, AlreadyExists);
      return Err(AlreadyExists), 0;
    }
    var p := Position(es, name);
    if p == |es| {
      EndsRefused(drive.disk, es, op, NotFound);
      return Err(NotFound), 0;
    }
    r, k := GatedCommit(drive, es, p, ctx, op, es[p := es[p].(name := newName)]);
  }

  lemma FoundIsClean(block: Text, target: Text)
    ensures FindFile(block, target).Some? ==> CleanEntry(FindFile(block, target).value)
  {
    var text := CleanText(block);
    var lines := SkipFirst(Lines(text));
    LinesClean(text);
    ParsedEntriesClean(lines);
    FindIsFirstMatch(lines, target);
  }

  lemma ConcatNext(bs: seq<Block>, i: nat)
    requires i < |bs|
    ensures Concat(bs[..i + 1]) == Concat(bs[..i]) + bs[i]
  {
    assert bs[..i + 1][..i] == bs[..i];
  }

  lemma PayloadNext(first: Text, tail: seq<Block>, i: nat)
    requires i < |tail|
    ensures first + Concat(tail[..i + 1]) == first + Concat(tail[..i]) + tail[i]
  {
    ConcatNext(tail, i);
    Assoc(first, Concat(tail[..i]), tail[i]);
  }

  /** The payload loop of `read_file` over one entry whose gate has been passed. */
  method ReadPayload(drive: NvmeController, e: Entry, offset: nat) returns (r: Result<Text, Error>)
    requires drive.Valid() && e.start < U64_LIMIT && offset <= BLOCK_SIZE
    modifies Footprint(drive)
    ensures drive.Valid() && drive.disk == old(drive.disk)
    ensures r.Ok? ==> r.value == Get(drive.disk, e.start)[offset..] + Concat(TailBlocks(drive.disk, e))
    ensures r.Err? ==> r.error == DeviceFault || (r.error == AddressOverflow && e.start + e.count > U64_LIMIT)
    ensures drive.faults == old(drive.faults) + (if r == Err(DeviceFault) then 1 else 0)
  {
    ghost var disk := drive.disk;
    ghost var first := Get(disk, e.start)[offset..];
    ghost var tail := TailBlocks(disk, e);
    var read := drive.ReadBlock(e.start);
    if read.Err? {
      return Err(DeviceFault);
    }
    var data := read.value[offset..];
    assert tail[..0] == [];
    var i := 1;
    while i < e.count
      invariant 1 <= i && (i <= e.count || e.count == 0)
      invariant drive.Valid() && drive.disk == disk && drive.faults == old(drive.faults)
      invariant i - 1 <= |tail| && data == first + Concat(tail[..i - 1])
    {
      if e.start + i >= U64_LIMIT {
        return Err(AddressOverflow);
      }
      read := drive.ReadBlock(e.start + i);
      if read.Err? {
        return Err(DeviceFault);
      }
      PayloadNext(first, tail, i - 1);
      data := data + read.value;
      i := i + 1;
    }
    assert tail[..i - 1] == tail;
    return Ok(data);
  }

  /** The entry reaches past the last 64-bit block address. */
  predicate Unaddressable(e: Option<Entry>) {
    e.Some? && e.value.start + e.value.count > U64_LIMIT
  }

  /** The gate and payload part of `read_file`. */
  method ReadEntryFrom(drive: NvmeController, e: Entry, ctx: Context) returns (r: Result<Text, Error>)
    requires drive.Valid() && e.start < U64_LIMIT
    modifies Footprint(drive)
    ensures drive.Valid() && drive.disk == old(drive.disk)
    ensures r.Ok? ==> r == ReadEntry(drive.disk, e, ctx)
    ensures drive.faults == old(drive.faults) ==>
              r == ReadEntry(drive.disk, e, ctx) || (r == Err(AddressOverflow) && Unaddressable(Some(e)))
  {
    var gate := VerifyMdoAccess(drive, e.start, ctx);
    if gate.Err? {
      return Err(gate.error);
    }
    r := ReadPayload(drive, e, gate.value);
  }

  /** `read_file`: changes nothing, and returns data only as ReadFile says, script permitting. */
  method ReadFileFrom(drive: NvmeController?, target: Text, ctx: Context) returns (r: Result<Text, Error>)
    requires Ready(drive)
    modifies Footprint(drive)
    ensures Ready(drive)
    ensures drive != null ==> drive.disk == old(drive.disk)
    ensures drive != null ==> r.Ok? ==> r == ReadFile(drive.disk, target, ctx)
    ensures drive != null && drive.faults == old(drive.faults) ==>
              r == ReadFile(drive.disk, target, ctx)
              || (r == Err(AddressOverflow) && Unaddressable(FindFile(Get(drive.disk, 0), target)))
    ensures drive == null ==> r == Err(NotFound)
  {
    if drive == null {
      return Err(NotFound);
    }
    var table := drive.ReadBlock(0);
    if table.Err? {
      return Err(NotFound);
    }
    var found := FindFile(table.value, target);
    if found.None? {
      return Err(NotFound);
    }
    FoundIsClean(table.value, target);
    r := ReadEntryFrom(drive, found.value, ctx);
  }
}
