/**
  MDO files as byte strings (kernel/src/mfs.rs): where the header keeps what, which script decides, and
  what a granted reader gets.
 */
module MfsGate {
  import opened Bytes
  import opened Disk
  import opened Mft
  import opened MdoVm
  import opened MdoScripts
  import opened MfsModel
  import opened MfsRead

  /** The layout: magic, 72 header bytes, script length, 48 header bytes, script, payload. */
  function MdoFile(head: Text, mid: Text, script: Text, payload: Text): Text
    requires |script| < 0x1_0000_0000
  {
    [0x4D, 0x44, 0x4F, 0x01] + head + LittleEndian(|script|, 4) + mid + script + payload
  }

  /** Which block gets which answer. */
  lemma GateOutcome(block: Block, ctx: Context)
    ensures var magic := block[0] == 0x4D && block[1] == 0x44 && block[2] == 0x4F && block[3] == 0x01;
            var len := (block[76] as int) + 256 * (block[77] as int)
                     + 65536 * (block[78] as int) + 16777216 * (block[79] as int);
            Gate(block, ctx) ==
            if !magic then Err(NotMdo)
            else if len > 3968 then Err(ScriptTooLarge)
            else if Check(block[128..128 + len], ctx).Ok? then Ok(128 + len)
            else Err(Denied)
  {
    LittleEndianFour(block[76..80]);
    assert block[..4] == [block[0], block[1], block[2], block[3]];
  }

  lemma FileFields(head: Text, mid: Text, script: Text, payload: Text)
    requires |head| == 72 && |mid| == 48 && |script| < 0x1_0000_0000
    ensures var f := MdoFile(head, mid, script, payload);
            && |f| == 128 + |script| + |payload| && f[..4] == [0x4D, 0x44, 0x4F, 0x01]
            && f[76..80] == LittleEndian(|script|, 4) && f[128..128 + |script|] == script
            && f[128 + |script|..] == payload
  {
  }

  /** A block that begins with such a file: its script alone decides. */
  lemma GateOfPrefix(block: Block, f: Text, len: nat, ctx: Context)
    requires len <= 3968 && 128 + len <= |f| && f[..128 + len] <= block
    requires f[..4] == [0x4D, 0x44, 0x4F, 0x01] && f[76..80] == LittleEndian(len, 4)
    ensures Gate(block, ctx) == if Check(f[128..128 + len], ctx).Ok? then Ok(128 + len) else Err(Denied)
  {
    assert block[..4] == f[..4] && block[76..80] == f[76..80];
    assert block[128..128 + len] == f[128..128 + len];
    assert Pow256(4) == 256 * Pow256(3) && Pow256(2) == 256 * Pow256(1);
    LittleEndianRoundTrip(len, 4);
  }

  /** The first block of a saved file begins with the file. */
  lemma FirstChunkPrefix(data: Text, n: nat)
    requires n <= |data| && n <= BLOCK_SIZE && data != []
    ensures data[..n] <= Chunk(data, 0)
  {
    var hi := if BLOCK_SIZE < |data| then BLOCK_SIZE else |data|;
    assert Chunk(data, 0) == Pad(data[0..hi]);
    assert data[0..hi][..n] == data[..n];
  }

  lemma GateOfSaved(head: Text, mid: Text, script: Text, payload: Text, ctx: Context)
    requires |head| == 72 && |mid| == 48 && |script| <= 3968
    ensures MdoFile(head, mid, script, payload) != []
    ensures Gate(Chunk(MdoFile(head, mid, script, payload), 0), ctx)
         == if Check(script, ctx).Ok? then Ok(128 + |script|) else Err(Denied)
  {
    var f := MdoFile(head, mid, script, payload);
    FileFields(head, mid, script, payload);
    FirstChunkPrefix(f, 128 + |script|);
    GateOfPrefix(Chunk(f, 0), f, |script|, ctx);
  }

  lemma PaddedPayload(head: Text, mid: Text, script: Text, payload: Text)
    requires |head| == 72 && |mid| == 48 && |script| <= 3968
    ensures var f := MdoFile(head, mid, script, payload);
            PadFile(f)[128 + |script|..] == payload + Zeros(BlocksNeeded(|f|) * BLOCK_SIZE - |f|)
  {
    var f := MdoFile(head, mid, script, payload);
    FileFields(head, mid, script, payload);
    assert (f + Zeros(BlocksNeeded(|f|) * BLOCK_SIZE - |f|))[128 + |script|..]
        == f[128 + |script|..] + Zeros(BlocksNeeded(|f|) * BLOCK_SIZE - |f|);
  }

  /**
    A file with any header bytes, script and payload, saved on a blank drive, is read back as its
    payload, zero filled, if its script grants the reader's context, and is denied otherwise.
   */
  lemma SavedFileReads(name: Text, head: Text, mid: Text, script: Text, payload: Text, ctx: Context)
    requires |head| == 72 && |mid| == 48 && |script| <= 3968 && CleanName(name)
    requires var n := BlocksNeeded(128 + |script| + |payload|); n + 1 <= U64_LIMIT && Fits([Entry(name, 1, n)])
    ensures var f := MdoFile(head, mid, script, payload);
            var d := Exec(BLANK, Save(name, f), |Plan(BLANK, Save(name, f))|);
            ReadFile(d, name, ctx)
            == if Check(script, ctx).Ok? then Ok(payload + Zeros(BlocksNeeded(|f|) * BLOCK_SIZE - |f|)) else Err(Denied)
  {
    var f := MdoFile(head, mid, script, payload);
    FileFields(head, mid, script, payload);
    GateOfSaved(head, mid, script, payload, ctx);
    PaddedPayload(head, mid, script, payload);
    BlankSaveReadsBack(name, f, ctx);
  }

  /** The file main.rs forges: owner field 0xAA, length 8, the vault script, then the secret. */
  function VaultFile(secret: Text): Text {
    [0x4D, 0x44, 0x4F, 0x01] + seq(32, _ => 0xAA) + Zeros(40) + [8, 0, 0, 0] + Zeros(48)
    + [0x10, 0x01, 0x10, 0x03, 0x20, 0x30, 0x42, 0x3F] + secret
  }

  lemma VaultFileIs(secret: Text)
    ensures VaultFile(secret)
         == MdoFile(seq(32, _ => 0xAA) + Zeros(40), Zeros(48), [0x10, 0x01, 0x10, 0x03, 0x20, 0x30, 0x42, 0x3F], secret)
  {
    LittleEndianEight();
  }

  lemma LittleEndianEight()
    ensures LittleEndian(8, 4) == [8, 0, 0, 0]
  {
    assert LittleEndian(0, 1) == [0] && LittleEndian(0, 2) == [0, 0] && LittleEndian(0, 3) == [0, 0, 0];
  }

  /** It is read back, from offset 136 on, exactly when requestor and owner of the reader's context agree. */
  lemma VaultReads(name: Text, secret: Text, ctx: Context)
    requires CleanName(name)
    requires var n := BlocksNeeded(136 + |secret|); n + 1 <= U64_LIMIT && Fits([Entry(name, 1, n)])
    ensures var f := VaultFile(secret);
            var d := Exec(BLANK, Save(name, f), |Plan(BLANK, Save(name, f))|);
            ReadFile(d, name, ctx)
            == if ctx.requestor == ctx.owner then Ok(PadFile(f)[136..]) else Err(Denied)
  {
    var head: Text := seq(32, _ => 0xAA) + Zeros(40);
    var script: Text := [0x10, 0x01, 0x10, 0x03, 0x20, 0x30, 0x42, 0x3F];
    VaultFileIs(secret);
    CompareVariables(1, 3, 0x20, 0x42, ctx);
    SavedFileReads(name, head, Zeros(48), script, secret, ctx);
    PaddedPayload(head, Zeros(48), script, secret);
  }
}
