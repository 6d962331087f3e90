/** The abstract drive: one 4096-byte block per logical block address, zero where never written. */
module Disk {
  import opened Bytes

  const BLOCK_SIZE: nat := 4096

  type Block = b: Text | |b| == BLOCK_SIZE witness Zeros(BLOCK_SIZE)

  type Disk = map<nat, Block>

  const BLANK: Disk := map[]

  function Get(d: Disk, lba: nat): Block {
    if lba in d then d[lba] else Zeros(BLOCK_SIZE)
  }

  /** The payload followed by zeros up to the block size. */
  function Pad(data: Text): Block
    requires |data| <= BLOCK_SIZE
  {
    data + Zeros(BLOCK_SIZE - |data|)
  }

  datatype Write = Write(lba: nat, block: Block)

  /** The drive after the writes, in order. */
  function Apply(d: Disk, ws: seq<Write>): Disk {
    if ws == [] then d
    else
      var w := ws[|ws| - 1];
      Apply(d, ws[..|ws| - 1])[w.lba := w.block]
  }

  lemma ApplyNext(d: Disk, ws: seq<Write>, k: nat)
    requires k < |ws|
    ensures Apply(d, ws[..k + 1]) == Apply(d, ws[..k])[ws[k].lba := ws[k].block]
  {
    assert ws[..k + 1][..k] == ws[..k];
  }

  /** Addresses that no write names keep their block. */
  lemma {:induction false} ApplyFrame(d: Disk, ws: seq<Write>, lba: nat)
    requires forall i :: 0 <= i < |ws| ==> ws[i].lba != lba
    ensures Get(Apply(d, ws), lba) == Get(d, lba)
  {
    if ws == [] {
    } else {
      ApplyFrame(d, ws[..|ws| - 1], lba);
    }
  }

  /** With distinct addresses every written block is found where it was put. */
  lemma {:induction false} ApplyHit(d: Disk, ws: seq<Write>, i: nat)
    requires i < |ws|
    requires forall j :: i < j < |ws| ==> ws[j].lba != ws[i].lba
    ensures Get(Apply(d, ws), ws[i].lba) == ws[i].block
  {
    if i < |ws| - 1 {
      var init := ws[..|ws| - 1];
      assert init[i] == ws[i];
      ApplyHit(d, init, i);
    }
  }
}
