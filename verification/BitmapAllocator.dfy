/**
  The kernel's global allocator (kernel/src/allocator/mict_global_allocator.rs): one heatmap bit per
  64-byte block, first fit by a single scan with alignment skipping.
 */
module BitmapAllocator {
  import opened Bytes
  import opened Arith

  const BLOCK_BYTES: nat := 64
  const MAX_HEAP_BLOCKS: nat := 500_000
  const HEATMAP_BYTES: nat := MAX_HEAP_BLOCKS / 8

  // ---------------------------------------------------------------- reference: runs of free bits

  predicate FreeRun(bits: seq<bool>, start: nat, len: nat) {
    start + len <= |bits| && forall j :: start <= j < start + len ==> !bits[j]
  }

  /** A request of `need` blocks can be placed at `start`. */
  predicate Fit(bits: seq<bool>, limit: nat, align: nat, need: nat, start: nat)
    requires align > 0
  {
    need > 0 && start % align == 0 && start + need <= limit && FreeRun(bits, start, need)
  }

  /** The simple search the scan is measured against: try every start in turn. */
  function LowestFit(bits: seq<bool>, limit: nat, align: nat, need: nat, from: nat): (r: Option<nat>)
    requires align > 0
    ensures r.Some? ==> from <= r.value && Fit(bits, limit, align, need, r.value)
    ensures r.Some? ==> forall s :: from <= s < r.value ==> !Fit(bits, limit, align, need, s)
    ensures r.None? ==> forall s :: from <= s ==> !Fit(bits, limit, align, need, s)
    decreases limit - from
  {
    if from >= limit then None
    else if Fit(bits, limit, align, need, from) then Some(from)
    else LowestFit(bits, limit, align, need, from + 1)
  }

  function SetRange(bits: seq<bool>, start: nat, len: nat, hot: bool): (r: seq<bool>)
    requires start + len <= |bits|
    ensures |r| == |bits|
  {
    seq(|bits|, i requires 0 <= i < |bits| => if start <= i < start + len then hot else bits[i])
  }

  /** Freeing what was just allocated restores every bit. */
  lemma FreeUndoesAlloc(bits: seq<bool>, start: nat, len: nat)
    requires FreeRun(bits, start, len)
    ensures SetRange(SetRange(bits, start, len, true), start, len, false) == bits
  {
  }

  function BlocksFor(size: nat): nat {
    (size + BLOCK_BYTES - 1) / BLOCK_BYTES
  }

  /** The blocks of a request cover its bytes, and one block less would not. */
  lemma BlocksCover(size: nat)
    ensures size <= BlocksFor(size) * BLOCK_BYTES < size + BLOCK_BYTES
  {
  }

  function AlignBlocks(align: nat): (a: nat)
    ensures a > 0
  {
    if align > BLOCK_BYTES then align / BLOCK_BYTES else 1
  }

  // ---------------------------------------------------------------- bit access

  /** 1 << k */
  function Mask(k: nat): bv8
    requires k < 8
  {
    match k
    case 0 => 0x01
    case 1 => 0x02
    case 2 => 0x04
    case 3 => 0x08
    case 4 => 0x10
    case 5 => 0x20
    case 6 => 0x40
    case _ => 0x80
  }

  predicate TestBit(b: bv8, k: nat)
    requires k < 8
  {
    b & Mask(k) != 0
  }

  /** Block i's bit is bit i % 8, counted from the low end, of byte i / 8. */
  lemma BitLayout(h: seq<bv8>, i: nat)
    requires i < 8 * |h|
    ensures BitsOf(h)[i] <==> h[i / 8] & ((1 as bv8) << (i % 8)) != 0
  {
  }

  lemma OrMask(b: bv8, j: nat, k: nat)
    requires j < 8 && k < 8
    ensures TestBit(b | Mask(j), k) == (j == k || TestBit(b, k))
  {
  }

  lemma AndNotMask(b: bv8, j: nat, k: nat)
    requires j < 8 && k < 8
    ensures TestBit(b & !Mask(j), k) == (j != k && TestBit(b, k))
  {
  }

  function BitsOf(h: seq<bv8>): (bits: seq<bool>)
    ensures |bits| == 8 * |h|
  {
    seq(8 * |h|, i requires 0 <= i < 8 * |h| => TestBit(h[i / 8], i % 8))
  }

  /** `fetch_or` with the mask, or `fetch_and` with its complement. */
  function WithBit(b: bv8, k: nat, hot: bool): bv8
    requires k < 8
  {
    if hot then b | Mask(k) else b & !Mask(k)
  }

  lemma WithBitTests(b: bv8, j: nat, hot: bool, k: nat)
    requires j < 8 && k < 8
    ensures TestBit(WithBit(b, j, hot), k) == if j == k then hot else TestBit(b, k)
  {
    OrMask(b, j, k);
    AndNotMask(b, j, k);
  }

  /** Changing one bit of one byte changes one block's bit. */
  lemma SetBitOf(h: seq<bv8>, idx: nat, hot: bool)
    requires idx < 8 * |h|
    ensures BitsOf(h[idx / 8 := WithBit(h[idx / 8], idx % 8, hot)]) == BitsOf(h)[idx := hot]
  {
    var h' := h[idx / 8 := WithBit(h[idx / 8], idx % 8, hot)];
    forall i | 0 <= i < 8 * |h|
      ensures BitsOf(h')[i] == BitsOf(h)[idx := hot][i]
    {
      WithBitTests(h[idx / 8], idx % 8, hot, i % 8);
    }
  }

  // ---------------------------------------------------------------- the allocator

  /** `IndexPanic` is the bounds check of the heatmap array failing. */
  datatype AllocResult = Address(addr: nat) | Null | IndexPanic

  /** The scan would run off the heatmap: some aligned start has only free bits up to its end. */
  ghost predicate RunsOff(bits: seq<bool>, total: nat, align: nat)
    requires align > 0
  {
    total > |bits| && exists s :: 0 <= s < total && OpenEnded(bits, align, s)
  }

  predicate OpenEnded(bits: seq<bool>, align: nat, s: nat)
    requires align > 0
  {
    s % align == 0 && forall j :: s <= j < |bits| ==> !bits[j]
  }

  /** What `alloc` answers: the lowest fitting start's address, null, or the failed bounds check. */
  ghost function Outcome(heapStart: nat, bits: seq<bool>, total: nat, size: nat, align: nat): AllocResult {
    match LowestFit(bits, Limit(total), AlignBlocks(align), BlocksFor(size), 0)
    case Some(start) => Address(heapStart + start * BLOCK_BYTES)
    case None => if RunsOff(bits, total, AlignBlocks(align)) then IndexPanic else Null
  }

  class MictGlobalAllocator {
    const heapStart: nat
    const heapSize: nat
    const heatmap: array<bv8>
    ghost var live: map<nat, Grant>

    ghost predicate Sized() {
      heatmap.Length == HEATMAP_BYTES
    }

    ghost function Bits(): (bits: seq<bool>)
      requires Sized()
      reads heatmap
      ensures |bits| == MAX_HEAP_BLOCKS
    {
      BitsOf(heatmap[..])
    }

    /** The blocks that both the heap and the heatmap have. */
    ghost function Blocks(): (n: nat)
      ensures n <= MAX_HEAP_BLOCKS
    {
      Limit(heapSize / BLOCK_BYTES)
    }

    ghost function View(): Heap
      requires Sized()
      reads this, heatmap
    {
      Heap(Bits(), live)
    }

    ghost predicate Valid()
      reads this, heatmap
    {
      Sized() && Exact(View(), Blocks())
    }

    /** `new` and `init` together. */
    constructor (heapStart: nat, heapSize: nat)
      ensures Valid() && fresh(heatmap) && View() == BLANK_HEAP
      ensures this.heapStart == heapStart && this.heapSize == heapSize
    {
      this.heapStart, this.heapSize := heapStart, heapSize;
      heatmap := new bv8[HEATMAP_BYTES](_ => 0);
      live := map[];
      new;
      assert forall k :: 0 <= k < 8 ==> !TestBit(0, k);
      assert Bits() == BLANK_HEAP.bits;
      BlankExact(Blocks());
    }

    method SetBit(idx: nat, hot: bool)
      requires Sized() && idx < MAX_HEAP_BLOCKS
      modifies heatmap
      ensures Bits() == old(Bits())[idx := hot]
    {
      SetBitOf(heatmap[..], idx, hot);
      heatmap[idx / 8] := WithBit(heatmap[idx / 8], idx % 8, hot);
      assert heatmap[..] == old(heatmap[..])[idx / 8 := WithBit(old(heatmap[idx / 8]), idx % 8, hot)];
    }

    method IsHot(idx: nat) returns (hot: bool)
      requires Sized() && idx < MAX_HEAP_BLOCKS
      ensures hot == Bits()[idx]
    {
      hot := heatmap[idx / 8] & Mask(idx % 8) != 0;
    }

    method SetBits(start: nat, len: nat, hot: bool)
      requires Sized() && start + len <= MAX_HEAP_BLOCKS
      modifies heatmap
      ensures Bits() == SetRange(old(Bits()), start, len, hot)
    {
      var j := 0;
      while j < len
        invariant 0 <= j <= len
        invariant Bits() == SetRange(old(Bits()), start, j, hot)
      {
        SetBit(start + j, hot);
        j := j + 1;
      }
    }

    /** The scan of `alloc`, without its effect: the found start, or the reason there is none. */
    method Scan(need: nat, align: nat, total: nat) returns (found: Option<nat>, panic: bool)
      requires Sized() && align > 0
      ensures found == LowestFit(Bits(), Limit(total), align, need, 0)
      ensures panic <==> found.None? && RunsOff(Bits(), total, align)
    {
      ghost var bits := Bits();
      var consecutive, start := 0, 0;
      var i := 0;
      while i < total
        invariant 0 <= i <= total
        invariant consecutive > 0 ==> start + consecutive == i && start % align == 0 && FreeRun(bits, start, consecutive)
        invariant need == 0 || consecutive < need
        invariant Passed(bits, align, need, if consecutive > 0 then start else i, i)
      {
        ghost var frontier := if consecutive > 0 then start else i;
        if consecutive == 0 && i % align != 0 {
          PassUnaligned(bits, align, need, i);
          i := i + 1;
          continue;
        }
        if i >= MAX_HEAP_BLOCKS {
          NoFit(bits, Limit(total), align, need, frontier, i);
          assert OpenEnded(bits, align, frontier);
          return None, true;
        }
        var hot := IsHot(i);
        if hot {
          PassHot(bits, align, need, frontier, i);
          consecutive := 0;
        } else {
          PassFree(bits, align, need, frontier, i);
          if consecutive == 0 {
            start := i;
          }
          GrowRun(bits, start, consecutive);
          consecutive := consecutive + 1;
          if consecutive == need {
            PassedHasNoFit(bits, Limit(total), align, need, start, i + 1);
            LowestFitIs(bits, Limit(total), align, need, start);
            return Some(start), false;
          }
        }
        i := i + 1;
      }
      ghost var frontier := if consecutive > 0 then start else i;
      NoFit(bits, Limit(total), align, need, frontier, i);
      PassedIsNotOpen(bits, align, need, frontier, i);
      return None, false;
    }

    /** Makes a fitting range hot and live. */
    method Claim(start: nat, need: nat, align: nat)
      requires Valid() && Fit(Bits(), Blocks(), AlignBlocks(align), need, start)
      modifies this`live, heatmap
      ensures Valid()
      ensures View() == Heap(SetRange(old(Bits()), start, need, true), old(live)[start := Grant(need, align)])
    {
      AllocateExact(View(), Blocks(), align, need, start);
      live := live[start := Grant(need, align)];
      SetBits(start, need, true);
    }

    /**
      `alloc`: the lowest aligned run of free blocks is claimed; null means there is none. With more
      heap blocks than heatmap bits the scan may run off the heatmap instead.
     */
    method Alloc(size: nat, align: nat) returns (r: AllocResult)
      requires Valid() && align > 0
      modifies this`live, heatmap
      ensures Valid() && View() == Serve(old(View()), Blocks(), Allocate(size, align))
      ensures r == Outcome(heapStart, old(Bits()), heapSize / BLOCK_BYTES, size, align)
      ensures r.Address? ==> heapStart <= r.addr && r.addr + size <= heapStart + heapSize
      ensures IsPowerOfTwo(align) && heapStart % align == 0 ==>
                && (r.Address? ==> Placeable(heapStart, heapSize, old(Bits()), size, align, r.addr))
                && forall a: nat :: Placeable(heapStart, heapSize, old(Bits()), size, align, a) ==>
                     r.Address? && r.addr <= a
    {
      if IsPowerOfTwo(align) && heapStart % align == 0 {
        LowestAddress(heapStart, heapSize, Bits(), size, align);
      }
      var need := BlocksFor(size);
      var found, panic := Scan(need, AlignBlocks(align), heapSize / BLOCK_BYTES);
      if found.None? {
        return if panic then IndexPanic else Null;
      }
      Claim(found.value, need, align);
      InHeap(heapStart, heapSize, found.value, size);
      return Address(heapStart + found.value * BLOCK_BYTES);
    }

    /** The loop of `dealloc`, up to the end of the heatmap. */
    method ClearBits(start: nat, len: nat) returns (ok: bool)
      requires Sized()
      modifies heatmap
      ensures Bits() == Cleared(old(Bits()), start, len)
      ensures ok <==> len == 0 || start + len <= MAX_HEAP_BLOCKS
    {
      var i := 0;
      while i < len
        invariant 0 <= i <= len && (i > 0 ==> start + i <= MAX_HEAP_BLOCKS)
        invariant Bits() == Cleared(old(Bits()), start, i)
      {
        if start + i >= MAX_HEAP_BLOCKS {
          return false;
        }
        SetBit(start + i, false);
        i := i + 1;
      }
      return true;
    }

    /** The pointer was handed out for this many blocks and has not been freed since. */
    ghost predicate Matches(addr: nat, size: nat)
      reads this
    {
      exists start :: start in live && addr == heapStart + start * BLOCK_BYTES && BlocksFor(size) == live[start].blocks
    }

    /**
      `dealloc`: false is the panic, on a pointer outside the heap before anything happens, or at the
      end of the heatmap after the bits up to there have been cleared. For a matching pointer there is no
      panic, and exactly its grant is given back.
     */
    method Dealloc(addr: nat, size: nat) returns (ok: bool)
      requires Valid()
      modifies this`live, heatmap
      ensures ok <==> heapStart <= addr < heapStart + heapSize
                      && (size == 0 || (addr - heapStart) / BLOCK_BYTES + BlocksFor(size) <= MAX_HEAP_BLOCKS)
      ensures Sized() && Bits() == if heapStart <= addr < heapStart + heapSize
                                   then Cleared(old(Bits()), (addr - heapStart) / BLOCK_BYTES, BlocksFor(size))
                                   else old(Bits())
      ensures old(Matches(addr, size)) ==>
                && ok && Valid()
                && View() == Serve(old(View()), Blocks(), Free((addr - heapStart) / BLOCK_BYTES))
      ensures !old(Matches(addr, size)) ==> live == old(live)
    {
      ghost var before, matches := View(), Matches(addr, size);
      if matches {
        MatchedStart(before, heapStart, heapSize, addr, size);
      }
      if addr < heapStart || addr >= heapStart + heapSize {
        return false;
      }
      var start := (addr - heapStart) / BLOCK_BYTES;
      ok := ClearBits(start, BlocksFor(size));
      if matches {
        live := live - {start};
      }
    }
  }

  /** The bits with up to `len` of them from `start` on cleared, as far as there are any. */
  function Cleared(bits: seq<bool>, start: nat, len: nat): (r: seq<bool>)
    ensures |r| == |bits|
    ensures start + len <= |bits| ==> r == SetRange(bits, start, len, false)
  {
    seq(|bits|, i requires 0 <= i < |bits| => if start <= i < start + len then false else bits[i])
  }

  /** A fitting range lies in the heap's bytes. */
  lemma InHeap(heapStart: nat, heapSize: nat, start: nat, size: nat)
    requires start + BlocksFor(size) <= Limit(heapSize / BLOCK_BYTES)
    ensures heapStart + start * BLOCK_BYTES + size <= heapStart + heapSize
  {
  }

  /** The blocks the heatmap can speak about. */
  function Limit(total: nat): nat {
    if total <= MAX_HEAP_BLOCKS then total else MAX_HEAP_BLOCKS
  }

  // ---------------------------------------------------------------- why one pass is enough

  ghost predicate HotIn(bits: seq<bool>, lo: nat, hi: nat) {
    exists j :: lo <= j < hi && j < |bits| && bits[j]
  }

  /** Every aligned start below `frontier` is ruled out by a hot bit the scan has already met. */
  ghost predicate Passed(bits: seq<bool>, align: nat, need: nat, frontier: nat, i: nat)
    requires align > 0
  {
    forall s :: 0 <= s < frontier && s % align == 0 ==>
      HotIn(bits, s, i) && (need > 0 ==> HotIn(bits, s, s + need))
  }

  lemma GrowRun(bits: seq<bool>, start: nat, len: nat)
    requires start + len < |bits| && !bits[start + len] && (len > 0 ==> FreeRun(bits, start, len))
    ensures FreeRun(bits, start, len + 1)
  {
  }

  lemma LowestFitIs(bits: seq<bool>, limit: nat, align: nat, need: nat, start: nat)
    requires align > 0 && Fit(bits, limit, align, need, start)
    requires forall s :: 0 <= s < start ==> !Fit(bits, limit, align, need, s)
    ensures LowestFit(bits, limit, align, need, 0) == Some(start)
  {
  }

  /** No start below the frontier fits, and none from it on leaves enough room. */
  lemma NoFit(bits: seq<bool>, limit: nat, align: nat, need: nat, frontier: nat, i: nat)
    requires align > 0 && Passed(bits, align, need, frontier, i)
    requires need > 0 ==> frontier + need > limit
    ensures LowestFit(bits, limit, align, need, 0) == None
  {
    PassedHasNoFit(bits, limit, align, need, frontier, i);
  }

  lemma PassUnaligned(bits: seq<bool>, align: nat, need: nat, i: nat)
    requires align > 0 && i % align != 0 && Passed(bits, align, need, i, i)
    ensures Passed(bits, align, need, i + 1, i + 1)
  {
    PassFree(bits, align, need, i, i);
  }

  lemma PassFree(bits: seq<bool>, align: nat, need: nat, frontier: nat, i: nat)
    requires align > 0 && Passed(bits, align, need, frontier, i)
    ensures Passed(bits, align, need, frontier, i + 1)
  {
    forall s | 0 <= s < frontier && s % align == 0
      ensures HotIn(bits, s, i + 1)
    {
      assert HotIn(bits, s, i);
    }
  }

  /** A hot bit rules out every start from the current run on, not only the run's own start. */
  lemma PassHot(bits: seq<bool>, align: nat, need: nat, frontier: nat, i: nat)
    requires align > 0 && Passed(bits, align, need, frontier, i)
    requires frontier <= i < |bits| && bits[i] && (need > 0 ==> i < frontier + need)
    ensures Passed(bits, align, need, i + 1, i + 1)
  {
    forall s | 0 <= s < i + 1 && s % align == 0
      ensures HotIn(bits, s, i + 1) && (need > 0 ==> HotIn(bits, s, s + need))
    {
      if s < frontier {
        assert HotIn(bits, s, i);
      }
    }
  }

  lemma PassedHasNoFit(bits: seq<bool>, limit: nat, align: nat, need: nat, frontier: nat, i: nat)
    requires align > 0 && Passed(bits, align, need, frontier, i)
    ensures forall s :: 0 <= s < frontier ==> !Fit(bits, limit, align, need, s)
  {
    forall s | 0 <= s < frontier
      ensures !Fit(bits, limit, align, need, s)
    {
      if need > 0 && s % align == 0 {
        assert HotIn(bits, s, s + need);
      }
    }
  }

  lemma PassedIsNotOpen(bits: seq<bool>, align: nat, need: nat, frontier: nat, i: nat)
    requires align > 0 && Passed(bits, align, need, frontier, i)
    ensures forall s :: 0 <= s < frontier ==> !OpenEnded(bits, align, s)
  {
    forall s | 0 <= s < frontier
      ensures !OpenEnded(bits, align, s)
    {
      if s % align == 0 {
        assert HotIn(bits, s, i);
      }
    }
  }

  // ---------------------------------------------------------------- whole runs

  /** A power of two divides 64 or is a multiple of it. */
  lemma PowerOfTwoBlocks(align: nat) returns (m: nat)
    requires IsPowerOfTwo(align)
    ensures AlignBlocks(align) * BLOCK_BYTES == m * align
  {
    PowerCases(align);
    m := match align case 1 => 64 case 2 => 32 case 4 => 16 case 8 => 8 case 16 => 4 case 32 => 2 case _ => 1;
  }

  lemma FactorOut(q: nat, k: nat, m: nat, a: nat, align: nat)
    requires a * BLOCK_BYTES == m * align
    ensures q * align + (k * a) * BLOCK_BYTES == (q + k * m) * align
  {
    assert (k * a) * BLOCK_BYTES == k * (a * BLOCK_BYTES);
    assert k * (m * align) == (k * m) * align;
  }

  /** An aligned block index in an aligned heap is an aligned address. */
  lemma AddressIsAligned(heapStart: nat, start: nat, align: nat)
    requires IsPowerOfTwo(align) && heapStart % align == 0 && start % AlignBlocks(align) == 0
    ensures (heapStart + start * BLOCK_BYTES) % align == 0
  {
    var a := AlignBlocks(align);
    var m := PowerOfTwoBlocks(align);
    var q, k := heapStart / align, start / a;
    ExactQuotient(heapStart, align);
    ExactQuotient(start, a);
    FactorOut(q, k, m, a, align);
    DivModUnique(heapStart + start * BLOCK_BYTES, align, q + k * m, 0);
  }

  /** What was asked for: a number of blocks and the layout's alignment. */
  datatype Grant = Grant(blocks: nat, align: nat)

  /** The heatmap and, for the record, the live allocations by their first block. */
  datatype Heap = Heap(bits: seq<bool>, live: map<nat, Grant>)

  datatype Request = Allocate(size: nat, align: nat) | Free(start: nat)

  function Serve(h: Heap, total: nat, r: Request): Heap {
    match r
    case Allocate(size, align) =>
      var fit := LowestFit(h.bits, total, AlignBlocks(align), BlocksFor(size), 0);
      if fit.None? then h
      else Heap(SetRange(h.bits, fit.value, BlocksFor(size), true),
                h.live[fit.value := Grant(BlocksFor(size), align)])
    case Free(start) =>
      if start !in h.live || start + h.live[start].blocks > |h.bits| then h
      else Heap(SetRange(h.bits, start, h.live[start].blocks, false), h.live - {start})
  }

  function ServeAll(h: Heap, total: nat, rs: seq<Request>): Heap {
    if rs == [] then h else Serve(ServeAll(h, total, rs[..|rs| - 1]), total, rs[|rs| - 1])
  }

  predicate Owns(live: map<nat, Grant>, start: nat, i: nat) {
    start in live && start <= i < start + live[start].blocks
  }

  /** Live ranges lie in the heap, aligned as asked, are disjoint, and are exactly the hot bits. */
  ghost predicate Exact(h: Heap, total: nat) {
    && total <= |h.bits|
    && (forall s :: s in h.live ==>
          h.live[s].blocks > 0 && s + h.live[s].blocks <= total && s % AlignBlocks(h.live[s].align) == 0)
    && (forall s: nat, t: nat, i: nat :: Owns(h.live, s, i) && Owns(h.live, t, i) ==> s == t)
    && (forall i :: 0 <= i < |h.bits| ==> (h.bits[i] <==> exists s :: Owns(h.live, s, i)))
  }

  /** Nothing allocated. */
  const BLANK_HEAP: Heap := Heap(seq(MAX_HEAP_BLOCKS, _ => false), map[])

  lemma BlankExact(total: nat)
    requires total <= MAX_HEAP_BLOCKS
    ensures Exact(BLANK_HEAP, total)
  {
  }

  lemma AllocateExact(h: Heap, total: nat, align: nat, need: nat, start: nat)
    requires Exact(h, total) && Fit(h.bits, total, AlignBlocks(align), need, start)
    ensures Exact(Heap(SetRange(h.bits, start, need, true), h.live[start := Grant(need, align)]), total)
  {
    var h' := Heap(SetRange(h.bits, start, need, true), h.live[start := Grant(need, align)]);
    assert start !in h.live by {
      assert !h.bits[start];
      assert start in h.live ==> Owns(h.live, start, start);
    }
    forall s: nat, i: nat | Owns(h.live, s, i)
      ensures !(start <= i < start + need)
    {
      assert h.bits[i];
    }
    forall i | 0 <= i < |h'.bits|
      ensures h'.bits[i] <==> exists s :: Owns(h'.live, s, i)
    {
      if start <= i < start + need {
        assert Owns(h'.live, start, i);
      } else if h.bits[i] {
        var s :| Owns(h.live, s, i);
        assert Owns(h'.live, s, i);
      } else if s :| Owns(h'.live, s, i) {
        assert Owns(h.live, s, i);
      }
    }
    forall s: nat, t: nat, i: nat | Owns(h'.live, s, i) && Owns(h'.live, t, i)
      ensures s == t
    {
      assert s != start ==> Owns(h.live, s, i);
      assert t != start ==> Owns(h.live, t, i);
    }
  }

  lemma FreeExact(h: Heap, total: nat, start: nat)
    requires Exact(h, total) && start in h.live
    ensures start + h.live[start].blocks <= |h.bits|
    ensures Exact(Heap(SetRange(h.bits, start, h.live[start].blocks, false), h.live - {start}), total)
  {
    var h' := Heap(SetRange(h.bits, start, h.live[start].blocks, false), h.live - {start});
    forall s: nat, i: nat | Owns(h'.live, s, i)
      ensures Owns(h.live, s, i) && !Owns(h.live, start, i)
    {
      assert Owns(h.live, s, i);
    }
    forall i | 0 <= i < |h'.bits|
      ensures h'.bits[i] <==> exists s :: Owns(h'.live, s, i)
    {
      if h.bits[i] && !Owns(h.live, start, i) {
        var s :| Owns(h.live, s, i);
        assert Owns(h'.live, s, i);
      }
    }
  }

  lemma ServeExact(h: Heap, total: nat, r: Request)
    requires Exact(h, total)
    ensures Exact(Serve(h, total, r), total)
  {
    match r
    case Allocate(size, align) =>
      var fit := LowestFit(h.bits, total, AlignBlocks(align), BlocksFor(size), 0);
      if fit.Some? {
        AllocateExact(h, total, align, BlocksFor(size), fit.value);
      }
    case Free(start) =>
      if start in h.live {
        FreeExact(h, total, start);
      }
  }

  /** In every run of requests on a new heap the hot bits are exactly the disjoint union of the live ranges. */
  lemma {:induction false} EveryRunIsExact(total: nat, rs: seq<Request>)
    requires total <= MAX_HEAP_BLOCKS
    ensures Exact(ServeAll(BLANK_HEAP, total, rs), total)
  {
    if rs == [] {
      BlankExact(total);
    } else {
      EveryRunIsExact(total, rs[..|rs| - 1]);
      ServeExact(ServeAll(BLANK_HEAP, total, rs[..|rs| - 1]), total, rs[|rs| - 1]);
    }
  }

  /** Every live address in an aligned heap has the alignment it was requested with. */
  lemma LiveAddressesAligned(h: Heap, total: nat, heapStart: nat, s: nat)
    requires Exact(h, total) && s in h.live
    requires IsPowerOfTwo(h.live[s].align) && heapStart % h.live[s].align == 0
    ensures (heapStart + s * BLOCK_BYTES) % h.live[s].align == 0
  {
    AddressIsAligned(heapStart, s, h.live[s].align);
  }

  /** Live byte ranges lie in the heap and do not overlap. */
  lemma LiveBytesDisjoint(h: Heap, heapStart: nat, heapSize: nat, s: nat, t: nat)
    requires Exact(h, Limit(heapSize / BLOCK_BYTES)) && s in h.live && t in h.live && s < t
    ensures heapStart + (s + h.live[s].blocks) * BLOCK_BYTES <= heapStart + t * BLOCK_BYTES
    ensures heapStart + (t + h.live[t].blocks) * BLOCK_BYTES <= heapStart + heapSize
  {
    if t < s + h.live[s].blocks {
      assert Owns(h.live, s, t) && Owns(h.live, t, t);
    }
  }

  /** `dealloc` finds the start block of every address `alloc` hands out. */
  lemma AddressFindsStart(heapStart: nat, start: nat)
    ensures (heapStart + start * BLOCK_BYTES - heapStart) / BLOCK_BYTES == start
  {
    DivModUnique(start * BLOCK_BYTES, BLOCK_BYTES, start, 0);
  }

  /** A live address lies in the heap, its start block is the recorded one, and freeing it is in range. */
  lemma MatchedStart(h: Heap, heapStart: nat, heapSize: nat, addr: nat, size: nat)
    requires Exact(h, Limit(heapSize / BLOCK_BYTES))
    requires exists s :: s in h.live && addr == heapStart + s * BLOCK_BYTES && BlocksFor(size) == h.live[s].blocks
    ensures heapStart <= addr < heapStart + heapSize
    ensures var start := (addr - heapStart) / BLOCK_BYTES;
            && start in h.live && h.live[start].blocks == BlocksFor(size)
            && start + BlocksFor(size) <= |h.bits|
            && Exact(Heap(SetRange(h.bits, start, BlocksFor(size), false), h.live - {start}), Limit(heapSize / BLOCK_BYTES))
  {
    var s :| s in h.live && addr == heapStart + s * BLOCK_BYTES && BlocksFor(size) == h.live[s].blocks;
    AddressFindsStart(heapStart, s);
    FreeExact(h, Limit(heapSize / BLOCK_BYTES), s);
  }

  /** An allocation that finds room succeeds, and freeing it again restores heap and record. */
  lemma FreeUndoesAllocate(h: Heap, total: nat, size: nat, align: nat)
    requires Exact(h, total) && LowestFit(h.bits, total, AlignBlocks(align), BlocksFor(size), 0).Some?
    ensures var start := LowestFit(h.bits, total, AlignBlocks(align), BlocksFor(size), 0).value;
            Serve(Serve(h, total, Allocate(size, align)), total, Free(start)) == h
  {
    var need := BlocksFor(size);
    var start := LowestFit(h.bits, total, AlignBlocks(align), need, 0).value;
    assert start !in h.live by {
      assert !h.bits[start];
      assert start in h.live ==> Owns(h.live, start, start);
    }
    FreeUndoesAlloc(h.bits, start, need);
    assert h.live[start := Grant(need, align)] - {start} == h.live;
  }

  // ---------------------------------------------------------------- allocation in addresses

  /** The request can be placed at address a: on a block, aligned as asked, all its blocks cold and in reach. */
  predicate Placeable(heapStart: nat, heapSize: nat, bits: seq<bool>, size: nat, align: nat, a: nat)
    requires align > 0
  {
    && size > 0 && a >= heapStart && (a - heapStart) % 64 == 0 && a % align == 0
    && var first, last := (a - heapStart) / 64, (a - heapStart) / 64 + (size + 63) / 64;
       && last <= |bits| && last <= heapSize / 64
       && forall j :: first <= j < last ==> !bits[j]
  }

  lemma ScaledMultiple(b: nat, k: nat)
    requires k > 0 && (b * 64) % (k * 64) == 0
    ensures b % k == 0
  {
    var n, m := b * 64, k * 64;
    ExactQuotient(n, m);
    var q := n / m;
    assert q * (k * 64) == (q * k) * 64;
    assert b == q * k;
    DivModUnique(b, k, q, 0);
  }

  lemma DropAligned(h: nat, x: nat, align: nat)
    requires align > 0 && h % align == 0 && (h + x) % align == 0
    ensures x % align == 0
  {
    var p, q := h / align, (h + x) / align;
    ExactQuotient(h, align);
    ExactQuotient(h + x, align);
    assert (q - p) * align == q * align - p * align;
    DivModUnique(x, align, q - p, 0);
  }

  /** In an aligned heap, block b has an aligned address exactly when its index is a multiple of the step. */
  lemma AlignedBlockIff(heapStart: nat, b: nat, align: nat)
    requires IsPowerOfTwo(align) && heapStart % align == 0
    ensures b % AlignBlocks(align) == 0 <==> (heapStart + b * 64) % align == 0
  {
    if b % AlignBlocks(align) == 0 {
      AddressIsAligned(heapStart, b, align);
    } else if (heapStart + b * 64) % align == 0 {
      DropAligned(heapStart, b * 64, align);
      PowerCases(align);
      ScaledMultiple(b, align / 64);
    }
  }

  /** Block b fits exactly when its address can take the request. */
  lemma PlaceableIff(heapStart: nat, heapSize: nat, bits: seq<bool>, size: nat, align: nat, b: nat)
    requires |bits| == MAX_HEAP_BLOCKS && IsPowerOfTwo(align) && heapStart % align == 0
    ensures Placeable(heapStart, heapSize, bits, size, align, heapStart + b * 64)
       <==> Fit(bits, Limit(heapSize / BLOCK_BYTES), AlignBlocks(align), BlocksFor(size), b)
  {
    AlignedBlockIff(heapStart, b, align);
    AddressFindsStart(heapStart, b);
    assert (b * 64) % 64 == 0;
  }

  /** `alloc` answers with the lowest address that can take the request, and with none only if there is none. */
  lemma LowestAddress(heapStart: nat, heapSize: nat, bits: seq<bool>, size: nat, align: nat)
    requires |bits| == 500_000 && IsPowerOfTwo(align) && heapStart % align == 0
    ensures var r := Outcome(heapStart, bits, heapSize / BLOCK_BYTES, size, align);
            && (r.Address? ==> Placeable(heapStart, heapSize, bits, size, align, r.addr))
            && forall a: nat :: Placeable(heapStart, heapSize, bits, size, align, a) ==> r.Address? && r.addr <= a
  {
    var r := Outcome(heapStart, bits, heapSize / BLOCK_BYTES, size, align);
    var fit := LowestFit(bits, Limit(heapSize / BLOCK_BYTES), AlignBlocks(align), BlocksFor(size), 0);
    if fit.Some? {
      PlaceableIff(heapStart, heapSize, bits, size, align, fit.value);
    }
    forall a: nat | Placeable(heapStart, heapSize, bits, size, align, a)
      ensures r.Address? && r.addr <= a
    {
      var b := (a - heapStart) / 64;
      assert a == heapStart + b * 64;
      PlaceableIff(heapStart, heapSize, bits, size, align, b);
    }
  }

  /** The kernel's HEAP_START is a multiple of 256 KiB and of no larger power of two. */
  const SHIPPED_START: nat := 0x4444_4444_0000

  lemma SmallShippedAlignment(b: nat, align: nat)
    requires IsPowerOfTwo(align) && b % AlignBlocks(align) == 0 && align <= 0x4_0000
    ensures (SHIPPED_START + b * 64) % align == 0
  {
    StartIsPower();
    PowerDivides(align, 0x4_0000);
    TransitiveMultiple(SHIPPED_START, 0x4_0000, align);
    AddressIsAligned(SHIPPED_START, b, align);
  }

  lemma LargeShippedAlignment(b: nat, align: nat)
    requires IsPowerOfTwo(align) && b % AlignBlocks(align) == 0 && align > 0x4_0000
    ensures (SHIPPED_START + b * 64) % align != 0
  {
    StartIsPower();
    PowerGap(0x4_0000, align);
    PowerDivides(0x8_0000, align);
    AddressIsAligned(0, b, align);
    if (SHIPPED_START + b * 64) % align == 0 {
      DropAligned(b * 64, SHIPPED_START, align);
      TransitiveMultiple(SHIPPED_START, align, 0x8_0000);
    }
  }

  /** What alloc hands out there is aligned as asked exactly for alignments up to 256 KiB. */
  lemma ShippedAlignedIff(bits: seq<bool>, total: nat, size: nat, align: nat)
    requires IsPowerOfTwo(align) && Outcome(SHIPPED_START, bits, total, size, align).Address?
    ensures Outcome(SHIPPED_START, bits, total, size, align).addr % align == 0 <==> align <= 0x4_0000
  {
    var b := LowestFit(bits, Limit(total), AlignBlocks(align), BlocksFor(size), 0).value;
    if align <= 0x4_0000 {
      SmallShippedAlignment(b, align);
    } else {
      LargeShippedAlignment(b, align);
    }
  }

  lemma StartIsPower()
    ensures IsPowerOfTwo(0x4_0000) && IsPowerOfTwo(0x8_0000)
  {
    assert Pow2(3) == 8 && Pow2(6) == 64 && Pow2(9) == 512 && Pow2(12) == 4_096 && Pow2(15) == 32_768;
    assert Pow2(18) == 0x4_0000 && Pow2(19) == 0x8_0000;
    Pow2IsPower(18);
    Pow2IsPower(19);
  }

  lemma TransitiveMultiple(n: nat, m: nat, d: nat)
    requires m > 0 && d > 0 && n % m == 0 && m % d == 0
    ensures n % d == 0
  {
    ExactQuotient(n, m);
    ExactQuotient(m, d);
    var q, c := n / m, m / d;
    assert q * (c * d) == (q * c) * d;
    DivModUnique(n, d, q * c, 0);
  }

  // ---------------------------------------------------------------- the shipped sizes

  /** The blocks of the 64 MiB heap the kernel starts with; the heatmap has fewer bits. */
  const SHIPPED_BLOCKS: nat := 64 * 1024 * 1024 / BLOCK_BYTES

  const HALF_HEAP: nat := 32 * 1024 * 1024
  const HALF_BLOCKS: nat := HALF_HEAP / BLOCK_BYTES

  lemma HalfBlocksIsPower()
    ensures IsPowerOfTwo(HALF_BLOCKS) && IsPowerOfTwo(HALF_HEAP)
  {
    assert Pow2(3) == 8 && Pow2(6) == 64 && Pow2(9) == 512 && Pow2(12) == 4_096 && Pow2(15) == 32_768;
    assert Pow2(17) == 131_072 && Pow2(19) == HALF_BLOCKS;
    assert Pow2(22) == 4_194_304 && Pow2(25) == HALF_HEAP;
    Pow2IsPower(19);
    Pow2IsPower(25);
  }

  lemma HalfIsPower(n: nat)
    requires IsPowerOfTwo(n) && n > 1
    ensures IsPowerOfTwo(n / 2)
  {
  }

  lemma AlignBlocksIsPower(align: nat)
    requires IsPowerOfTwo(align)
    ensures IsPowerOfTwo(AlignBlocks(align))
  {
    if align > BLOCK_BYTES {
      var a := align / 2;
      var b := a / 2;
      var c := b / 2;
      var d := c / 2;
      var e := d / 2;
      HalfIsPower(align);
      HalfIsPower(a);
      HalfIsPower(b);
      HalfIsPower(c);
      HalfIsPower(d);
      HalfIsPower(e);
      assert e / 2 == align / BLOCK_BYTES;
    }
  }

  /**
    Where the scan can run off the heatmap in the shipped heap: for every alignment up to 32 MiB,
    whatever the bits, and for a larger one only while nothing at all is allocated.
   */
  lemma ShippedSizesRunOff(bits: seq<bool>, align: nat)
    requires |bits| == MAX_HEAP_BLOCKS && IsPowerOfTwo(align)
    ensures RunsOff(bits, SHIPPED_BLOCKS, AlignBlocks(align))
       <==> align <= HALF_HEAP || forall j :: 0 <= j < |bits| ==> !bits[j]
  {
    var a := AlignBlocks(align);
    AlignBlocksIsPower(align);
    if align <= HALF_HEAP {
      HalfBlocksIsPower();
      PowerDivides(a, HALF_BLOCKS);
      assert OpenEnded(bits, a, HALF_BLOCKS);
    } else {
      LargeAlignment(align);
      DivModUnique(0, a, 0, 0);
      forall s | 0 < s < SHIPPED_BLOCKS
        ensures !OpenEnded(bits, a, s)
      {
        DivModUnique(s, a, 0, s);
      }
      assert OpenEnded(bits, a, 0) <==> forall j :: 0 <= j < |bits| ==> !bits[j];
    }
  }

  lemma LargeAlignment(align: nat)
    requires IsPowerOfTwo(align) && align > HALF_HEAP
    ensures AlignBlocks(align) >= SHIPPED_BLOCKS
  {
    HalfBlocksIsPower();
    PowerGap(HALF_HEAP, align);
  }

  /** So an allocation that finds no room in the shipped heap panics where null was meant. */
  lemma ShippedNullIff(heapStart: nat, bits: seq<bool>, size: nat, align: nat)
    requires |bits| == MAX_HEAP_BLOCKS && IsPowerOfTwo(align)
    ensures Outcome(heapStart, bits, SHIPPED_BLOCKS, size, align) == Null
       <==> && LowestFit(bits, MAX_HEAP_BLOCKS, AlignBlocks(align), BlocksFor(size), 0).None?
            && align > HALF_HEAP && exists j :: 0 <= j < |bits| && bits[j]
  {
    ShippedSizesRunOff(bits, align);
  }

  /** On the empty shipped heap every request above 32,000,000 bytes ends that way. */
  lemma BigRequestPanics(heapStart: nat, size: nat, align: nat)
    requires size > MAX_HEAP_BLOCKS * BLOCK_BYTES && IsPowerOfTwo(align)
    ensures Outcome(heapStart, BLANK_HEAP.bits, SHIPPED_BLOCKS, size, align) == IndexPanic
  {
    ShippedSizesRunOff(BLANK_HEAP.bits, align);
  }
}
