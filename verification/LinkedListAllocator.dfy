/**
  The linked-list allocator of kernel/src/allocator/linked_list.rs: free regions are list nodes
  written into the free memory itself; an allocation takes the first suitable region and gives the
  rest of it back.
 */
module LinkedListAllocator {
  import opened Bytes
  import opened Arith

  const NODE_SIZE: nat := 16
  const NODE_ALIGN: nat := 8

  datatype Region = Region(start: nat, size: nat) {
    function End(): nat { start + size }
  }

  // ---------------------------------------------------------------- pure parts

  datatype Layout = Layout(size: nat, align: nat)

  predicate LayoutOk(l: Layout) {
    IsPowerOfTwo(l.align)
  }

  function MaxNat(a: nat, b: nat): nat { if a >= b then a else b }

  /** `size_align`: the layout grown so that the block can hold a list node once it is freed. */
  function SizeAlign(l: Layout): Layout
    requires LayoutOk(l)
  {
    var align := MaxNat(l.align, NODE_ALIGN);
    Layout(MaxNat(RoundUp(l.size, align), NODE_SIZE), align)
  }

  lemma SizeAlignFits(l: Layout)
    requires LayoutOk(l)
    ensures SizeAlign(l).size >= l.size && SizeAlign(l).align >= l.align && SizedOk(SizeAlign(l))
  {
    var align := MaxNat(l.align, NODE_ALIGN);
    if l.align >= NODE_ALIGN {
      EightDivides(l.align);
    }
    RoundedFits(l.size, align);
  }

  /** No smaller layout would do: the alignment is the larger of the request's and 8, the size the least such multiple. */
  lemma SizeAlignLeast(l: Layout, m: nat)
    requires LayoutOk(l) && m >= l.size && m >= 16
    ensures var a := SizeAlign(l);
            && a.align == (if l.align >= 8 then l.align else 8)
            && (a.size == 16 || a.size % a.align == 0)
            && (m % a.align == 0 ==> a.size <= m)
  {
    var align := MaxNat(l.align, NODE_ALIGN);
    RoundUpBounds(l.size, align);
    if m % align == 0 {
      RoundUpLeast(l.size, align, m);
    }
  }

  lemma RoundedFits(size: nat, align: nat)
    requires align > 0 && align % NODE_ALIGN == 0
    ensures var r := RoundUp(size, align); r >= size && r % NODE_ALIGN == 0
  {
    RoundUpBounds(size, align);
    MultipleOfEight(RoundUp(size, align), align);
  }

  /** `alloc_from_region`: where the block would start, unless the rest could not hold a node. */
  function AllocFromRegion(r: Region, size: nat, align: nat): Option<nat>
    requires align > 0
  {
    var start := RoundUp(r.start, align);
    if start + size >= U64_LIMIT then None
    else if start + size > r.End() then None
    else if 0 < r.End() - (start + size) < NODE_SIZE then None
    else Some(start)
  }

  /** A region serves a request exactly when the lowest aligned block in it leaves no unusable rest. */
  lemma RegionServesIff(r: Region, size: nat, align: nat, start: nat)
    requires align > 0 && r.start <= start < r.start + align && start % align == 0
    ensures AllocFromRegion(r, size, align) == Some(start)
       <==> start + size <= r.End() && start + size < 0x1_0000_0000_0000_0000
            && (r.End() == start + size || r.End() >= start + size + 16)
    ensures AllocFromRegion(r, size, align).None? || AllocFromRegion(r, size, align) == Some(start)
  {
    RoundUpUnique(r.start, align, start);
  }

  /** The position of the first suitable region, or the length of the list. */
  function FirstSuitable(free: seq<Region>, size: nat, align: nat): (k: nat)
    requires align > 0
    ensures k <= |free|
    ensures forall i :: 0 <= i < k ==> AllocFromRegion(free[i], size, align).None?
    ensures k < |free| ==> AllocFromRegion(free[k], size, align).Some?
  {
    if free == [] || AllocFromRegion(free[0], size, align).Some? then 0
    else 1 + FirstSuitable(free[1..], size, align)
  }

  function Remove(rs: seq<Region>, k: nat): seq<Region>
    requires k < |rs|
  {
    rs[..k] + rs[k + 1..]
  }

  // ---------------------------------------------------------------- the heap as regions

  /** Free regions in list order, live blocks, and the bytes lost to front padding. */
  datatype Heap = Heap(free: seq<Region>, live: seq<Region>, lost: nat)

  predicate Disjoint(a: Region, b: Region) {
    a.End() <= b.start || b.End() <= a.start
  }

  /** A region of the heap that starts on a node boundary and can hold a node. */
  predicate Usable(r: Region, lo: nat, hi: nat) {
    lo <= r.start && r.End() <= hi && r.start % NODE_ALIGN == 0 && r.size >= NODE_SIZE
  }

  predicate AllUsable(rs: seq<Region>, lo: nat, hi: nat) {
    forall i :: 0 <= i < |rs| ==> Usable(rs[i], lo, hi)
  }

  predicate Separate(rs: seq<Region>) {
    forall i, j :: 0 <= i < j < |rs| ==> Disjoint(rs[i], rs[j])
  }

  predicate Apart(xs: seq<Region>, ys: seq<Region>) {
    forall i, j :: 0 <= i < |xs| && 0 <= j < |ys| ==> Disjoint(xs[i], ys[j])
  }

  function TotalSize(rs: seq<Region>): nat {
    if rs == [] then 0 else rs[0].size + TotalSize(rs[1..])
  }

  /** Free and live regions are usable and pairwise disjoint, and every heap byte is accounted for. */
  predicate HeapInv(h: Heap, lo: nat, hi: nat) {
    && lo <= hi
    && AllUsable(h.free, lo, hi) && AllUsable(h.live, lo, hi)
    && Separate(h.free) && Separate(h.live) && Apart(h.free, h.live)
    && TotalSize(h.free) + TotalSize(h.live) + h.lost == hi - lo
  }

  /** The free list after region k has given up the block at `start`: the rest goes to the front. */
  function SplitFree(free: seq<Region>, k: nat, start: nat, size: nat): seq<Region>
    requires k < |free| && start + size <= free[k].End()
  {
    var rest := free[k].End() - (start + size);
    if rest > 0 then [Region(start + size, rest)] + Remove(free, k) else Remove(free, k)
  }

  /** A grown layout: what `size_align` returns. */
  predicate SizedOk(a: Layout) {
    a.align > 0 && a.align % NODE_ALIGN == 0 && a.size % NODE_ALIGN == 0 && a.size >= NODE_SIZE
  }

  /** `alloc` of an adjusted layout; the heap is unchanged when nothing fits. */
  function AfterSized(h: Heap, a: Layout): Heap
    requires SizedOk(a)
  {
    var k := FirstSuitable(h.free, a.size, a.align);
    if k == |h.free| then h
    else
      var start := AllocFromRegion(h.free[k], a.size, a.align).value;
      RoundUpBounds(h.free[k].start, a.align);
      Heap(SplitFree(h.free, k, start, a.size),
           h.live + [Region(start, a.size)],
           h.lost + (start - h.free[k].start))
  }

  /** The lowest aligned block of the region is at `start`, lies in it, and leaves nothing or room for a node. */
  predicate Serves(r: Region, size: nat, align: nat, start: nat)
    requires align > 0
  {
    && r.start <= start < r.start + align && start % align == 0 && start + size < 0x1_0000_0000_0000_0000
    && (start + size == r.start + r.size || start + size + 16 <= r.start + r.size)
  }

  lemma ServesIff(r: Region, size: nat, align: nat)
    requires align > 0
    ensures AllocFromRegion(r, size, align).Some? <==> exists start: nat :: Serves(r, size, align, start)
    ensures forall start: nat :: Serves(r, size, align, start) ==> AllocFromRegion(r, size, align) == Some(start)
  {
    RoundUpBounds(r.start, align);
    RegionServesIff(r, size, align, RoundUp(r.start, align));
    forall start: nat | Serves(r, size, align, start)
      ensures AllocFromRegion(r, size, align) == Some(start)
    {
      RegionServesIff(r, size, align, start);
    }
    assert AllocFromRegion(r, size, align).Some? ==> Serves(r, size, align, RoundUp(r.start, align));
  }

  /** An allocation cuts its block out of the first region of the list that serves it; the rest goes in front. */
  lemma AllocOutcome(h: Heap, a: Layout, k: nat, start: nat)
    requires SizedOk(a) && k < |h.free| && Serves(h.free[k], a.size, a.align, start)
    requires forall i, s: nat :: 0 <= i < k ==> !Serves(h.free[i], a.size, a.align, s)
    ensures var r, others := h.free[k], h.free[..k] + h.free[k + 1..];
            var rest := r.start + r.size - (start + a.size);
            && AfterSized(h, a).live == h.live + [Region(start, a.size)]
            && AfterSized(h, a).lost == h.lost + (start - r.start)
            && AfterSized(h, a).free == if rest == 0 then others else [Region(start + a.size, rest)] + others
  {
    ServesIff(h.free[k], a.size, a.align);
    forall i | 0 <= i < k
      ensures AllocFromRegion(h.free[i], a.size, a.align).None?
    {
      ServesIff(h.free[i], a.size, a.align);
    }
    assert FirstSuitable(h.free, a.size, a.align) == k;
  }

  /** Without such a region the heap stays as it is. */
  lemma AllocRefused(h: Heap, a: Layout)
    requires SizedOk(a) && forall i, s: nat :: 0 <= i < |h.free| ==> !Serves(h.free[i], a.size, a.align, s)
    ensures AfterSized(h, a) == h
  {
    var k := FirstSuitable(h.free, a.size, a.align);
    if k < |h.free| {
      ServesIff(h.free[k], a.size, a.align);
    }
  }

  /** `alloc` on the region view. */
  function AfterAlloc(h: Heap, l: Layout): Heap
    requires LayoutOk(l)
  {
    SizeAlignFits(l);
    AfterSized(h, SizeAlign(l))
  }

  /** `dealloc` of the j-th live block. */
  function AfterFree(h: Heap, j: nat): Heap
    requires j < |h.live|
  {
    Heap([h.live[j]] + h.free, Remove(h.live, j), h.lost)
  }

  // ---------------------------------------------------------------- byte accounting

  lemma {:induction false} SizeConcat(xs: seq<Region>, ys: seq<Region>)
    ensures TotalSize(xs + ys) == TotalSize(xs) + TotalSize(ys)
  {
    if xs == [] {
      assert xs + ys == ys;
    } else {
      SizeConcat(xs[1..], ys);
      assert (xs + ys)[1..] == xs[1..] + ys;
    }
  }

  lemma {:induction false} SizeRemove(rs: seq<Region>, k: nat)
    requires k < |rs|
    ensures TotalSize(Remove(rs, k)) == TotalSize(rs) - rs[k].size
    decreases k
  {
    if k == 0 {
      assert Remove(rs, 0) == rs[1..];
    } else {
      SizeRemove(rs[1..], k - 1);
      assert Remove(rs, k)[0] == rs[0];
      assert Remove(rs, k)[1..] == Remove(rs[1..], k - 1);
    }
  }

  // ---------------------------------------------------------------- every step keeps the invariant

  lemma RemoveAt(rs: seq<Region>, k: nat)
    requires k < |rs|
    ensures forall i :: 0 <= i < |rs| - 1 ==> Remove(rs, k)[i] == rs[if i < k then i else i + 1]
  {
  }

  lemma RemoveKeeps(rs: seq<Region>, k: nat, others: seq<Region>, lo: nat, hi: nat)
    requires k < |rs| && AllUsable(rs, lo, hi) && Separate(rs) && Apart(rs, others)
    ensures AllUsable(Remove(rs, k), lo, hi) && Separate(Remove(rs, k)) && Apart(Remove(rs, k), others)
    ensures Apart([rs[k]], Remove(rs, k))
  {
    RemoveAt(rs, k);
  }

  /** A region can be put in front of a list it is apart from. */
  lemma PushKeeps(r: Region, rs: seq<Region>, others: seq<Region>, lo: nat, hi: nat)
    requires Usable(r, lo, hi) && AllUsable(rs, lo, hi) && Separate(rs) && Apart(rs, others)
    requires Apart([r], rs) && Apart([r], others)
    ensures AllUsable([r] + rs, lo, hi) && Separate([r] + rs) && Apart([r] + rs, others)
  {
  }

  lemma ApartSymmetric(xs: seq<Region>, ys: seq<Region>)
    requires Apart(xs, ys)
    ensures Apart(ys, xs)
  {
  }

  predicate Inside(a: Region, r: Region) {
    r.start <= a.start && a.End() <= r.End()
  }

  lemma InsideApart(a: Region, r: Region, rs: seq<Region>)
    requires Inside(a, r) && Apart([r], rs)
    ensures Apart([a], rs)
  {
    forall j | 0 <= j < |rs|
      ensures Disjoint(a, rs[j])
    {
      assert Disjoint([r][0], rs[j]);
    }
  }

  lemma AppendKeeps(r: Region, rs: seq<Region>, others: seq<Region>, lo: nat, hi: nat)
    requires Usable(r, lo, hi) && AllUsable(rs, lo, hi) && Separate(rs) && Apart(others, rs)
    requires Apart([r], rs) && Apart([r], others)
    ensures AllUsable(rs + [r], lo, hi) && Separate(rs + [r]) && Apart(others, rs + [r])
  {
    forall i | 0 <= i < |rs| ensures Disjoint(rs[i], r) {
      assert Disjoint([r][0], rs[i]);
    }
    forall i | 0 <= i < |others| ensures Disjoint(others[i], r) {
      assert Disjoint([r][0], others[i]);
    }
  }

  /** Splitting region k keeps the free list usable and apart from the block that was cut out. */
  lemma SplitKeeps(h: Heap, lo: nat, hi: nat, k: nat, b: Region)
    requires HeapInv(h, lo, hi) && k < |h.free| && Inside(b, h.free[k])
    requires b.End() % NODE_ALIGN == 0
    requires var rest := h.free[k].End() - b.End(); rest == 0 || rest >= NODE_SIZE
    ensures var free' := SplitFree(h.free, k, b.start, b.size);
            AllUsable(free', lo, hi) && Separate(free') && Apart(free', h.live) && Apart([b], free')
  {
    var r := h.free[k];
    var others := Remove(h.free, k);
    RemoveKeeps(h.free, k, h.live, lo, hi);
    InsideApart(b, r, others);
    var rest := Region(b.End(), r.End() - b.End());
    if rest.size > 0 {
      InsideApart(rest, r, others);
      assert Apart([r], h.live) by {
        assert forall j :: 0 <= j < |h.live| ==> Disjoint(r, h.live[j]);
      }
      InsideApart(rest, r, h.live);
      PushKeeps(rest, others, h.live, lo, hi);
      forall j | 0 <= j < |[rest] + others|
        ensures Disjoint(b, ([rest] + others)[j])
      {
        if j > 0 {
          assert Disjoint([b][0], others[j - 1]);
        }
      }
    }
  }

  lemma SplitBytes(free: seq<Region>, k: nat, start: nat, size: nat)
    requires k < |free| && free[k].start <= start && start + size <= free[k].End()
    ensures TotalSize(SplitFree(free, k, start, size)) + size + (start - free[k].start) == TotalSize(free)
  {
    SizeRemove(free, k);
    var rest := free[k].End() - (start + size);
    if rest > 0 {
      SizeConcat([Region(start + size, rest)], Remove(free, k));
      assert TotalSize([Region(start + size, rest)]) == rest + TotalSize([]);
    }
  }

  /** Byte accounting of a cut: what leaves the free list is live or lost. */
  lemma CutBytes(h: Heap, k: nat, b: Region)
    requires k < |h.free| && Inside(b, h.free[k])
    ensures TotalSize(SplitFree(h.free, k, b.start, b.size)) + TotalSize(h.live + [b]) + (b.start - h.free[k].start)
         == TotalSize(h.free) + TotalSize(h.live)
  {
    SplitBytes(h.free, k, b.start, b.size);
    SizeConcat(h.live, [b]);
    assert TotalSize([b]) == b.size + TotalSize([]);
  }

  lemma CutApart(h: Heap, k: nat, b: Region)
    requires k < |h.free| && Apart(h.free, h.live) && Inside(b, h.free[k])
    ensures Apart([b], h.live)
  {
    var r := h.free[k];
    assert forall j :: 0 <= j < |h.live| ==> Disjoint(r, h.live[j]);
    InsideApart(b, r, h.live);
  }

  /** Cutting an aligned block out of a free region keeps the invariant; the front gap is lost. */
  lemma CutKeepsHeap(h: Heap, lo: nat, hi: nat, k: nat, b: Region)
    requires HeapInv(h, lo, hi) && k < |h.free| && Inside(b, h.free[k])
    requires b.start % NODE_ALIGN == 0 && b.size % NODE_ALIGN == 0 && b.size >= NODE_SIZE
    requires var rest := h.free[k].End() - b.End(); rest == 0 || rest >= NODE_SIZE
    ensures HeapInv(Heap(SplitFree(h.free, k, b.start, b.size), h.live + [b], h.lost + (b.start - h.free[k].start)), lo, hi)
  {
    SplitKeeps(h, lo, hi, k, b);
    CutBytes(h, k, b);
    CutApart(h, k, b);
    AppendKeeps(b, h.live, SplitFree(h.free, k, b.start, b.size), lo, hi);
  }

  lemma AllocKeepsHeap(h: Heap, lo: nat, hi: nat, a: Layout)
    requires HeapInv(h, lo, hi) && SizedOk(a)
    ensures HeapInv(AfterSized(h, a), lo, hi)
  {
    var k := FirstSuitable(h.free, a.size, a.align);
    if k < |h.free| {
      var r := h.free[k];
      var b := Region(AllocFromRegion(r, a.size, a.align).value, a.size);
      RoundUpBounds(r.start, a.align);
      MultipleOfEight(b.start, a.align);
      CutKeepsHeap(h, lo, hi, k, b);
    }
  }

  lemma FreeKeepsHeap(h: Heap, lo: nat, hi: nat, j: nat)
    requires HeapInv(h, lo, hi) && j < |h.live|
    ensures HeapInv(AfterFree(h, j), lo, hi)
  {
    var b := h.live[j];
    ApartSymmetric(h.free, h.live);
    RemoveKeeps(h.live, j, h.free, lo, hi);
    ApartSymmetric(Remove(h.live, j), h.free);
    assert Apart([b], h.free);
    PushKeeps(b, h.free, Remove(h.live, j), lo, hi);
    SizeRemove(h.live, j);
    SizeConcat([b], h.free);
    assert TotalSize([b]) == b.size + TotalSize([]);
  }

  // ---------------------------------------------------------------- whole runs

  datatype Request = Allocate(layout: Layout) | Free(j: nat)

  function Serve(h: Heap, r: Request): Heap {
    match r
    case Allocate(l) => if LayoutOk(l) then AfterAlloc(h, l) else h
    case Free(j) => if j < |h.live| then AfterFree(h, j) else h
  }

  function ServeAll(h: Heap, rs: seq<Request>): Heap {
    if rs == [] then h else Serve(ServeAll(h, rs[..|rs| - 1]), rs[|rs| - 1])
  }

  function Fresh(lo: nat, hi: nat): Heap
    requires lo <= hi
  {
    Heap([Region(lo, hi - lo)], [], 0)
  }

  /**
    For every sequence of allocations and matching frees: free and live regions are disjoint, every
    free region can hold its node, and free plus live plus lost bytes are the whole heap.
   */
  lemma {:induction false} EveryRunKeepsHeap(lo: nat, hi: nat, rs: seq<Request>)
    requires lo % NODE_ALIGN == 0 && hi >= lo + NODE_SIZE
    ensures HeapInv(ServeAll(Fresh(lo, hi), rs), lo, hi)
  {
    if rs == [] {
      assert TotalSize([Region(lo, hi - lo)]) == hi - lo + TotalSize([]);
    } else {
      var init, r := rs[..|rs| - 1], rs[|rs| - 1];
      EveryRunKeepsHeap(lo, hi, init);
      var h := ServeAll(Fresh(lo, hi), init);
      match r
      case Allocate(l) => if LayoutOk(l) { SizeAlignFits(l); AllocKeepsHeap(h, lo, hi, SizeAlign(l)); }
      case Free(j) => if j < |h.live| { FreeKeepsHeap(h, lo, hi, j); }
    }
  }

  // ---------------------------------------------------------------- the list in memory

  /** A `ListNode` as it lies in memory; 0 stands for no next node. */
  datatype Node = Node(size: nat, next: nat)

  function AddrAt(free: seq<Region>, i: nat): nat {
    if i < |free| then free[i].start else 0
  }

  /** Following the nodes from `head` visits exactly the regions of `free`. */
  predicate Chain(mem: map<nat, Node>, head: nat, free: seq<Region>) {
    && head == AddrAt(free, 0)
    && forall i :: 0 <= i < |free| ==>
         free[i].start > 0 && free[i].start in mem
         && mem[free[i].start] == Node(free[i].size, AddrAt(free, i + 1))
  }

  predicate DistinctStarts(free: seq<Region>) {
    forall i, j :: 0 <= i < j < |free| ==> free[i].start != free[j].start
  }

  lemma UsableDistinct(free: seq<Region>, lo: nat, hi: nat)
    requires AllUsable(free, lo, hi) && Separate(free)
    ensures DistinctStarts(free)
  {
  }

  /** The front region of a sound list meets the asserts of `add_free_region` and is new to the rest. */
  lemma FrontIsNew(r: Region, rest: seq<Region>, lo: nat, hi: nat)
    requires 0 < lo && AllUsable([r] + rest, lo, hi) && Separate([r] + rest)
    ensures r.start > 0 && RoundUp(r.start, NODE_ALIGN) == r.start && r.size >= NODE_SIZE
    ensures forall i :: 0 <= i < |rest| ==> rest[i].start != r.start
  {
    assert Usable(([r] + rest)[0], lo, hi);
    RoundUpUnique(r.start, NODE_ALIGN, r.start);
    UsableDistinct([r] + rest, lo, hi);
    forall i | 0 <= i < |rest|
      ensures rest[i].start != r.start
    {
      assert ([r] + rest)[0].start != ([r] + rest)[i + 1].start;
    }
  }

  lemma ChainPush(mem: map<nat, Node>, head: nat, free: seq<Region>, r: Region)
    requires Chain(mem, head, free) && r.start > 0
    requires forall i :: 0 <= i < |free| ==> free[i].start != r.start
    ensures Chain(mem[r.start := Node(r.size, head)], r.start, [r] + free)
  {
  }

  lemma ChainUnlinkFirst(mem: map<nat, Node>, head: nat, free: seq<Region>)
    requires Chain(mem, head, free) && free != []
    ensures Chain(mem, AddrAt(free, 1), Remove(free, 0))
  {
    RemoveAt(free, 0);
  }

  lemma ChainUnlink(mem: map<nat, Node>, head: nat, free: seq<Region>, k: nat)
    requires Chain(mem, head, free) && DistinctStarts(free) && 0 < k < |free|
    ensures Chain(mem[free[k - 1].start := Node(free[k - 1].size, AddrAt(free, k + 1))], head, Remove(free, k))
  {
    RemoveAt(free, k);
  }

  /** Changing a node that is not in the list leaves the list alone. */
  lemma ChainFrame(mem: map<nat, Node>, head: nat, free: seq<Region>, a: nat, n: Node)
    requires Chain(mem, head, free)
    requires forall i :: 0 <= i < |free| ==> free[i].start != a
    ensures Chain(mem[a := n], head, free)
  {
  }

  /** A node at `a` lies wholly inside one of the regions. */
  ghost predicate NodeWithin(rs: seq<Region>, a: nat) {
    exists i :: 0 <= i < |rs| && rs[i].start <= a && a + NODE_SIZE <= rs[i].End()
  }

  /** Every node changed between two memories lies inside one of the regions. */
  ghost predicate WritesOnlyIn(before: map<nat, Node>, after: map<nat, Node>, rs: seq<Region>) {
    forall a :: a in after && (a !in before || after[a] != before[a]) ==> NodeWithin(rs, a)
  }

  /** Unlinking region k rewrites its own node and its predecessor's, nothing else. */
  lemma UnlinkWrites(before: map<nat, Node>, after: map<nat, Node>, free: seq<Region>, k: nat, lo: nat, hi: nat)
    requires AllUsable(free, lo, hi) && k < |free|
    requires forall a :: a in after && a != free[k].start && (k > 0 ==> a != free[k - 1].start) ==>
               a in before && after[a] == before[a]
    ensures WritesOnlyIn(before, after, free)
  {
    forall a | a in after && (a !in before || after[a] != before[a])
      ensures NodeWithin(free, a)
    {
      var i := if a == free[k].start then k else k - 1;
      assert free[i].start <= a && a + NODE_SIZE <= free[i].End();
    }
  }

  lemma RemovedIsAbsent(free: seq<Region>, k: nat)
    requires DistinctStarts(free) && k < |free|
    ensures forall i :: 0 <= i < |free| - 1 ==> Remove(free, k)[i].start != free[k].start
  {
    RemoveAt(free, k);
  }

  class Allocator {
    var head: nat
    var mem: map<nat, Node>
    ghost const lo: nat
    ghost const hi: nat
    ghost var heap: Heap

    ghost predicate Valid()
      reads this
    {
      0 < lo && HeapInv(heap, lo, hi) && Chain(mem, head, heap.free)
    }

    /** `init` with the bounds its own asserts demand. */
    constructor (heapStart: nat, heapSize: nat)
      requires heapStart > 0 && heapStart % NODE_ALIGN == 0 && heapSize >= NODE_SIZE
      ensures Valid() && lo == heapStart && hi == heapStart + heapSize && heap == Fresh(lo, hi)
    {
      lo, hi := heapStart, heapStart + heapSize;
      head, mem := heapStart, map[heapStart := Node(heapSize, 0)];
      heap := Heap([Region(heapStart, heapSize)], [], 0);
      new;
      EveryRunKeepsHeap(lo, hi, []);
      assert ServeAll(Fresh(lo, hi), []) == heap;
    }

    /** `add_free_region`; its two asserts are the second and third preconditions. */
    method AddFreeRegion(addr: nat, size: nat, ghost free: seq<Region>)
      requires addr > 0 && Chain(mem, head, free)
      requires RoundUp(addr, NODE_ALIGN) == addr
      requires size >= NODE_SIZE
      requires forall i :: 0 <= i < |free| ==> free[i].start != addr
      modifies this`head, this`mem
      ensures Chain(mem, head, [Region(addr, size)] + free)
      ensures WritesOnlyIn(old(mem), mem, [Region(addr, size)])
    {
      ChainPush(mem, head, free, Region(addr, size));
      mem := mem[addr := Node(size, head)];
      head := addr;
      assert [Region(addr, size)][0] == Region(addr, size);
    }

    /** `find_region`: walk to the first suitable node, unlink it, return it with its block start. */
    method FindRegion(size: nat, align: nat) returns (r: Option<(Region, nat)>, ghost k: nat)
      requires Valid() && align > 0
      modifies this`head, this`mem
      ensures k == FirstSuitable(heap.free, size, align)
      ensures r.None? <==> k == |heap.free|
      ensures r.None? ==> head == old(head) && mem == old(mem)
      ensures r.Some? ==>
                && r == Some((heap.free[k], AllocFromRegion(heap.free[k], size, align).value))
                && Chain(mem, head, Remove(heap.free, k))
      ensures WritesOnlyIn(old(mem), mem, heap.free)
    {
      ghost var free := heap.free;
      UsableDistinct(free, lo, hi);
      k := 0;
      var current, next := 0, head;      // current == 0 is the list head itself
      while next != 0
        invariant 0 <= k <= |free| && next == AddrAt(free, k)
        invariant current == if k == 0 then 0 else free[k - 1].start
        invariant forall i :: 0 <= i < k ==> AllocFromRegion(free[i], size, align).None?
        decreases |free| - k
      {
        var node := mem[next];
        assert node == Node(free[k].size, AddrAt(free, k + 1));
        var region := Region(next, node.size);
        var start := AllocFromRegion(region, size, align);
        if start.Some? {
          SuitableIs(free, size, align, k);
          Unlink(current, next, node, free, k);
          return Some((region, start.value)), k;
        }
        current, next, k := next, node.next, k + 1;
      }
      assert k == |free|;
      SuitableIs(free, size, align, k);
      return None, k;
    }

    /** The three list writes of `find_region`. */
    method Unlink(current: nat, addr: nat, node: Node, ghost free: seq<Region>, ghost k: nat)
      requires Chain(mem, head, free) && DistinctStarts(free) && AllUsable(free, lo, hi) && k < |free|
      requires current == if k == 0 then 0 else free[k - 1].start
      requires addr == free[k].start && node == mem[addr]
      modifies this`head, this`mem
      ensures Chain(mem, head, Remove(free, k))
      ensures WritesOnlyIn(old(mem), mem, free)
    {
      RemovedIsAbsent(free, k);
      if current == 0 {
        ChainUnlinkFirst(mem, head, free);
        head := node.next;
      } else {
        ChainUnlink(mem, head, free, k);
        mem := mem[current := Node(mem[current].size, node.next)];
      }
      ChainFrame(mem, head, Remove(free, k), addr, Node(node.size, 0));
      mem := mem[addr := Node(node.size, 0)];
      UnlinkWrites(old(mem), mem, free, k, lo, hi);
    }

    /** `alloc` after `size_align`: take the region and give back what is left of it. */
    method AllocSized(a: Layout) returns (addr: nat)
      requires Valid() && SizedOk(a)
      modifies this
      ensures Valid() && heap == AfterSized(old(heap), a)
      ensures addr == 0 <==> FirstSuitable(old(heap.free), a.size, a.align) == |old(heap.free)|
      ensures addr != 0 ==>
                heap.live == old(heap.live) + [Region(addr, a.size)] && addr % a.align == 0
      ensures WritesOnlyIn(old(mem), mem, old(heap.free))
    {
      AllocKeepsHeap(heap, lo, hi, a);
      ghost var free := heap.free;
      var found, k := FindRegion(a.size, a.align);
      if found.None? {
        return 0;
      }
      var (region, start) := found.value;
      RoundUpBounds(region.start, a.align);
      heap := AfterSized(heap, a);
      ghost var mid := mem;
      GiveBack(region, start, a.size, free, k);
      WritesCompose(old(mem), mid, mem, free, free[k], k);
      return start;
    }

    /** What is left behind the block goes back to the front of the list. */
    method GiveBack(region: Region, start: nat, size: nat, ghost free: seq<Region>, ghost k: nat)
      requires 0 < lo && k < |free| && region == free[k] && region.start <= start && start + size <= region.End()
      requires Chain(mem, head, Remove(free, k))
      requires AllUsable(SplitFree(free, k, start, size), lo, hi) && Separate(SplitFree(free, k, start, size))
      modifies this`head, this`mem
      ensures Chain(mem, head, SplitFree(free, k, start, size))
      ensures WritesOnlyIn(old(mem), mem, [region])
    {
      var end := start + size;
      var rest := region.End() - end;
      if rest > 0 {
        FrontIsNew(Region(end, rest), Remove(free, k), lo, hi);
        AddFreeRegion(end, rest, Remove(free, k));
        WritesCompose(old(mem), old(mem), mem, [region], Region(end, rest), 0);
      }
    }

    /** `alloc`: 0 is the null pointer; the block is as large and as aligned as asked for. */
    method Alloc(l: Layout) returns (addr: nat)
      requires Valid() && LayoutOk(l)
      modifies this
      ensures Valid() && heap == AfterAlloc(old(heap), l)
      ensures addr == 0 ==> heap == old(heap)
      ensures addr != 0 ==> heap.live == old(heap.live) + [Region(addr, SizeAlign(l).size)]
      ensures addr != 0 ==> addr % SizeAlign(l).align == 0 && SizeAlign(l).size >= l.size
      ensures WritesOnlyIn(old(mem), mem, old(heap.free))
    {
      SizeAlignFits(l);
      addr := AllocSized(SizeAlign(l));
    }

    /** `dealloc` of a live block with the layout it was allocated with. */
    method Dealloc(addr: nat, l: Layout, ghost j: nat)
      requires Valid() && LayoutOk(l)
      requires j < |heap.live| && heap.live[j] == Region(addr, SizeAlign(l).size)
      modifies this
      ensures Valid() && heap == AfterFree(old(heap), j)
      ensures heap.free == [Region(addr, SizeAlign(l).size)] + old(heap.free)
      ensures heap.live == old(heap.live)[..j] + old(heap.live)[j + 1..] && heap.lost == old(heap.lost)
      ensures WritesOnlyIn(old(mem), mem, [old(heap.live)[j]])
    {
      DeallocSized(addr, SizeAlign(l).size, j);
    }

    method DeallocSized(addr: nat, size: nat, ghost j: nat)
      requires Valid() && j < |heap.live| && heap.live[j] == Region(addr, size)
      modifies this
      ensures Valid() && heap == AfterFree(old(heap), j)
      ensures WritesOnlyIn(old(mem), mem, [old(heap.live)[j]])
    {
      FreeKeepsHeap(heap, lo, hi, j);
      ghost var free := heap.free;
      heap := AfterFree(heap, j);
      FrontIsNew(Region(addr, size), free, lo, hi);
      AddFreeRegion(addr, size, free);
    }
  }

  lemma SuitableIs(free: seq<Region>, size: nat, align: nat, k: nat)
    requires align > 0 && k <= |free|
    requires forall i :: 0 <= i < k ==> AllocFromRegion(free[i], size, align).None?
    requires k < |free| ==> AllocFromRegion(free[k], size, align).Some?
    ensures FirstSuitable(free, size, align) == k
  {
  }

  lemma WritesCompose(m0: map<nat, Node>, m1: map<nat, Node>, m2: map<nat, Node>, free: seq<Region>, r: Region, k: nat)
    requires WritesOnlyIn(m0, m1, free) && WritesOnlyIn(m1, m2, [r])
    requires k < |free| && Inside(r, free[k])
    ensures WritesOnlyIn(m0, m2, free)
  {
    forall a | a in m2 && (a !in m0 || m2[a] != m0[a])
      ensures NodeWithin(free, a)
    {
      if a !in m1 || m2[a] != m1[a] {
        assert NodeWithin([r], a);
        assert free[k].start <= a && a + NODE_SIZE <= free[k].End();
      }
    }
  }
}
