/** The boot-time physical frame allocator of kernel/src/memory.rs. */
module Frames {
  import opened Bytes

  const FRAME: nat := 4096

  datatype Region = Region(start: nat, end: nat, usable: bool)

  /** The steps of 4096 from `start` that stay below `end`. */
  function Count(r: Region): nat {
    if !r.usable || r.end <= r.start then 0 else (r.end - r.start + FRAME - 1) / FRAME
  }

  /** The frame that contains the i-th step. */
  function FrameAt(r: Region, i: nat): nat {
    (r.start + i * FRAME) / FRAME * FRAME
  }

  function RegionFrames(r: Region): (fs: seq<nat>)
    ensures |fs| == Count(r)
    ensures forall i :: 0 <= i < |fs| ==> fs[i] == FrameAt(r, i)
  {
    seq(Count(r), i requires 0 <= i => FrameAt(r, i))
  }

  /** `usable_frames`: the frames of all usable regions, in map order. */
  function UsableFrames(rs: seq<Region>): seq<nat> {
    if rs == [] then [] else RegionFrames(rs[0]) + UsableFrames(rs[1..])
  }

  // ---------------------------------------------------------------- what a sound memory map gives

  predicate HasFrames(r: Region) {
    r.usable && r.start < r.end
  }

  predicate PageAligned(rs: seq<Region>) {
    forall i :: 0 <= i < |rs| ==> rs[i].start % FRAME == 0 && rs[i].end % FRAME == 0
  }

  predicate DisjointRegions(rs: seq<Region>) {
    forall i, j :: 0 <= i < j < |rs| && HasFrames(rs[i]) && HasFrames(rs[j]) ==>
      rs[i].end <= rs[j].start || rs[j].end <= rs[i].start
  }

  predicate SoundMap(rs: seq<Region>) {
    PageAligned(rs) && DisjointRegions(rs)
  }

  predicate FrameIn(f: nat, r: Region) {
    r.usable && r.start <= f && f + FRAME <= r.end
  }

  lemma FrameAtIs(r: Region, i: nat)
    requires r.start % FRAME == 0 && r.end % FRAME == 0 && i < Count(r)
    ensures FrameAt(r, i) == r.start + i * FRAME && FrameIn(FrameAt(r, i), r)
    ensures Count(r) * FRAME == r.end - r.start
  {
  }

  /** Which region the i-th usable frame comes from, and its position there. */
  function Locate(rs: seq<Region>, i: nat): (nat, nat)
    requires i < |UsableFrames(rs)|
  {
    var n := Count(rs[0]);
    if i < n then (0, i)
    else
      var at := Locate(rs[1..], i - n);
      (at.0 + 1, at.1)
  }

  lemma {:induction false} LocateIs(rs: seq<Region>, i: nat)
    requires i < |UsableFrames(rs)|
    ensures var (k, j) := Locate(rs, i);
            k < |rs| && j < Count(rs[k]) && UsableFrames(rs)[i] == FrameAt(rs[k], j)
  {
    if i >= Count(rs[0]) {
      LocateIs(rs[1..], i - Count(rs[0]));
    }
  }

  /** Different positions in the frame list come from different places in the map. */
  lemma {:induction false} LocateInjective(rs: seq<Region>, i: nat, j: nat)
    requires i < j < |UsableFrames(rs)|
    ensures Locate(rs, i) != Locate(rs, j)
  {
    var n := Count(rs[0]);
    if n <= i {
      LocateInjective(rs[1..], i - n, j - n);
    }
  }

  lemma DifferentPlaces(a: Region, i: nat, b: Region, j: nat)
    requires FrameIn(FrameAt(a, i), a) && FrameIn(FrameAt(b, j), b)
    requires a.end <= b.start || b.end <= a.start
    ensures FrameAt(a, i) != FrameAt(b, j)
  {
  }

  /** Every frame of an aligned map lies wholly inside a usable region. */
  lemma FrameIsUsable(rs: seq<Region>, i: nat)
    requires PageAligned(rs) && i < |UsableFrames(rs)|
    ensures Locate(rs, i).0 < |rs| && FrameIn(UsableFrames(rs)[i], rs[Locate(rs, i).0])
  {
    LocateIs(rs, i);
    var (k, j) := Locate(rs, i);
    FrameAtIs(rs[k], j);
  }

  /** The 4096-byte frame that holds an address. */
  function FrameOf(a: nat): nat {
    a - a % 4096
  }

  /** The i-th step of 4096 bytes stays inside the region and leads into frame f. */
  predicate StepsInto(r: Region, i: nat, f: nat) {
    r.usable && r.start + i * 4096 < r.end && f == FrameOf(r.start + i * 4096)
  }

  lemma StepIs(r: Region, i: nat, f: nat)
    ensures StepsInto(r, i, f) <==> i < Count(r) && f == FrameAt(r, i)
  {
  }

  /** A region contributes exactly the frames around its every 4096th byte, if it is usable. */
  lemma RegionListsIff(r: Region, f: nat)
    ensures f in RegionFrames(r) <==> exists i: nat :: StepsInto(r, i, f)
  {
    var fs := RegionFrames(r);
    if i: nat :| StepsInto(r, i, f) {
      StepIs(r, i, f);
      assert fs[i] == f;
    } else if f in fs {
      var i: nat :| i < |fs| && fs[i] == f;
      StepIs(r, i, f);
    }
  }

  /** Every frame inside a usable region of an aligned map is listed. */
  lemma EveryFrameIsListed(rs: seq<Region>, k: nat, f: nat)
    requires k < |rs| && rs[k].usable && rs[k].start % 4096 == 0
    requires rs[k].start <= f && f + 4096 <= rs[k].end && f % 4096 == 0
    ensures f in UsableFrames(rs)
  {
    var r := rs[k];
    var i := (f - r.start) / 4096;
    assert StepsInto(r, i, f);
    RegionListsIff(r, f);
    RegionIsListed(rs, k, f);
  }

  lemma {:induction false} RegionIsListed(rs: seq<Region>, k: nat, f: nat)
    requires k < |rs| && f in RegionFrames(rs[k])
    ensures f in UsableFrames(rs)
  {
    if k == 0 {
    } else {
      RegionIsListed(rs[1..], k - 1, f);
    }
  }

  /** In a sound map no frame is listed twice. */
  lemma FramesAreDistinct(rs: seq<Region>, i: nat, j: nat)
    requires SoundMap(rs) && i < j < |UsableFrames(rs)|
    ensures UsableFrames(rs)[i] != UsableFrames(rs)[j]
  {
    var (a, x) := Locate(rs, i);
    var (b, y) := Locate(rs, j);
    LocateInjective(rs, i, j);
    LocateIs(rs, i);
    LocateIs(rs, j);
    FrameAtIs(rs[a], x);
    FrameAtIs(rs[b], y);
    if a != b {
      DifferentPlaces(rs[a], x, rs[b], y);
    }
  }

  // ---------------------------------------------------------------- contiguous requests

  /** The n frames from position i follow each other in physical memory. */
  predicate Contiguous(fs: seq<nat>, i: nat, n: nat)
    requires i + n <= |fs|
  {
    forall k :: 0 <= k < n ==> fs[i + k] == fs[i] + k * FRAME
  }

  /** How many frames the region of the i-th frame still has, that frame included. */
  function FramesLeft(rs: seq<Region>, i: nat): (left: nat)
    requires i < |UsableFrames(rs)|
    ensures left >= 1 && i + left <= |UsableFrames(rs)|
  {
    var n := Count(rs[0]);
    if i < n then n - i else FramesLeft(rs[1..], i - n)
  }

  /** How many frames at the front of the list follow on from address `at`, region after region. */
  function Joined(rs: seq<Region>, at: nat): (n: nat)
    ensures n <= |UsableFrames(rs)|
  {
    if rs == [] then 0
    else if Count(rs[0]) == 0 then Joined(rs[1..], at)
    else if rs[0].start == at then Count(rs[0]) + Joined(rs[1..], rs[0].end)
    else 0
  }

  /** The frames left in the region of the i-th frame and in the regions that adjoin it in map order. */
  function RunLeft(rs: seq<Region>, i: nat): (left: nat)
    requires i < |UsableFrames(rs)|
    ensures FramesLeft(rs, i) <= left && i + left <= |UsableFrames(rs)|
  {
    var n := Count(rs[0]);
    if i < n then n - i + Joined(rs[1..], rs[0].end) else RunLeft(rs[1..], i - n)
  }

  /** The first `n` frames lie back to back from address `at`, and the next one, if any, does not. */
  predicate RunsFrom(fs: seq<nat>, at: nat, n: nat) {
    && n <= |fs|
    && (forall k :: 0 <= k < n ==> fs[k] == at + k * FRAME)
    && (n < |fs| ==> fs[n] != at + n * FRAME)
  }

  /** A whole region's frames in front of a run that goes on where the region ends. */
  lemma RunsCons(r: Region, i: nat, rest: seq<nat>, n: nat)
    requires r.start % FRAME == 0 && r.end % FRAME == 0 && i < Count(r) && RunsFrom(rest, r.end, n)
    ensures RunsFrom(RegionFrames(r)[i..] + rest, FrameAt(r, i), Count(r) - i + n)
  {
    var m := Count(r) - i;
    var fs := RegionFrames(r)[i..] + rest;
    FrameAtIs(r, i);
    forall k | 0 <= k < m
      ensures fs[k] == FrameAt(r, i) + k * FRAME
    {
      FrameAtIs(r, i + k);
    }
    assert FrameAt(r, i) + m * FRAME == r.end;
    assert forall k :: m <= k < |fs| ==> fs[k] == rest[k - m];
  }

  lemma {:induction false} JoinedRuns(rs: seq<Region>, at: nat)
    requires PageAligned(rs)
    ensures RunsFrom(UsableFrames(rs), at, Joined(rs, at))
  {
    if rs == [] {
    } else {
      if Count(rs[0]) == 0 {
        JoinedRuns(rs[1..], at);
        assert UsableFrames(rs) == UsableFrames(rs[1..]);
      } else {
        FrameAtIs(rs[0], 0);
        if rs[0].start == at {
          JoinedRuns(rs[1..], rs[0].end);
          RunsCons(rs[0], 0, UsableFrames(rs[1..]), Joined(rs[1..], rs[0].end));
          assert RegionFrames(rs[0])[0..] == RegionFrames(rs[0]);
        }
      }
    }
  }

  lemma RunsInside(first: seq<nat>, rest: seq<nat>, i: nat, n: nat)
    requires i < |first| && RunsFrom(first[i..] + rest, first[i], n)
    ensures RunsFrom((first + rest)[i..], (first + rest)[i], n)
  {
    assert (first + rest)[i..] == first[i..] + rest;
  }

  lemma RunInFirst(rs: seq<Region>, i: nat)
    requires PageAligned(rs) && rs != [] && i < Count(rs[0])
    ensures RunsFrom(UsableFrames(rs)[i..], UsableFrames(rs)[i], Count(rs[0]) - i + Joined(rs[1..], rs[0].end))
  {
    var first, rest := RegionFrames(rs[0]), UsableFrames(rs[1..]);
    JoinedRuns(rs[1..], rs[0].end);
    RunsCons(rs[0], i, rest, Joined(rs[1..], rs[0].end));
    RunsInside(first, rest, i, Count(rs[0]) - i + Joined(rs[1..], rs[0].end));
  }

  /** From any position the list runs on for exactly `RunLeft` frames. */
  lemma {:induction false} RunLeftIs(rs: seq<Region>, i: nat)
    requires PageAligned(rs) && i < |UsableFrames(rs)|
    ensures RunsFrom(UsableFrames(rs)[i..], UsableFrames(rs)[i], RunLeft(rs, i))
  {
    var n := Count(rs[0]);
    if i < n {
      RunInFirst(rs, i);
    } else {
      RunLeftIs(rs[1..], i - n);
      assert UsableFrames(rs)[i..] == UsableFrames(rs[1..])[i - n..];
    }
  }

  /**
    A request of n pages is contiguous exactly when the region of its first frame and the regions
    adjoining it have n frames left; in particular whenever that region alone has them.
   */
  lemma ContiguousIff(rs: seq<Region>, i: nat, n: nat)
    requires PageAligned(rs) && n >= 1 && i + n <= |UsableFrames(rs)|
    ensures Contiguous(UsableFrames(rs), i, n) <==> n <= RunLeft(rs, i)
    ensures n <= FramesLeft(rs, i) ==> Contiguous(UsableFrames(rs), i, n)
  {
    RunLeftIs(rs, i);
    ContiguousUpTo(UsableFrames(rs), i, RunLeft(rs, i), n);
  }

  lemma ContiguousUpTo(fs: seq<nat>, i: nat, left: nat, n: nat)
    requires i + n <= |fs| && i < |fs| && 1 <= left && RunsFrom(fs[i..], fs[i], left)
    ensures Contiguous(fs, i, n) <==> n <= left
  {
    assert forall k :: 0 <= k < |fs| - i ==> fs[i..][k] == fs[i + k];
  }

  // ---------------------------------------------------------------- the allocator

  class BootInfoFrameAllocator {
    const regions: seq<Region>
    var next: nat

    constructor (regions: seq<Region>)
      ensures this.regions == regions && next == 0
    {
      this.regions, next := regions, 0;
    }

    /** `allocate_frame`: the next frame of the list; the counter moves on even when there is none. */
    method AllocateFrame() returns (frame: Option<nat>)
      modifies this
      ensures next == old(next) + 1
      ensures frame == if old(next) < |UsableFrames(regions)| then Some(UsableFrames(regions)[old(next)]) else None
    {
      var frames := UsableFrames(regions);
      frame := if next < |frames| then Some(frames[next]) else None;
      next := next + 1;
    }

    /**
      `allocate_dma_frames`: reserves max(pages, 1) frames and returns the first one's address, whose
      following pages * 4096 bytes are then zeroed. A request that fails uses up all frames left.
     */
    method AllocateDmaFrames(pages: nat) returns (phys: Option<nat>)
      modifies this
      ensures var want := if pages == 0 then 1 else pages;
              var frames := UsableFrames(regions);
              && (phys.Some? <==> old(next) + want <= |frames|)
              && (phys.Some? ==> phys.value == frames[old(next)] && next == old(next) + want)
              && (phys.None? ==> next == (if old(next) < |frames| then |frames| else old(next)) + 1)
      ensures PageAligned(regions) && phys.Some? && pages >= 1 ==>
                && (Contiguous(UsableFrames(regions), old(next), pages) <==> pages <= RunLeft(regions, old(next)))
                && (pages <= FramesLeft(regions, old(next)) ==> Contiguous(UsableFrames(regions), old(next), pages))
    {
      var first := AllocateFrame();
      if first.None? {
        return None;
      }
      var i := 1;
      while i < pages
        invariant 1 <= i <= (if pages == 0 then 1 else pages)
        invariant next == old(next) + i && next <= |UsableFrames(regions)|
      {
        var more := AllocateFrame();
        if more.None? {
          return None;
        }
        i := i + 1;
      }
      if PageAligned(regions) && pages >= 1 {
        ContiguousIff(regions, old(next), pages);
      }
      return first;
    }
  }
}
