/**
 * The frame allocator of the socket: which frames GetDescs hands out.
 */
module Allocation {
  import opened Words
  import opened Rings
  import opened Flows
  import opened Invariant
  import opened Refinement

  /** The free frames in `[lo, hi)`, in ascending order. */
  function FreeIn(free: seq<bool>, lo: nat, hi: nat): seq<nat>
    requires hi <= |free|
    decreases hi
  {
    if hi <= lo then []
    else FreeIn(free, lo, hi - 1) + (if free[hi - 1] then [hi - 1] else [])
  }

  lemma {:induction false} FreeInPrefix(free: seq<bool>, lo: nat, mid: nat, hi: nat)
    requires mid <= hi <= |free|
    ensures FreeIn(free, lo, mid) <= FreeIn(free, lo, hi)
    decreases hi - mid
  {
    if mid < hi {
      FreeInPrefix(free, lo, mid, hi - 1);
    }
  }

  /** A range that starts later has no more free frames. */
  lemma {:induction false} FreeInNarrower(free: seq<bool>, lo: nat, mid: nat, hi: nat)
    requires lo <= mid && hi <= |free|
    ensures |FreeIn(free, mid, hi)| <= |FreeIn(free, lo, hi)|
    decreases hi
  {
    if mid < hi {
      FreeInNarrower(free, lo, mid, hi - 1);
    }
  }

  /** It lists every free frame of the range and no other. */
  lemma {:induction false} FreeInExact(free: seq<bool>, lo: nat, hi: nat, k: nat)
    requires hi <= |free|
    ensures k in FreeIn(free, lo, hi) <==> lo <= k < hi && free[k]
    decreases hi
  {
    if lo < hi {
      FreeInExact(free, lo, hi - 1, k);
    }
  }

  /** It lists them in ascending order, so each once. */
  lemma {:induction false} FreeInAscends(free: seq<bool>, lo: nat, hi: nat, a: nat, b: nat)
    requires hi <= |free| && a < b < |FreeIn(free, lo, hi)|
    ensures FreeIn(free, lo, hi)[a] < FreeIn(free, lo, hi)[b]
    decreases hi
  {
    var front := FreeIn(free, lo, hi - 1);
    if b < |front| {
      FreeInAscends(free, lo, hi - 1, a, b);
    } else {
      assert front[a] in front;
      FreeInExact(free, lo, hi - 1, front[a]);
    }
  }

  lemma {:induction false} FreeInCount(free: seq<bool>, lo: nat, hi: nat)
    requires lo <= hi <= |free|
    ensures |FreeIn(free, lo, hi)| == (hi - lo) - (Busy(free[..hi]) - Busy(free[..lo]))
    decreases hi
  {
    if lo < hi {
      FreeInCount(free, lo, hi - 1);
      assert free[..hi][..hi - 1] == free[..hi - 1];
    }
  }

  /** When only frames of the partition are in use, the rest of it is free. */
  lemma FreeInPartition(free: seq<bool>, lo: nat, hi: nat)
    requires lo <= hi <= |free|
    requires forall k :: 0 <= k < |free| && !free[k] ==> lo <= k < hi
    ensures |FreeIn(free, lo, hi)| == (hi - lo) - Busy(free)
  {
    FreeInCount(free, lo, hi);
    BusyBound(free[..lo], lo, hi);
    BusyTail(free, hi);
  }

  lemma {:induction false} BusyTail(free: seq<bool>, hi: nat)
    requires hi <= |free| && forall k :: hi <= k < |free| ==> free[k]
    ensures Busy(free[..hi]) == Busy(free)
  {
    if hi == |free| {
      assert free[..hi] == free;
    } else {
      var front := free[..|free| - 1];
      assert front[..hi] == free[..hi];
      BusyTail(front, hi);
    }
  }

  function FrameDesc(frameSize: nat, k: nat): Desc {
    Desc(k * frameSize, frameSize)
  }

  function FrameDescs(frameSize: nat, frames: seq<nat>): seq<Desc> {
    seq(|frames|, j requires 0 <= j < |frames| => FrameDesc(frameSize, frames[j]))
  }

  /** `Addr / FrameSize` recovers the frame, also after an offset inside it. */
  lemma FrameOfOffset(cfg: Config, k: nat, offset: nat)
    requires offset < cfg.frameSize
    ensures FrameOf(cfg, k * cfg.frameSize + offset) == k
  {
    DivModUnique(k * cfg.frameSize + offset, cfg.frameSize, k, offset);
  }

  /** Buffers of different frames do not overlap and lie inside the umem. */
  lemma FramesDisjoint(cfg: Config, j: nat, k: nat)
    requires j < k < cfg.frames
    ensures j * cfg.frameSize + cfg.frameSize <= k * cfg.frameSize
    ensures k * cfg.frameSize + cfg.frameSize <= cfg.frames * cfg.frameSize
  {
    MulStep(j, k, cfg.frameSize);
    MulStep(k, cfg.frames, cfg.frameSize);
  }

  /** What the allocator hands out may be submitted on the flow it was asked for. */
  lemma FreshAreAcquired(cfg: Config, free: seq<bool>, lo: nat, hi: nat, n: nat)
    requires cfg.lo <= lo && hi <= cfg.hi && hi <= |free| && n <= |FreeIn(free, lo, hi)|
    ensures Acquired(cfg, free, FrameDescs(cfg.frameSize, FreeIn(free, lo, hi)[..n]))
  {
    var all := FreeIn(free, lo, hi);
    var descs := FrameDescs(cfg.frameSize, all[..n]);
    forall j | 0 <= j < n
      ensures FrameOf(cfg, descs[j].addr) == all[j] && lo <= all[j] < hi && free[all[j]]
    {
      assert all[j] in all;
      FreeInExact(free, lo, hi, all[j]);
      FrameOfOffset(cfg, all[j], 0);
    }
    forall j, k | 0 <= j < k < n ensures all[j] < all[k] {
      FreeInAscends(free, lo, hi, j, k);
    }
  }

  /** The byte range lies inside frame `k` and inside the umem. */
  ghost predicate InsideFrame(cfg: Config, k: nat, from: nat, to: nat) {
    && k < cfg.frames
    && k * cfg.frameSize <= from <= to <= k * cfg.frameSize + cfg.frameSize
    && to <= cfg.frames * cfg.frameSize
  }

  /** A slot handed back names a slice inside one frame and inside the umem. */
  lemma SliceInside(cfg: Config, s: Slot)
    requires GoodBack(cfg, s) && cfg.kind.Rx?
    ensures InsideFrame(cfg, FrameOf(cfg, s.addr), s.addr, s.addr + s.len)
  {
    var k := FrameOf(cfg, s.addr);
    assert s.addr == k * cfg.frameSize + s.addr % cfg.frameSize;
    MulStep(k, cfg.frames, cfg.frameSize);
  }
}
