/** The protected sections of UVCPreview.cpp on its arrays of frames: each does to the
    arrays what its function in FrameHandoff says. */
module FrameSections {
  import opened FrameHandoff
  import opened FrameSession
  import opened ObjectArrays

  /** clearPreviewFrame from frame i of the queue on. */
  function ClearFrom(s: Shared, i: nat): Shared
    requires i <= |s.queue|
    decreases |s.queue| - i
  {
    if i == |s.queue| then s.(queue := []) else ClearFrom(Recycle(s, s.queue[i]), i + 1)
  }

  /** addCaptureFrame as a whole. */
  function AddCapture(s: Shared, f: held): Shared
  {
    if s.running then Recycle(s, s.capture).(capture := f) else s.(dropped := s.dropped + [f])
  }

  /** Clearing returns every frame of the queue to the store. */
  lemma {:induction false} ClearReturnsAll(s: Shared, i: nat)
    requires i <= |s.queue| && |s.pool| <= FRAME_POOL_SZ
    ensures Stored(ClearFrom(s, i)) == Stored(s) + multiset(s.queue[i..])
    ensures var t := ClearFrom(s, i);
      t == s.(pool := t.pool, freed := t.freed, queue := []) && |t.pool| <= FRAME_POOL_SZ
    decreases |s.queue| - i
  {
    hide Stored, Recycle;
    if i < |s.queue| {
      RecycleStores(s, s.queue[i]);
      ClearReturnsAll(Recycle(s, s.queue[i]), i + 1);
      QueueHead(s.queue, i);
    } else {
      assert s.queue[i..] == [];
      StoredIs(s);
    }
  }

  /** How many of n frames a pool still takes. */
  function Kept(pool: nat, n: nat): (k: nat)
    ensures k <= n && (k == n || pool + k >= 6) && (k == 0 || pool + k <= 6)
  {
    if pool + n <= 6 then n else if pool <= 6 then 6 - pool else 0
  }

  /** Clearing fills the pool to 6 with the frames that waited longest and frees the rest,
      both in the order of the queue. */
  lemma {:induction false} ClearFillsPool(s: Shared, i: nat)
    requires i <= |s.queue|
    ensures var t := ClearFrom(s, i); var k := Kept(|s.pool|, |s.queue| - i); var rest := s.queue[i..];
      && t.pool == s.pool + rest[..k] && t.freed == s.freed + rest[k..]
      && t == s.(pool := t.pool, freed := t.freed, queue := [])
    decreases |s.queue| - i
  {
    hide Recycle, ClearFrom, Kept;
    ClearNext(s, i);
    KeptNext(|s.pool|, |s.queue| - i);
    if i < |s.queue| {
      var f, rest := s.queue[i], s.queue[i + 1..];
      RecycleFillsPool(s, f);
      ClearFillsPool(Recycle(s, f), i + 1);
      assert s.queue[i..] == [f] + rest;
      OneMore(s.pool, f, rest, Kept(|s.pool|, |s.queue| - i));
      OneMore(s.freed, f, rest, 0);
    } else {
      assert s.queue[i..] == [] && s.pool + [] == s.pool && s.freed + [] == s.freed;
    }
  }

  lemma ClearNext(s: Shared, i: nat)
    requires i <= |s.queue|
    ensures i == |s.queue| ==> ClearFrom(s, i) == s.(queue := [])
    ensures i < |s.queue| ==> ClearFrom(s, i) == ClearFrom(Recycle(s, s.queue[i]), i + 1)
  {
    hide Recycle;
  }

  lemma KeptNext(pool: nat, n: nat)
    ensures n == 0 || pool >= 6 ==> Kept(pool, n) == 0
    ensures n > 0 && pool < 6 ==> Kept(pool, n) == Kept(pool + 1, n - 1) + 1
  {
  }

  lemma OneMore(a: seq<held>, f: held, rest: seq<held>, k: nat)
    requires k <= |rest| + 1
    ensures k > 0 ==> a + [f] + rest[..k - 1] == a + ([f] + rest)[..k] && rest[k - 1..] == ([f] + rest)[k..]
    ensures k == 0 ==> a + rest[..0] == a == a + ([f] + rest)[..0] && a + [f] + rest[0..] == a + ([f] + rest)[0..]
  {
  }

  lemma StoredIs(s: Shared)
    ensures Stored(s.(queue := [])) == Stored(s)
  {
  }

  class FrameStore {
    const mFramePool: ObjectArray
    const previewFrames: ObjectArray
    var captureQueu: frame
    var isRunning: bool
    var next: held
    ghost var freed: seq<held>
    ghost var dropped: seq<held>

    ghost predicate Valid()
      reads this, mFramePool, mFramePool.elements, previewFrames, previewFrames.elements
    {
      && mFramePool != previewFrames && mFramePool.elements != previewFrames.elements
      && mFramePool.Valid() && previewFrames.Valid()
    }

    ghost function Abs(): Shared
      requires Valid()
      reads this, mFramePool, mFramePool.elements, previewFrames, previewFrames.elements
    {
      Shared(mFramePool.Contents(), previewFrames.Contents(), captureQueu, isRunning, next, freed, dropped)
    }

    constructor ()
      ensures Valid() && Abs() == Shared([], [], 0, false, 1, [], [])
    {
      mFramePool := new ObjectArray(2);
      previewFrames := new ObjectArray(2);
      captureQueu, isRunning, next, freed, dropped := 0, false, 1, [], [];
    }

    /** get_frame. */
    method GetFrame(memory: bool) returns (f: frame)
      requires Valid()
      modifies `next, mFramePool
      ensures Valid() && mFramePool.elements == old(mFramePool.elements)
      ensures Abs() == Obtain(old(Abs()), memory).s && f == Obtain(old(Abs()), memory).f
      ensures if old(mFramePool.Contents()) != []
        then next == old(next) && old(mFramePool.Contents()) == mFramePool.Contents() + [f]
        else (f == (if memory then old(next) else 0) && mFramePool.Contents() == []
          && next == if memory then old(next) + 1 else old(next))
    {
      f := 0;
      if mFramePool.size >= 1 {
        f := mFramePool.Last();
      }
      if f == 0 && memory {
        f := next;
        next := next + 1;
      }
    }

    /** recycle_frame. */
    method RecycleFrame(f: frame)
      requires Valid()
      modifies `freed, mFramePool, mFramePool.elements
      ensures Valid() && Abs() == Recycle(old(Abs()), f)
      ensures f != 0 && |old(mFramePool.Contents())| < 6
        ==> freed == old(freed) && mFramePool.Contents() == old(mFramePool.Contents()) + [f]
      ensures f != 0 && |old(mFramePool.Contents())| >= 6
        ==> freed == old(freed) + [f] && mFramePool.Contents() == old(mFramePool.Contents())
      ensures f == 0 ==> freed == old(freed) && mFramePool.Contents() == old(mFramePool.Contents())
      ensures mFramePool.elements == old(mFramePool.elements) || fresh(mFramePool.elements)
    {
      var left := f;
      if mFramePool.size < FRAME_POOL_SZ {
        var count := mFramePool.Put(f);
        left := 0;
      }
      if left != 0 {
        freed := freed + [left];
      }
    }

    /** The section of addPreviewFrame. */
    method AddPreviewFrame(f: held) returns (accepted: bool)
      requires Valid()
      modifies previewFrames, previewFrames.elements
      ensures Valid() && Abs() == OfferPreview(old(Abs()), f).0 && accepted == OfferPreview(old(Abs()), f).1
      ensures accepted <==> isRunning && |old(previewFrames.Contents())| <= 3
      ensures previewFrames.Contents() == old(previewFrames.Contents()) + if accepted then [f] else []
    {
      accepted := isRunning && previewFrames.size < MAX_FRAME;
      if accepted {
        var count := previewFrames.Put(f);
      }
    }

    /** The section of waitPreviewFrame, after any waiting. */
    method WaitPreviewFrame() returns (f: frame)
      requires Valid()
      modifies previewFrames, previewFrames.elements
      ensures Valid() && Abs() == TakePreview(old(Abs())).s && f == TakePreview(old(Abs())).f
      ensures f != 0 <==> isRunning && old(previewFrames.Contents()) != []
      ensures old(previewFrames.Contents()) == (if f != 0 then [f] else []) + previewFrames.Contents()
    {
      f := 0;
      ghost var queue := previewFrames.Contents();
      if isRunning && previewFrames.size > 0 {
        f := previewFrames.Remove(0);
        assert queue == [f] + previewFrames.Contents();
      } else {
        assert queue == [] + previewFrames.Contents();
      }
    }

    /** clearPreviewFrame. */
    method ClearPreviewFrame()
      requires Valid()
      modifies `freed, mFramePool, mFramePool.elements, previewFrames
      ensures Valid() && Abs() == ClearFrom(old(Abs()), 0) && previewFrames.Contents() == []
      ensures var pool, queue := old(mFramePool.Contents()), old(previewFrames.Contents());
        var k := Kept(|pool|, |queue|);
        mFramePool.Contents() == pool + queue[..k] && freed == old(freed) + queue[k..]
    {
      hide Recycle;
      ClearFillsPool(Abs(), 0);
      assert Abs().queue[0..] == Abs().queue;
      for i := 0 to previewFrames.size
        invariant Valid() && i <= previewFrames.size == old(previewFrames.size)
          && previewFrames.elements == old(previewFrames.elements)
        invariant mFramePool.elements == old(mFramePool.elements) || fresh(mFramePool.elements)
        invariant ClearFrom(Abs(), i) == ClearFrom(old(Abs()), 0)
      {
        RecycleKeepsQueue(Abs(), previewFrames.elements[i]);
        RecycleFrame(previewFrames.elements[i]);
      }
      previewFrames.Clear();
    }

    lemma RecycleKeepsQueue(s: Shared, f: frame)
      ensures Recycle(s, f).queue == s.queue
    {
    }

    /** addCaptureFrame. */
    method AddCaptureFrame(f: held)
      requires Valid()
      modifies `freed, `captureQueu, `dropped, mFramePool, mFramePool.elements
      ensures Valid() && Abs() == AddCapture(old(Abs()), f)
      ensures isRunning ==> captureQueu == f && dropped == old(dropped)
      ensures isRunning && old(captureQueu) != 0 && |old(mFramePool.Contents())| < 6
        ==> freed == old(freed) && mFramePool.Contents() == old(mFramePool.Contents()) + [old(captureQueu)]
      ensures isRunning && old(captureQueu) != 0 && |old(mFramePool.Contents())| >= 6
        ==> freed == old(freed) + [old(captureQueu)] && mFramePool.Contents() == old(mFramePool.Contents())
      ensures !isRunning || old(captureQueu) == 0
        ==> freed == old(freed) && mFramePool.Contents() == old(mFramePool.Contents())
      ensures !isRunning ==> captureQueu == old(captureQueu) && dropped == old(dropped) + [f]
    {
      if isRunning {
        if captureQueu != 0 {
          RecycleFrame(captureQueu);
        }
        captureQueu := f;
      } else {
        dropped := dropped + [f];
      }
    }

    /** The section of waitCaptureFrame, after any waiting. */
    method WaitCaptureFrame() returns (f: frame)
      requires Valid()
      modifies `captureQueu
      ensures Valid() && Abs() == TakeCapture(old(Abs())).s && f == TakeCapture(old(Abs())).f
      ensures if isRunning then f == old(captureQueu) && captureQueu == 0
        else f == 0 && captureQueu == old(captureQueu)
    {
      f := 0;
      if isRunning && captureQueu != 0 {
        f := captureQueu;
        captureQueu := 0;
      }
    }

    /** clearCaptureFrame. */
    method ClearCaptureFrame()
      requires Valid()
      modifies `freed, `captureQueu, mFramePool, mFramePool.elements
      ensures Valid() && Abs() == Recycle(old(Abs()), old(captureQueu)).(capture := 0)
    {
      if captureQueu != 0 {
        RecycleFrame(captureQueu);
      }
      captureQueu := 0;
    }
  }

  // ----- the same sections, as steps of a session that nothing interrupts

  /** addCaptureFrame. */
  method OfferUninterrupted(x: Session)
    requires x.Valid() && x.pv.PvOffering? && x.captureLock == Free
    modifies x
    ensures x.Valid() && x.s == AddCapture(old(x.s), old(x.pv.f)) && x.pv == PvLoop
  {
    hide x.Holding;
    x.PvOffer();
    if x.pv.PvReplacing? {
      x.PvReplace();
    }
  }

  /** clearPreviewFrame, as the preview thread calls it. */
  method ClearUninterrupted(x: Session)
    requires x.Valid() && x.pv == PvToClear && x.previewLock == Free && x.cleared == 0
    modifies x
    ensures x.Valid() && x.s == ClearFrom(old(x.s), 0) && x.pv == PvSpawn && x.previewLock == Free
  {
    hide x.Holding;
    x.PvLock();
    while x.pv == PvClearing
      invariant x.Valid() && x.cleared <= |x.s.queue|
      invariant x.pv == PvClearing ==> ClearFrom(x.s, x.cleared) == ClearFrom(old(x.s), 0)
      invariant x.pv == PvClearing || (x.pv == PvSpawn && x.s == ClearFrom(old(x.s), 0) && x.previewLock == Free)
      decreases x.pv == PvClearing, |x.s.queue| - x.cleared
    {
      x.QueueIsCleared();
      x.PvClear();
      x.QueueIsCleared();
    }
  }

  /** clearPreviewFrame, as stopPreview calls it. */
  method StopUninterrupted(x: Session)
    requires x.Valid() && x.ct == CtToClear && x.previewLock == Free && x.cleared == 0
    modifies x
    ensures x.Valid() && x.s == ClearFrom(old(x.s), 0) && x.ct == CtToClearCapture && x.previewLock == Free
  {
    hide x.Holding;
    x.CtLock();
    while x.ct == CtClearing
      invariant x.Valid() && x.cleared <= |x.s.queue|
      invariant x.ct == CtClearing ==> ClearFrom(x.s, x.cleared) == ClearFrom(old(x.s), 0)
      invariant x.ct == CtClearing || (x.ct == CtToClearCapture && x.s == ClearFrom(old(x.s), 0)
        && x.previewLock == Free)
      decreases x.ct == CtClearing, |x.s.queue| - x.cleared
    {
      x.QueueIsCleared();
      x.CtClear();
      x.QueueIsCleared();
    }
  }

  /** clearCaptureFrame, as stopPreview calls it. */
  method ClearCaptureUninterrupted(x: Session)
    requires x.Valid() && x.ct == CtToClearCapture && x.captureLock == Free
    modifies x
    ensures x.Valid() && x.s == Recycle(old(x.s), old(x.s.capture)).(capture := 0) && x.ct == CtDone
  {
    hide x.Holding;
    x.CtClearCapture();
    if x.ct == CtReplacing {
      x.CtReplaced();
    }
  }
}
