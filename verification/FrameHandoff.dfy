/**
 Frames between the USB callback, the preview thread, the capture thread and the thread
 that stops the preview (UVCPreview.cpp), over one preview session.  A frame is a
 pointer, 0 being NULL.  What the threads share is changed only by the functions of this
 module, one for each protected section; the threads are state machines whose steps
 interleave.  A step is one protected section, or one access to the pool where a section
 has others inside, or work on frames that only the thread itself has.
 */
module FrameHandoff {
  type frame = nat
  type held = f: frame | f != 0 witness 1 // a pointer that is not NULL

  const MAX_FRAME := 4
  const FRAME_POOL_SZ := MAX_FRAME + 2

  /** What the threads share.  `next` is the next frame to allocate; `freed` and
      `dropped` are the frames that went back to the allocator and those that went
      nowhere. */
  datatype Shared = Shared(pool: seq<held>, queue: seq<held>, capture: frame, running: bool,
    next: held, freed: seq<held>, dropped: seq<held>)

  /** What is shared after a section, and the frame that it gave. */
  datatype Given = Given(s: Shared, f: frame)

  /** get_frame: the last frame of the pool, or a new one; NULL when there is no memory. */
  function Obtain(s: Shared, memory: bool): (r: Given)
  {
    if s.pool != [] then Given(s.(pool := s.pool[..|s.pool| - 1]), s.pool[|s.pool| - 1])
    else if memory then Given(s.(next := s.next + 1), s.next)
    else Given(s, 0)
  }

  /** recycle_frame. */
  function Recycle(s: Shared, f: frame): Shared
  {
    if f == 0 then s
    else if |s.pool| < FRAME_POOL_SZ then s.(pool := s.pool + [f])
    else s.(freed := s.freed + [f])
  }

  /** The section of addPreviewFrame, and whether the frame was taken. */
  function OfferPreview(s: Shared, f: held): (r: (Shared, bool))
  {
    if s.running && |s.queue| < MAX_FRAME then (s.(queue := s.queue + [f]), true) else (s, false)
  }

  /** The section of waitPreviewFrame after any waiting. */
  function TakePreview(s: Shared): (r: Given)
  {
    if s.running && s.queue != [] then Given(s.(queue := s.queue[1..]), s.queue[0]) else Given(s, 0)
  }

  /** The section of waitCaptureFrame after any waiting. */
  function TakeCapture(s: Shared): (r: Given)
  {
    if s.running && s.capture != 0 then Given(s.(capture := 0), s.capture) else Given(s, 0)
  }

  // ----- where frames are

  datatype Usb = UsbIdle | UsbCopying(f: held) | UsbAdding(f: held) | UsbReturning(f: held)

  /** do_preview; c is the converted frame of draw_preview_one. */
  datatype Preview = PvStart | PvToClear | PvClearing | PvSpawn
    | PvLoop | PvWaiting | PvHas(f: held) | PvDecoding(m: held, f: held)
    | PvPicture(f: held) | PvDrawing(f: held,
      c: held) | PvOffering(f: held) | PvReplacing(f: held) | PvReturning(f: held)
    | PvStopping | PvDone

  /** do_capture; c is the converted frame of do_capture_surface, or NULL. */
  datatype Capture = CpNone | CpStart | CpClearing | CpLoop | CpWaiting(c: frame) | CpHas(f: held, c: frame)
    | CpCalling(f: held, b: held, c: frame) | CpReturning(b: held, c: frame) | CpDone

  /** stopPreview. */
  datatype Control = CtRunning | CtJoining | CtToClear | CtClearing | CtToClearCapture | CtReplacing | CtDone

  datatype Holder = Free | ByPreview | ByCapture | ByControl

  function One(f: frame): multiset<frame>
  {
    if f == 0 then multiset{} else multiset{f}
  }

  function UsbFrames(u: Usb): multiset<frame>
  {
    if u.UsbIdle? then multiset{} else multiset{u.f}
  }

  function PvFrames(p: Preview): multiset<frame>
  {
    match p
    case PvHas(f) => multiset{f}
    case PvDecoding(m, f) => multiset{m, f}
    case PvPicture(f) => multiset{f}
    case PvDrawing(f, c) => multiset{f, c}
    case PvOffering(f) => multiset{f}
    case PvReplacing(f) => multiset{f}
    case PvReturning(f) => multiset{f}
    case _ => multiset{}
  }

  function CpFrames(c: Capture): multiset<frame>
  {
    match c
    case CpWaiting(c) => One(c)
    case CpHas(f, c) => multiset{f} + One(c)
    case CpCalling(f, b, c) => multiset{f, b} + One(c)
    case CpReturning(b, c) => multiset{b} + One(c)
    case _ => multiset{}
  }

  /** The frames that are back in store or out of reach. */
  function Stored(s: Shared): multiset<frame>
  {
    multiset(s.pool) + multiset(s.freed) + multiset(s.dropped)
  }

  function Some(f: frame): (fs: seq<frame>)
    ensures multiset(fs) == One(f)
  {
    if f == 0 then [] else [f]
  }

  function CaptureWaits(capture: frame, stale: bool): seq<frame>
  {
    if stale then [] else Some(capture)
  }

  /** The frames that wait in the queue or for capturing, but for those that a thread
      has recycled and will remove before it lets go of the lock. */
  function Waiting(s: Shared, cleared: nat, stale: bool): multiset<frame>
    requires cleared <= |s.queue|
  {
    multiset(CaptureWaits(s.capture, stale)) + multiset(s.queue[cleared..])
  }

  /** Every frame ever allocated is in exactly one place. */
  ghost predicate Conserved(places: multiset<frame>, next: held)
  {
    forall f :: places[f] == if 1 <= f < next then 1 else 0
  }

  lemma PoolLast(s: seq<held>)
    requires s != []
    ensures multiset(s) == multiset(s[..|s| - 1]) + multiset{s[|s| - 1]}
  {
    assert s == s[..|s| - 1] + [s[|s| - 1]];
  }

  lemma QueueHead(s: seq<held>, i: nat)
    requires i < |s|
    ensures multiset(s[i..]) == multiset{s[i]} + multiset(s[i + 1..])
  {
    assert s[i..] == [s[i]] + s[i + 1..];
  }

  /** All frames: in store, in the hand of the thread whose turn it is, waiting, and with
      the three threads. */
  function Together(store: multiset<frame>, hand: multiset<frame>, wait: multiset<frame>,
      usb: multiset<frame>, pv: multiset<frame>, cp: multiset<frame>): multiset<frame>
  {
    store + (hand + wait + usb + pv + cp)
  }

  /** A frame that passes from one place to another is still there once. */
  lemma Passes(st: multiset<frame>, h: multiset<frame>, w: multiset<frame>, u: multiset<frame>, p: multiset<frame>,
      c: multiset<frame>,
      st': multiset<frame>, h': multiset<frame>, w': multiset<frame>, u': multiset<frame>, p': multiset<frame>,
        c': multiset<frame>)
    requires
      || (h + p == h' + p' && w == w' && u == u' && c == c' && st == st')
      || (h + u == h' + u' && w == w' && p == p' && c == c' && st == st')
      || (h + c == h' + c' && w == w' && u == u' && p == p' && st == st')
      || (h + w == h' + w' && u == u' && p == p' && c == c' && st == st')
      || (w + p == w' + p' && h == h' && u == u' && c == c' && st == st')
      || (w + u == w' + u' && h == h' && p == p' && c == c' && st == st')
      || (w + c == w' + c' && h == h' && u == u' && p == p' && st == st')
      || (st + p == st' + p' && h == h' && w == w' && u == u' && c == c')
      || (st + h == st' + h' && w == w' && u == u' && p == p' && c == c')
    ensures Together(st, h, w, u, p, c) == Together(st', h', w', u', p', c')
  {
    forall f ensures Together(st, h, w, u, p, c)[f] == Together(st', h', w', u', p', c')[f] {
      assert (h + p)[f] == h[f] + p[f] && (h' + p')[f] == h'[f] + p'[f];
      assert (h + u)[f] == h[f] + u[f] && (h' + u')[f] == h'[f] + u'[f];
      assert (h + c)[f] == h[f] + c[f] && (h' + c')[f] == h'[f] + c'[f];
      assert (h + w)[f] == h[f] + w[f] && (h' + w')[f] == h'[f] + w'[f];
      assert (w + p)[f] == w[f] + p[f] && (w' + p')[f] == w'[f] + p'[f];
      assert (w + u)[f] == w[f] + u[f] && (w' + u')[f] == w'[f] + u'[f];
      assert (w + c)[f] == w[f] + c[f] && (w' + c')[f] == w'[f] + c'[f];
      assert (st + p)[f] == st[f] + p[f] && (st' + p')[f] == st'[f] + p'[f];
      assert (st + h)[f] == st[f] + h[f] && (st' + h')[f] == st'[f] + h'[f];
    }
  }

  /** recycle_frame: a frame joins a pool of fewer than 6 frames, behind the others, and
      nothing is freed; a frame that meets 6 in the pool is freed and leaves the pool as it
      is.  NULL changes nothing. */
  lemma RecycleFillsPool(s: Shared, f: frame)
    ensures f == 0 ==> Recycle(s, f) == s
    ensures f != 0 && |s.pool| < 6 ==> Recycle(s, f) == s.(pool := s.pool + [f])
    ensures f != 0 && |s.pool| >= 6 ==> Recycle(s, f) == s.(freed := s.freed + [f])
  {
  }

  /** get_frame: it allocates only when the pool is empty, and otherwise takes the frame
      that came back last. */
  lemma ObtainPrefersPool(s: Shared, memory: bool)
    ensures var r := Obtain(s, memory);
      && r.s == s.(pool := r.s.pool, next := r.s.next)
      && (s.pool != [] ==> r.f != 0 && s.pool == r.s.pool + [r.f] && r.s.next == s.next)
      && (s.pool == [] && memory ==> r.f == s.next && r.s == s.(next := s.next + 1))
      && (s.pool == [] && !memory ==> r.f == 0 && r.s == s)
  {
  }

  /** A frame that went back is the next one to be taken, unless the pool was full: then
      the next one is the last of the 6. */
  lemma LastInFirstOut(s: Shared, f: held, memory: bool)
    requires |s.pool| <= 6
    ensures var r := Obtain(Recycle(s, f), memory);
      if |s.pool| < 6 then r.f == f && r.s == s else r.f == s.pool[5] && r.s.freed == s.freed + [f]
  {
  }

  /** The queue: a frame joins behind at most 3 others while the preview runs, and the one
      that waited longest leaves first. */
  lemma QueueIsFair(s: Shared, f: held)
    ensures var (t, ok) := OfferPreview(s, f);
      && (ok <==> s.running && |s.queue| <= 3) && t == s.(queue := t.queue)
      && |t.queue| == |s.queue| + (if ok then 1 else 0) && s.queue <= t.queue && (ok ==> t.queue[|s.queue|] == f)
    ensures var r := TakePreview(s);
      && (r.f != 0 <==> s.running && s.queue != []) && r.s == s.(queue := r.s.queue)
      && (r.f == 0 ==> r.s == s) && (r.f != 0 ==> s.queue == [r.f] + r.s.queue)
    ensures var r := TakeCapture(s);
      && (r.f != 0 <==> s.running && s.capture != 0) && r.s == s.(capture := r.s.capture)
      && (r.f == 0 ==> r.s == s) && (r.f != 0 ==> r.f == s.capture && r.s.capture == 0)
  {
  }

  /** What one step may do to the pool: nothing, take its last frame, allocate a frame
      because it is empty, add a frame to fewer than 6, or free a frame because it holds 6. */
  predicate PoolMoves(s: Shared, t: Shared)
  {
    || (t.pool == s.pool && t.freed == s.freed && t.next == s.next)
    || (s.pool != [] && t.pool == s.pool[..|s.pool| - 1] && t.freed == s.freed && t.next == s.next)
    || (s.pool == [] && t.pool == [] && t.freed == s.freed && t.next == s.next + 1)
    || (|s.pool| < 6 && |t.pool| == |s.pool| + 1 && s.pool <= t.pool && t.freed == s.freed && t.next == s.next)
    || (|s.pool| == 6 && t.pool == s.pool && |t.freed| == |s.freed| + 1 && s.freed <= t.freed && t.next == s.next)
  }

  lemma RecycleMoves(s: Shared, f: frame)
    requires |s.pool| <= 6
    ensures PoolMoves(s, Recycle(s, f))
  {
  }

  lemma ObtainMoves(s: Shared, memory: bool)
    ensures PoolMoves(s, Obtain(s, memory).s)
  {
  }

  /** Whatever a step recycles or obtains, it moves the pool as it should. */
  lemma PoolStep(s: Shared)
    requires |s.pool| <= 6
    ensures forall f :: PoolMoves(s, Recycle(s, f)) && Recycle(s, f).dropped == s.dropped
    ensures forall memory :: PoolMoves(s, Obtain(s, memory).s) && Obtain(s, memory).s.dropped == s.dropped
    ensures forall memory :: Obtain(s, memory).f == 0 ==> Obtain(s, memory).s == s
    ensures forall t: Shared :: t.pool == s.pool && t.freed == s.freed && t.next == s.next ==> PoolMoves(s, t)
  {
    hide PoolMoves;
    forall t: Shared | t.pool == s.pool && t.freed == s.freed && t.next == s.next ensures PoolMoves(s, t) {
      PoolRests(s, t);
    }
    forall f ensures PoolMoves(s, Recycle(s, f)) && Recycle(s, f).dropped == s.dropped {
      RecycleMoves(s, f);
    }
    forall memory ensures PoolMoves(s, Obtain(s, memory).s) && Obtain(s, memory).s.dropped == s.dropped {
      ObtainMoves(s, memory);
    }
  }

  lemma NothingRecycled(s: Shared)
    ensures Recycle(s, 0) == s
  {
  }

  lemma NothingObtained(s: Shared, memory: bool)
    ensures Obtain(s, memory).f == 0 ==> Obtain(s, memory).s == s
  {
  }

  lemma PoolRests(s: Shared, t: Shared)
    requires t.pool == s.pool && t.freed == s.freed && t.next == s.next
    ensures PoolMoves(s, t)
  {
  }

  /** So frames are freed only when the pool holds 6, which it still does afterwards, and
      allocated only when it is empty. */
  lemma PoolUsedFirst(s: Shared, t: Shared)
    requires PoolMoves(s, t)
    ensures s.freed != t.freed ==> |s.pool| == 6 && t.pool == s.pool
    ensures s.next != t.next ==> s.pool == [] && t.pool == []
  {
  }

  /** recycle_frame puts the frame in store and changes nothing else. */
  lemma RecycleStores(s: Shared, f: frame)
    requires |s.pool| <= FRAME_POOL_SZ
    ensures var t := Recycle(s, f); |t.pool| <= FRAME_POOL_SZ && t == s.(pool := t.pool, freed := t.freed)
    ensures Stored(Recycle(s, f)) == Stored(s) + One(f)
  {
  }

  /** get_frame takes a frame out of the store or a new one. */
  lemma ObtainTakes(s: Shared, memory: bool, h: multiset<frame>, w: multiset<frame>, u: multiset<frame>,
      p: multiset<frame>, c: multiset<frame>)
    requires Conserved(Together(Stored(s), h, w, u, p, c), s.next)
    ensures var r := Obtain(s, memory);
      && r.s == s.(pool := r.s.pool, next := r.s.next) && |r.s.pool| <= |s.pool| && (memory ==> r.f != 0)
      && Conserved(Together(Stored(r.s), h + One(r.f), w, u, p, c), r.s.next)
  {
    hide Conserved, Together;
    var r := Obtain(s, memory);
    if s.pool != [] {
      PoolLast(s.pool);
      assert Stored(r.s) + One(r.f) == Stored(s);
      assert Stored(r.s) + (h + One(r.f)) == Stored(s) + h;
      Passes(Stored(s), h, w, u, p, c, Stored(r.s), h + One(r.f), w, u, p, c);
    } else if memory {
      OneMore(Together(Stored(s), h, w, u, p, c), s.next);
      OneMoreInHand(Stored(s), h, w, u, p, c, s.next);
    } else {
      assert h + One(r.f) == h;
    }
  }

  lemma OneMoreInHand(st: multiset<frame>, h: multiset<frame>, w: multiset<frame>, u: multiset<frame>,
      p: multiset<frame>, c: multiset<frame>, f: held)
    ensures Together(st, h, w, u, p, c) + multiset{f} == Together(st, h + One(f), w, u, p, c)
  {
  }

  lemma OneMore(places: multiset<frame>, next: held)
    requires Conserved(places, next)
    ensures Conserved(places + multiset{next}, next + 1)
  {
  }

  // ----- what keeps the threads apart

  /** The queue and the pool do not outgrow their limits. */
  predicate Bounded(s: Shared, cleared: nat, lock: Holder)
  {
    cleared <= |s.queue| <= MAX_FRAME && |s.pool| <= FRAME_POOL_SZ && (lock == Free ==> cleared == 0)
  }

  /** The locks are held by the threads that say so. */
  predicate PreviewLocked(lock: Holder, pv: Preview, ct: Control)
  {
    (lock == ByPreview <==> pv == PvClearing) && (lock == ByControl <==> ct == CtClearing) && lock != ByCapture
  }

  predicate CaptureLocked(lock: Holder, pv: Preview, cp: Capture, ct: Control, stale: bool)
  {
    && (lock == ByPreview <==> pv.PvReplacing?) && (lock == ByCapture <==> cp == CpClearing)
    && (lock == ByControl <==> ct == CtReplacing) && (stale <==> lock != Free)
  }

  /** Threads start and end one after the other. */
  predicate Started(pv: Preview, cp: Capture, ct: Control, usb: Usb, streaming: bool)
  {
    && (pv.PvStart? || pv.PvToClear? || pv.PvClearing? || pv.PvSpawn? ==> cp == CpNone)
    && (ct == CtRunning || ct == CtJoining || pv == PvDone)
    && (pv == PvDone || pv == PvStart ==> usb == UsbIdle && !streaming)
  }

  /** After the stop nothing is queued any more. */
  predicate Stopped(ct: Control, s: Shared)
  {
    && (ct != CtRunning ==> !s.running)
    && (ct == CtToClearCapture || ct == CtReplacing || ct == CtDone ==> s.queue == [])
    && (ct == CtDone ==> s.capture == 0)
  }

  // ----- the order of pictures

  /** The frame whose picture the preview thread will offer for capturing. */
  function PvSource(p: Preview): seq<frame>
  {
    match p
    case PvHas(f) => [f]
    case PvDecoding(m, f) => [m]
    case PvPicture(f) => [f]
    case PvDrawing(f, c) => [f]
    case PvOffering(f) => [f]
    case PvReplacing(f) => [f]
    case _ => []
  }

  /** The frames on their way to capturing, the first to arrive first. */
  function OnTheWay(s: Shared, cleared: nat, stale: bool, pv: Preview): seq<frame>
    requires cleared <= |s.queue|
  {
    CaptureWaits(s.capture, stale) + PvSource(pv) + s.queue[cleared..]
  }

  lemma SourceIsHeld(p: Preview)
    ensures multiset(PvSource(p)) <= PvFrames(p)
  {
  }

  lemma WayIsHeld(s: Shared, cleared: nat, stale: bool, pv: Preview)
    requires cleared <= |s.queue|
    ensures multiset(OnTheWay(s, cleared, stale, pv)) <= Waiting(s, cleared, stale) + PvFrames(pv)
  {
    hide PvSource, PvFrames, CaptureWaits;
    SourceIsHeld(pv);
    var a, b, c := CaptureWaits(s.capture, stale), PvSource(pv), s.queue[cleared..];
    assert multiset(a + b + c) == multiset(a) + multiset(b) + multiset(c);
  }

  lemma WayIsCounted(s: Shared, cleared: nat, stale: bool, pv: Preview, m: held)
    requires cleared <= |s.queue| && PvSource(pv) == [m]
    ensures multiset(OnTheWay(s, cleared, stale, pv)) == Waiting(s, cleared, stale) + multiset{m}
  {
    hide PvSource, CaptureWaits;
    var a, c := CaptureWaits(s.capture, stale), s.queue[cleared..];
    assert multiset(a + [m] + c) == multiset(a) + multiset{m} + multiset(c);
  }

  /** A frame that is in one place is in no other. */
  lemma OnlyThere(places: multiset<frame>, here: multiset<frame>, there: multiset<frame>, next: held, f: frame)
    requires Conserved(places, next) && here + there <= places && f in here
    ensures f !in there
  {
    assert (here + there)[f] <= places[f] <= 1;
  }

  /** The pictures in frames. */
  function Pictures(content: map<frame, nat>, fs: seq<frame>): (p: seq<nat>)
    ensures |p| == |fs|
  {
    seq(|fs|, i requires 0 <= i < |fs| => PictureIn(content, fs[i]))
  }

  function PictureIn(content: map<frame, nat>, f: frame): nat
  {
    if f in content then content[f] else 0
  }

  predicate Increasing(s: seq<nat>)
  {
    forall i, j :: 0 <= i < j < |s| ==> s[i] < s[j]
  }

  /** s is what remains of t when some elements are left out. */
  predicate IsSubsequence(s: seq<nat>, t: seq<nat>)
  {
    s == [] || (t != [] && (if s[0] == t[0] then IsSubsequence(s[1..], t[1..]) else IsSubsequence(s, t[1..])))
  }

  lemma {:induction false} IncreasingSubsequence(s: seq<nat>, t: seq<nat>)
    requires Increasing(s) && Increasing(t) && forall x :: x in s ==> x in t
    ensures IsSubsequence(s, t)
    decreases |t|
  {
    if s != [] {
      assert s[0] in t;
      var i :| 0 <= i < |t| && t[i] == s[0];
      if s[0] == t[0] {
        forall x | x in s[1..] ensures x in t[1..] {
          LaterDiffers(s, x);
        }
        IncreasingSubsequence(s[1..], t[1..]);
      } else {
        assert t[0] < s[0];
        forall x | x in s ensures x in t[1..] {
          FirstIsLeast(s, x);
        }
        IncreasingSubsequence(s, t[1..]);
      }
    }
  }

  lemma FirstIsLeast(s: seq<nat>, x: nat)
    requires Increasing(s) && x in s
    ensures s[0] <= x
  {
  }

  lemma LaterDiffers(s: seq<nat>, x: nat)
    requires Increasing(s) && s != [] && x in s[1..]
    ensures x in s && x != s[0]
  {
    var j :| 0 <= j < |s[1..]| && s[1..][j] == x;
    assert s[j + 1] == x;
  }

  /** The pictures taken and those on the way come in the order in which they were
      accepted, and none has been taken that was not accepted. */
  ghost predicate InOrder(way: seq<nat>, accepted: seq<nat>, bound: nat)
  {
    Increasing(way) && Increasing(accepted) && (forall x :: x in way ==> x in accepted) && forall x :: (x in accepted
      ==> x < bound)
  }

  /** One picture is lost. */
  lemma LoseOne(a: seq<nat>, x: nat, b: seq<nat>, accepted: seq<nat>, bound: nat)
    requires InOrder(a + [x] + b, accepted, bound)
    ensures InOrder(a + b, accepted, bound)
  {
    var w, v := a + [x] + b, a + b;
    forall i, j | 0 <= i < j < |v| ensures v[i] < v[j] {
      var i', j' := if i < |a| then i else i + 1, if j < |a| then j else j + 1;
      assert w[i'] < w[j'];
    }
    forall y | y in v ensures y in accepted {
      assert y in w;
    }
  }

  /** A new picture joins at the end. */
  lemma AcceptOne(way: seq<nat>, accepted: seq<nat>, x: nat, bound: nat)
    requires InOrder(way, accepted, x) && x < bound
    ensures InOrder(way + [x], accepted + [x], bound)
  {
    forall i | 0 <= i < |way| ensures way[i] < x {
      assert way[i] in accepted;
    }
    forall i | 0 <= i < |accepted| ensures accepted[i] < x {
      assert accepted[i] in accepted;
    }
  }

  lemma PicturesJoin(content: map<frame, nat>, a: seq<frame>, b: seq<frame>)
    ensures Pictures(content, a + b) == Pictures(content, a) + Pictures(content, b)
  {
  }

  /** New content in another frame does not matter. */
  lemma PicturesStay(content: map<frame, nat>, fs: seq<frame>, f: frame, x: nat)
    requires f !in fs
    ensures Pictures(content[f := x], fs) == Pictures(content, fs)
  {
  }

  // ----- what the sections do to the frames that wait

  lemma Joins(s: Shared, f: held, cleared: nat, stale: bool, pv: Preview)
    requires cleared <= |s.queue|
    ensures var t := s.(queue := s.queue + [f]);
      && Waiting(t, cleared, stale) == Waiting(s, cleared, stale) + multiset{f}
      && OnTheWay(t, cleared, stale, pv) == OnTheWay(s, cleared, stale, pv) + [f]
  {
    hide CaptureWaits, PvSource;
    assert (s.queue + [f])[cleared..] == s.queue[cleared..] + [f];
  }

  /** The first frame of the queue passes to the preview thread. */
  lemma Leaves(s: Shared, stale: bool, pv: Preview, pv': Preview)
    requires s.queue != [] && PvSource(pv) == [] && PvSource(pv') == [s.queue[0]]
    ensures var t := s.(queue := s.queue[1..]);
      && Waiting(s, 0, stale) == Waiting(t, 0, stale) + multiset{s.queue[0]}
      && OnTheWay(t, 0, stale, pv') == OnTheWay(s, 0, stale, pv)
  {
    hide CaptureWaits, PvSource;
    QueueHead(s.queue, 0);
    assert s.queue[0..] == [s.queue[0]] + s.queue[1..];
    assert s.queue[1..][0..] == s.queue[1..];
  }

  /** A clearing thread has recycled one more frame. */
  lemma ClearsOne(s: Shared, cleared: nat, stale: bool, pv: Preview)
    requires cleared < |s.queue|
    ensures Waiting(s, cleared, stale) == Waiting(s, cleared + 1, stale) + multiset{s.queue[cleared]}
    ensures var a := CaptureWaits(s.capture, stale) + PvSource(pv); var b := s.queue[cleared + 1..];
      OnTheWay(s, cleared, stale, pv) == a + [s.queue[cleared]] + b && OnTheWay(s, cleared + 1, stale, pv) == a + b
  {
    hide CaptureWaits, PvSource;
    QueueHead(s.queue, cleared);
    assert s.queue[cleared..] == [s.queue[cleared]] + s.queue[cleared + 1..];
  }

  lemma ClearsAll(s: Shared, stale: bool, pv: Preview)
    ensures var t := s.(queue := []);
      && Waiting(t, 0, stale) == Waiting(s, |s.queue|, stale)
      && OnTheWay(t, 0, stale, pv) == OnTheWay(s, |s.queue|, stale, pv)
  {
    hide CaptureWaits, PvSource;
    assert s.queue[|s.queue|..] == [];
  }

  /** The capture frame has been recycled. */
  lemma CaptureGoes(s: Shared, cleared: nat, pv: Preview)
    requires cleared <= |s.queue| && s.capture != 0
    ensures Waiting(s, cleared, false) == Waiting(s, cleared, true) + One(s.capture)
    ensures OnTheWay(s, cleared, false, pv) == [] + [s.capture] + OnTheWay(s, cleared, true, pv)
  {
  }

  /** A place that is empty or stale gets a frame, or NULL. */
  lemma CaptureSet(s: Shared, cleared: nat, stale: bool, f: frame, pv: Preview, pv': Preview)
    requires cleared <= |s.queue| && (stale || s.capture == 0) && PvSource(pv) == Some(f) && PvSource(pv') == []
    ensures var t := s.(capture := f);
      && Waiting(t, cleared, false) == Waiting(s, cleared, stale) + One(f)
      && OnTheWay(t, cleared, false, pv') == OnTheWay(s, cleared, stale, pv)
  {
  }

  lemma CaptureCleared(s: Shared, cleared: nat, pv: Preview)
    requires cleared <= |s.queue|
    ensures var t := s.(capture := 0);
      Waiting(t, cleared, false) == Waiting(s, cleared, true)
        && OnTheWay(t, cleared, false, pv) == OnTheWay(s, cleared, true, pv)
  {
  }

  lemma CaptureTaken(s: Shared, cleared: nat, pv: Preview)
    requires cleared <= |s.queue| && s.capture != 0
    ensures var t := s.(capture := 0);
      Waiting(s, cleared, false) == Waiting(t, cleared, false) + One(s.capture) &&
      OnTheWay(s, cleared, false, pv) == [s.capture] + OnTheWay(t, cleared, false, pv)
  {
  }

  /** The preview thread gives up its picture. */
  lemma SourceGoes(s: Shared, cleared: nat, stale: bool, pv: Preview, pv': Preview)
    requires cleared <= |s.queue| && |PvSource(pv)| == 1 && PvSource(pv') == []
    ensures var a := CaptureWaits(s.capture, stale); var b := s.queue[cleared..];
      OnTheWay(s, cleared, stale, pv) == a + PvSource(pv) + b && OnTheWay(s, cleared, stale, pv') == a + b
  {
  }

  /** It goes on with another frame. */
  lemma SourceChanges(s: Shared, cleared: nat, stale: bool, pv: Preview, pv': Preview)
    requires cleared <= |s.queue| && PvSource(pv) == PvSource(pv')
    ensures OnTheWay(s, cleared, stale, pv) == OnTheWay(s, cleared, stale, pv')
  {
  }

  /** Losing a frame on the way loses its picture. */
  lemma LoseFrame(taken: seq<nat>, content: map<frame, nat>, a: seq<frame>, f: frame, b: seq<frame>,
      accepted: seq<nat>, bound: nat)
    requires InOrder(taken + Pictures(content, a + [f] + b), accepted, bound)
    ensures InOrder(taken + Pictures(content, a + b), accepted, bound)
  {
    hide InOrder;
    PicturesJoin(content, a + [f], b);
    PicturesJoin(content, a, [f]);
    PicturesJoin(content, a, b);
    var x := PictureIn(content, f);
    assert taken + Pictures(content, a + [f] + b) == (taken + Pictures(content, a)) + [x] + Pictures(content, b);
    LoseOne(taken + Pictures(content, a), x, Pictures(content, b), accepted, bound);
    assert taken + Pictures(content, a + b) == (taken + Pictures(content, a)) + Pictures(content, b);
  }

  /** A picture moves to another frame, which was not on the way. */
  lemma PictureMoves(s: Shared, cleared: nat, stale: bool, content: map<frame, nat>, m: held, f: held, pv: Preview,
      pv': Preview)
    requires cleared <= |s.queue| && f !in OnTheWay(s, cleared, stale, pv) && PvSource(pv) == [m]
      && PvSource(pv') == [f]
    ensures Pictures(content[f := PictureIn(content, m)], OnTheWay(s, cleared, stale, pv')) == Pictures(content,
      OnTheWay(s, cleared, stale, pv))
  {
    hide CaptureWaits, PvSource;
    var a, b := CaptureWaits(s.capture, stale), s.queue[cleared..];
    var content' := content[f := PictureIn(content, m)];
    assert OnTheWay(s, cleared, stale, pv) == a + [m] + b && OnTheWay(s, cleared, stale, pv') == a + [f] + b;
    forall i | 0 <= i < |a + [m] + b| ensures PictureIn(content', (a + [f] + b)[i]) == PictureIn(content,
      (a + [m] + b)[i]) {
      if i != |a| {
        assert (a + [f] + b)[i] == (a + [m] + b)[i];
        assert (a + [m] + b)[i] in a + [m] + b;
      }
    }
  }
}
