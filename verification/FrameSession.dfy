/** The threads of a preview session and every way in which their steps interleave. */
module FrameSession {
  import opened FrameHandoff

  /** What becomes of a captured frame: it is first drawn on a surface, passed on as it
      is or to nobody, or converted for the callback. */
  datatype Use = ToSurface | AsItIs | ToCallback

  /** The thread that takes the next step; the flags are outcomes that the code does not
      decide: whether there is memory and whether conversions succeed. */
  datatype Action = UsbStep(ok: bool) | PvStep(ok: bool) | CpStep(ok: bool, use: Use) | CtStep

  /** Neither at the beginning nor at the end nor inside a section. */
  predicate Working(p: Preview)
  {
    !p.PvStart? && !p.PvToClear? && !p.PvClearing? && !p.PvSpawn? && !p.PvReplacing? && !p.PvDone?
  }

  lemma WorksOn(preview: Holder, capture: Holder, pv: Preview, next: Preview, cp: Capture, ct: Control, stale: bool,
      usb: Usb, streaming: bool)
    requires Working(pv) && Working(next)
    requires PreviewLocked(preview, pv, ct) && CaptureLocked(capture, pv, cp, ct, stale)
      && Started(pv, cp, ct, usb, streaming)
    ensures PreviewLocked(preview, next, ct) && CaptureLocked(capture, next, cp, ct, stale)
      && Started(next, cp, ct, usb, streaming)
  {
  }

  /** Where all threads are, what they share and who holds the locks. */
  datatype Status = Status(s: Shared, usb: Usb, pv: Preview, cp: Capture, ct: Control, streaming: bool,
    previewLock: Holder, captureLock: Holder, cleared: nat, stale: bool)

  /** uvc_preview_frame_callback goes on. */
  function AfterUsb(x: Status, ok: bool): Status
  {
    match x.usb
    case UsbIdle =>
      if x.streaming && x.s.running then
        var r := Obtain(x.s, ok);
        x.(s := r.s, usb := if r.f == 0 then UsbIdle else UsbCopying(r.f))
      else x
    case UsbCopying(f) => x.(usb := if ok then UsbAdding(f) else UsbReturning(f))
    case UsbAdding(f) =>
      if x.previewLock == Free then
        var r := OfferPreview(x.s, f);
        x.(s := r.0, usb := if r.1 then UsbIdle else UsbReturning(f))
      else x
    case UsbReturning(f) => x.(s := Recycle(x.s, f), usb := UsbIdle)
  }

  /** One more frame of the queue is recycled. */
  function ClearedOne(x: Status): Status
    requires x.cleared < |x.s.queue|
  {
    x.(s := Recycle(x.s, x.s.queue[x.cleared]), cleared := x.cleared + 1)
  }

  /** The waiting capture frame is recycled under the lock. */
  function CaptureRecycled(x: Status, holder: Holder): Status
  {
    x.(s := Recycle(x.s, x.s.capture), stale := true, captureLock := holder)
  }

  function CaptureReplaced(x: Status, f: frame): Status
  {
    x.(s := x.s.(capture := f), stale := false, captureLock := Free)
  }

  /** do_preview goes on. */
  function AfterPv(x: Status, mjpeg: bool, ok: bool): Status
  {
    match x.pv
    case PvStart => x.(streaming := ok, pv := if ok then PvToClear else PvDone)
    case PvToClear => if x.previewLock == Free then x.(previewLock := ByPreview, pv := PvClearing) else x
    case PvClearing =>
      if x.cleared < |x.s.queue| then ClearedOne(x)
      else x.(s := x.s.(queue := []), cleared := 0, previewLock := Free, pv := PvSpawn)
    case PvSpawn => x.(cp := CpStart, pv := PvLoop)
    case PvLoop => x.(pv := if x.s.running then PvWaiting else PvStopping)
    case PvWaiting =>
      if x.previewLock == Free then
        var r := TakePreview(x.s);
        x.(s := r.s, pv := if r.f == 0 then PvLoop else if mjpeg then PvHas(r.f) else PvPicture(r.f))
      else x
    case PvHas(m) => var r := Obtain(x.s, true); x.(s := r.s, pv := PvDecoding(m, r.f))
    case PvDecoding(m, f) => x.(s := Recycle(x.s, m), pv := if ok then PvPicture(f) else PvReturning(f))
    case PvReturning(f) => x.(s := Recycle(x.s, f), pv := PvLoop)
    case PvPicture(f) =>
      if ok then
        var r := Obtain(x.s, true);
        x.(s := r.s, pv := PvDrawing(f, r.f))
      else x.(pv := PvOffering(f))
    case PvDrawing(f, c) => x.(s := Recycle(x.s, c), pv := PvOffering(f))
    case PvOffering(f) =>
      if x.captureLock != Free then x
      else if !x.s.running then x.(s := x.s.(dropped := x.s.dropped + [f]), pv := PvLoop)
      else if x.s.capture != 0 then CaptureRecycled(x, ByPreview).(pv := PvReplacing(f))
      else CaptureReplaced(x, f).(pv := PvLoop)
    case PvReplacing(f) => CaptureReplaced(x, f).(pv := PvLoop)
    case PvStopping => if x.usb == UsbIdle then x.(streaming := false, pv := PvDone) else x
    case PvDone => x
  }

  /** do_capture goes on. */
  function AfterCp(x: Status, ok: bool, use: Use): Status
  {
    match x.cp
    case CpNone => x
    case CpStart =>
      if x.captureLock != Free then x
      else if x.s.capture == 0 then x.(cp := CpLoop)
      else CaptureRecycled(x, ByCapture).(cp := CpClearing)
    case CpClearing => CaptureReplaced(x, 0).(cp := CpLoop)
    case CpLoop => x.(cp := if x.s.running then CpWaiting(0) else CpDone)
    case CpWaiting(c) =>
      if !ok then x.(s := Recycle(x.s, c), cp := CpLoop)
      else if x.captureLock == Free then
        var r := TakeCapture(x.s);
        x.(s := r.s, cp := if r.f == 0 then CpWaiting(c) else CpHas(r.f, c))
      else x
    case CpHas(f, c) =>
      var r := Obtain(x.s, ok);
      if use == ToSurface && c == 0 then x.(s := r.s, cp := CpHas(f, r.f))
      else if use == ToCallback && r.f != 0 then x.(s := r.s, cp := CpCalling(f, r.f, c))
      else x.(s := Recycle(x.s, f), cp := CpWaiting(c))
    case CpCalling(f, b, c) => x.(s := Recycle(x.s, f), cp := CpReturning(b, c))
    case CpReturning(b, c) => x.(s := Recycle(x.s, b), cp := CpWaiting(c))
    case CpDone => x
  }

  /** stopPreview goes on. */
  function AfterCt(x: Status): Status
  {
    match x.ct
    case CtRunning => x.(s := x.s.(running := false), ct := CtJoining)
    case CtJoining => if x.pv == PvDone then x.(ct := CtToClear) else x
    case CtToClear => if x.previewLock == Free then x.(previewLock := ByControl, ct := CtClearing) else x
    case CtClearing =>
      if x.cleared < |x.s.queue| then ClearedOne(x)
      else x.(s := x.s.(queue := []), cleared := 0, previewLock := Free, ct := CtToClearCapture)
    case CtToClearCapture =>
      if x.captureLock != Free then x
      else if x.s.capture == 0 then x.(ct := CtDone)
      else CaptureRecycled(x, ByControl).(ct := CtReplacing)
    case CtReplacing => CaptureReplaced(x, 0).(ct := CtDone)
    case CtDone => x
  }

  function AfterStep(x: Status, mjpeg: bool, a: Action): Status
  {
    match a
    case UsbStep(ok) => AfterUsb(x, ok)
    case PvStep(ok) => AfterPv(x, mjpeg, ok)
    case CpStep(ok, use) => AfterCp(x, ok, use)
    case CtStep => AfterCt(x)
  }

  function AfterSteps(x: Status, mjpeg: bool, actions: seq<Action>): Status
  {
    if actions == [] then x
    else AfterStep(AfterSteps(x, mjpeg, actions[..|actions| - 1]), mjpeg, actions[|actions| - 1])
  }

  lemma OneStepMore(x: Status, mjpeg: bool, actions: seq<Action>, a: Action)
    ensures AfterSteps(x, mjpeg, actions + [a]) == AfterStep(AfterSteps(x, mjpeg, actions), mjpeg, a)
  {
    assert (actions + [a])[..|actions|] == actions;
  }

  // ----- how far the threads are from their ends once the preview is not running

  function UsbRank(u: Usb): nat
  {
    match u
    case UsbIdle => 0
    case UsbReturning(_) => 1
    case UsbAdding(_) => 2
    case UsbCopying(_) => 3
  }

  function PvRank(p: Preview): nat
  {
    match p
    case PvDone => 0
    case PvStopping => 1
    case PvLoop => 2
    case PvWaiting => 3
    case PvReplacing(_) => 4
    case PvReturning(_) => 5
    case PvOffering(_) => 6
    case PvDecoding(_, _) => 7
    case PvDrawing(_, _) => 7
    case PvPicture(_) => 8
    case PvHas(_) => 8
    case PvSpawn => 9
    case PvClearing => 10
    case PvToClear => 11
    case PvStart => 12
  }

  function CpRank(c: Capture): nat
  {
    match c
    case CpNone => 0
    case CpDone => 0
    case CpLoop => 1
    case CpWaiting(_) => 2
    case CpReturning(_, _) => 3
    case CpCalling(_, _, _) => 4
    case CpHas(_, _) => 5
    case CpClearing => 6
    case CpStart => 7
  }

  function CtRank(c: Control): nat
  {
    match c
    case CtDone => 0
    case CtReplacing => 1
    case CtToClearCapture => 2
    case CtClearing => 3
    case CtToClear => 4
    case CtJoining => 5
    case CtRunning => 6
  }

  /** Frames of the queue that are still to be cleared. */
  function ToClear(x: Status): nat
  {
    if x.cleared < |x.s.queue| then |x.s.queue| - x.cleared else 0
  }

  function Held(h: Holder): nat
  {
    if h == Free then 0 else 1
  }

  /** The locks, seen from outside. */
  predicate Orderly(x: Status)
  {
    && PreviewLocked(x.previewLock, x.pv, x.ct) && CaptureLocked(x.captureLock, x.pv, x.cp, x.ct, x.stale)
    && Started(x.pv, x.cp, x.ct, x.usb, x.streaming) && Stopped(x.ct, x.s)
  }

  /** While the preview thread is not done and the preview does not run, some thread can go
      on, so that the preview thread comes nearer to its end. */
  function TowardsPvDone(x: Status): Action
  {
    if x.pv.PvOffering? && x.captureLock != Free then CpStep(false, AsItIs)
    else if x.pv.PvStopping? && x.usb != UsbIdle then UsbStep(false)
    else PvStep(false)
  }

  lemma PvComesNearer(x: Status, mjpeg: bool)
    requires Orderly(x) && !x.s.running && x.pv != PvDone
    ensures var y := AfterStep(x, mjpeg, TowardsPvDone(x));
      && !y.s.running && y.ct == x.ct
      && (PvRank(y.pv) < PvRank(x.pv) || (PvRank(y.pv) == PvRank(x.pv) && (ToClear(y) < ToClear(x)
        || (ToClear(y) == ToClear(x) && (Held(y.captureLock) < Held(x.captureLock)
        || (Held(y.captureLock) == Held(x.captureLock) && UsbRank(y.usb) < UsbRank(x.usb)))))))
  {
    hide AfterUsb, AfterPv, AfterCp, PvRank, UsbRank, ToClear, Orderly;
    PvIsFree(x);
    if x.pv.PvOffering? && x.captureLock != Free {
      CpLetsGo(x);
    } else if x.pv.PvStopping? && x.usb != UsbIdle {
      UsbLetsGo(x);
    } else {
      PvGoesFurther(x, mjpeg);
    }
  }

  /** What a thread of the preview waits for. */
  lemma PvIsFree(x: Status)
    requires Orderly(x) && x.pv != PvDone
    ensures x.pv != PvClearing ==> x.previewLock == Free
    ensures x.pv.PvOffering? && x.captureLock != Free ==> x.cp == CpClearing
  {
  }

  lemma CpLetsGo(x: Status)
    requires x.cp == CpClearing && x.captureLock != Free
    ensures var y := AfterCp(x, false, AsItIs);
      y.s == x.s.(capture := 0) && y.ct == x.ct && y.pv == x.pv && y.captureLock == Free && ToClear(y) == ToClear(x)
  {
  }

  lemma UsbLetsGo(x: Status)
    requires !x.s.running && x.usb != UsbIdle && x.previewLock == Free
    ensures var y := AfterUsb(x, false);
      && !y.s.running && y.ct == x.ct && y.pv == x.pv && y.captureLock == x.captureLock
      && ToClear(y) == ToClear(x) && UsbRank(y.usb) < UsbRank(x.usb)
  {
  }

  lemma PvGoesFurther(x: Status, mjpeg: bool)
    requires !x.s.running && x.pv != PvDone && (x.pv != PvClearing ==> x.previewLock == Free)
    requires (x.pv.PvOffering? ==> x.captureLock == Free) && (x.pv.PvStopping? ==> x.usb == UsbIdle)
    ensures var y := AfterPv(x, mjpeg, false);
      && !y.s.running && y.ct == x.ct
      && (PvRank(y.pv) < PvRank(x.pv) || (PvRank(y.pv) == PvRank(x.pv) && ToClear(y) < ToClear(x)))
  {
  }

  function TowardsCpDone(x: Status): Action
  {
    if x.cp.CpStart? && x.captureLock != Free then CtStep else CpStep(false, AsItIs)
  }

  lemma CpComesNearer(x: Status, mjpeg: bool)
    requires Orderly(x) && !x.s.running && x.pv == PvDone && x.cp != CpNone && x.cp != CpDone && x.ct != CtRunning
    ensures var y := AfterStep(x, mjpeg, TowardsCpDone(x));
      && !y.s.running && y.pv == PvDone && y.ct != CtRunning
      && (CpRank(y.cp) < CpRank(x.cp)
        || (CpRank(y.cp) == CpRank(x.cp) && Held(y.captureLock) < Held(x.captureLock)))
  {
  }

  lemma CtComesNearer(x: Status, mjpeg: bool)
    requires Orderly(x) && !x.s.running && x.pv == PvDone && (x.cp == CpNone || x.cp == CpDone)
    requires x.ct != CtRunning && x.ct != CtDone
    ensures var y := AfterStep(x, mjpeg, CtStep);
      && !y.s.running && y.pv == x.pv && y.cp == x.cp && y.ct != CtRunning
      && (CtRank(y.ct) < CtRank(x.ct) || (CtRank(y.ct) == CtRank(x.ct) && ToClear(y) < ToClear(x)))
  {
  }

  lemma StopsRunning(x: Status, mjpeg: bool)
    requires x.ct == CtRunning
    ensures var y := AfterStep(x, mjpeg, CtStep); !y.s.running && y.ct == CtJoining
  {
  }

  lemma NotRunning(x: Status)
    requires Orderly(x) && x.ct != CtRunning
    ensures !x.s.running
  {
  }

  lemma UsbMoves(x: Status, ok: bool)
    requires |x.s.pool| <= 6
    ensures PoolMoves(x.s, AfterUsb(x, ok).s) && AfterUsb(x, ok).s.dropped == x.s.dropped
  {
    hide PoolMoves, Recycle, Obtain;
    PoolStep(x.s);
  }

  lemma PvMoves(x: Status, mjpeg: bool, ok: bool)
    requires |x.s.pool| <= 6
    ensures var t := AfterPv(x, mjpeg, ok).s;
      && PoolMoves(x.s, t)
      && (t.dropped == x.s.dropped || (x.pv.PvOffering? && !x.s.running && t.dropped == x.s.dropped + [x.pv.f]))
  {
    hide PoolMoves, Recycle, Obtain;
    PoolStep(x.s);
  }

  lemma CpMoves(x: Status, ok: bool, use: Use)
    requires |x.s.pool| <= 6
    ensures PoolMoves(x.s, AfterCp(x, ok, use).s) && AfterCp(x, ok, use).s.dropped == x.s.dropped
  {
    hide PoolMoves, Recycle, Obtain;
    PoolStep(x.s);
  }

  lemma CtMoves(x: Status)
    requires |x.s.pool| <= 6
    ensures PoolMoves(x.s, AfterCt(x).s) && AfterCt(x).s.dropped == x.s.dropped
  {
    hide PoolMoves, Recycle, Obtain;
    PoolStep(x.s);
  }

  /** Every step uses the pool as it should, and none drops a frame but addCaptureFrame
      without a running preview. */
  lemma StepMoves(x: Status, mjpeg: bool, a: Action)
    requires |x.s.pool| <= 6
    ensures var t := AfterStep(x, mjpeg, a).s;
      && PoolMoves(x.s, t)
      && (t.dropped == x.s.dropped
        || (a.PvStep? && x.pv.PvOffering? && !x.s.running && t.dropped == x.s.dropped + [x.pv.f]))
  {
    hide PoolMoves, AfterUsb, AfterPv, AfterCp, AfterCt;
    match a
    case UsbStep(ok) => UsbMoves(x, ok);
    case PvStep(ok) => PvMoves(x, mjpeg, ok);
    case CpStep(ok, use) => CpMoves(x, ok, use);
    case CtStep => CtMoves(x);
  }

  class Session {
    const mjpeg: bool
    var s: Shared
    var usb: Usb
    var pv: Preview
    var cp: Capture
    var ct: Control
    var streaming: bool
    var previewLock: Holder
    var captureLock: Holder
    var cleared: nat                       // frames of the queue that a clearing thread has recycled
    var stale: bool                        // the capture frame has been recycled and not yet replaced
    ghost var content: map<frame, nat>     // the number of the picture in the memory of a frame
    ghost var copied: nat                  // pictures copied by the callback
    ghost var accepted: seq<nat>           // pictures put into the queue
    ghost var taken: seq<nat>              // pictures taken for capturing

    ghost predicate Apart()
      reads this
    {
      && Bounded(s, cleared, previewLock) && PreviewLocked(previewLock, pv, ct)
        && CaptureLocked(captureLock, pv, cp, ct, stale)
      && Started(pv, cp, ct, usb, streaming) && Stopped(ct, s)
    }

    /** All frames, once for each place that has them; `hand` are those that the thread
        whose turn it is has in hand between two places. */
    ghost function Places(hand: multiset<frame>): multiset<frame>
      requires cleared <= |s.queue|
      reads this
    {
      Together(Stored(s), hand, Waiting(s, cleared, stale), UsbFrames(usb), PvFrames(pv), CpFrames(cp))
    }

    /** Pictures accepted so far have smaller numbers. */
    ghost function Bound(): nat
      reads this
    {
      if usb.UsbAdding? then PictureIn(content, usb.f) else copied
    }

    ghost function Way(): seq<nat>
      requires cleared <= |s.queue|
      reads this
    {
      taken + Pictures(content, OnTheWay(s, cleared, stale, pv))
    }

    ghost predicate Ordered()
      requires cleared <= |s.queue|
      reads this
    {
      InOrder(Way(), accepted, Bound()) && Bound() <= copied && (usb.UsbAdding? ==> Bound() < copied)
    }

    ghost predicate Holding(hand: multiset<frame>)
      reads this
    {
      Apart() && Conserved(Places(hand), s.next) && Ordered()
    }

    ghost predicate Valid()
      reads this
    {
      Holding(multiset{})
    }

    ghost function Now(): Status
      reads this
    {
      Status(s, usb, pv, cp, ct, streaming, previewLock, captureLock, cleared, stale)
    }

    /** Only the pool, the freed frames and the number of frames have changed. */
    twostate predicate OnlyPool()
      reads this
    {
      s == old(s).(pool := s.pool, freed := s.freed, next := s.next)
    }

    /** A session begins with some frames in the pool. */
    constructor (mjpeg: bool, pool: seq<held>, next: held)
      requires |pool| <= FRAME_POOL_SZ && forall f :: multiset(pool)[f] == if 1 <= f < next then 1 else 0
      ensures Valid() && taken == [] && accepted == [] && copied == 0 && s == Shared(pool, [], 0, true, next, [], [])
        && this.mjpeg == mjpeg
      ensures usb == UsbIdle && pv == PvStart && cp == CpNone && ct == CtRunning && previewLock == captureLock == Free
        && cleared == 0
    {
      this.mjpeg := mjpeg;
      s := Shared(pool, [], 0, true, next, [], []);
      usb, pv, cp, ct, streaming, previewLock, captureLock, cleared, stale := UsbIdle, PvStart, CpNone, CtRunning,
        false, Free, Free, 0, false;
      content, copied, accepted, taken := map[], 0, [], [];
      new;
      StartsEmpty(pool, next);
    }

    lemma StartsEmpty(pool: seq<held>, next: held)
      requires s == Shared(pool, [], 0, true, next, [], []) && usb == UsbIdle && pv == PvStart && cp == CpNone
        && cleared == 0 && !stale
      requires forall f :: multiset(pool)[f] == if 1 <= f < next then 1 else 0
      ensures Conserved(Places(multiset{}), next) && OnTheWay(s, cleared, stale, pv) == []
    {
      assert Places(multiset{}) == multiset(pool);
    }

    // ----- the pool

    /** get_frame. */
    method GetFrame(memory: bool, ghost hand: multiset<frame>) returns (f: frame)
      requires Holding(hand)
      modifies `s
      ensures Holding(hand + One(f)) && OnlyPool() && (memory ==> f != 0)
      ensures s == Obtain(old(s), memory).s && f == Obtain(old(s), memory).f
    {
      hide Conserved, InOrder, Pictures, OnTheWay, Waiting, Stored, UsbFrames, PvFrames, CpFrames, PvSource,
        CaptureWaits, Together, PreviewLocked, CaptureLocked, Started, Obtain;
      ObtainTakes(s, memory, hand, Waiting(s, cleared, stale), UsbFrames(usb), PvFrames(pv), CpFrames(cp));
      var r := Obtain(s, memory);
      SameWaiting(s, r.s, cleared, stale, pv);
      s, f := r.s, r.f;
    }

    /** recycle_frame. */
    method RecycleFrame(f: frame, ghost hand: multiset<frame>)
      requires Holding(hand + One(f))
      modifies `s
      ensures Holding(hand) && OnlyPool() && s == Recycle(old(s), f)
    {
      hide Conserved, InOrder, Pictures, OnTheWay, Waiting, Stored, UsbFrames, PvFrames, CpFrames, PvSource,
        CaptureWaits, Together, PreviewLocked, CaptureLocked, Started, Recycle;
      RecycleStores(s, f);
      var t := Recycle(s, f);
      SameWaiting(s, t, cleared, stale, pv);
      ToStore(Stored(s), hand, f, Waiting(s, cleared, stale));
      s := t;
    }

    lemma ToStore(st: multiset<frame>, hand: multiset<frame>, f: frame, w: multiset<frame>)
      ensures Together(st, hand + One(f), w, UsbFrames(usb), PvFrames(pv), CpFrames(cp))
        == Together(st + One(f), hand, w, UsbFrames(usb), PvFrames(pv), CpFrames(cp))
    {
      hide Together, One, UsbFrames, PvFrames, CpFrames;
      assert st + (hand + One(f)) == st + One(f) + hand;
      Passes(st, hand + One(f), w, UsbFrames(usb), PvFrames(pv), CpFrames(cp), st + One(f), hand, w, UsbFrames(usb),
        PvFrames(pv), CpFrames(cp));
    }

    // ----- uvc_preview_frame_callback

    /** The callback goes on; a frame passes between it and its hand. */
    method UsbGoesOn(next: Usb, ghost hand: multiset<frame>, ghost hand': multiset<frame>)
      requires Holding(hand) && !usb.UsbAdding? && !next.UsbAdding? && (usb != UsbIdle || streaming)
      requires hand + UsbFrames(usb) == hand' + UsbFrames(next)
      modifies `usb
      ensures Holding(hand') && usb == next
    {
      hide Conserved, InOrder, Pictures, OnTheWay, Waiting, Stored, UsbFrames, PvFrames, CpFrames, PvSource,
        CaptureWaits, Together, PreviewLocked, CaptureLocked, Stopped;
      Passes(Stored(s), hand, Waiting(s, cleared, stale), UsbFrames(usb), PvFrames(pv), CpFrames(cp),
        Stored(s), hand', Waiting(s, cleared, stale), UsbFrames(next), PvFrames(pv), CpFrames(cp));
      usb := next;
    }

    method UsbGet(memory: bool)
      requires Valid() && usb == UsbIdle && streaming
      modifies `s, `usb
      ensures Valid() && OnlyPool()
      ensures var r := if old(s.running) then Obtain(old(s), memory) else Given(old(s), 0);
        s == r.s && usb == if r.f == 0 then UsbIdle else UsbCopying(r.f)
    {
      hide Session.Holding;
      if s.running {
        var f := GetFrame(memory, multiset{});
        UsbGoesOn(if f == 0 then UsbIdle else UsbCopying(f), multiset{} + One(f), multiset{});
      }
    }

    method UsbCopy(ok: bool)
      requires Valid() && usb.UsbCopying?
      modifies `usb, `content, `copied
      ensures Valid() && usb == (if ok then UsbAdding(old(usb.f)) else UsbReturning(old(usb.f)))
      ensures content == (if ok then old(content)[old(usb.f) := old(copied)] else old(content))
        && copied == old(copied) + (if ok then 1 else 0)
    {
      hide Session.Holding;
      if ok {
        UsbCopied();
      } else {
        UsbGoesOn(UsbReturning(usb.f), multiset{}, multiset{});
      }
    }

    method UsbCopied()
      requires Valid() && usb.UsbCopying?
      modifies `usb, `content, `copied
      ensures Valid() && usb == UsbAdding(old(usb.f)) && content == old(content)[old(usb.f) := old(copied)]
        && copied == old(copied) + 1
    {
      hide Conserved, InOrder, Pictures, OnTheWay, Waiting, Stored, UsbFrames, PvFrames, CpFrames, PvSource,
        CaptureWaits, Together, PreviewLocked, CaptureLocked, Stopped;
      var f := usb.f;
      SameUsbFrames(f);
      UsbOnlyHere(f);
      PicturesStay(content, OnTheWay(s, cleared, stale, pv), f, copied);
      content, copied, usb := content[f := copied], copied + 1, UsbAdding(f);
    }

    lemma SameUsbFrames(f: held)
      ensures UsbFrames(UsbIdle) == multiset{}
      ensures UsbFrames(UsbCopying(f)) == UsbFrames(UsbAdding(f)) == UsbFrames(UsbReturning(f)) == multiset{f}
    {
    }

    lemma UsbOnlyHere(f: held)
      requires cleared <= |s.queue| && Conserved(Places(multiset{}), s.next) && UsbFrames(usb) == multiset{f}
      ensures f !in OnTheWay(s, cleared, stale, pv)
    {
      hide Conserved, Stored, OnTheWay, CpFrames, PvFrames, Waiting, UsbFrames;
      WayIsHeld(s, cleared, stale, pv);
      OnlyThere(Places(multiset{}), UsbFrames(usb), multiset(OnTheWay(s, cleared, stale, pv)), s.next, f);
    }

    /** addPreviewFrame. */
    method UsbAdd()
      requires Valid() && usb.UsbAdding? && previewLock == Free
      modifies `s, `usb, `accepted
      ensures Valid() && s == OfferPreview(old(s), old(usb.f)).0
      ensures usb == if OfferPreview(old(s), old(usb.f)).1 then UsbIdle else UsbReturning(old(usb.f))
      ensures accepted == old(accepted) + (if usb == UsbIdle then [PictureIn(content, old(usb.f))] else [])
    {
      hide Session.Holding;
      if OfferPreview(s, usb.f).1 {
        PutPreview();
      } else {
        RefusePreview();
      }
    }

    method PutPreview()
      requires Valid() && usb.UsbAdding? && previewLock == Free && s.running && |s.queue| < MAX_FRAME
      modifies `s, `usb, `accepted
      ensures Valid() && s == old(s).(queue := old(s.queue) + [old(usb.f)]) && usb == UsbIdle
      ensures accepted == old(accepted) + [PictureIn(content, old(usb.f))]
    {
      hide Conserved, InOrder, Pictures, OnTheWay, Waiting, Stored, UsbFrames, PvFrames, CpFrames, PvSource,
        CaptureWaits, Together, PreviewLocked, CaptureLocked;
      var f := usb.f;
      var t := s.(queue := s.queue + [f]);
      ghost var way, bound := Way(), Bound();
      SameUsbFrames(f);
      Joins(s, f, cleared, stale, pv);
      SameStore(s, t);
      Passes(Stored(s), multiset{}, Waiting(s, cleared, stale), UsbFrames(usb), PvFrames(pv), CpFrames(cp),
        Stored(t), multiset{}, Waiting(t, cleared, stale), UsbFrames(UsbIdle), PvFrames(pv), CpFrames(cp));
      PicturesJoin(content, OnTheWay(s, cleared, stale, pv), [f]);
      OnePicture(content, f);
      AcceptOne(way, accepted, bound, copied);
      s, usb, accepted := t, UsbIdle, accepted + [bound];
      assert Way() == way + [bound];
    }

    method RefusePreview()
      requires Valid() && usb.UsbAdding?
      modifies `usb
      ensures Valid() && usb == UsbReturning(old(usb.f))
    {
      hide Conserved, InOrder, Pictures, OnTheWay, Waiting, Stored, UsbFrames, PvFrames, CpFrames, PvSource,
        CaptureWaits, Together, PreviewLocked, CaptureLocked, Stopped;
      SameUsbFrames(usb.f);
      LaterBound(Way(), accepted, Bound(), copied);
      usb := UsbReturning(usb.f);
    }

    lemma OnePicture(content: map<frame, nat>, f: frame)
      ensures Pictures(content, [f]) == [PictureIn(content, f)]
    {
    }

    lemma LaterBound(way: seq<nat>, accepted: seq<nat>, bound: nat, later: nat)
      requires InOrder(way, accepted, bound) && bound <= later
      ensures InOrder(way, accepted, later)
    {
    }

    method UsbReturn()
      requires Valid() && usb.UsbReturning?
      modifies `s, `usb
      ensures Valid() && s == Recycle(old(s), old(usb.f)) && usb == UsbIdle
    {
      hide Session.Holding;
      var f := usb.f;
      UsbGoesOn(UsbIdle, multiset{}, multiset{} + One(f));
      RecycleFrame(f, multiset{});
    }

    // ----- clearing the queue, by the preview thread or the one that stops it

    /** clearPreviewFrame, one frame of the queue. */
    method ClearOne()
      requires Valid() && previewLock != Free && cleared < |s.queue|
      modifies `s, `cleared
      ensures Valid() && OnlyPool() && cleared == old(cleared) + 1 && s == Recycle(old(s), old(s.queue[cleared]))
    {
      hide Session.Holding;
      var f := s.queue[cleared];
      TakeToClear(f);
      RecycleFrame(f, multiset{});
    }

    method TakeToClear(f: held)
      requires Valid() && previewLock != Free && cleared < |s.queue| && f == s.queue[cleared]
      modifies `cleared
      ensures Holding(multiset{} + One(f)) && cleared == old(cleared) + 1
    {
      hide Conserved, InOrder, Pictures, OnTheWay, Waiting, Stored, UsbFrames, PvFrames, CpFrames, PvSource,
        CaptureWaits, Together, PreviewLocked, CaptureLocked, Started, Stopped;
      ClearsOne(s, cleared, stale, pv);
      LoseFrame(taken, content, CaptureWaits(s.capture, stale) + PvSource(pv), f, s.queue[cleared + 1..], accepted,
        Bound());
      Passes(Stored(s), multiset{}, Waiting(s, cleared, stale), UsbFrames(usb), PvFrames(pv), CpFrames(cp),
        Stored(s), multiset{} + One(f), Waiting(s, cleared + 1, stale), UsbFrames(usb), PvFrames(pv), CpFrames(cp));
      cleared := cleared + 1;
    }

    lemma LockIsHeld()
      requires Valid() && (pv == PvClearing || ct == CtClearing)
      ensures previewLock != Free
    {
    }

    lemma SameStore(s: Shared, t: Shared)
      requires s.pool == t.pool && s.freed == t.freed && s.dropped == t.dropped
      ensures Stored(s) == Stored(t)
    {
    }

    // ----- do_preview

    /** The preview thread goes on; frames pass between it and its hand. */
    method PvGoesOn(next: Preview, ghost hand: multiset<frame>, ghost hand': multiset<frame>)
      requires Holding(hand) && Working(pv) && Working(next) && PvSource(next) == PvSource(pv)
      requires hand + PvFrames(pv) == hand' + PvFrames(next)
      modifies `pv
      ensures Holding(hand') && pv == next
    {
      hide Conserved, InOrder, Pictures, OnTheWay, Waiting, Stored, UsbFrames, PvFrames, CpFrames, PvSource,
        CaptureWaits, Together, PreviewLocked, CaptureLocked, Started, Stopped;
      WorksOn(previewLock, captureLock, pv, next, cp, ct, stale, usb, streaming);
      SourceChanges(s, cleared, stale, pv, next);
      Passes(Stored(s), hand, Waiting(s, cleared, stale), UsbFrames(usb), PvFrames(pv), CpFrames(cp),
        Stored(s), hand', Waiting(s, cleared, stale), UsbFrames(usb), PvFrames(next), CpFrames(cp));
      pv := next;
    }

    /** It gives up its picture. */
    method PvGivesUp(f: held, next: Preview, ghost hand: multiset<frame>, ghost hand': multiset<frame>)
      requires Holding(hand) && Working(pv) && Working(next) && PvSource(pv) == [f] && PvSource(next) == []
      requires hand + PvFrames(pv) == hand' + PvFrames(next)
      modifies `pv
      ensures Holding(hand') && pv == next
    {
      hide Conserved, InOrder, Pictures, OnTheWay, Waiting, Stored, UsbFrames, PvFrames, CpFrames, PvSource,
        CaptureWaits, Together, PreviewLocked, CaptureLocked, Started, Stopped;
      WorksOn(previewLock, captureLock, pv, next, cp, ct, stale, usb, streaming);
      SourceGoes(s, cleared, stale, pv, next);
      LoseFrame(taken, content, CaptureWaits(s.capture, stale), f, s.queue[cleared..], accepted, Bound());
      Passes(Stored(s), hand, Waiting(s, cleared, stale), UsbFrames(usb), PvFrames(pv), CpFrames(cp),
        Stored(s), hand', Waiting(s, cleared, stale), UsbFrames(usb), PvFrames(next), CpFrames(cp));
      pv := next;
    }

    /** States of the preview thread that have no frame. */
    lemma NoFrames()
      ensures PvFrames(PvStart) == PvFrames(PvToClear) == PvFrames(PvClearing) == PvFrames(PvSpawn)
        == PvFrames(PvLoop) == multiset{}
      ensures PvFrames(PvWaiting) == PvFrames(PvStopping) == PvFrames(PvDone) == multiset{}
      ensures PvSource(PvStart) == PvSource(PvToClear) == PvSource(PvClearing) == PvSource(PvSpawn)
        == PvSource(PvLoop) == []
      ensures PvSource(PvWaiting) == PvSource(PvStopping) == PvSource(PvDone) == []
    {
    }

    method PvBegin(ok: bool)
      requires Valid() && pv == PvStart
      modifies `pv, `streaming
      ensures Valid() && streaming == ok && pv == if ok then PvToClear else PvDone
    {
      hide Conserved, InOrder, Pictures, OnTheWay, Waiting, Stored, UsbFrames, PvFrames, CpFrames, PvSource,
        CaptureWaits, Together, Stopped;
      NoFrames();
      SourceChanges(s, cleared, stale, pv, PvToClear);
      SourceChanges(s, cleared, stale, pv, PvDone);
      streaming, pv := ok, if ok then PvToClear else PvDone;
    }

    method PvLock()
      requires Valid() && pv == PvToClear && previewLock == Free
      modifies `pv, `previewLock
      ensures Valid() && previewLock == ByPreview && pv == PvClearing
    {
      hide Conserved, InOrder, Pictures, OnTheWay, Waiting, Stored, UsbFrames, PvFrames, CpFrames, PvSource,
        CaptureWaits, Together, Stopped;
      NoFrames();
      SourceChanges(s, cleared, stale, pv, PvClearing);
      previewLock, pv := ByPreview, PvClearing;
    }

    method PvClear()
      requires Valid() && pv == PvClearing
      modifies `pv, `s, `cleared, `previewLock
      ensures Valid() && s.dropped == old(s.dropped)
      ensures if old(cleared) < |old(s.queue)| then s == Recycle(old(s), old(s.queue[cleared]))
        && cleared == old(cleared) + 1 && pv == PvClearing && previewLock == old(previewLock)
        else s == old(s).(queue := []) && previewLock == Free && pv == PvSpawn && cleared == 0
    {
      hide Session.Holding;
      if cleared < |s.queue| {
        LockIsHeld();
        ClearOne();
      } else {
        PvCleared();
      }
    }

    method PvCleared()
      requires Valid() && pv == PvClearing && cleared >= |s.queue|
      modifies `pv, `s, `cleared, `previewLock
      ensures Valid() && s == old(s).(queue := []) && previewLock == Free && pv == PvSpawn && cleared == 0
    {
      hide Conserved, InOrder, Pictures, OnTheWay, Waiting, Stored, UsbFrames, PvFrames, CpFrames, PvSource,
        CaptureWaits, Together;
      NoFrames();
      var t := s.(queue := []);
      ClearsAll(s, stale, pv);
      SourceChanges(t, 0, stale, pv, PvSpawn);
      SameStore(s, t);
      s, cleared, previewLock, pv := t, 0, Free, PvSpawn;
    }

    method PvSpawnCapture()
      requires Valid() && pv == PvSpawn
      modifies `pv, `cp
      ensures Valid() && cp == CpStart && pv == PvLoop
    {
      hide Conserved, InOrder, Pictures, OnTheWay, Waiting, Stored, UsbFrames, PvFrames, PvSource, CaptureWaits,
        Together, Stopped;
      NoFrames();
      SourceChanges(s, cleared, stale, PvSpawn, PvLoop);
      cp, pv := CpStart, PvLoop;
    }

    method PvTest()
      requires Valid() && pv == PvLoop
      modifies `pv
      ensures Valid() && pv == if s.running then PvWaiting else PvStopping
    {
      hide Session.Holding;
      PvGoesOn(if s.running then PvWaiting else PvStopping, multiset{}, multiset{});
    }

    /** waitPreviewFrame. */
    method PvTake()
      requires Valid() && pv == PvWaiting && previewLock == Free
      modifies `pv, `s
      ensures var r := TakePreview(old(s));
        Valid() && s == r.s && pv == if r.f == 0 then PvLoop else if mjpeg then PvHas(r.f) else PvPicture(r.f)
    {
      hide Session.Holding;
      if TakePreview(s).f == 0 {
        PvGoesOn(PvLoop, multiset{}, multiset{});
      } else {
        TakeFirst();
      }
    }

    method TakeFirst()
      requires Valid() && pv == PvWaiting && previewLock == Free && s.running && s.queue != []
      modifies `pv, `s
      ensures Valid() && s == old(s).(queue := old(s.queue)[1..])
      ensures pv == if mjpeg then PvHas(old(s.queue[0])) else PvPicture(old(s.queue[0]))
    {
      hide Conserved, InOrder, Pictures, OnTheWay, Waiting, Stored, UsbFrames, PvFrames, CpFrames, PvSource,
        CaptureWaits, Together, PreviewLocked, CaptureLocked, Started;
      var f := s.queue[0];
      var next := if mjpeg then PvHas(f) else PvPicture(f);
      var t := s.(queue := s.queue[1..]);
      NoFrames();
      PictureFrames(f, next);
      WorksOn(previewLock, captureLock, pv, next, cp, ct, stale, usb, streaming);
      Leaves(s, stale, pv, next);
      SameStore(s, t);
      Passes(Stored(s), multiset{}, Waiting(s, 0, stale), UsbFrames(usb), PvFrames(pv), CpFrames(cp),
        Stored(t), multiset{}, Waiting(t, 0, stale), UsbFrames(usb), PvFrames(next), CpFrames(cp));
      s, pv := t, next;
    }

    /** States of the preview thread with one frame, whose picture it will offer. */
    lemma PictureFrames(f: held, p: Preview)
      requires p == PvHas(f) || p == PvPicture(f) || p == PvOffering(f) || p == PvReplacing(f)
      ensures PvFrames(p) == multiset{f} == One(f) && PvSource(p) == [f] == Some(f)
    {
    }

    /** A frame to decode into. */
    method PvGet()
      requires Valid() && pv.PvHas?
      modifies `pv, `s
      ensures var r := Obtain(old(s), true); r.f != 0 && Valid() && s == r.s && pv == PvDecoding(old(pv.f), r.f)
    {
      hide Session.Holding;
      var f := GetFrame(true, multiset{});
      PvGoesOn(PvDecoding(pv.f, f), multiset{} + One(f), multiset{});
    }

    /** uvc_mjpeg2yuyv. */
    method PvDecode(ok: bool)
      requires Valid() && pv.PvDecoding?
      modifies `pv, `s, `content
      ensures Valid() && s == Recycle(old(s), old(pv.m))
        && pv == (if ok then PvPicture(old(pv.f)) else PvReturning(old(pv.f)))
      ensures ok ==> PictureIn(content, old(pv.f)) == PictureIn(old(content), old(pv.m))
    {
      hide Session.Holding;
      var m := pv.m;
      if ok {
        PvDecoded();
      } else {
        PvGivesUp(m, PvReturning(pv.f), multiset{}, multiset{} + One(m));
      }
      RecycleFrame(m, multiset{});
    }

    method PvDecoded()
      requires Valid() && pv.PvDecoding?
      modifies `pv, `content
      ensures Holding(multiset{} + One(old(pv.m))) && pv == PvPicture(old(pv.f))
      ensures content == old(content)[old(pv.f) := PictureIn(old(content), old(pv.m))]
    {
      hide Conserved, InOrder, Pictures, OnTheWay, Waiting, Stored, UsbFrames, PvFrames, CpFrames, PvSource,
        CaptureWaits, Together, PreviewLocked, CaptureLocked, Started, Stopped;
      var m, f := pv.m, pv.f;
      DecodingFrames(m, f);
      PictureFrames(f, PvPicture(f));
      WorksOn(previewLock, captureLock, pv, PvPicture(f), cp, ct, stale, usb, streaming);
      Passes(Stored(s), multiset{}, Waiting(s, cleared, stale), UsbFrames(usb), PvFrames(pv), CpFrames(cp),
        Stored(s), multiset{} + One(m), Waiting(s, cleared, stale), UsbFrames(usb), PvFrames(PvPicture(f)),
          CpFrames(cp));
      TargetIsElsewhere(m, f);
      PictureMoves(s, cleared, stale, content, m, f, pv, PvPicture(f));
      ghost var way, bound, copy := Way(), Bound(), content[f := PictureIn(content, m)];
      assert way == taken + Pictures(copy, OnTheWay(s, cleared, stale, PvPicture(f)));
      content, pv := copy, PvPicture(f);
      assert Way() == way && Bound() == bound;
    }

    lemma TargetIsElsewhere(m: held, f: held)
      requires Valid() && pv == PvDecoding(m, f)
      ensures cleared <= |s.queue| && f !in OnTheWay(s, cleared, stale, pv) && (usb.UsbAdding? ==> usb.f != f)
    {
      hide Conserved, Stored, CpFrames, Waiting, InOrder, Pictures, OnTheWay, PvSource, PvFrames, UsbFrames;
      DecodingFrames(m, f);
      WayIsCounted(s, cleared, stale, pv, m);
      ghost var there := Waiting(s, cleared, stale) + multiset{m} + UsbFrames(usb);
      assert multiset{f} + there <= Places(multiset{});
      OnlyThere(Places(multiset{}), multiset{f}, there, s.next, f);
      assert f !in multiset(OnTheWay(s, cleared, stale, pv));
      if usb.UsbAdding? {
        SameUsbFrames(usb.f);
      }
    }

    lemma DecodingFrames(m: held, f: held)
      ensures PvSource(PvDecoding(m, f)) == [m] && PvFrames(PvDecoding(m, f)) == multiset{m, f} && One(m) == multiset{m}
    {
    }

    method PvReturn()
      requires Valid() && pv.PvReturning?
      modifies `pv, `s
      ensures Valid() && s == Recycle(old(s), old(pv.f)) && pv == PvLoop
    {
      hide Session.Holding;
      var f := pv.f;
      PvGoesOn(PvLoop, multiset{}, multiset{} + One(f));
      RecycleFrame(f, multiset{});
    }

    /** draw_preview_one: a frame to convert into, when there is a window. */
    method PvDraw(ok: bool)
      requires Valid() && pv.PvPicture?
      modifies `pv, `s
      ensures var r := if ok then Obtain(old(s), true) else Given(old(s), 0);
        Valid() && s == r.s && (ok <==> r.f != 0)
          && pv == if r.f == 0 then PvOffering(old(pv.f)) else PvDrawing(old(pv.f), r.f)
    {
      hide Session.Holding;
      if ok {
        var c := GetFrame(true, multiset{});
        PvGoesOn(PvDrawing(pv.f, c), multiset{} + One(c), multiset{});
      } else {
        PvGoesOn(PvOffering(pv.f), multiset{}, multiset{});
      }
    }

    method PvDrawn()
      requires Valid() && pv.PvDrawing?
      modifies `pv, `s
      ensures Valid() && s == Recycle(old(s), old(pv.c)) && pv == PvOffering(old(pv.f))
    {
      hide Session.Holding;
      var c := pv.c;
      PvGoesOn(PvOffering(pv.f), multiset{}, multiset{} + One(c));
      RecycleFrame(c, multiset{});
    }

    /** addCaptureFrame: without a running preview the frame goes nowhere; otherwise it
        takes the place of the frame that waits, which is first recycled. */
    method PvOffer()
      requires Valid() && pv.PvOffering? && captureLock == Free
      modifies `pv, `s, `stale, `captureLock
      ensures Valid() && s.dropped == old(s.dropped) + (if old(s.running) then [] else [old(pv.f)])
      ensures old(s.running) && old(s.capture) == 0 ==> s == old(s).(capture := old(pv.f)) && pv == PvLoop
      ensures old(s.running) && old(s.capture) != 0 ==> (s == Recycle(old(s), old(s.capture))
        && pv == PvReplacing(old(pv.f)))
      ensures !old(s.running) ==> s == old(s).(dropped := old(s.dropped) + [old(pv.f)]) && pv == PvLoop
      ensures stale == (pv != PvLoop) && captureLock == if pv == PvLoop then Free else ByPreview
    {
      hide Session.Holding;
      LockIsFree();
      if !s.running {
        PvDrop();
      } else if s.capture != 0 {
        var waiting := s.capture;
        PvMarksStale();
        RecycleFrame(waiting, multiset{});
      } else {
        PvSets();
      }
    }

    lemma LockIsFree()
      requires Valid()
      ensures captureLock == Free ==> !stale
      ensures pv.PvReplacing? ==> stale
    {
    }

    method PvDrop()
      requires Valid() && pv.PvOffering?
      modifies `pv, `s
      ensures Valid() && s == old(s).(dropped := old(s.dropped) + [old(pv.f)]) && pv == PvLoop
    {
      hide Session.Holding;
      var f := pv.f;
      PvGivesUp(f, PvLoop, multiset{}, multiset{} + One(f));
      Drop(f);
    }

    /** A frame that goes nowhere. */
    method Drop(f: held)
      requires Holding(multiset{} + One(f))
      modifies `s
      ensures Valid() && s == old(s).(dropped := old(s.dropped) + [f])
    {
      hide Conserved, InOrder, Pictures, OnTheWay, Waiting, Stored, UsbFrames, PvFrames, CpFrames, PvSource,
        CaptureWaits, Together, PreviewLocked, CaptureLocked, Started;
      var t := s.(dropped := s.dropped + [f]);
      SameWaiting(s, t, cleared, stale, pv);
      DroppedStored(s, f);
      ToStore(Stored(s), multiset{}, f, Waiting(s, cleared, stale));
      s := t;
    }

    lemma DroppedStored(s: Shared, f: held)
      ensures Stored(s.(dropped := s.dropped + [f])) == Stored(s) + One(f)
    {
    }

    method PvMarksStale()
      requires Valid() && pv.PvOffering? && captureLock == Free && s.capture != 0
      modifies `pv, `stale, `captureLock
      ensures Holding(multiset{} + One(s.capture)) && pv == PvReplacing(old(pv.f)) && stale && captureLock == ByPreview
    {
      hide Conserved, InOrder, Pictures, OnTheWay, Waiting, Stored, UsbFrames, PvFrames, CpFrames, PvSource,
        CaptureWaits, Together, One;
      var next := PvReplacing(pv.f);
      PictureFrames(pv.f, pv);
      PictureFrames(pv.f, next);
      CaptureGoes(s, cleared, pv);
      LoseFrame(taken, content, [], s.capture, OnTheWay(s, cleared, true, pv), accepted, Bound());
      Passes(Stored(s), multiset{}, Waiting(s, cleared, false), UsbFrames(usb), PvFrames(pv), CpFrames(cp),
        Stored(s), multiset{} + One(s.capture), Waiting(s, cleared, true), UsbFrames(usb), PvFrames(next),
          CpFrames(cp));
      SourceChanges(s, cleared, true, pv, next);
      assert [] + OnTheWay(s, cleared, true, pv) == OnTheWay(s, cleared, true, pv);
      stale, captureLock, pv := true, ByPreview, next;
    }

    method PvReplace()
      requires Valid() && pv.PvReplacing?
      modifies `pv, `s, `stale, `captureLock
      ensures Valid() && s == old(s).(capture := old(pv.f)) && pv == PvLoop && captureLock == Free && !stale
    {
      hide Session.Holding;
      LockIsFree();
      PvSets();
    }

    method PvSets()
      requires Valid() && (if pv.PvReplacing? then stale else (pv.PvOffering? && !stale && captureLock == Free
        && s.capture == 0))
      modifies `pv, `s, `stale, `captureLock
      ensures Valid() && s == old(s).(capture := old(pv.f)) && pv == PvLoop && captureLock == Free && !stale
    {
      hide Conserved, InOrder, Pictures, OnTheWay, Waiting, Stored, UsbFrames, PvFrames, CpFrames, PvSource,
        CaptureWaits, Together, One, Some;
      var f := pv.f;
      var t := s.(capture := f);
      PictureFrames(f, pv);
      NoFrames();
      CaptureSet(s, cleared, stale, f, pv, PvLoop);
      SameStore(s, t);
      Passes(Stored(s), multiset{}, Waiting(s, cleared, stale), UsbFrames(usb), PvFrames(pv), CpFrames(cp),
        Stored(t), multiset{}, Waiting(t, cleared, false), UsbFrames(usb), PvFrames(PvLoop), CpFrames(cp));
      s, stale, captureLock, pv := t, false, Free, PvLoop;
    }

    /** uvc_stop_streaming waits for the callback. */
    method PvStop()
      requires Valid() && pv == PvStopping && usb == UsbIdle
      modifies `pv, `streaming
      ensures Valid() && pv == PvDone && !streaming
    {
      hide Conserved, InOrder, Pictures, OnTheWay, Waiting, Stored, UsbFrames, PvFrames, CpFrames, PvSource,
        CaptureWaits, Together, Stopped;
      NoFrames();
      SourceChanges(s, cleared, stale, PvStopping, PvDone);
      streaming, pv := false, PvDone;
    }

    // ----- do_capture

    /** The capture thread goes on; frames pass between it and its hand. */
    method CpGoesOn(next: Capture, ghost hand: multiset<frame>, ghost hand': multiset<frame>)
      requires Holding(hand) && cp != CpNone && cp != CpClearing && next != CpClearing
      requires hand + CpFrames(cp) == hand' + CpFrames(next)
      modifies `cp
      ensures Holding(hand') && cp == next
    {
      hide Conserved, InOrder, Pictures, OnTheWay, Waiting, Stored, UsbFrames, PvFrames, CpFrames, PvSource,
        CaptureWaits, Together, PreviewLocked, Stopped;
      Passes(Stored(s), hand, Waiting(s, cleared, stale), UsbFrames(usb), PvFrames(pv), CpFrames(cp),
        Stored(s), hand', Waiting(s, cleared, stale), UsbFrames(usb), PvFrames(pv), CpFrames(next));
      cp := next;
    }

    /** clearCaptureFrame. */
    method CpClear()
      requires Valid() && cp == CpStart && captureLock == Free
      modifies `cp, `s, `stale, `captureLock
      ensures Valid() && s == Recycle(old(s), old(s.capture))
        && cp == if old(s.capture) == 0 then CpLoop else CpClearing
      ensures stale == (cp == CpClearing) && captureLock == if cp == CpClearing then ByCapture else Free
    {
      hide Session.Holding;
      LockIsFree();
      if s.capture == 0 {
        CpGoesOn(CpLoop, multiset{}, multiset{});
      } else {
        var waiting := s.capture;
        CpMarksStale();
        RecycleFrame(waiting, multiset{});
      }
    }

    method CpMarksStale()
      requires Valid() && cp == CpStart && captureLock == Free && s.capture != 0
      modifies `cp, `stale, `captureLock
      ensures Holding(multiset{} + One(s.capture)) && cp == CpClearing && stale && captureLock == ByCapture
    {
      hide Conserved, InOrder, Pictures, OnTheWay, Waiting, Stored, UsbFrames, PvFrames, CpFrames, PvSource,
        CaptureWaits, Together, One;
      NoCaptureFrames();
      MarkStale();
      stale, captureLock, cp := true, ByCapture, CpClearing;
    }

    lemma NoCaptureFrames()
      ensures CpFrames(CpStart) == CpFrames(CpClearing) == CpFrames(CpLoop) == multiset{}
    {
    }

    /** The waiting frame passes into the hand of the thread that will replace it. */
    lemma MarkStale()
      requires Valid() && captureLock == Free && s.capture != 0
      ensures cleared <= |s.queue| && !stale
      ensures Together(Stored(s), multiset{} + One(s.capture), Waiting(s, cleared, true), UsbFrames(usb), PvFrames(pv),
        CpFrames(cp))
        == Places(multiset{})
      ensures InOrder(taken + Pictures(content, OnTheWay(s, cleared, true, pv)), accepted, Bound())
    {
      hide Conserved, InOrder, Pictures, OnTheWay, Waiting, Stored, UsbFrames, PvFrames, CpFrames, PvSource,
        CaptureWaits, Together, One;
      CaptureGoes(s, cleared, pv);
      LoseFrame(taken, content, [], s.capture, OnTheWay(s, cleared, true, pv), accepted, Bound());
      Passes(Stored(s), multiset{}, Waiting(s, cleared, false), UsbFrames(usb), PvFrames(pv), CpFrames(cp),
        Stored(s), multiset{} + One(s.capture), Waiting(s, cleared, true), UsbFrames(usb), PvFrames(pv), CpFrames(cp));
      assert [] + OnTheWay(s, cleared, true, pv) == OnTheWay(s, cleared, true, pv);
    }

    method CpCleared()
      requires Valid() && cp == CpClearing
      modifies `cp, `s, `stale, `captureLock
      ensures Valid() && s == old(s).(capture := 0) && cp == CpLoop && captureLock == Free && !stale
    {
      hide Conserved, InOrder, Pictures, OnTheWay, Waiting, Stored, UsbFrames, PvFrames, CpFrames, PvSource,
        CaptureWaits, Together;
      var t := s.(capture := 0);
      NoCaptureFrames();
      CaptureCleared(s, cleared, pv);
      SameStore(s, t);
      s, stale, captureLock, cp := t, false, Free, CpLoop;
    }

    method CpTest()
      requires Valid() && cp == CpLoop
      modifies `cp
      ensures Valid() && cp == if s.running then CpWaiting(0) else CpDone
    {
      hide Session.Holding;
      CpGoesOn(if s.running then CpWaiting(0) else CpDone, multiset{}, multiset{});
    }

    /** The end of do_capture_surface or do_capture_idle_loop. */
    method CpLeave()
      requires Valid() && cp.CpWaiting?
      modifies `cp, `s
      ensures Valid() && s == Recycle(old(s), old(cp.c)) && cp == CpLoop
    {
      hide Session.Holding;
      var c := cp.c;
      CpGoesOn(CpLoop, multiset{}, multiset{} + One(c));
      RecycleFrame(c, multiset{});
    }

    /** waitCaptureFrame. */
    method CpTake()
      requires Valid() && cp.CpWaiting? && captureLock == Free
      modifies `cp, `s, `taken
      ensures var r := TakeCapture(old(s));
        Valid() && s == r.s && cp == (if r.f == 0 then old(cp) else CpHas(r.f, old(cp.c)))
      ensures taken == old(taken) + (if TakeCapture(old(s)).f == 0 then [] else [PictureIn(content,
        TakeCapture(old(s)).f)])
    {
      hide Session.Holding;
      if TakeCapture(s).f != 0 {
        TakeWaiting();
      }
    }

    method TakeWaiting()
      requires Valid() && cp.CpWaiting? && captureLock == Free && s.running && s.capture != 0
      modifies `cp, `s, `taken
      ensures Valid() && s == old(s).(capture := 0) && taken == old(taken) + [PictureIn(content, old(s.capture))]
      ensures cp == CpHas(old(s.capture), old(cp.c))
    {
      hide Conserved, InOrder, Pictures, OnTheWay, Waiting, Stored, UsbFrames, PvFrames, CpFrames, PvSource,
        CaptureWaits, Together;
      var f, c := s.capture, cp.c;
      var t := s.(capture := 0);
      HasFrames(f, c);
      CaptureTaken(s, cleared, pv);
      SameStore(s, t);
      Passes(Stored(s), multiset{}, Waiting(s, cleared, false), UsbFrames(usb), PvFrames(pv), CpFrames(cp),
        Stored(t), multiset{}, Waiting(t, cleared, false), UsbFrames(usb), PvFrames(pv), CpFrames(CpHas(f, c)));
      PicturesJoin(content, [f], OnTheWay(t, cleared, false, pv));
      OnePicture(content, f);
      ghost var way := Way();
      assert way == (taken + [PictureIn(content, f)]) + Pictures(content, OnTheWay(t, cleared, false, pv));
      s, cp, taken := t, CpHas(f, c), taken + [PictureIn(content, f)];
      assert Way() == way;
    }

    lemma HasFrames(f: held, c: frame)
      ensures CpFrames(CpHas(f, c)) == One(f) + CpFrames(CpWaiting(c))
    {
    }

    /** do_capture_surface and do_capture_callback. */
    method CpUse(memory: bool, use: Use)
      requires Valid() && cp.CpHas?
      modifies `cp, `s
      ensures Valid() && OnlyPool()
      ensures var r := Obtain(old(s), memory);
        if use == ToSurface && old(cp.c) == 0 then s == r.s && cp == CpHas(old(cp.f), r.f)
        else if use == ToCallback && r.f != 0 then s == r.s && cp == CpCalling(old(cp.f), r.f, old(cp.c))
        else s == Recycle(if use == ToCallback then r.s else old(s), old(cp.f)) && cp == CpWaiting(old(cp.c))
    {
      hide Session.Holding;
      if use == ToSurface && cp.c == 0 {
        CpSurface(memory);
      } else if use == ToCallback {
        CpCallback(memory);
      } else {
        var f := cp.f;
        CpGoesOn(CpWaiting(cp.c), multiset{}, multiset{} + One(f));
        RecycleFrame(f, multiset{});
      }
    }

    /** A frame to convert into for the surface. */
    method CpSurface(memory: bool)
      requires Valid() && cp.CpHas? && cp.c == 0
      modifies `cp, `s
      ensures Valid() && s == Obtain(old(s), memory).s && cp == CpHas(old(cp.f), Obtain(old(s), memory).f)
    {
      hide Session.Holding;
      var d := GetFrame(memory, multiset{});
      CpGoesOn(CpHas(cp.f, d), multiset{} + One(d), multiset{});
    }

    /** A frame to convert into for the callback; without one the frame goes back. */
    method CpCallback(memory: bool)
      requires Valid() && cp.CpHas?
      modifies `cp, `s
      ensures Valid() && if Obtain(old(s), memory).f == 0
        then s == Recycle(Obtain(old(s), memory).s, old(cp.f)) && cp == CpWaiting(old(cp.c))
        else s == Obtain(old(s), memory).s && cp == CpCalling(old(cp.f), Obtain(old(s), memory).f, old(cp.c))
    {
      hide Session.Holding;
      var f, c := cp.f, cp.c;
      var b := GetFrame(memory, multiset{});
      if b == 0 {
        CpGoesOn(CpWaiting(c), multiset{} + One(b), multiset{} + One(f));
        RecycleFrame(f, multiset{});
      } else {
        CpGoesOn(CpCalling(f, b, c), multiset{} + One(b), multiset{});
      }
    }

    method CpCall()
      requires Valid() && cp.CpCalling?
      modifies `cp, `s
      ensures Valid() && s == Recycle(old(s), old(cp.f)) && cp == CpReturning(old(cp.b), old(cp.c))
    {
      hide Session.Holding;
      var f := cp.f;
      CpGoesOn(CpReturning(cp.b, cp.c), multiset{}, multiset{} + One(f));
      RecycleFrame(f, multiset{});
    }

    method CpReturn()
      requires Valid() && cp.CpReturning?
      modifies `cp, `s
      ensures Valid() && s == Recycle(old(s), old(cp.b)) && cp == CpWaiting(old(cp.c))
    {
      hide Session.Holding;
      var b := cp.b;
      CpGoesOn(CpWaiting(cp.c), multiset{}, multiset{} + One(b));
      RecycleFrame(b, multiset{});
    }

    // ----- stopPreview

    method CtStop()
      requires Valid() && ct == CtRunning
      modifies `ct, `s
      ensures Valid() && s == old(s).(running := false) && ct == CtJoining
    {
      hide Conserved, InOrder, Pictures, OnTheWay, Waiting, Stored, UsbFrames, PvFrames, CpFrames, PvSource,
        CaptureWaits, Together;
      var t := s.(running := false);
      SameWaiting(s, t, cleared, stale, pv);
      SameStore(s, t);
      s, ct := t, CtJoining;
    }

    method CtJoin()
      requires Valid() && ct == CtJoining && pv == PvDone
      modifies `ct
      ensures Valid() && ct == CtToClear
    {
      hide Conserved, InOrder, Pictures, OnTheWay, Waiting, Stored, UsbFrames, PvFrames, CpFrames, PvSource,
        CaptureWaits, Together;
      ct := CtToClear;
    }

    method CtLock()
      requires Valid() && ct == CtToClear && previewLock == Free
      modifies `ct, `previewLock
      ensures Valid() && ct == CtClearing && previewLock == ByControl
    {
      hide Conserved, InOrder, Pictures, OnTheWay, Waiting, Stored, UsbFrames, PvFrames, CpFrames, PvSource,
        CaptureWaits, Together;
      previewLock, ct := ByControl, CtClearing;
    }

    method CtClear()
      requires Valid() && ct == CtClearing
      modifies `ct, `s, `cleared, `previewLock
      ensures Valid() && s.dropped == old(s.dropped)
      ensures if old(cleared) < |old(s.queue)| then s == Recycle(old(s), old(s.queue[cleared]))
        && cleared == old(cleared) + 1 && ct == CtClearing && previewLock == old(previewLock)
        else s == old(s).(queue := []) && previewLock == Free && ct == CtToClearCapture && cleared == 0
    {
      hide Session.Holding;
      if cleared < |s.queue| {
        LockIsHeld();
        ClearOne();
      } else {
        CtCleared();
      }
    }

    method CtCleared()
      requires Valid() && ct == CtClearing && cleared >= |s.queue|
      modifies `ct, `s, `cleared, `previewLock
      ensures Valid() && s == old(s).(queue := []) && previewLock == Free && ct == CtToClearCapture && cleared == 0
    {
      hide Conserved, InOrder, Pictures, OnTheWay, Waiting, Stored, UsbFrames, PvFrames, CpFrames, PvSource,
        CaptureWaits, Together;
      var t := s.(queue := []);
      ClearsAll(s, stale, pv);
      SameStore(s, t);
      s, cleared, previewLock, ct := t, 0, Free, CtToClearCapture;
    }

    method CtClearCapture()
      requires Valid() && ct == CtToClearCapture && captureLock == Free
      modifies `ct, `s, `stale, `captureLock
      ensures Valid() && s == Recycle(old(s), old(s.capture))
        && ct == if old(s.capture) == 0 then CtDone else CtReplacing
      ensures stale == (ct == CtReplacing) && captureLock == if ct == CtReplacing then ByControl else Free
    {
      hide Session.Holding;
      LockIsFree();
      if s.capture == 0 {
        CtNothingWaits();
      } else {
        var waiting := s.capture;
        CtMarksStale();
        RecycleFrame(waiting, multiset{});
      }
    }

    method CtNothingWaits()
      requires Valid() && ct == CtToClearCapture && s.capture == 0
      modifies `ct
      ensures Valid() && ct == CtDone
    {
      hide Conserved, InOrder, Pictures, OnTheWay, Waiting, Stored, UsbFrames, PvFrames, CpFrames, PvSource,
        CaptureWaits, Together;
      ct := CtDone;
    }

    method CtMarksStale()
      requires Valid() && ct == CtToClearCapture && captureLock == Free && s.capture != 0
      modifies `ct, `stale, `captureLock
      ensures Holding(multiset{} + One(s.capture)) && ct == CtReplacing && stale && captureLock == ByControl
    {
      hide Conserved, InOrder, Pictures, OnTheWay, Waiting, Stored, UsbFrames, PvFrames, CpFrames, PvSource,
        CaptureWaits, Together, One;
      MarkStale();
      stale, captureLock, ct := true, ByControl, CtReplacing;
    }

    method CtReplaced()
      requires Valid() && ct == CtReplacing
      modifies `ct, `s, `stale, `captureLock
      ensures Valid() && s == old(s).(capture := 0) && ct == CtDone && captureLock == Free && !stale
    {
      hide Conserved, InOrder, Pictures, OnTheWay, Waiting, Stored, UsbFrames, PvFrames, CpFrames, PvSource,
        CaptureWaits, Together;
      var t := s.(capture := 0);
      CaptureCleared(s, cleared, pv);
      SameStore(s, t);
      s, stale, captureLock, ct := t, false, Free, CtDone;
    }

    // ----- any interleaving

    lemma PoolIsBounded()
      requires Valid()
      ensures |s.pool| <= 6
    {
      hide Conserved, InOrder, Pictures, OnTheWay, Waiting, Together;
    }

    method UsbNext(ok: bool)
      requires Valid()
      modifies `s, `usb, `content, `copied, `accepted
      ensures Valid() && old(accepted) <= accepted && Now() == AfterUsb(old(Now()), ok)
    {
      hide Session.Holding, Recycle, Obtain, OfferPreview;
      match usb
      case UsbIdle => if streaming { UsbGet(ok); }
      case UsbCopying(f) => UsbCopy(ok);
      case UsbAdding(f) => if previewLock == Free { UsbAdd(); }
      case UsbReturning(f) => UsbReturn();
    }

    /** The preview thread before its loop. */
    method PvSetsUp(ok: bool)
      requires Valid() && (pv.PvStart? || pv.PvToClear? || pv.PvClearing? || pv.PvSpawn?)
      modifies this
      ensures Valid() && taken == old(taken) && accepted == old(accepted)
      ensures Now() == AfterPv(old(Now()), mjpeg, ok)
    {
      hide Session.Holding, Recycle;
      match pv
      case PvStart => PvBegin(ok);
      case PvToClear => if previewLock == Free { PvLock(); }
      case PvClearing => PvClear();
      case PvSpawn => PvSpawnCapture();
    }

    /** It gets a picture. */
    method PvFetches(ok: bool)
      requires Valid() && (pv.PvLoop? || pv.PvWaiting? || pv.PvHas? || pv.PvDecoding? || pv.PvReturning?)
      modifies this
      ensures Valid() && taken == old(taken) && accepted == old(accepted)
      ensures Now() == AfterPv(old(Now()), mjpeg, ok)
    {
      hide Session.Holding, Recycle, Obtain, TakePreview;
      match pv
      case PvLoop => PvTest();
      case PvWaiting => if previewLock == Free { PvTake(); }
      case PvHas(m) => PvGet();
      case PvDecoding(m, f) => PvDecode(ok);
      case PvReturning(f) => PvReturn();
    }

    /** It shows the picture and passes it on, or stops. */
    method PvShows(ok: bool)
      requires Valid() && (pv.PvPicture? || pv.PvDrawing? || pv.PvOffering? || pv.PvReplacing? || pv.PvStopping?)
      modifies this
      ensures Valid() && taken == old(taken) && accepted == old(accepted)
      ensures Now() == AfterPv(old(Now()), mjpeg, ok)
    {
      hide Session.Holding, Recycle, Obtain;
      LockIsFree();
      match pv
      case PvPicture(f) => PvDraw(ok);
      case PvDrawing(f, c) => PvDrawn();
      case PvOffering(f) => if captureLock == Free { PvOffer(); }
      case PvReplacing(f) => PvReplace();
      case PvStopping => if usb == UsbIdle { PvStop(); }
    }

    method PvNext(ok: bool)
      requires Valid()
      modifies this
      ensures Valid() && taken == old(taken) && accepted == old(accepted)
      ensures Now() == AfterPv(old(Now()), mjpeg, ok)
    {
      hide Session.Holding, Recycle, Obtain, TakePreview;
      if pv.PvStart? || pv.PvToClear? || pv.PvClearing? || pv.PvSpawn? {
        PvSetsUp(ok);
      } else if pv.PvLoop? || pv.PvWaiting? || pv.PvHas? || pv.PvDecoding? || pv.PvReturning? {
        PvFetches(ok);
      } else if pv != PvDone {
        PvShows(ok);
      }
    }

    /** The capture thread before it has a frame. */
    method CpFetches(ok: bool)
      requires Valid() && (cp.CpStart? || cp.CpClearing? || cp.CpLoop? || cp.CpWaiting?)
      modifies this
      ensures Valid() && old(taken) <= taken && accepted == old(accepted)
      ensures forall use :: Now() == AfterCp(old(Now()), ok, use)
    {
      hide Session.Holding, Recycle, TakeCapture;
      NothingRecycled(s);
      LockIsFree();
      match cp
      case CpStart => if captureLock == Free { CpClear(); }
      case CpClearing => CpCleared();
      case CpLoop => CpTest();
      case CpWaiting(c) => if !ok { CpLeave(); } else if captureLock == Free { CpTake(); }
    }

    method CpNext(ok: bool, use: Use)
      requires Valid()
      modifies this
      ensures Valid() && old(taken) <= taken && accepted == old(accepted)
      ensures Now() == AfterCp(old(Now()), ok, use)
    {
      hide Session.Holding, Recycle, Obtain, TakeCapture;
      NothingObtained(s, ok);
      match cp
      case CpNone =>
      case CpHas(f, c) => CpUse(ok, use);
      case CpCalling(f, b, c) => CpCall();
      case CpReturning(b, c) => CpReturn();
      case CpDone =>
      case _ => CpFetches(ok);
    }

    method CtNext()
      requires Valid()
      modifies this
      ensures Valid() && taken == old(taken) && accepted == old(accepted)
      ensures Now() == AfterCt(old(Now()))
    {
      hide Session.Holding, Recycle;
      NothingRecycled(s);
      LockIsFree();
      match ct
      case CtRunning => CtStop();
      case CtJoining => if pv == PvDone { CtJoin(); }
      case CtToClear => if previewLock == Free { CtLock(); }
      case CtClearing => CtClear();
      case CtToClearCapture => if captureLock == Free { CtClearCapture(); }
      case CtReplacing => CtReplaced();
      case CtDone =>
    }

    /** One step of one thread.  Only addCaptureFrame without a running preview drops a
        frame, only the callback accepts pictures and only the capture thread takes them. */
    method Step(a: Action)
      requires Valid()
      modifies this
      ensures Valid()
      ensures s.dropped == old(s.dropped)
        || (a.PvStep? && old(pv.PvOffering?) && !old(s.running) && s.dropped == old(s.dropped) + [old(pv.f)])
      ensures accepted == old(accepted) || (a.UsbStep? && old(accepted) <= accepted)
      ensures taken == old(taken) || (a.CpStep? && old(taken) <= taken)
      ensures PoolMoves(old(s), s) && Now() == AfterStep(old(Now()), mjpeg, a)
    {
      hide Session.Holding, PoolMoves, AfterUsb, AfterPv, AfterCp, AfterCt;
      PoolIsBounded();
      StepMoves(Now(), mjpeg, a);
      match a
      case UsbStep(ok) => UsbNext(ok);
      case PvStep(ok) => PvNext(ok);
      case CpStep(ok, use) => CpNext(ok, use);
      case CtStep => CtNext();
    }

    /** Any interleaving of steps; `run` is where everything was before and after each. */
    method Run(actions: seq<Action>) returns (ghost run: seq<Status>)
      requires Valid()
      modifies this
      ensures Valid() && old(accepted) <= accepted && old(taken) <= taken && old(s.dropped) <= s.dropped
      ensures |run| == |actions| + 1 && run[0] == old(Now()) && run[|actions|] == Now()
      ensures forall i :: 0 <= i < |actions| ==>
        run[i + 1] == AfterStep(run[i], mjpeg, actions[i]) && PoolMoves(run[i].s, run[i + 1].s)
    {
      hide Session.Holding, PoolMoves, AfterStep;
      run := [Now()];
      for i := 0 to |actions|
        invariant Valid() && old(accepted) <= accepted && old(taken) <= taken && old(s.dropped) <= s.dropped
        invariant |run| == i + 1 && run[0] == old(Now()) && run[i] == Now()
        invariant forall j :: 0 <= j < i ==>
          run[j + 1] == AfterStep(run[j], mjpeg, actions[j]) && PoolMoves(run[j].s, run[j + 1].s)
      {
        Step(actions[i]);
        run := run + [Now()];
      }
    }

    // ----- no deadlock

    lemma IsOrderly()
      requires Valid()
      ensures Orderly(Now())
    {
      hide Conserved, InOrder, Pictures, OnTheWay, Waiting, Together, PreviewLocked, CaptureLocked, Started, Stopped;
    }

    /** The preview thread can always come to its end. */
    method FinishPreview(ghost start: Status, ghost before: seq<Action>) returns (ghost schedule: seq<Action>)
      requires Valid() && !s.running && Now() == AfterSteps(start, mjpeg, before)
      modifies this
      ensures Valid() && !s.running && pv == PvDone && ct == old(ct) && Now() == AfterSteps(start, mjpeg, schedule)
    {
      hide Session.Holding, PoolMoves, AfterStep, AfterSteps, Orderly, PvRank, UsbRank, ToClear, Held;
      schedule := before;
      while pv != PvDone
        invariant Valid() && !s.running && ct == old(ct) && Now() == AfterSteps(start, mjpeg, schedule)
        decreases PvRank(pv), ToClear(Now()), Held(captureLock), UsbRank(usb)
      {
        IsOrderly();
        PvComesNearer(Now(), mjpeg);
        var a := if pv.PvOffering? && captureLock != Free then CpStep(false, AsItIs)
          else if pv.PvStopping? && usb != UsbIdle then UsbStep(false) else PvStep(false);
        OneStepMore(start, mjpeg, schedule, a);
        Step(a);
        schedule := schedule + [a];
      }
    }

    /** Then the capture thread can. */
    method FinishCapture(ghost start: Status, ghost before: seq<Action>) returns (ghost schedule: seq<Action>)
      requires Valid() && !s.running && pv == PvDone && ct != CtRunning && Now() == AfterSteps(start, mjpeg, before)
      modifies this
      ensures Valid() && !s.running && pv == PvDone && ct != CtRunning && (cp == CpNone || cp == CpDone)
      ensures Now() == AfterSteps(start, mjpeg, schedule)
    {
      hide Session.Holding, PoolMoves, AfterStep, AfterSteps, Orderly, CpRank, Held;
      schedule := before;
      while cp != CpNone && cp != CpDone
        invariant Valid() && !s.running && pv == PvDone && ct != CtRunning
        invariant Now() == AfterSteps(start, mjpeg, schedule)
        decreases CpRank(cp), Held(captureLock)
      {
        IsOrderly();
        CpComesNearer(Now(), mjpeg);
        var a := if cp.CpStart? && captureLock != Free then CtStep else CpStep(false, AsItIs);
        OneStepMore(start, mjpeg, schedule, a);
        Step(a);
        schedule := schedule + [a];
      }
    }

    /** Threads never block one another for good: whatever has happened, some further steps
        stop the preview and end all threads, and then every frame is in the pool, freed or
        dropped, exactly once. */
    method Finish() returns (ghost schedule: seq<Action>)
      requires Valid()
      modifies this
      ensures Valid() && Now() == AfterSteps(old(Now()), mjpeg, schedule)
      ensures usb == UsbIdle && pv == PvDone && (cp == CpNone || cp == CpDone) && ct == CtDone
      ensures s.queue == [] && s.capture == 0
      ensures forall f :: Stored(s)[f] == if 1 <= f < s.next then 1 else 0
    {
      hide Session.Holding, PoolMoves, AfterStep, Orderly, CtRank, ToClear;
      ghost var start := Now();
      schedule := [];
      IsOrderly();
      if ct == CtRunning {
        OneStepMore(start, mjpeg, schedule, CtStep);
        StopsRunning(start, mjpeg);
        Step(CtStep);
        schedule := schedule + [CtStep];
      } else {
        NotRunning(Now());
      }
      schedule := FinishPreview(start, schedule);
      schedule := FinishCapture(start, schedule);
      while ct != CtDone
        invariant Valid() && !s.running && pv == PvDone && ct != CtRunning && (cp == CpNone || cp == CpDone)
        invariant Now() == AfterSteps(start, mjpeg, schedule)
        decreases CtRank(ct), ToClear(Now())
      {
        IsOrderly();
        CtComesNearer(Now(), mjpeg);
        OneStepMore(start, mjpeg, schedule, CtStep);
        Step(CtStep);
        schedule := schedule + [CtStep];
      }
      AllIsStored();
    }

    lemma AllIsStored()
      requires Valid() && ct == CtDone && (cp == CpNone || cp == CpDone)
      ensures usb == UsbIdle && pv == PvDone && s.queue == [] && s.capture == 0
      ensures forall f :: Stored(s)[f] == if 1 <= f < s.next then 1 else 0
    {
      AfterStop();
      assert Waiting(s, cleared, stale) == multiset{};
      forall f ensures Stored(s)[f] == if 1 <= f < s.next then 1 else 0 {
        assert Places(multiset{})[f] == if 1 <= f < s.next then 1 else 0;
      }
    }

    // ----- what holds after any run

    /** A session that streams, with an empty pool. */
    static method Streams() returns (x: Session)
      ensures fresh(x) && x.Valid() && x.s == Shared([], [], 0, true, 1, [], []) && x.pv == PvLoop && x.usb == UsbIdle
        && x.streaming
      ensures x.ct == CtRunning && x.captureLock == x.previewLock == Free && !x.mjpeg
      ensures x.cp == CpStart && x.copied == 0 && x.accepted == x.taken == []
    {
      hide Session.Holding;
      x := new Session(false, [], 1);
      x.PvBegin(true);
      x.PvLock();
      x.PvClear();
      x.PvSpawnCapture();
    }

    /** A session whose preview thread has the first frame in hand. */
    static method DrawsFirst() returns (x: Session)
      ensures fresh(x) && x.Valid() && x.s == Shared([], [], 0, true, 2, [], []) && x.pv == PvPicture(1)
      ensures x.ct == CtRunning && x.captureLock == Free && x.cp == CpStart
      ensures PictureIn(x.content, 1) == 0 && x.accepted == [0] && x.taken == []
    {
      hide Session.Holding;
      x := Streams();
      x.UsbGet(true);
      x.UsbCopy(true);
      x.UsbAdd();
      x.PvTest();
      x.PvTake();
    }

    /** A picture can go all the way: the first one is taken for capturing. */
    static method TakesFirst() returns (x: Session)
      ensures fresh(x) && x.Valid() && x.accepted == x.taken == [0] && x.cp == CpHas(1, 0)
    {
      hide Session.Holding;
      x := DrawsFirst();
      x.CpClear();
      x.CpTest();
      x.PvDraw(false);
      x.PvOffer();
      x.CpTake();
    }

    /** A frame can get lost: when the preview is stopped while the preview thread draws,
        addCaptureFrame drops the frame. */
    static method LosesFrame() returns (x: Session)
      ensures fresh(x) && x.Valid() && x.s.dropped == [1] && x.s.pool == x.s.freed == []
    {
      hide Session.Holding;
      x := DrawsFirst();
      x.PvDraw(false);
      x.CtStop();
      x.PvOffer();
    }

    /** Every frame allocated in the session is in exactly one place: no thread has a
        frame that another thread has or that is in the pool. */
    lemma NoFrameTwice(f: frame)
      requires Valid()
      ensures |s.queue| <= MAX_FRAME && |s.pool| <= FRAME_POOL_SZ && cleared <= |s.queue|
      ensures Places(multiset{})[f] == if 1 <= f < s.next then 1 else 0
      ensures multiset(s.pool)[f] + multiset(s.queue[cleared..])[f] + UsbFrames(usb)[f]
        + PvFrames(pv)[f] + CpFrames(cp)[f] <= 1
    {
    }

    /** The pictures taken for capturing are pictures that were accepted from the
        callback, in the same order. */
    lemma TakenInOrder()
      requires Valid()
      ensures IsSubsequence(taken, accepted)
    {
      hide Pictures, OnTheWay;
      ghost var way := Way();
      assert taken == way[..|taken|];
      forall x | x in taken ensures x in accepted {
        assert x in way;
      }
      forall i, j | 0 <= i < j < |taken| ensures taken[i] < taken[j] {
        assert way[i] < way[j];
      }
      IncreasingSubsequence(taken, accepted);
    }

    lemma QueueIsCleared()
      requires Valid()
      ensures cleared <= |s.queue|
    {
    }

    /** After stopPreview nothing is left in the queues, and every frame is in the pool,
        freed, dropped or with the capture thread. */
    lemma AfterStop()
      requires Valid() && ct == CtDone
      ensures s.queue == [] && s.capture == 0 && usb == UsbIdle && pv == PvDone
      ensures forall f :: 1 <= f < s.next ==> f in s.pool || f in s.freed || f in s.dropped || f in CpFrames(cp)
    {
      assert Waiting(s, cleared, stale) == multiset{};
      forall f | 1 <= f < s.next ensures f in s.pool || f in s.freed || f in s.dropped || f in CpFrames(cp) {
        assert Places(multiset{})[f] == 1;
      }
    }
  }

  /** What waits does not depend on the pool. */
  lemma SameWaiting(s: Shared, t: Shared, cleared: nat, stale: bool, pv: Preview)
    requires s.queue == t.queue && s.capture == t.capture && cleared <= |s.queue|
    ensures Waiting(s, cleared, stale) == Waiting(t, cleared, stale)
    ensures OnTheWay(s, cleared, stale, pv) == OnTheWay(t, cleared, stale, pv)
  {
  }
}
