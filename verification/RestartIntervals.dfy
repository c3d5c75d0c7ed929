/** The division of a scan into restart intervals (section E.1.4 of ITU-T T.81). */
module RestartIntervals {
  /** The restart intervals of a scan so far: those that are complete, and the one begun. */
  datatype Intervals<T> = Intervals(done: seq<seq<T>>, current: seq<T>)

  /** One MCU more, in intervals of r; 0 is for no restarts. */
  function AddToInterval<T>(r: nat, x: Intervals<T>, mcu: T): Intervals<T>
  {
    if r > 0 && |x.current| == r then Intervals(x.done + [x.current], [mcu])
    else x.(current := x.current + [mcu])
  }

  function Divide<T>(r: nat, mcus: seq<T>): Intervals<T>
  {
    if mcus == [] then Intervals([], []) else AddToInterval(r, Divide(r, mcus[..|mcus| - 1]), mcus[|mcus| - 1])
  }

  function All<T>(x: Intervals<T>): (ivs: seq<seq<T>>)
    ensures |ivs| == |x.done| + 1
  {
    x.done + [x.current]
  }

  lemma DivideNext<T>(r: nat, mcus: seq<T>, m: nat)
    requires m < |mcus|
    ensures Divide(r, mcus[..m + 1]) == AddToInterval(r, Divide(r, mcus[..m]), mcus[m])
  {
    assert mcus[..m + 1][..m] == mcus[..m];
  }

  lemma NothingDivided<T>(r: nat, mcus: seq<T>)
    ensures Divide(r, mcus[..0]) == Intervals([], [])
  {
  }

  function Concatenated<T>(ivs: seq<seq<T>>): seq<T>
  {
    if ivs == [] then [] else Concatenated(ivs[..|ivs| - 1]) + ivs[|ivs| - 1]
  }

  /** Every interval but the last holds r MCUs, the last at most r, and together they are
      the MCUs of the scan in order. */
  lemma {:induction false} DivideSizes<T>(r: nat, mcus: seq<T>)
    requires r > 0
    ensures var x := Divide(r, mcus);
      && (forall i :: 0 <= i < |x.done| ==> |x.done[i]| == r) && |x.current| <= r
      && (mcus != [] ==> x.current != [])
      && Concatenated(x.done) + x.current == mcus
  {
    if mcus != [] {
      var n := |mcus| - 1;
      DivideSizes(r, mcus[..n]);
      AddSizes(r, Divide(r, mcus[..n]), mcus[..n], mcus[n]);
      assert mcus == mcus[..n] + [mcus[n]];
    }
  }

  lemma AddSizes<T>(r: nat, x: Intervals<T>, mcus: seq<T>, mcu: T)
    requires r > 0 && |x.current| <= r && Concatenated(x.done) + x.current == mcus
    requires forall i :: 0 <= i < |x.done| ==> |x.done[i]| == r
    ensures var y := AddToInterval(r, x, mcu);
      && (forall i :: 0 <= i < |y.done| ==> |y.done[i]| == r) && 1 <= |y.current| <= r
      && Concatenated(y.done) + y.current == mcus + [mcu]
  {
    assert (x.done + [x.current])[..|x.done|] == x.done;
  }

  /** Without restarts all MCUs are in one interval. */
  lemma {:induction false} OneInterval<T>(mcus: seq<T>)
    ensures Divide(0, mcus) == Intervals([], mcus)
  {
    if mcus != [] {
      OneInterval(mcus[..|mcus| - 1]);
      assert mcus == mcus[..|mcus| - 1] + [mcus[|mcus| - 1]];
    }
  }

  /** The first intervals of y are complete in x or begun. */
  predicate Earlier<T(==)>(x: Intervals<T>, y: Intervals<T>)
  {
    && |x.done| <= |y.done| && x.done == y.done[..|x.done|] && x.current <= All(y)[|x.done|]
  }

  lemma AddIsLater<T>(r: nat, x: Intervals<T>, y: Intervals<T>, mcu: T)
    requires Earlier(x, y)
    ensures Earlier(x, AddToInterval(r, y, mcu))
  {
    var z := AddToInterval(r, y, mcu);
    assert x.done == z.done[..|x.done|];
    if |x.done| == |y.done| {
      assert All(z)[|x.done|] == if |z.done| > |y.done| then y.current else z.current;
    }
  }

  lemma {:induction false} DivideInOrder<T>(r: nat, mcus: seq<T>, m: nat)
    requires m <= |mcus|
    ensures Earlier(Divide(r, mcus[..m]), Divide(r, mcus))
    decreases |mcus|
  {
    if m == |mcus| {
      assert mcus[..m] == mcus;
    } else {
      var n := |mcus| - 1;
      DivideInOrder(r, mcus[..n], m);
      assert mcus[..n][..m] == mcus[..m];
      AddIsLater(r, Divide(r, mcus[..m]), Divide(r, mcus[..n]), mcus[n]);
    }
  }

  lemma CurrentIs<T>(y: Intervals<T>, z: Intervals<T>)
    requires Earlier(y, z)
    ensures |y.done| < |All(z)| && |y.current| <= |All(z)[|y.done|]| && All(z)[|y.done|][..|y.current|] == y.current
  {
  }

  lemma EarlierHas<T>(y: Intervals<T>, z: Intervals<T>)
    requires Earlier(y, z) && y.current != []
    ensures |y.done| < |All(z)|
    ensures var iv, i := All(z)[|y.done|], |y.current| - 1; i < |iv| && iv[i] == y.current[i]
  {
    assert All(z)[|y.done|][..|y.current|] == y.current;
  }

  lemma AddedLast<T>(r: nat, x: Intervals<T>, mcu: T)
    ensures var y := AddToInterval(r, x, mcu);
      && y.current != [] && y.current[|y.current| - 1] == mcu
      && |y.done| == (if r > 0 && |x.current| == r then |x.done| + 1 else |x.done|)
      && |y.current| == (if r > 0 && |x.current| == r then 1 else |x.current| + 1)
  {
  }

  predicate HasMcu<T(==)>(iv: seq<T>, i: nat, mcu: T)
  {
    i < |iv| && iv[i] == mcu
  }

  /** MCU m comes next in its interval, or begins the next one. */
  lemma NextOfDivision<T>(r: nat, mcus: seq<T>, m: nat)
    requires m < |mcus|
    ensures var x, ivs := Divide(r, mcus[..m]), All(Divide(r, mcus));
      if r > 0 && |x.current| == r then |x.done| + 1 < |ivs| && HasMcu(ivs[|x.done| + 1], 0, mcus[m])
      else |x.done| < |ivs| && HasMcu(ivs[|x.done|], |x.current|, mcus[m])
  {
    hide Divide, Earlier, All, AddToInterval;
    DivideNext(r, mcus, m);
    DivideInOrder(r, mcus, m + 1);
    AddedLast(r, Divide(r, mcus[..m]), mcus[m]);
    EarlierHas(Divide(r, mcus[..m + 1]), Divide(r, mcus));
  }
}
