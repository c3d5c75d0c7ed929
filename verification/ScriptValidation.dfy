/** The check a scan script must pass before compression starts. */
module ScriptValidation {
  import opened ScanScript

  /** Row ci of the table of bit positions. */
  function Row(table: array2<int>, ci: nat): positions
    requires ci < table.Length0 && table.Length1 == 64
    reads table
  {
    seq(64, k requires 0 <= k < 64 && ci < table.Length0 && table.Length1 == 64 reads table => table[ci, k])
  }

  // ----- sequential scripts

  predicate FullScan(info: ScanInfo)
  {
    info.Ss == 0 && info.Se == 63 && info.Ah == 0 && info.Al == 0
  }

  predicate SentIn(scans: seq<ScanInfo>, ci: int)
  {
    exists i :: 0 <= i < |scans| && ci in scans[i].components
  }

  predicate LegalSequential(scans: seq<ScanInfo>, n: nat)
  {
    && (forall i :: 0 <= i < |scans| ==> GoodComponents(scans[i], n) && FullScan(scans[i]))
    && (forall i, j, ci :: 0 <= i < j < |scans| && ci in scans[i].components ==> ci !in scans[j].components)
    && (forall ci :: 0 <= ci < n ==> SentIn(scans, ci))
  }

  /** Whole scans of one to four components in frame order, which send every component
      exactly once. */
  predicate AcceptedSequential(scans: seq<ScanInfo>, n: nat)
  {
    && (forall i :: 0 <= i < |scans| ==> (
      && 1 <= |scans[i].components| <= 4
      && scans[i].Ss == 0 && scans[i].Se == 63 && scans[i].Ah == 0 && scans[i].Al == 0))
    && (forall i, c :: 0 <= i < |scans| && 0 <= c < |scans[i].components| ==> 0 <= scans[i].components[c] < n)
    && (forall i, c, d :: 0 <= i < |scans| && 0 <= c < d < |scans[i].components| ==>
      scans[i].components[c] < scans[i].components[d])
    && (forall i, j, ci :: 0 <= i < j < |scans| && ci in scans[i].components ==> ci !in scans[j].components)
    && forall ci :: 0 <= ci < n ==> DcBefore(scans, |scans|, ci)
  }

  lemma SequentialExactly(scans: seq<ScanInfo>, n: nat)
    ensures LegalSequential(scans, n) <==> AcceptedSequential(scans, n)
  {
    if LegalSequential(scans, n) {
      forall i, c, d | 0 <= i < |scans| && 0 <= c < d < |scans[i].components|
        ensures scans[i].components[c] < scans[i].components[d] {
        Increase(scans[i], n, c, d);
      }
      forall ci | 0 <= ci < n ensures DcBefore(scans, |scans|, ci) {
        assert SentIn(scans, ci);
      }
    } else if AcceptedSequential(scans, n) {
      forall ci | 0 <= ci < n ensures SentIn(scans, ci) {
        assert DcBefore(scans, |scans|, ci);
      }
    }
  }

  /** The components of a scan exist and are in frame order. */
  method CheckComponents(info: ScanInfo, n: nat) returns (ok: bool)
    ensures ok == GoodComponents(info, n)
  {
    if |info.components| <= 0 || |info.components| > MAX_COMPS_IN_SCAN {
      return false;
    }
    for ci := 0 to |info.components|
      invariant forall i :: 0 <= i < ci ==> 0 <= info.components[i] < n
      invariant forall i :: 0 < i < ci ==> info.components[i - 1] < info.components[i]
    {
      var thisi := info.components[ci];
      if thisi < 0 || thisi >= n {
        return false;
      }
      if ci > 0 && thisi <= info.components[ci - 1] {
        return false;
      }
    }
    return true;
  }

  /** Check a scan against one component's progress and record what it sends. */
  method CheckCoefficients(info: ScanInfo, table: array2<int>, ci: nat) returns (ok: bool)
    requires GoodParameters(info) && ci < table.Length0 && table.Length1 == 64
    modifies table
    ensures ok == Follows(info, old(Row(table, ci)))
    ensures ok ==> Row(table, ci) == Sends(info, old(Row(table, ci)))
    ensures forall c :: 0 <= c < table.Length0 && c != ci ==> Row(table, c) == old(Row(table, c))
  {
    ghost var row := Row(table, ci);
    if info.Ss != 0 && table[ci, 0] < 0 {  // AC without prior DC scan
      return false;
    }
    for coefi := info.Ss to info.Se + 1
      invariant forall k :: info.Ss <= k < coefi ==> CoefficientFollows(info, row[k])
      invariant forall c, k :: 0 <= c < table.Length0 && 0 <= k < 64 ==>
        table[c, k] == if c == ci && info.Ss <= k < coefi then info.Al else old(table[c, k])
    {
      if table[ci, coefi] < 0 {
        if info.Ah != 0 {
          assert !CoefficientFollows(info, row[coefi]);
          return false;
        }
      } else if info.Ah != table[ci, coefi] || info.Al != info.Ah - 1 {
        assert !CoefficientFollows(info, row[coefi]);
        return false;
      }
      table[ci, coefi] := info.Al;
    }
    return true;
  }

  /** A progressive scan, after the scans in `before`. */
  method CheckProgressiveScan(info: ScanInfo, table: array2<int>, ghost before: seq<ScanInfo>, n: nat)
      returns (ok: bool)
    requires GoodComponents(info, n) && table.Length0 == n && table.Length1 == 64
    requires forall c :: 0 <= c < n ==> Row(table, c) == Progress(before, c)
    modifies table
    ensures ok == MayFollow(info, before, n)
    ensures ok ==> forall c :: 0 <= c < n ==> Row(table, c) == Progress(before + [info], c)
  {
    if info.Ss < 0 || info.Ss >= 64 || info.Se < info.Ss || info.Se >= 64 ||
       info.Ah < 0 || info.Ah > MAX_AH_AL || info.Al < 0 || info.Al > MAX_AH_AL {
      return false;
    }
    if info.Ss == 0 {
      if info.Se != 0 {  // DC and AC together not OK
        return false;
      }
    } else if |info.components| != 1 {
      return false;
    }
    for i := 0 to |info.components|
      invariant forall j :: 0 <= j < i ==> Follows(info, Progress(before, info.components[j]))
      invariant forall c :: 0 <= c < n ==>
        Row(table, c) == if c in info.components[..i] then Sends(info, Progress(before, c)) else Progress(before, c)
    {
      InOrder(info, n, i);
      ok := CheckCoefficients(info, table, info.components[i]);
      if !ok {
        return;
      }
    }
    assert (before + [info])[..|before|] == before;
    return true;
  }

  /** Components in order do not repeat. */
  lemma InOrder(info: ScanInfo, n: nat, i: nat)
    requires GoodComponents(info, n) && i < |info.components|
    ensures info.components[i] !in info.components[..i]
    ensures forall c :: c in info.components[..i + 1] <==> c in info.components[..i] || c == info.components[i]
  {
    var j := i;
    while j > 0
      invariant 0 <= j <= i && forall k :: j <= k < i ==> info.components[k] < info.components[i]
    {
      assert info.components[j - 1] < info.components[j];
      j := j - 1;
    }
    assert info.components[..i + 1] == info.components[..i] + [info.components[i]];
  }

  method CheckSequentialScan(info: ScanInfo, sent: array<bool>, ghost before: seq<ScanInfo>, n: nat) returns (ok: bool)
    requires GoodComponents(info, n) && sent.Length == n
    requires forall c :: 0 <= c < n ==> sent[c] == SentIn(before, c)
    modifies sent
    ensures ok == (FullScan(info) && forall i :: 0 <= i < |info.components| ==> !SentIn(before, info.components[i]))
    ensures ok ==> forall c :: 0 <= c < n ==> sent[c] == (SentIn(before, c) || c in info.components)
  {
    if info.Ss != 0 || info.Se != 63 || info.Ah != 0 || info.Al != 0 {
      return false;
    }
    for i := 0 to |info.components|
      invariant forall j :: 0 <= j < i ==> !SentIn(before, info.components[j])
      invariant forall c :: 0 <= c < n ==> sent[c] == (SentIn(before, c) || c in info.components[..i])
    {
      InOrder(info, n, i);
      var thisi := info.components[i];
      if sent[thisi] {
        return false;
      }
      sent[thisi] := true;
    }
    return true;
  }

  /** Accept or reject a script for n components, and say whether it is progressive. */
  method ValidateScript(scans: seq<ScanInfo>, n: nat) returns (ok: bool, progressive: bool)
    requires n <= MAX_COMPONENTS
    ensures ok == (scans != [] && if IsProgressive(scans) then LegalProgressive(scans, n) else LegalSequential(scans,
      n))
    ensures ok ==> progressive == IsProgressive(scans)
    ensures ok == (scans != [] && if scans[0].Ss == 0 && scans[0].Se == 63 then AcceptedSequential(scans, n)
      else AcceptedProgressive(scans, n))
    ensures ok ==> progressive == !(scans[0].Ss == 0 && scans[0].Se == 63)
  {
    hide LegalProgressive, LegalSequential, AcceptedProgressive, AcceptedSequential;
    AcceptedExactly(scans, n);
    SequentialExactly(scans, n);
    progressive := false;
    if scans == [] {
      return false, false;
    }
    progressive := scans[0].Ss != 0 || scans[0].Se != 63;
    if progressive {
      ok := ValidateProgressive(scans, n);
    } else {
      ok := ValidateSequential(scans, n);
    }
  }

  method ValidateProgressive(scans: seq<ScanInfo>, n: nat) returns (ok: bool)
    ensures ok == LegalProgressive(scans, n)
  {
    var table := new int[n, 64]((_, _) => -1);
    for scanno := 0 to |scans|
      invariant forall i :: 0 <= i < scanno ==> MayFollow(scans[i], scans[..i], n)
      invariant forall c :: 0 <= c < n ==> Row(table, c) == Progress(scans[..scanno], c)
    {
      assert scans[..scanno + 1] == scans[..scanno] + [scans[scanno]];
      ok := CheckComponents(scans[scanno], n);
      if ok {
        ok := CheckProgressiveScan(scans[scanno], table, scans[..scanno], n);
      }
      if !ok {
        assert !MayFollow(scans[scanno], scans[..scanno], n);
        return;
      }
    }
    assert scans[..|scans|] == scans;
    for ci := 0 to n
      invariant forall c :: 0 <= c < ci ==> Progress(scans, c)[0] >= 0
    {
      assert Row(table, ci)[0] == table[ci, 0];
      if table[ci, 0] < 0 {
        return false;
      }
    }
    return true;
  }

  method ValidateSequential(scans: seq<ScanInfo>, n: nat) returns (ok: bool)
    ensures ok == LegalSequential(scans, n)
  {
    var sent := new bool[n](_ => false);
    for scanno := 0 to |scans|
      invariant forall i :: 0 <= i < scanno ==> GoodComponents(scans[i], n) && FullScan(scans[i])
      invariant forall i, j, ci :: 0 <= i < j < scanno && ci in scans[i].components ==> ci !in scans[j].components
      invariant forall c :: 0 <= c < n ==> sent[c] == SentIn(scans[..scanno], c)
    {
      ok := CheckComponents(scans[scanno], n);
      if ok {
        ok := CheckSequentialScan(scans[scanno], sent, scans[..scanno], n);
      }
      if !ok {
        return;
      }
    }
    assert scans[..|scans|] == scans;
    for ci := 0 to n
      invariant forall c :: 0 <= c < ci ==> SentIn(scans, c)
    {
      if !sent[ci] {
        return false;
      }
    }
    return true;
  }
}
