// The recommended progressive script.
module SimpleProgression {
  import opened Segments
  import opened ScanScript
  import opened ScriptLaws

  function OneScan(ci: int, ss: int, se: int, ah: int, al: int): ScanInfo {
    ScanInfo([ci], ss, se, ah, al)
  }

  /** One scan for each component. */
  function Each(ncomps: nat, ss: int, se: int, ah: int, al: int): (r: Script)
    ensures |r| == ncomps
  {
    if ncomps == 0 then [] else Each(ncomps - 1, ss, se, ah, al) + [OneScan(ncomps - 1, ss, se, ah, al)]
  }

  function FirstComponents(n: nat): seq<int> {
    seq(n, i => i)
  }

  function DcScans(ncomps: nat, ah: int, al: int): Script {
    if ncomps <= MAX_COMPS_IN_SCAN then [ScanInfo(FirstComponents(ncomps), 0, 0, ah, al)] else Each(ncomps, 0, 0, ah,
        al)
  }

  method FillAScan(space: array<ScanInfo>, scanptr: nat, ci: int, ss: int, se: int, ah: int, al: int)
    returns (next: nat)
    requires scanptr < space.Length
    modifies space
    ensures next == scanptr + 1 && space[..next] == old(space[..scanptr]) + [OneScan(ci, ss, se, ah, al)]
  {
    space[scanptr] := ScanInfo([ci], ss, se, ah, al);
    next := scanptr + 1;
  }

  method FillScans(space: array<ScanInfo>, scanptr: nat, ncomps: nat, ss: int, se: int, ah: int, al: int)
    returns (next: nat)
    requires scanptr + ncomps <= space.Length
    modifies space
    ensures next == scanptr + ncomps && space[..next] == old(space[..scanptr]) + Each(ncomps, ss, se, ah, al)
  {
    next := scanptr;
    for ci := 0 to ncomps
      invariant next == scanptr + ci && space[..next] == old(space[..scanptr]) + Each(ci, ss, se, ah, al)
    {
      space[next] := ScanInfo([ci], ss, se, ah, al);
      assert space[..next + 1] == old(space[..scanptr]) + Each(ci + 1, ss, se, ah, al);
      next := next + 1;
    }
  }

  method FillDcScans(space: array<ScanInfo>, scanptr: nat, ncomps: nat, ah: int, al: int) returns (next: nat)
    requires scanptr + |DcScans(ncomps, ah, al)| <= space.Length
    modifies space
    ensures next == scanptr + |DcScans(ncomps, ah, al)|
    ensures space[..next] == old(space[..scanptr]) + DcScans(ncomps, ah, al)
  {
    if ncomps <= MAX_COMPS_IN_SCAN {
      space[scanptr] := ScanInfo(seq(ncomps, ci => ci), 0, 0, ah, al);
      next := scanptr + 1;
    } else {
      next := FillScans(space, scanptr, ncomps, 0, 0, ah, al);
    }
  }

  function NumScans(ncomps: nat, ycc: bool): nat {
    if ncomps == 3 && ycc then 10
    else if ncomps > MAX_COMPS_IN_SCAN then 6 * ncomps else 2 + 4 * ncomps
  }

  /** The script for YCbCr images: chroma in fewer scans than luma. */
  function YccScript(): Script {
    DcScans(3, 0, 1)
    + [OneScan(0, 1, 5, 0, 2)] + [OneScan(2, 1, 63, 0, 1)] + [OneScan(1, 1, 63, 0, 1)]
    + [OneScan(0, 6, 63, 0, 2)] + [OneScan(0, 1, 63, 2, 1)]
    + DcScans(3, 1, 0)
    + [OneScan(2, 1, 63, 1, 0)] + [OneScan(1, 1, 63, 1, 0)] + [OneScan(0, 1, 63, 1, 0)]
  }

  function AllPurposeScript(ncomps: nat): Script {
    DcScans(ncomps, 0, 1) + Each(ncomps, 1, 5, 0, 2) + Each(ncomps, 6, 63, 0, 2) + Each(ncomps, 1, 63, 2, 1)
    + DcScans(ncomps, 1, 0) + Each(ncomps, 1, 63, 1, 0)
  }

  function SimpleScript(ncomps: nat, ycc: bool): Script {
    if ncomps == 3 && ycc then YccScript() else AllPurposeScript(ncomps)
  }

  method FillYcc(space: array<ScanInfo>) returns (scanptr: nat)
    requires space.Length >= 10
    modifies space
    ensures scanptr == 10 && space[..scanptr] == YccScript()
  {
    hide DcScans;
    DcScansCount(3);
    scanptr := FillDcScans(space, 0, 3, 0, 1);
    scanptr := FillAScan(space, scanptr, 0, 1, 5, 0, 2);
    scanptr := FillAScan(space, scanptr, 2, 1, 63, 0, 1);
    scanptr := FillAScan(space, scanptr, 1, 1, 63, 0, 1);
    scanptr := FillAScan(space, scanptr, 0, 6, 63, 0, 2);
    scanptr := FillAScan(space, scanptr, 0, 1, 63, 2, 1);
    scanptr := FillDcScans(space, scanptr, 3, 1, 0);
    scanptr := FillAScan(space, scanptr, 2, 1, 63, 1, 0);
    scanptr := FillAScan(space, scanptr, 1, 1, 63, 1, 0);
    scanptr := FillAScan(space, scanptr, 0, 1, 63, 1, 0);
  }

  method FillAllPurpose(space: array<ScanInfo>, ncomps: nat) returns (scanptr: nat)
    requires space.Length >= NumScans(ncomps, false)
    modifies space
    ensures scanptr == NumScans(ncomps, false) && space[..scanptr] == AllPurposeScript(ncomps)
  {
    hide DcScans, Each;
    DcScansCount(ncomps);
    scanptr := FillDcScans(space, 0, ncomps, 0, 1);
    scanptr := FillScans(space, scanptr, ncomps, 1, 5, 0, 2);
    scanptr := FillScans(space, scanptr, ncomps, 6, 63, 0, 2);
    scanptr := FillScans(space, scanptr, ncomps, 1, 63, 2, 1);
    scanptr := FillDcScans(space, scanptr, ncomps, 1, 0);
    scanptr := FillScans(space, scanptr, ncomps, 1, 63, 1, 0);
  }

  /** Writes the recommended script over the space kept from earlier calls, or over new space: exactly the
      announced number of scans, a script that is accepted, and every coefficient to full precision. */
  method MakeSimpleProgression(kept: array<ScanInfo>, ncomps: nat, ycc: bool) returns (space: array<ScanInfo>,
                               numScans: nat)
    modifies kept
    ensures space == kept || fresh(space)
    ensures numScans == NumScans(ncomps, ycc) <= space.Length
    ensures space[..numScans] == SimpleScript(ncomps, ycc)
    ensures 0 < ncomps <= MAX_COMPONENTS ==>
              Accepted(space[..numScans], ncomps) && IsProgressive(space[..numScans])
              && forall c, k :: 0 <= c < ncomps && 0 <= k < DCTSIZE2 ==> LastAl(space[..numScans], c, k) == 0
  {
    hide Accepted, IsProgressive, LastAl, Each, DcScans;
    DcScansCount(ncomps);
    if ncomps == 3 && ycc {
      numScans := 10;
    } else if ncomps > MAX_COMPS_IN_SCAN {
      numScans := 6 * ncomps;
    } else {
      numScans := 2 + 4 * ncomps;
    }
    space := kept;
    if kept.Length < numScans {
      var size := if numScans > 10 then numScans else 10;
      space := new ScanInfo[size](i => ScanInfo([], 0, 0, 0, 0));
    }
    var scanptr;
    if ncomps == 3 && ycc {
      scanptr := FillYcc(space);
    } else {
      scanptr := FillAllPurpose(space, ncomps);
    }
    assert scanptr == numScans;
    if 0 < ncomps <= MAX_COMPONENTS {
      SimpleIsAccepted(ncomps, ycc);
    }
  }

  lemma DcScansCount(ncomps: nat)
    ensures forall ah, al :: |DcScans(ncomps, ah, al)| == if ncomps <= MAX_COMPS_IN_SCAN then 1 else ncomps
  {
  }

  // ----- the script is a legal progression

  lemma {:induction false} EachPasses(n: nat, ss: int, se: int, ah: int, al: int, c: int, k: int)
    ensures Passes(Each(n, ss, se, ah, al), c, k)
            == if 0 <= c < n && ss <= k <= se then [OneScan(c, ss, se, ah, al)] else []
  {
    hide Passes;
    if n > 0 {
      EachPasses(n - 1, ss, se, ah, al, c, k);
      OneMoreScan(Each(n - 1, ss, se, ah, al), OneScan(n - 1, ss, se, ah, al), c, k);
    } else {
      LastAlIsLastPass([], c, k);
    }
  }

  lemma {:induction false} EachAt(n: nat, ss: int, se: int, ah: int, al: int)
    ensures forall i :: 0 <= i < n ==> Each(n, ss, se, ah, al)[i] == OneScan(i, ss, se, ah, al)
  {
    if n > 0 {
      EachAt(n - 1, ss, se, ah, al);
    }
  }

  /** A pass, for the purpose of bit positions. */
  predicate Is(s: ScanInfo, ah: int, al: int) {
    s.ah == ah && s.al == al
  }

  lemma DcPasses(n: nat, ah: int, al: int, c: int, k: int)
    ensures var ps := Passes(DcScans(n, ah, al), c, k);
            if 0 <= c < n && k == 0 then |ps| == 1 && Is(ps[0], ah, al) else ps == []
  {
    if n <= MAX_COMPS_IN_SCAN {
      var s := ScanInfo(FirstComponents(n), 0, 0, ah, al);
      OneMoreScan([], s, c, k);
      assert [] + [s] == [s];
      assert 0 <= c < n ==> FirstComponents(n)[c] == c;
    } else {
      EachPasses(n, 0, 0, ah, al, c, k);
    }
  }

  /** Covered once per bit, down to the last. */
  predicate Finishes(passes: Script) {
    passes != [] && Descends(passes) && LastOf(passes) == 0
  }

  lemma {:induction false} AllPurposePasses(n: nat, c: int, k: int)
    ensures var ps := Passes(AllPurposeScript(n), c, k);
            if 0 <= c < n && 0 <= k < DCTSIZE2 then Finishes(ps) else ps == []
  {
    hide Passes, Each;
    var dc1, ac1, ac2 := DcScans(n, 0, 1), Each(n, 1, 5, 0, 2), Each(n, 6, 63, 0, 2);
    var ac3, dc2, ac4 := Each(n, 1, 63, 2, 1), DcScans(n, 1, 0), Each(n, 1, 63, 1, 0);
    PassesSplit(dc1, ac1, c, k);
    PassesSplit(dc1 + ac1, ac2, c, k);
    PassesSplit(dc1 + ac1 + ac2, ac3, c, k);
    PassesSplit(dc1 + ac1 + ac2 + ac3, dc2, c, k);
    PassesSplit(dc1 + ac1 + ac2 + ac3 + dc2, ac4, c, k);
    DcPasses(n, 0, 1, c, k);
    DcPasses(n, 1, 0, c, k);
    EachPasses(n, 1, 5, 0, 2, c, k);
    EachPasses(n, 6, 63, 0, 2, c, k);
    EachPasses(n, 1, 63, 2, 1, c, k);
    EachPasses(n, 1, 63, 1, 0, c, k);
  }

  lemma {:induction false} YccPasses(c: int, k: int)
    ensures var ps := Passes(YccScript(), c, k);
            if 0 <= c < 3 && 0 <= k < DCTSIZE2 then Finishes(ps) else ps == []
  {
    hide Passes, DcScans;
    var s1 := DcScans(3, 0, 1);
    var s2 := s1 + [OneScan(0, 1, 5, 0, 2)];
    var s3 := s2 + [OneScan(2, 1, 63, 0, 1)];
    var s4 := s3 + [OneScan(1, 1, 63, 0, 1)];
    var s5 := s4 + [OneScan(0, 6, 63, 0, 2)];
    var s6 := s5 + [OneScan(0, 1, 63, 2, 1)];
    var s7 := s6 + DcScans(3, 1, 0);
    var s8 := s7 + [OneScan(2, 1, 63, 1, 0)];
    var s9 := s8 + [OneScan(1, 1, 63, 1, 0)];
    DcPasses(3, 0, 1, c, k);
    DcPasses(3, 1, 0, c, k);
    OneMoreScan(s1, OneScan(0, 1, 5, 0, 2), c, k);
    OneMoreScan(s2, OneScan(2, 1, 63, 0, 1), c, k);
    OneMoreScan(s3, OneScan(1, 1, 63, 0, 1), c, k);
    OneMoreScan(s4, OneScan(0, 6, 63, 0, 2), c, k);
    OneMoreScan(s5, OneScan(0, 1, 63, 2, 1), c, k);
    PassesSplit(s6, DcScans(3, 1, 0), c, k);
    OneMoreScan(s7, OneScan(2, 1, 63, 1, 0), c, k);
    OneMoreScan(s8, OneScan(1, 1, 63, 1, 0), c, k);
    OneMoreScan(s9, OneScan(0, 1, 63, 1, 0), c, k);
    assert YccScript() == s9 + [OneScan(0, 1, 63, 1, 0)];
  }

  lemma StartsWithDc(n: nat, rest: Script)
    requires WellFormed(rest, n) && n > 0
    ensures DcComesFirst(DcScans(n, 0, 1) + rest) && IsProgressive(DcScans(n, 0, 1) + rest)
  {
    var dc := DcScans(n, 0, 1);
    var script := dc + rest;
    EachAt(n, 0, 0, 0, 1);
    assert forall x :: 0 <= x < |dc| ==> script[x] == dc[x] && dc[x].ss == 0;
    forall i, c | 0 <= i < |script| && script[i].ss != 0 && c in script[i].comps
      ensures exists j :: 0 <= j < i && Covers(script[j], c, 0)
    {
      assert script[i] == rest[i - |dc|];
      var j := if n <= MAX_COMPS_IN_SCAN then 0 else c;
      assert n <= MAX_COMPS_IN_SCAN ==> FirstComponents(n)[c] == c;
      assert script[j] == dc[j] && Covers(dc[j], c, 0);
    }
  }

  lemma EachIsWellFormed(n: nat, ss: int, se: int, ah: int, al: int)
    requires 0 <= ss <= se < DCTSIZE2 && 0 <= ah <= MAX_AH_AL && 0 <= al <= MAX_AH_AL && (ss == 0 ==> se == 0)
    ensures WellFormed(Each(n, ss, se, ah, al), n)
  {
    EachAt(n, ss, se, ah, al);
  }

  lemma DcIsWellFormed(n: nat, ah: int, al: int)
    requires n > 0 && 0 <= ah <= MAX_AH_AL && 0 <= al <= MAX_AH_AL
    ensures WellFormed(DcScans(n, ah, al), n)
  {
    EachIsWellFormed(n, 0, 0, ah, al);
  }

  lemma WellFormedAppend(a: Script, b: Script, n: nat)
    requires WellFormed(a, n) && WellFormed(b, n)
    ensures WellFormed(a + b, n)
  {
  }

  /** All but the first DC scans. */
  ghost function AfterDc(ncomps: nat, ycc: bool): Script {
    if ncomps == 3 && ycc then
      [OneScan(0, 1, 5, 0, 2), OneScan(2, 1, 63, 0, 1), OneScan(1, 1, 63, 0, 1), OneScan(0, 6, 63, 0, 2),
       OneScan(0, 1, 63, 2, 1)] + DcScans(3, 1, 0)
      + [OneScan(2, 1, 63, 1, 0), OneScan(1, 1, 63, 1, 0), OneScan(0, 1, 63, 1, 0)]
    else
      Each(ncomps, 1, 5, 0, 2) + Each(ncomps, 6, 63, 0, 2) + Each(ncomps, 1, 63, 2, 1)
      + DcScans(ncomps, 1, 0) + Each(ncomps, 1, 63, 1, 0)
  }

  lemma AfterDcIs(ncomps: nat, ycc: bool)
    requires ncomps > 0
    ensures SimpleScript(ncomps, ycc) == DcScans(ncomps, 0, 1) + AfterDc(ncomps, ycc)
    ensures WellFormed(AfterDc(ncomps, ycc), ncomps)
  {
    hide DcScans, Each, WellFormed;
    if ncomps == 3 && ycc {
      AfterDcYcc();
    } else {
      AfterDcOther(ncomps, ycc);
    }
  }

  lemma AfterDcYcc()
    ensures SimpleScript(3, true) == DcScans(3, 0, 1) + AfterDc(3, true)
    ensures WellFormed(AfterDc(3, true), 3)
  {
    hide DcScans, Each, WellFormed;
    var dc2 := DcScans(3, 1, 0);
    DcIsWellFormed(3, 1, 0);
    YccAcIsWellFormed();
    var a := [OneScan(0, 1, 5, 0, 2), OneScan(2, 1, 63, 0, 1), OneScan(1, 1, 63, 0, 1), OneScan(0, 6, 63, 0, 2),
              OneScan(0, 1, 63, 2, 1)];
    var b := [OneScan(2, 1, 63, 1, 0), OneScan(1, 1, 63, 1, 0), OneScan(0, 1, 63, 1, 0)];
    WellFormedAppend(a, dc2, 3);
    WellFormedAppend(a + dc2, b, 3);
  }

  lemma AfterDcOther(ncomps: nat, ycc: bool)
    requires ncomps > 0 && !(ncomps == 3 && ycc)
    ensures SimpleScript(ncomps, ycc) == DcScans(ncomps, 0, 1) + AfterDc(ncomps, ycc)
    ensures WellFormed(AfterDc(ncomps, ycc), ncomps)
  {
    hide DcScans, Each, WellFormed;
    var dc2 := DcScans(ncomps, 1, 0);
    DcIsWellFormed(ncomps, 1, 0);
    var ac1, ac2, ac3, ac4 := Each(ncomps, 1, 5, 0, 2), Each(ncomps, 6, 63, 0, 2), Each(ncomps, 1, 63, 2, 1),
      Each(ncomps, 1, 63, 1, 0);
    EachIsWellFormed(ncomps, 1, 5, 0, 2);
    EachIsWellFormed(ncomps, 6, 63, 0, 2);
    EachIsWellFormed(ncomps, 1, 63, 2, 1);
    EachIsWellFormed(ncomps, 1, 63, 1, 0);
    WellFormedAppend(ac1, ac2, ncomps);
    WellFormedAppend(ac1 + ac2, ac3, ncomps);
    WellFormedAppend(ac1 + ac2 + ac3, dc2, ncomps);
    WellFormedAppend(ac1 + ac2 + ac3 + dc2, ac4, ncomps);
  }

  lemma YccAcIsWellFormed()
    ensures WellFormed([OneScan(0, 1, 5, 0, 2), OneScan(2, 1, 63, 0, 1), OneScan(1, 1, 63, 0, 1), OneScan(0, 6, 63,
            0, 2),
                        OneScan(0, 1, 63, 2, 1)], 3)
    ensures WellFormed([OneScan(2, 1, 63, 1, 0), OneScan(1, 1, 63, 1, 0), OneScan(0, 1, 63, 1, 0)], 3)
  {
  }

  /** For any number of components the recommended script is accepted, and sends every bit. */
  lemma SimpleIsAccepted(ncomps: nat, ycc: bool)
    requires 0 < ncomps
    ensures Accepted(SimpleScript(ncomps, ycc), ncomps) && IsProgressive(SimpleScript(ncomps, ycc))
    ensures forall c, k :: 0 <= c < ncomps && 0 <= k < DCTSIZE2 ==> LastAl(SimpleScript(ncomps, ycc), c, k) == 0
  {
    hide DcScans, Each, Passes, LastAl, ScansOk, ComponentsInOrder, BandInRange, AfterDc, SimpleScript, IsProgressive;
    var script := SimpleScript(ncomps, ycc);
    AfterDcIs(ncomps, ycc);
    StartsWithDc(ncomps, AfterDc(ncomps, ycc));
    DcIsWellFormed(ncomps, 0, 1);
    WellFormedAppend(DcScans(ncomps, 0, 1), AfterDc(ncomps, ycc), ncomps);
    forall c, k
      ensures Descends(Passes(script, c, k))
      ensures 0 <= c < ncomps && 0 <= k < DCTSIZE2 ==> LastAl(script, c, k) == 0
    {
      SimplePasses(ncomps, ycc, c, k);
      LastAlIsLastPass(script, c, k);
    }
    LegalProgressions(script, ncomps);
    if script == [] {
      LastAlIsLastPass(script, 0, 0);
    }
  }

  lemma SimplePasses(n: nat, ycc: bool, c: int, k: int)
    ensures var ps := Passes(SimpleScript(n, ycc), c, k);
            if 0 <= c < n && 0 <= k < DCTSIZE2 then Finishes(ps) else ps == []
  {
    hide Passes, Finishes;
    if n == 3 && ycc {
      YccPasses(c, k);
    } else {
      AllPurposePasses(n, c, k);
    }
  }
}
