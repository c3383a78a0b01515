// Accepted scripts are legal progressions, for the encoder's reader and after reduction to a smaller block.
module ScriptLaws {
  import opened ScanScript

  // ----- the passes over one coefficient

  lemma OneMoreScan(script: Script, s: ScanInfo, c: int, k: int)
    ensures Passes(script + [s], c, k) == Passes(script, c, k) + (if Covers(s, c, k) then [s] else [])
    ensures LastAl(script + [s], c, k) == if Covers(s, c, k) then s.al else LastAl(script, c, k)
  {
    assert (script + [s])[..|script|] == script;
  }

  lemma {:induction false} PassesSplit(a: Script, b: Script, c: int, k: int)
    ensures Passes(a + b, c, k) == Passes(a, c, k) + Passes(b, c, k)
    decreases |b|
  {
    if b == [] {
      assert a + b == a;
    } else {
      var n := |b| - 1;
      PassesSplit(a, b[..n], c, k);
      assert a + b == a + b[..n] + [b[n]];
      OneMoreScan(a + b[..n], b[n], c, k);
    }
  }

  function LastOf(passes: Script): int {
    if passes == [] then -1 else passes[|passes| - 1].al
  }

  lemma {:induction false} LastAlIsLastPass(script: Script, c: int, k: int)
    ensures LastAl(script, c, k) == LastOf(Passes(script, c, k))
    ensures forall s :: s in Passes(script, c, k) ==> s in script && Covers(s, c, k)
    ensures Passes(script, c, k) == [] <==> forall j :: 0 <= j < |script| ==> !Covers(script[j], c, k)
  {
    hide Covers;
    if script != [] {
      var n := |script| - 1;
      var before := script[..n];
      LastAlIsLastPass(before, c, k);
      assert forall j :: 0 <= j < n ==> script[j] == before[j];
      if Covers(script[n], c, k) {
        assert Passes(script, c, k) == Passes(before, c, k) + [script[n]];
      } else {
        assert Passes(script, c, k) == Passes(before, c, k);
      }
    }
  }

  lemma DescendsOneMore(passes: Script, s: ScanInfo)
    requires forall t :: t in passes ==> t.al >= 0
    ensures Descends(passes + [s]) <==> Descends(passes) && Follows(s, LastOf(passes))
  {
    var more := passes + [s];
    var n := |passes|;
    assert forall j :: 0 <= j < n ==> more[j] == passes[j];
    assert more[n] == s;
    if Descends(more) {
      assert n > 0 ==> more[n].ah == more[n - 1].al;
    }
  }

  /** Descending one bit at a time from the first scan, a coefficient is scanned at most al + 1 times. */
  lemma {:induction false} BitByBit(passes: Script, j: nat)
    requires Descends(passes) && j < |passes|
    ensures passes[j].al == passes[0].al - j && passes[j].ah == if j == 0 then 0 else passes[0].al - j + 1
  {
    if j > 0 {
      BitByBit(passes, j - 1);
    }
  }

  // ----- the rules in terms of whole progressions

  /** AC coefficients come after some scan of the DC coefficient. */
  ghost predicate DcComesFirst(script: Script) {
    forall i, c :: 0 <= i < |script| && script[i].ss != 0 && c in script[i].comps
                   ==> exists j :: 0 <= j < i && Covers(script[j], c, 0)
  }

  ghost predicate AllDescend(script: Script) {
    forall c, k :: Descends(Passes(script, c, k))
  }

  ghost predicate WellFormed(script: Script, numComponents: nat) {
    forall i :: 0 <= i < |script| ==> ComponentsInOrder(script[i], numComponents) && BandInRange(script[i])
  }

  /** A script of well-formed scans passes the scan-by-scan check exactly when, for every coefficient, its
      scans start at the top and lower Al by one each time, and DC scans precede AC scans. */
  lemma {:induction false} LegalProgressions(script: Script, numComponents: nat)
    requires WellFormed(script, numComponents)
    ensures ScansOk(true, script, numComponents) <==> DcComesFirst(script) && AllDescend(script)
  {
    if script != [] {
      var n := |script| - 1;
      var before, s := script[..n], script[n];
      assert WellFormed(before, numComponents);
      assert script == before + [s];
      LegalProgressions(before, numComponents);
      ScansOkSplit(before, s, numComponents);
      DcComesFirstSplit(before, s);
      AllDescendSplit(before, s);
      assert ProgressiveOk(before, s) <==> DcBefore(before, s) && AllFollow(before, s) by {
        MayScanMeans(before, s);
      }
    }
  }

  ghost predicate DcBefore(before: Script, s: ScanInfo) {
    forall c :: s.ss != 0 && c in s.comps ==> exists j :: 0 <= j < |before| && Covers(before[j], c, 0)
  }

  ghost predicate AllFollow(before: Script, s: ScanInfo) {
    forall c, k :: Covers(s, c, k) ==> Follows(s, LastAl(before, c, k))
  }

  lemma ScansOkSplit(before: Script, s: ScanInfo, numComponents: nat)
    ensures ScansOk(true, before + [s], numComponents)
            <==> ScansOk(true, before, numComponents) && ScanOk(true, before, s, numComponents)
  {
    hide ScanOk;
    var script := before + [s];
    assert script[..|before|] == before && script[|before|] == s;
    assert forall i :: 0 <= i < |before| ==> script[..i] == before[..i] && script[i] == before[i];
    if ScansOk(true, script, numComponents) {
      assert ScanOk(true, script[..|before|], script[|before|], numComponents);
    }
  }

  lemma DcComesFirstSplit(before: Script, s: ScanInfo)
    ensures DcComesFirst(before + [s]) <==> DcComesFirst(before) && DcBefore(before, s)
  {
    hide Covers;
    var script := before + [s];
    assert script[|before|] == s;
    assert forall i :: 0 <= i < |before| ==> script[i] == before[i];
    if DcComesFirst(script) {
      forall i, c | 0 <= i < |before| && before[i].ss != 0 && c in before[i].comps
        ensures exists j :: 0 <= j < i && Covers(before[j], c, 0)
      {
        assert script[i] == before[i];
        var j :| 0 <= j < i && Covers(script[j], c, 0);
        assert before[j] == script[j];
      }
      forall c | s.ss != 0 && c in s.comps
        ensures exists j :: 0 <= j < |before| && Covers(before[j], c, 0)
      {
        var j :| 0 <= j < |before| && Covers(script[j], c, 0);
        assert before[j] == script[j];
      }
    }
    if DcComesFirst(before) && DcBefore(before, s) {
      forall i, c | 0 <= i < |script| && script[i].ss != 0 && c in script[i].comps
        ensures exists j :: 0 <= j < i && Covers(script[j], c, 0)
      {
        var j :| 0 <= j < i && Covers(before[j], c, 0);
        assert before[j] == script[j];
      }
    }
  }

  lemma AllDescendSplit(before: Script, s: ScanInfo)
    requires forall i :: 0 <= i < |before| ==> before[i].al >= 0
    ensures AllDescend(before + [s]) <==> AllDescend(before) && AllFollow(before, s)
  {
    hide Descends, Passes, LastAl, Covers, Follows;
    forall c, k
      ensures Descends(Passes(before + [s], c, k))
              <==> Descends(Passes(before, c, k)) && (Covers(s, c, k) ==> Follows(s, LastAl(before, c, k)))
    {
      OneMoreScan(before, s, c, k);
      LastAlIsLastPass(before, c, k);
      var ps := Passes(before, c, k);
      assert ps + [] == ps;
      DescendsOneMore(ps, s);
    }
  }

  lemma MayScanMeans(before: Script, s: ScanInfo)
    requires BandInRange(s) && forall i :: 0 <= i < |before| ==> before[i].al >= 0
    ensures (forall i :: 0 <= i < |s.comps| ==> MayScan(before, s, s.comps[i]))
            <==> DcBefore(before, s) && AllFollow(before, s)
  {
    hide LastAl, Follows;
    forall c | c in s.comps
      ensures LastAl(before, c, 0) >= 0 <==> exists j :: 0 <= j < |before| && Covers(before[j], c, 0)
    {
      LastAlIsLastPass(before, c, 0);
      var ps := Passes(before, c, 0);
      if ps != [] {
        assert ps[|ps| - 1] in before;
      }
    }
    if DcBefore(before, s) && AllFollow(before, s) {
      forall i | 0 <= i < |s.comps|
        ensures MayScan(before, s, s.comps[i])
      {
        assert forall k :: s.ss <= k <= s.se ==> Covers(s, s.comps[i], k);
      }
    }
    if forall i :: 0 <= i < |s.comps| ==> MayScan(before, s, s.comps[i]) {
      forall c | c in s.comps
        ensures MayScan(before, s, c)
      {
        var i :| 0 <= i < |s.comps| && s.comps[i] == c;
      }
    }
  }

  // ----- reduce_script

  function Clip(s: ScanInfo, limSe: int): ScanInfo {
    if s.se > limSe then s.(se := limSe) else s
  }

  /** The scans that start within the block, ending within it. */
  function Reduced(script: Script, limSe: int): Script {
    if script == [] then []
    else
      var n := |script| - 1;
      Reduced(script[..n], limSe) + (if script[n].ss > limSe then [] else [Clip(script[n], limSe)])
  }

  /** Adapts a script in place; the scans kept are moved to the front. */
  method ReduceScript(scans: array<ScanInfo>, numScans: nat, limSe: nat) returns (newNum: nat)
    requires numScans <= scans.Length
    modifies scans
    ensures newNum <= numScans && scans[..newNum] == Reduced(old(scans[..numScans]), limSe)
    ensures scans[numScans..] == old(scans[numScans..])
  {
    var idxout: nat := 0;
    for idxin := 0 to numScans
      invariant idxout <= idxin
      invariant scans[..idxout] == Reduced(old(scans[..idxin]), limSe)
      invariant scans[idxin..] == old(scans[idxin..])
    {
      assert old(scans[..idxin + 1])[..idxin] == old(scans[..idxin]);
      assert scans[idxin] == scans[idxin..][0] == old(scans[idxin]);
      ghost var kept := scans[..idxout];
      if idxin != idxout {
        scans[idxout] := scans[idxin];
      }
      assert scans[idxin + 1..] == old(scans[idxin + 1..]) by {
        assert old(scans[idxin..])[1..] == old(scans[idxin + 1..]);
      }
      if scans[idxout].ss > limSe {
        assert scans[..idxout] == kept;
        continue;
      }
      if scans[idxout].se > limSe {
        scans[idxout] := scans[idxout].(se := limSe);
      }
      assert scans[..idxout + 1] == kept + [Clip(old(scans[idxin]), limSe)];
      idxout := idxout + 1;
    }
    return idxout;
  }

  /** Within the block, reduction leaves every coefficient its scans; beyond it, none. */
  lemma {:induction false} ReducedLastAl(script: Script, limSe: nat, c: int, k: nat)
    ensures LastAl(Reduced(script, limSe), c, k) == if k <= limSe then LastAl(script, c, k) else -1
  {
    if script != [] {
      var n := |script| - 1;
      ReducedLastAl(script[..n], limSe, c, k);
      var r := Reduced(script[..n], limSe);
      if script[n].ss <= limSe {
        OneMoreScan(r, Clip(script[n], limSe), c, k);
      } else {
        assert r + [] == r;
      }
    }
  }

  /** The passes over a coefficient within the block keep their number, order and bit positions. */
  lemma {:induction false} ReducedPasses(script: Script, limSe: nat, c: int, k: nat)
    requires k <= limSe
    ensures var ps, qs := Passes(script, c, k), Passes(Reduced(script, limSe), c, k);
            |qs| == |ps| && forall j :: 0 <= j < |ps| ==> qs[j] == Clip(ps[j], limSe)
  {
    if script != [] {
      var n := |script| - 1;
      ReducedPasses(script[..n], limSe, c, k);
      var r := Reduced(script[..n], limSe);
      if script[n].ss <= limSe {
        OneMoreScan(r, Clip(script[n], limSe), c, k);
      } else {
        assert r + [] == r;
      }
    }
  }

  /** A reduced progressive script still passes the check, with every band within the smaller block. */
  lemma {:induction false} ReducedIsAccepted(script: Script, limSe: nat, numComponents: nat)
    requires ScansOk(true, script, numComponents)
    ensures var r := Reduced(script, limSe);
            ScansOk(true, r, numComponents) && forall i :: 0 <= i < |r| ==> r[i].se <= limSe
  {
    if script != [] {
      var n := |script| - 1;
      var before, s := script[..n], script[n];
      assert before + [s] == script;
      ScansOkSplit(before, s, numComponents);
      ReducedIsAccepted(before, limSe, numComponents);
      var r := Reduced(before, limSe);
      assert r + [] == r;
      if s.ss <= limSe {
        var t := Clip(s, limSe);
        forall c, k: nat {
          ReducedLastAl(before, limSe, c, k);
        }
        assert ProgressiveOk(r, t) by {
          forall i | 0 <= i < |t.comps|
            ensures MayScan(r, t, t.comps[i])
          {
            assert MayScan(before, s, s.comps[i]);
          }
        }
        ScansOkSplit(r, t, numComponents);
      }
    }
  }

  lemma ReducedIsComplete(script: Script, limSe: nat, numComponents: nat)
    requires Complete(true, script, numComponents)
    ensures Complete(true, Reduced(script, limSe), numComponents)
  {
    forall c {
      ReducedLastAl(script, limSe, c, 0);
    }
  }
}
