// Scan scripts: which scripts the compressor accepts, and how a script is cut down for small blocks.
module ScanScript {
  import opened Segments

  const MAX_COMPONENTS := 10
  const DCTSIZE2 := 64
  const MAX_AH_AL := 10

  /** An entry of a script: comps holds component_index[0..comps_in_scan]. */
  datatype ScanInfo = ScanInfo(comps: seq<int>, ss: int, se: int, ah: int, al: int)

  type Script = seq<ScanInfo>

  // ----- what a script says about one coefficient

  predicate Covers(s: ScanInfo, c: int, k: int) {
    c in s.comps && s.ss <= k <= s.se
  }

  /** Al of the last scan of coefficient k of component c, or -1. */
  function LastAl(script: Script, c: int, k: int): int {
    if script == [] then -1
    else
      var n := |script| - 1;
      if Covers(script[n], c, k) then script[n].al else LastAl(script[..n], c, k)
  }

  /** The scans of coefficient k of component c, in order. */
  function Passes(script: Script, c: int, k: int): Script {
    if script == [] then []
    else
      var n := |script| - 1;
      Passes(script[..n], c, k) + (if Covers(script[n], c, k) then [script[n]] else [])
  }

  /** A first scan from the top bits, and then refinements by one bit at a time. */
  predicate Descends(passes: Script) {
    && (passes != [] ==> passes[0].ah == 0)
    && forall j :: 0 < j < |passes| ==> passes[j].ah == passes[j - 1].al && passes[j].al == passes[j].ah - 1
  }

  // ----- the rules

  predicate ComponentsInOrder(s: ScanInfo, numComponents: nat) {
    && 0 < |s.comps| <= MAX_COMPS_IN_SCAN
    && (forall i :: 0 <= i < |s.comps| ==> 0 <= s.comps[i] < numComponents)
    && (forall i :: 0 < i < |s.comps| ==> s.comps[i - 1] < s.comps[i])
  }

  predicate BandInRange(s: ScanInfo) {
    && 0 <= s.ss <= s.se < DCTSIZE2 && 0 <= s.ah <= MAX_AH_AL && 0 <= s.al <= MAX_AH_AL
    && (if s.ss == 0 then s.se == 0 else |s.comps| == 1)
  }

  /** The parameters allowed after a scan that left the coefficient at bit position last. */
  predicate Follows(s: ScanInfo, last: int) {
    if last < 0 then s.ah == 0 else s.ah == last && s.al == s.ah - 1
  }

  predicate MayScan(before: Script, s: ScanInfo, c: int) {
    && (s.ss != 0 ==> LastAl(before, c, 0) >= 0)
    && forall k :: s.ss <= k <= s.se ==> Follows(s, LastAl(before, c, k))
  }

  predicate ProgressiveOk(before: Script, s: ScanInfo) {
    BandInRange(s) && forall i :: 0 <= i < |s.comps| ==> MayScan(before, s, s.comps[i])
  }

  predicate Sent(before: Script, c: int) {
    exists j :: 0 <= j < |before| && c in before[j].comps
  }

  predicate SequentialBand(s: ScanInfo) {
    s.ss == 0 && s.se == DCTSIZE2 - 1 && s.ah == 0 && s.al == 0
  }

  predicate SequentialOk(before: Script, s: ScanInfo) {
    && SequentialBand(s)
    && forall i :: 0 <= i < |s.comps| ==> !Sent(before, s.comps[i])
  }

  predicate ScanOk(progressive: bool, before: Script, s: ScanInfo, numComponents: nat) {
    && ComponentsInOrder(s, numComponents)
    && if progressive then ProgressiveOk(before, s) else SequentialOk(before, s)
  }

  predicate IsProgressive(script: Script)
    requires script != []
  {
    script[0].ss != 0 || script[0].se != DCTSIZE2 - 1
  }

  predicate ScansOk(progressive: bool, script: Script, numComponents: nat) {
    forall i :: 0 <= i < |script| ==> ScanOk(progressive, script[..i], script[i], numComponents)
  }

  /** Every component has had its DC coefficients, or all of its coefficients, sent. */
  predicate Complete(progressive: bool, script: Script, numComponents: nat) {
    forall c :: 0 <= c < numComponents ==> if progressive then LastAl(script, c, 0) >= 0 else Sent(script, c)
  }

  predicate Accepted(script: Script, numComponents: nat) {
    script != [] && ScansOk(IsProgressive(script), script, numComponents)
    && Complete(IsProgressive(script), script, numComponents)
  }

  // ----- validate_script

  datatype Verdict =
    | Valid(progressive: bool)
    | BadScanScript(scanno: nat)
    | BadComponentCount(ncomps: nat)
    | BadProgScript(scanno: nat)
    | MissingData

  /** The scan reported is the first that breaks a rule, and the verdict says which: the number of components; their
      order, or, in a sequential script, that one is sent again; or the progression parameters. */
  ghost predicate IsVerdict(v: Verdict, script: Script, numComponents: nat) {
    match v
    case Valid(p) => Accepted(script, numComponents) && p == IsProgressive(script)
    case MissingData =>
      && script != [] && ScansOk(IsProgressive(script), script, numComponents)
      && !Complete(IsProgressive(script), script, numComponents)
    case BadComponentCount(n) =>
      exists i :: 0 <= i < |script| && n == |script[i].comps| && FirstBad(script, numComponents, i)
                  && !(0 < n <= MAX_COMPS_IN_SCAN)
    case BadScanScript(i) =>
      if i == 0 then script == []
      else i <= |script| && FirstBad(script, numComponents, i - 1) && BadComponents(script, numComponents, i - 1)
    case BadProgScript(i) =>
      0 < i <= |script| && FirstBad(script, numComponents, i - 1) && BadParameters(script, numComponents, i - 1)
  }

  ghost predicate BadComponents(script: Script, numComponents: nat, i: nat)
    requires i < |script|
  {
    var s := script[i];
    && 0 < |s.comps| <= MAX_COMPS_IN_SCAN
    && (ComponentsInOrder(s, numComponents) ==>
          && !IsProgressive(script) && SequentialBand(s)
          && exists j :: 0 <= j < |s.comps| && Sent(script[..i], s.comps[j]))
  }

  ghost predicate BadParameters(script: Script, numComponents: nat, i: nat)
    requires i < |script|
  {
    var s := script[i];
    && ComponentsInOrder(s, numComponents)
    && if IsProgressive(script) then !ProgressiveOk(script[..i], s) else !SequentialBand(s)
  }

  ghost predicate FirstBad(script: Script, numComponents: nat, i: nat)
    requires i < |script|
  {
    var p := IsProgressive(script);
    && ScansOk(p, script[..i], numComponents)
    && !ScanOk(p, script[..i], script[i], numComponents)
  }

  method CheckComponents(s: ScanInfo, numComponents: nat) returns (ok: bool)
    requires 0 < |s.comps| <= MAX_COMPS_IN_SCAN
    ensures ok == ComponentsInOrder(s, numComponents)
  {
    for ci := 0 to |s.comps|
      invariant forall i :: 0 <= i < ci ==> 0 <= s.comps[i] < numComponents
      invariant forall i :: 0 < i < ci ==> s.comps[i - 1] < s.comps[i]
    {
      var thisi := s.comps[ci];
      if thisi < 0 || thisi >= numComponents {
        return false;
      }
      if ci > 0 && thisi <= s.comps[ci - 1] {
        return false;
      }
    }
    return true;
  }

  /** last_bitpos agrees with the script so far. */
  ghost predicate Tracks(lastBitpos: array2<int>, script: Script, numComponents: nat)
    reads lastBitpos
  {
    && lastBitpos.Length0 == numComponents && lastBitpos.Length1 == DCTSIZE2
    && forall c, k :: 0 <= c < numComponents && 0 <= k < DCTSIZE2 ==> lastBitpos[c, k] == LastAl(script, c, k)
  }

  /** The checks of one component of a progressive scan, and its new bit positions. */
  method CheckBand(lastBitpos: array2<int>, s: ScanInfo, c: int) returns (ok: bool)
    requires lastBitpos.Length1 == DCTSIZE2 && 0 <= c < lastBitpos.Length0 && BandInRange(s)
    modifies lastBitpos
    ensures ok <==> (s.ss != 0 ==> old(lastBitpos[c, 0]) >= 0)
                    && forall k :: s.ss <= k <= s.se ==> Follows(s, old(lastBitpos[c, k]))
    ensures ok ==> forall i, k :: 0 <= i < lastBitpos.Length0 && 0 <= k < DCTSIZE2 ==>
              lastBitpos[i, k] == if i == c && s.ss <= k <= s.se then s.al else old(lastBitpos[i, k])
  {
    if s.ss != 0 && lastBitpos[c, 0] < 0 {
      return false;
    }
    for coefi := s.ss to s.se + 1
      invariant forall k :: s.ss <= k < coefi ==> Follows(s, old(lastBitpos[c, k]))
      invariant forall i, k :: 0 <= i < lastBitpos.Length0 && 0 <= k < DCTSIZE2 ==>
                lastBitpos[i, k] == if i == c && s.ss <= k < coefi then s.al else old(lastBitpos[i, k])
    {
      assert lastBitpos[c, coefi] == old(lastBitpos[c, coefi]);
      if lastBitpos[c, coefi] < 0 {
        if s.ah != 0 {
          return false;
        }
      } else if s.ah != lastBitpos[c, coefi] || s.al != s.ah - 1 {
        return false;
      }
      lastBitpos[c, coefi] := s.al;
    }
    return true;
  }

  /** A progressive scan is let through exactly when it may follow the scans before it. */
  method CheckProgressive(lastBitpos: array2<int>, ghost before: Script, s: ScanInfo, numComponents: nat)
    returns (ok: bool)
    requires Tracks(lastBitpos, before, numComponents) && ComponentsInOrder(s, numComponents)
    modifies lastBitpos
    ensures ok <==> ProgressiveOk(before, s)
    ensures ok ==> Tracks(lastBitpos, before + [s], numComponents)
  {
    if s.ss < 0 || s.ss >= DCTSIZE2 || s.se < s.ss || s.se >= DCTSIZE2
       || s.ah < 0 || s.ah > MAX_AH_AL || s.al < 0 || s.al > MAX_AH_AL {
      return false;
    }
    if s.ss == 0 {
      if s.se != 0 {
        return false;
      }
    } else if |s.comps| != 1 {
      return false;
    }
    for ci := 0 to |s.comps|
      invariant forall i :: 0 <= i < ci ==> MayScan(before, s, s.comps[i])
      invariant forall c, k :: 0 <= c < numComponents && 0 <= k < DCTSIZE2 ==>
                lastBitpos[c, k] == if c in s.comps[..ci] && s.ss <= k <= s.se then s.al else LastAl(before, c, k)
    {
      var c := s.comps[ci];
      IncreasingIsDistinct(s.comps, ci);
      assert s.comps[..ci + 1] == s.comps[..ci] + [c];
      var good := CheckBand(lastBitpos, s, c);
      if !good {
        assert !MayScan(before, s, c);
        return false;
      }
    }
    assert s.comps[..|s.comps|] == s.comps;
    assert (before + [s])[..|before|] == before;
    return true;
  }

  lemma IncreasingIsDistinct(comps: seq<int>, j: nat)
    requires j < |comps| && forall i :: 0 < i < |comps| ==> comps[i - 1] < comps[i]
    ensures comps[j] !in comps[..j]
  {
    forall i | 0 <= i < j
      ensures comps[i] < comps[j]
    {
      Increasing(comps, i, j);
    }
  }

  lemma {:induction false} Increasing(comps: seq<int>, i: nat, j: nat)
    requires i < j < |comps| && forall i :: 0 < i < |comps| ==> comps[i - 1] < comps[i]
    ensures comps[i] < comps[j]
  {
    if i + 1 < j {
      Increasing(comps, i, j - 1);
    }
  }

  /** component_sent agrees with the script so far. */
  ghost predicate TracksSent(sent: array<bool>, script: Script, numComponents: nat)
    reads sent
  {
    sent.Length == numComponents && forall c :: 0 <= c < numComponents ==> sent[c] == Sent(script, c)
  }

  /** The components of a sequential scan must not have been sent before. */
  method CheckSent(sent: array<bool>, ghost before: Script, s: ScanInfo, numComponents: nat) returns (ok: bool)
    requires TracksSent(sent, before, numComponents) && ComponentsInOrder(s, numComponents)
    modifies sent
    ensures ok <==> forall i :: 0 <= i < |s.comps| ==> !Sent(before, s.comps[i])
    ensures ok ==> TracksSent(sent, before + [s], numComponents)
  {
    for ci := 0 to |s.comps|
      invariant forall i :: 0 <= i < ci ==> !Sent(before, s.comps[i])
      invariant forall c :: 0 <= c < numComponents ==> sent[c] == (Sent(before, c) || c in s.comps[..ci])
    {
      var c := s.comps[ci];
      IncreasingIsDistinct(s.comps, ci);
      assert s.comps[..ci + 1] == s.comps[..ci] + [c];
      if sent[c] {
        return false;
      }
      sent[c] := true;
    }
    assert s.comps[..|s.comps|] == s.comps;
    forall c {
      SentOneMore(before, s, c);
    }
    return true;
  }

  lemma SentOneMore(before: Script, s: ScanInfo, c: int)
    ensures Sent(before + [s], c) <==> Sent(before, c) || c in s.comps
  {
    var t := before + [s];
    if Sent(before, c) {
      var j :| 0 <= j < |before| && c in before[j].comps;
      assert c in t[j].comps;
    }
    if c in s.comps {
      assert c in t[|before|].comps;
    }
  }

  lemma OneMoreOk(progressive: bool, script: Script, numComponents: nat, i: nat)
    requires i < |script| && ScansOk(progressive, script[..i], numComponents)
    ensures ScansOk(progressive, script[..i + 1], numComponents)
            <==> ScanOk(progressive, script[..i], script[i], numComponents)
    ensures !ScanOk(progressive, script[..i], script[i], numComponents) ==> !ScansOk(progressive, script, numComponents)
  {
    var more := script[..i + 1];
    assert forall j :: 0 <= j < i ==> more[..j] == script[..i][..j] && more[j] == script[..i][j];
    assert more[..i] == script[..i] && more[i] == script[i];
  }

  /** Verifies a script, reporting the first scan that breaks a rule. */
  method ValidateScript(script: Script, numComponents: nat) returns (v: Verdict)
    requires numComponents <= MAX_COMPONENTS
    ensures IsVerdict(v, script, numComponents)
    ensures v.Valid? <==> Accepted(script, numComponents)
  {
    hide ScanOk, ComponentsInOrder, ProgressiveOk, SequentialOk, ScansOk, IsProgressive;
    if |script| == 0 {
      return BadScanScript(0);
    }
    var progressive := script[0].ss != 0 || script[0].se != DCTSIZE2 - 1;
    assert progressive == IsProgressive(script) by { ProgressiveIs(script); }
    var lastBitpos := new int[numComponents, DCTSIZE2]((i, j) => -1);
    var sent := new bool[numComponents](i => false);
    NoneYet(progressive, script, numComponents);
    for i := 0 to |script|
      invariant ScansOk(progressive, script[..i], numComponents)
      invariant progressive ==> Tracks(lastBitpos, script[..i], numComponents)
      invariant !progressive ==> TracksSent(sent, script[..i], numComponents)
    {
      var s := script[i];
      ghost var before := script[..i];
      OneMoreOk(progressive, script, numComponents, i);
      ScanOkMeans(progressive, before, s, numComponents);
      assert script[..i + 1] == before + [s];
      var ncomps := |s.comps|;
      if ncomps <= 0 || ncomps > MAX_COMPS_IN_SCAN {
        assert FirstBad(script, numComponents, i);
        return BadComponentCount(ncomps);
      }
      var ok := CheckComponents(s, numComponents);
      if !ok {
        return BadScanScript(i + 1);
      }
      if progressive {
        ok := CheckProgressive(lastBitpos, before, s, numComponents);
        if !ok {
          return BadProgScript(i + 1);
        }
      } else {
        if s.ss != 0 || s.se != DCTSIZE2 - 1 || s.ah != 0 || s.al != 0 {
          return BadProgScript(i + 1);
        }
        ok := CheckSent(sent, before, s, numComponents);
        if !ok {
          return BadScanScript(i + 1);
        }
      }
    }
    assert script[..|script|] == script;
    for ci := 0 to numComponents
      invariant forall c :: 0 <= c < ci ==> if progressive then LastAl(script, c, 0) >= 0 else Sent(script, c)
    {
      if (progressive && lastBitpos[ci, 0] < 0) || (!progressive && !sent[ci]) {
        return MissingData;
      }
    }
    return Valid(progressive);
  }

  lemma ProgressiveIs(script: Script)
    requires script != []
    ensures IsProgressive(script) == (script[0].ss != 0 || script[0].se != DCTSIZE2 - 1)
  {
  }

  lemma NoneYet(progressive: bool, script: Script, numComponents: nat)
    ensures script[..0] == [] && ScansOk(progressive, script[..0], numComponents)
  {
  }

  lemma ScanOkMeans(progressive: bool, before: Script, s: ScanInfo, numComponents: nat)
    ensures ScanOk(progressive, before, s, numComponents)
            <==> ComponentsInOrder(s, numComponents)
                 && if progressive then ProgressiveOk(before, s) else SequentialOk(before, s)
    ensures SequentialOk(before, s) <==> s.ss == 0 && s.se == DCTSIZE2 - 1 && s.ah == 0 && s.al == 0
                                         && forall i :: 0 <= i < |s.comps| ==> !Sent(before, s.comps[i])
    ensures ComponentsInOrder(s, numComponents) ==> 0 < |s.comps| <= MAX_COMPS_IN_SCAN
  {
  }
}
