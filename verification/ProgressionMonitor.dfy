// The decoder's check that scans arrive in a legal order.
module ProgressionMonitor {
  import opened ScanScript
  import opened ScriptLaws

  datatype Start = BadProgression | Started(bogus: bool)

  /** The parameters a decoder refuses to start a scan with are the others. */
  predicate MayStart(s: ScanInfo, limSe: int) {
    && (if s.ss == 0 then s.se == 0 else s.ss <= s.se <= limSe && |s.comps| == 1)
    && (s.ah != 0 ==> s.ah - 1 == s.al) && s.al <= 13
  }

  /** Ah as it should be for a coefficient last seen at bit position last. */
  function Expected(last: int): int {
    if last < 0 then 0 else last
  }

  /** The bit position of a coefficient when the i-th component of the scan is checked: a component named twice
      has been recorded by then. */
  function LastSeen(before: Script, s: ScanInfo, i: nat, k: int): int
    requires i < |s.comps|
  {
    if s.comps[i] in s.comps[..i] && s.ss <= k <= s.se then s.al else LastAl(before, s.comps[i], k)
  }

  /** A scan is out of order for some coefficient: the decoder warns. */
  ghost predicate Bogus(before: Script, s: ScanInfo) {
    BogusUpTo(before, s, |s.comps|)
  }

  ghost predicate BogusUpTo(before: Script, s: ScanInfo, n: nat)
    requires n <= |s.comps|
  {
    exists i: nat :: i < n && BogusAt(before, s, i)
  }

  ghost predicate BogusAt(before: Script, s: ScanInfo, i: nat)
    requires i < |s.comps|
  {
    || (s.ss != 0 && LastSeen(before, s, i, 0) < 0)
    || exists k :: s.ss <= k <= s.se && s.ah != Expected(LastSeen(before, s, i, k))
  }

  /** What the scan header's bytes can hold, for components of the frame; one may be named twice. */
  ghost predicate IsRead(s: ScanInfo, numComponents: nat) {
    && 0 <= s.ss < 256 && 0 <= s.se < 256 && 0 <= s.ah < 16 && 0 <= s.al < 16
    && forall i :: 0 <= i < |s.comps| ==> 0 <= s.comps[i] < numComponents
  }

  class ProgressionStatus {
    const numComponents: nat
    const coefBits: array2<int>
    ghost var seen: Script

    /** coef_bits holds the Al of the last scan of every coefficient. */
    ghost predicate Valid()
      reads this, coefBits
    {
      Tracks(coefBits, seen, numComponents)
    }

    constructor (n: nat)
      ensures Valid() && fresh(coefBits) && numComponents == n && seen == []
    {
      numComponents := n;
      coefBits := new int[n, DCTSIZE2]((i, j) => -1);
      seen := [];
    }

    /** Checks one component and records the new bit positions. */
    method Update(s: ScanInfo, c: int) returns (bogus: bool)
      requires coefBits.Length1 == DCTSIZE2 && 0 <= c < coefBits.Length0 && 0 <= s.ss <= s.se < DCTSIZE2
      modifies coefBits
      ensures bogus <==> (s.ss != 0 && old(coefBits[c, 0]) < 0)
                         || exists k :: s.ss <= k <= s.se && s.ah != Expected(old(coefBits[c, k]))
      ensures forall i, k :: 0 <= i < coefBits.Length0 && 0 <= k < DCTSIZE2 ==>
                coefBits[i, k] == if i == c && s.ss <= k <= s.se then s.al else old(coefBits[i, k])
    {
      bogus := s.ss != 0 && coefBits[c, 0] < 0;
      for coefi := s.ss to s.se + 1
        invariant bogus <==> (s.ss != 0 && old(coefBits[c, 0]) < 0)
                             || exists k :: s.ss <= k < coefi && s.ah != Expected(old(coefBits[c, k]))
        invariant forall i, k :: 0 <= i < coefBits.Length0 && 0 <= k < DCTSIZE2 ==>
                    coefBits[i, k] == if i == c && s.ss <= k < coefi then s.al else old(coefBits[i, k])
      {
        var expected := if coefBits[c, coefi] < 0 then 0 else coefBits[c, coefi];
        assert expected == Expected(old(coefBits[c, coefi]));
        if s.ah != expected {
          bogus := true;
        }
        coefBits[c, coefi] := s.al;
      }
    }

    /** coef_bits when the first n components of the scan have been recorded. */
    ghost predicate Recorded(s: ScanInfo, n: nat)
      requires n <= |s.comps|
      reads this, coefBits
    {
      && coefBits.Length0 == numComponents && coefBits.Length1 == DCTSIZE2
      && forall c, k :: 0 <= c < numComponents && 0 <= k < DCTSIZE2 ==>
           coefBits[c, k] == if c in s.comps[..n] && s.ss <= k <= s.se then s.al else LastAl(seen, c, k)
    }

    /** Updates the progression status, and tells whether the scan is out of order. */
    method RecordScan(s: ScanInfo) returns (bogus: bool)
      requires Valid() && IsRead(s, numComponents) && s.ss <= s.se < DCTSIZE2
      modifies coefBits
      ensures bogus <==> Bogus(seen, s)
      ensures Recorded(s, |s.comps|)
    {
      hide LastAl;
      bogus := false;
      for ci: nat := 0 to |s.comps|
        invariant bogus <==> BogusUpTo(seen, s, ci)
        invariant Recorded(s, ci)
      {
        var c := s.comps[ci];
        assert s.comps[..ci + 1] == s.comps[..ci] + [c];
        assert forall k :: 0 <= k < DCTSIZE2 ==> coefBits[c, k] == LastSeen(seen, s, ci, k);
        var b := Update(s, c);
        assert b <==> BogusAt(seen, s, ci);
        bogus := bogus || b;
      }
    }

    /** start_pass of a progressive scan: refuses bad parameters, and warns of a scan out of order. */
    method StartPass(s: ScanInfo, limSe: nat) returns (r: Start)
      requires Valid() && IsRead(s, numComponents) && limSe < DCTSIZE2
      modifies this, coefBits
      ensures Valid() && r == if MayStart(s, limSe) then Started(Bogus(old(seen), s)) else BadProgression
      ensures seen == if MayStart(s, limSe) then old(seen) + [s] else old(seen)
    {
      hide Bogus;
      if s.ss == 0 {
        if s.se != 0 {
          return BadProgression;
        }
      } else {
        if s.se < s.ss || s.se > limSe {
          return BadProgression;
        }
        if |s.comps| != 1 {
          return BadProgression;
        }
      }
      if s.ah != 0 {
        if s.ah - 1 != s.al {
          return BadProgression;
        }
      }
      if s.al > 13 {
        return BadProgression;
      }
      var bogus := RecordScan(s);
      assert s.comps[..|s.comps|] == s.comps;
      assert (seen + [s])[..|seen|] == seen;
      seen := seen + [s];
      r := Started(bogus);
    }
  }

  /** Whatever smaller block size an accepted script is reduced to, the decoder starts each of its scans and
      never warns. */
  lemma AcceptedNeverWarns(script: Script, numComponents: nat, limSe: nat, i: nat)
    requires script != [] && IsProgressive(script) && Accepted(script, numComponents) && limSe < DCTSIZE2
    requires i < |Reduced(script, limSe)|
    ensures var r := Reduced(script, limSe);
            IsRead(r[i], numComponents) && MayStart(r[i], limSe) && !Bogus(r[..i], r[i])
  {
    hide LastAl;
    ReducedIsAccepted(script, limSe, numComponents);
    var r := Reduced(script, limSe);
    var s := r[i];
    assert ScanOk(true, r[..i], s, numComponents);
    assert MayScan(r[..i], s, s.comps[0]) && Follows(s, LastAl(r[..i], s.comps[0], s.ss));
    forall a: nat | a < |s.comps|
      ensures !BogusAt(r[..i], s, a)
    {
      IncreasingIsDistinct(s.comps, a);
      assert MayScan(r[..i], s, s.comps[a]);
      forall k | s.ss <= k <= s.se
        ensures s.ah == Expected(LastSeen(r[..i], s, a, k))
      {
        assert Follows(s, LastAl(r[..i], s.comps[a], k));
      }
    }
  }

  /** The scan sends a coefficient from the top bits that has been sent to the last one. */
  ghost predicate Resends(before: Script, s: ScanInfo) {
    s.ah == 0 && exists c :: c in s.comps && FinishedIn(before, s, c)
  }

  ghost predicate FinishedIn(before: Script, s: ScanInfo, c: int) {
    exists k :: s.ss <= k <= s.se && LastAl(before, c, k) == 0
  }

  /** What the decoder lets pass: a finished coefficient sent anew, bit positions above 10, and components out of
      their order in the frame, or named twice. */
  ghost predicate Lax(before: Script, s: ScanInfo, numComponents: nat) {
    Resends(before, s) || s.al > MAX_AH_AL || s.ah > MAX_AH_AL || !ComponentsInOrder(s, numComponents)
  }

  /** Among the scans that a decoder starts, those it does not warn of are the ones the compressor allows and
      those it is lax about. So it warns of exactly the scans that the compressor refuses, unless it is lax about
      one and finds nothing else wrong with it. */
  lemma WarnsUnlessLax(before: Script, s: ScanInfo, numComponents: nat)
    requires IsRead(s, numComponents) && MayStart(s, DCTSIZE2 - 1)
    ensures ScanOk(true, before, s, numComponents) <==> !Bogus(before, s) && !Lax(before, s, numComponents)
    ensures (Bogus(before, s) <==> !ScanOk(true, before, s, numComponents))
            <==> Bogus(before, s) || !Lax(before, s, numComponents)
  {
    hide LastAl, Resends, MayScan, BogusAt;
    if BandInRange(s) && ComponentsInOrder(s, numComponents) {
      ResendsAt(before, s);
      forall i: nat | i < |s.comps|
        ensures MayScan(before, s, s.comps[i])
                <==> !BogusAt(before, s, i) && !(s.ah == 0 && FinishedIn(before, s, s.comps[i]))
      {
        IncreasingIsDistinct(s.comps, i);
        ComponentWarns(before, s, i);
      }
    }
  }

  lemma ResendsAt(before: Script, s: ScanInfo)
    ensures Resends(before, s) <==> s.ah == 0 && exists i: nat :: i < |s.comps| && FinishedIn(before, s, s.comps[i])
  {
    hide FinishedIn;
    if s.ah == 0 && exists c :: c in s.comps && FinishedIn(before, s, c) {
      var c :| c in s.comps && FinishedIn(before, s, c);
      var i :| 0 <= i < |s.comps| && s.comps[i] == c;
      assert FinishedIn(before, s, s.comps[i]);
    }
    if i: nat :| i < |s.comps| && FinishedIn(before, s, s.comps[i]) {
      assert s.comps[i] in s.comps;
    }
  }

  lemma ComponentWarns(before: Script, s: ScanInfo, i: nat)
    requires BandInRange(s) && MayStart(s, DCTSIZE2 - 1) && i < |s.comps| && s.comps[i] !in s.comps[..i]
    ensures MayScan(before, s, s.comps[i])
            <==> !BogusAt(before, s, i) && !(s.ah == 0 && FinishedIn(before, s, s.comps[i]))
  {
    hide LastAl;
    var c := s.comps[i];
    assert forall k :: LastSeen(before, s, i, k) == LastAl(before, c, k);
    if MayScan(before, s, c) {
      forall k | s.ss <= k <= s.se
        ensures s.ah == Expected(LastAl(before, c, k)) && (s.ah == 0 ==> LastAl(before, c, k) != 0)
      {
        assert Follows(s, LastAl(before, c, k));
      }
    }
    if !BogusAt(before, s, i) && !(s.ah == 0 && FinishedIn(before, s, c)) {
      forall k | s.ss <= k <= s.se
        ensures Follows(s, LastAl(before, c, k))
      {
        assert s.ah == Expected(LastSeen(before, s, i, k));
        assert s.ah == 0 ==> LastAl(before, c, k) != 0;
      }
    }
  }

  // ----- an input of each kind that the decoder starts without a warning and the compressor refuses

  /** The decoder starts the scan and does not warn, though the compressor refuses it. */
  ghost predicate SlipsThrough(before: Script, s: ScanInfo, numComponents: nat) {
    && IsRead(s, numComponents) && MayStart(s, DCTSIZE2 - 1) && !Bogus(before, s)
    && !ScanOk(true, before, s, numComponents)
  }

  /** A second DC scan. */
  lemma ResentSlipsThrough()
    ensures var first := ScanInfo([0], 0, 0, 0, 0); SlipsThrough([first], first, 1)
  {
    var first := ScanInfo([0], 0, 0, 0, 0);
    var before := [first];
    assert before[..0] == [];
    assert LastAl(before, 0, 0) == 0;
    assert FinishedIn(before, first, first.comps[0]);
    WarnsUnlessLax(before, first, 1);
  }

  /** A first scan from bit 11. */
  lemma HighAlSlipsThrough()
    ensures SlipsThrough([], ScanInfo([0], 0, 0, 0, 11), 1)
  {
    WarnsUnlessLax([], ScanInfo([0], 0, 0, 0, 11), 1);
  }

  /** The refinement of such a scan to bit 10. */
  lemma HighAhSlipsThrough()
    ensures SlipsThrough([ScanInfo([0], 0, 0, 0, 11)], ScanInfo([0], 0, 0, 11, 10), 1)
  {
    var before := [ScanInfo([0], 0, 0, 0, 11)];
    assert before[..0] == [] && LastAl(before, 0, 0) == 11;
    WarnsUnlessLax(before, ScanInfo([0], 0, 0, 11, 10), 1);
  }

  /** Components against their order in the frame. */
  lemma UnorderedSlipsThrough()
    ensures SlipsThrough([], ScanInfo([1, 0], 0, 0, 0, 0), 2)
  {
    var s := ScanInfo([1, 0], 0, 0, 0, 0);
    assert forall i :: 0 <= i < 2 ==> !BogusAt([], s, i);
    assert s.comps[1] < s.comps[0];
  }

  /** A component named twice. */
  lemma RepeatedSlipsThrough()
    ensures SlipsThrough([], ScanInfo([0, 0], 0, 0, 0, 0), 1)
  {
    var s := ScanInfo([0, 0], 0, 0, 0, 0);
    assert forall i :: 0 <= i < 2 ==> !BogusAt([], s, i);
    assert s.comps[1] == s.comps[0];
  }
}
