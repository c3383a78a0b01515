// The passes of the compressor: which scan each pass is for, whether it gathers statistics or sends data, and
// when the headers are written.
module PassControl {
  import opened Segments
  import opened ScanScript
  import opened ScriptLaws

  datatype PassType = MainPass | HuffOptPass | OutputPass

  /** What the passes do, in order: headers written, and the pass over a scan's coefficients, which gathers its
      statistics or sends its data. */
  datatype Event = FrameHeader | ScanHeader(s: ScanInfo) | Gather(s: ScanInfo) | Data(s: ScanInfo)

  type Log = seq<Event>

  // A refinement scan of DC coefficients needs no Huffman table.
  predicate IsDcRefinement(s: ScanInfo) {
    s.ss == 0 && s.ah != 0
  }

  /** What happens for scan n: its statistics just before it, unless it is a DC refinement, then its header and
      its data; the frame header before the first scan header. */
  function ScanEvents(scans: Script, optimize: bool, n: nat): Log
    requires n < |scans|
  {
    (if optimize && !IsDcRefinement(scans[n]) then [Gather(scans[n])] else [])
    + (if n == 0 then [FrameHeader] else []) + [ScanHeader(scans[n]), Data(scans[n])]
  }

  /** Every scan once, in order. */
  function Expected(scans: Script, optimize: bool, n: nat): Log
    requires n <= |scans|
  {
    if n == 0 then [] else Expected(scans, optimize, n - 1) + ScanEvents(scans, optimize, n - 1)
  }

  /** The scan parameters used for each entry of the script: a sequential scan always covers the whole block. */
  function Effective(script: Script, progressive: bool, blockSize: nat): (r: Script)
    ensures |r| == |script|
  {
    seq(|script|, i requires 0 <= i < |script| =>
      if progressive then script[i] else ScanInfo(script[i].comps, 0, blockSize * blockSize - 1, 0, 0))
  }

  class MasterControl {
    const script: Script
    // Whether the application gave a script.
    const scripted: bool
    const numComponents: nat
    const progressive: bool
    const blockSize: nat
    const optimizeCoding: bool
    const totalPasses: nat
    var passType: PassType
    var passNumber: nat
    var scanNumber: nat
    var isLastPass: bool
    var callPassStartup: bool
    // The scan selected, and the mode of the entropy encoder.
    var current: ScanInfo
    var gathering: bool
    var log: Log

    ghost function Scans(): (r: Script)
      ensures |r| == |script|
    {
      Effective(script, progressive, blockSize)
    }

    ghost predicate Usable() {
      && script != [] && !IsDcRefinement(Scans()[0])
      && totalPasses == if optimizeCoding then |script| * 2 else |script|
    }

    /** Without a script all components go into one scan. */
    predicate Selectable() {
      scripted || numComponents <= MAX_COMPS_IN_SCAN
    }

    ghost function LogBefore(n: nat): Log
      requires n <= |script|
    {
      Expected(Scans(), optimizeCoding, n)
    }

    /** Between passes. The passes done are counted, skipped ones too; when optimising, a scan is either still to be
        gathered or gathered and selected. A scan that was gathered could be selected. */
    ghost predicate Between()
      reads this
    {
      && Usable() && scanNumber <= |script|
      && match passType
         case MainPass => scanNumber == 0 && passNumber == 0 && log == []
         case HuffOptPass => optimizeCoding && passNumber == 2 * scanNumber && log == LogBefore(scanNumber)
         case OutputPass =>
           if optimizeCoding then
             && Selectable() && scanNumber < |script| && passNumber == 2 * scanNumber + 1 && current == Scans()[scanNumber]
             && !IsDcRefinement(current) && log == LogBefore(scanNumber) + [Gather(current)]
           else passNumber == scanNumber && log == LogBefore(scanNumber)
    }

    /** During a pass for scan scanNumber. */
    ghost predicate InPass()
      reads this
    {
      && Usable() && Selectable() && scanNumber < |script| && current == Scans()[scanNumber]
      && passNumber == (if optimizeCoding && !gathering then 2 * scanNumber + 1
                        else if optimizeCoding then 2 * scanNumber else scanNumber)
      && (gathering ==> optimizeCoding && !IsDcRefinement(current))
      && (passType.MainPass? ==> scanNumber == 0 && gathering == optimizeCoding)
      && (passType.HuffOptPass? ==> gathering) && (passType.OutputPass? ==> !gathering)
    }

    /** What was logged before the data of the pass goes through, once pass_startup was called if it has to be. */
    ghost function LogInPass(): Log
      requires scanNumber < |script|
      reads this
    {
      LogBefore(scanNumber)
      + (if optimizeCoding && !gathering && !IsDcRefinement(current) then [Gather(current)] else [])
      + (if gathering || callPassStartup then [] else (if scanNumber == 0 then [FrameHeader] else []) + [ScanHeader(current)])
    }

    /** The end of jinit_c_master_control. */
    constructor (script: Script, scripted: bool, numComponents: nat, progressive: bool, blockSize: nat,
                 optimizeCoding: bool, transcodeOnly: bool)
      requires script != [] && !IsDcRefinement(Effective(script, progressive, blockSize)[0])
      ensures this.scripted == scripted && this.numComponents == numComponents
      ensures this.script == script && this.progressive == progressive && this.blockSize == blockSize
      ensures this.optimizeCoding == optimizeCoding && Between() && !isLastPass && scanNumber == 0 && log == []
      ensures passType == if !transcodeOnly then MainPass else if optimizeCoding then HuffOptPass else OutputPass
    {
      this.script := script;
      this.scripted := scripted;
      this.numComponents := numComponents;
      this.progressive := progressive;
      this.blockSize := blockSize;
      this.optimizeCoding := optimizeCoding;
      isLastPass := false;
      callPassStartup := false;
      gathering := false;
      current := script[0];
      log := [];
      if transcodeOnly {
        if optimizeCoding {
          passType := HuffOptPass;
        } else {
          passType := OutputPass;
        }
      } else {
        passType := MainPass;
      }
      scanNumber := 0;
      passNumber := 0;
      if optimizeCoding {
        totalPasses := |script| * 2;
      } else {
        totalPasses := |script|;
      }
    }

    /** select_scan_parameters. Without a script, more components than fit a scan are an error. */
    method SelectScanParameters() returns (ok: bool)
      requires scanNumber < |script|
      modifies `current
      ensures ok <==> Selectable()
      ensures ok ==> current == Scans()[scanNumber]
    {
      if !scripted && numComponents > MAX_COMPS_IN_SCAN {
        return false;
      }
      if progressive {
        current := script[scanNumber];
      } else {
        current := ScanInfo(script[scanNumber].comps, 0, blockSize * blockSize - 1, 0, 0);
      }
      ok := true;
    }

    /** prepare_for_pass. The flag says that this pass is the output of the final scan. */
    method PrepareForPass() returns (ok: bool)
      requires Between() && scanNumber < |script|
      modifies this
      ensures ok <==> Selectable()
      ensures !ok ==> log == old(log)
      ensures ok ==> InPass() && log == LogInPass() && scanNumber == old(scanNumber)
      ensures ok ==> (isLastPass <==> !gathering && scanNumber == |script| - 1)
      ensures ok ==> (gathering <==> !old(passType).OutputPass? && optimizeCoding && !IsDcRefinement(current))
      ensures ok ==> (callPassStartup <==> passType.MainPass? && !optimizeCoding)
      ensures ok ==> (passType.MainPass? <==> old(passType).MainPass?)
    {
      ok := true;
      var output := passType.OutputPass?;
      if passType.MainPass? {
        ok := SelectScanParameters();
        if !ok {
          return;
        }
        gathering := optimizeCoding;
        callPassStartup := !optimizeCoding;
      } else {
        if passType.HuffOptPass? {
          ok := SelectScanParameters();
          if !ok {
            return;
          }
          if current.ss != 0 || current.ah == 0 {
            gathering := true;
            callPassStartup := false;
          } else {
            passType := OutputPass;
            passNumber := passNumber + 1;
            output := true;
          }
        }
        if output {
          if !optimizeCoding {
            ok := SelectScanParameters();
            if !ok {
              return;
            }
          }
          gathering := false;
          if scanNumber == 0 {
            log := log + [FrameHeader];
          }
          log := log + [ScanHeader(current)];
          callPassStartup := false;
        }
      }
      isLastPass := passNumber == totalPasses - 1;
    }

    /** pass_startup, called once before the first row of a single-pass compression. */
    method PassStartup()
      requires InPass() && callPassStartup && scanNumber == 0 && !gathering && log == LogInPass()
      modifies `callPassStartup, `log
      ensures InPass() && log == LogInPass() && !callPassStartup
    {
      callPassStartup := false;
      log := log + [FrameHeader];
      log := log + [ScanHeader(current)];
    }

    /** All rows of the pass go through the coefficient controller to the entropy encoder. */
    method ProcessRows()
      requires InPass() && log == LogInPass()
      modifies `log
      ensures log == old(log) + [if gathering then Gather(current) else Data(current)]
    {
      log := log + [if gathering then Gather(current) else Data(current)];
    }

    /** finish_pass_master. */
    method FinishPass()
      requires InPass() && !callPassStartup
      requires log == LogInPass() + [if gathering then Gather(current) else Data(current)]
      modifies `passType, `scanNumber, `passNumber
      ensures Between() && passNumber == old(passNumber) + 1
      ensures scanNumber == old(scanNumber) + (if gathering then 0 else 1)
      ensures passType != MainPass
    {
      ghost var n := scanNumber;
      assert LogBefore(n + 1) == LogBefore(n) + ScanEvents(Scans(), optimizeCoding, n);
      if passType.MainPass? {
        passType := OutputPass;
        if !optimizeCoding {
          scanNumber := scanNumber + 1;
        }
      } else if passType.HuffOptPass? {
        passType := OutputPass;
      } else {
        if optimizeCoding {
          passType := HuffOptPass;
        }
        scanNumber := scanNumber + 1;
      }
      passNumber := passNumber + 1;
    }
  }

  // ----- whole compressions

  datatype Setup = Ready(master: MasterControl) | Rejected(verdict: Verdict)

  /** The scans of an image after validation and reduction. Without a script there is one scan of everything. */
  function ScansFor(scanInfo: Script, numComponents: nat, blockSize: nat): Script {
    if scanInfo == [] then [ScanInfo(seq(numComponents, i => i), 0, DCTSIZE2 - 1, 0, 0)]
    else if blockSize < 8 then Reduced(scanInfo, LimSe(blockSize)) else scanInfo
  }

  function LimSe(blockSize: nat): int {
    if blockSize < 8 then blockSize * blockSize - 1 else DCTSIZE2 - 1
  }

  lemma {:induction false} ReducedHead(script: Script, limSe: nat)
    requires script != [] && script[0].ss <= limSe
    ensures Reduced(script, limSe) != [] && Reduced(script, limSe)[0] == Clip(script[0], limSe)
  {
    var n := |script| - 1;
    if n > 0 {
      ReducedHead(script[..n], limSe);
    } else {
      assert Reduced(script[..0], limSe) == [];
    }
  }

  /** The first scan of an accepted script sends DC coefficients for the first time. */
  lemma FirstScan(script: Script, numComponents: nat)
    requires Accepted(script, numComponents)
    ensures script[0].ss == 0 && script[0].ah == 0
  {
    var s := script[0];
    assert script[..0] == [];
    assert ScanOk(IsProgressive(script), [], s, numComponents);
    if IsProgressive(script) {
      assert MayScan([], s, s.comps[0]);
      assert Follows(s, LastAl([], s.comps[0], s.ss));
    }
  }

  /** jinit_c_master_control: optimisation is forced for progressive scans and small blocks, except in
      arithmetic coding. */
  method InitMasterControl(scans: array<ScanInfo>, haveScript: bool, numComponents: nat, blockSize: nat,
                           arithCode: bool,
                           optimize: bool, transcodeOnly: bool)
    returns (r: Setup)
    requires 0 < numComponents <= MAX_COMPONENTS && 0 < blockSize <= 16
    modifies scans
    ensures r.Rejected? <==> haveScript && !Accepted(old(scans[..]), numComponents)
    ensures r.Ready? ==>
              && fresh(r.master) && r.master.Between() && !r.master.isLastPass && r.master.scanNumber == 0
              && r.master.scripted == haveScript && r.master.numComponents == numComponents
              && r.master.passType.MainPass? == !transcodeOnly && r.master.log == []
              && r.master.script == ScansFor(if haveScript then old(scans[..]) else [], numComponents, blockSize)
              && r.master.optimizeCoding == (optimize || ((r.master.progressive || blockSize < 8) && !arithCode))
              && r.master.progressive == (haveScript && IsProgressive(old(scans[..])))
  {
    hide Accepted, IsProgressive;
    var progressive := false;
    var script;
    if haveScript {
      ghost var given := scans[..];
      var v := ValidateScript(scans[..], numComponents);
      if !v.Valid? {
        return Rejected(v);
      }
      progressive := v.progressive;
      AcceptedMeans(given, numComponents);
      FirstScan(given, numComponents);
      if blockSize < 8 {
        SmallBlock(blockSize);
        var newNum := ReduceScript(scans, scans.Length, blockSize * blockSize - 1);
        ReducedHead(given, blockSize * blockSize - 1);
        assert given[..|given|] == given;
        script := scans[..newNum];
      } else {
        script := scans[..];
      }
    } else {
      script := [ScanInfo(seq(numComponents, i => i), 0, DCTSIZE2 - 1, 0, 0)];
    }
    var optimizeCoding := optimize || ((progressive || blockSize < 8) && !arithCode);
    var master := new MasterControl(script, haveScript, numComponents, progressive, blockSize, optimizeCoding, transcodeOnly);
    r := Ready(master);
  }

  lemma SmallBlock(blockSize: nat)
    requires 0 < blockSize < 8
    ensures 0 <= blockSize * blockSize - 1 < DCTSIZE2
  {
  }

  lemma AcceptedMeans(script: Script, numComponents: nat)
    requires Accepted(script, numComponents)
    ensures script != []
  {
  }

  /** A whole compression: the main pass, unless transcoding, and then passes until the flag is set. The headers
      and data of every scan come out once, in order, after the frame header; and statistics are gathered just
      before each scan that needs them. It fails, before anything is written, exactly when there is no script and
      the components do not fit one scan. */
  method RunPasses(master: MasterControl) returns (ok: bool)
    requires master.Between() && master.scanNumber == 0 && master.log == [] && !master.isLastPass
    modifies master
    ensures ok <==> master.scripted || master.numComponents <= MAX_COMPS_IN_SCAN
    ensures master.log == if ok then Expected(master.Scans(), master.optimizeCoding, |master.script|) else []
  {
    hide Expected, ScanEvents, IsDcRefinement;
    if master.passType.MainPass? {
      ok := master.PrepareForPass();
      if !ok {
        return;
      }
      if master.callPassStartup {
        master.PassStartup();
      }
      master.ProcessRows();
      master.FinishPass();
    }
    while !master.isLastPass
      invariant master.Between() && master.passType != MainPass && (master.Selectable() || master.log == [])
      invariant if master.isLastPass then master.scanNumber == |master.script| && master.Selectable()
                else master.scanNumber < |master.script|
      decreases 2 * |master.script| - master.passNumber
    {
      ok := master.PrepareForPass();
      if !ok {
        return;
      }
      master.ProcessRows();
      master.FinishPass();
    }
    ok := true;
  }

  // ----- what the expected log says

  /** The scans whose data is sent. */
  function Sent(log: Log): Script {
    if log == [] then []
    else
      var n := |log| - 1;
      Sent(log[..n]) + (if log[n].Data? then [log[n].s] else [])
  }

  lemma SentMore(log: Log, e: Event)
    ensures Sent(log + [e]) == Sent(log) + (if e.Data? then [e.s] else [])
  {
    assert (log + [e])[..|log|] == log;
  }

  lemma NothingSent()
    ensures Sent([]) == []
  {
  }

  /** Every scan is sent once, in the order of the script. */
  lemma {:induction false} AllScansSent(scans: Script, optimize: bool, n: nat)
    requires n <= |scans|
    ensures Sent(Expected(scans, optimize, n)) == scans[..n]
  {
    hide Sent;
    if n == 0 {
      NothingSent();
    } else {
      AllScansSent(scans, optimize, n - 1);
      var s := scans[n - 1];
      var a := Expected(scans, optimize, n - 1);
      SentMore(a, Gather(s));
      var b := if optimize && !IsDcRefinement(s) then a + [Gather(s)] else a;
      SentMore(b, FrameHeader);
      var c := if n == 1 then b + [FrameHeader] else b;
      SentMore(c, ScanHeader(s));
      SentMore(c + [ScanHeader(s)], Data(s));
      assert Expected(scans, optimize, n) == c + [ScanHeader(s)] + [Data(s)];
    }
  }

  /** The pass before, but for the frame header, gathers the statistics of scan s. */
  ghost predicate GatheredAt(log: Log, at: int, s: ScanInfo) {
    0 <= at < |log| && (log[at] == Gather(s) || (log[at] == FrameHeader && at > 0 && log[at - 1] == Gather(s)))
  }

  ghost predicate InOrder(log: Log, optimize: bool, at: nat)
    requires at < |log|
  {
    && (log[at].ScanHeader? ==> FrameHeader in log[..at] && at + 1 < |log| && log[at + 1] == Data(log[at].s))
    && (log[at].Data? ==> at > 0 && log[at - 1] == ScanHeader(log[at].s))
    && (log[at].ScanHeader? && optimize && !IsDcRefinement(log[at].s) ==> GatheredAt(log, at - 1, log[at].s))
    && (log[at].Gather? ==> optimize && !IsDcRefinement(log[at].s) && at + 2 < |log|
                            && (log[at + 1] == ScanHeader(log[at].s) || (log[at + 1] == FrameHeader &&
                                log[at + 2] == ScanHeader(log[at].s))))
    && (log[at].FrameHeader? ==> FrameHeader !in log[..at])
  }

  /** The frame header comes once, before any scan header; each scan header is followed by its scan's data; and
      statistics are gathered only for scans that need them, with the scan to follow. */
  lemma {:induction false} HeadersInOrder(scans: Script, optimize: bool, n: nat, at: nat)
    requires n <= |scans| && at < |Expected(scans, optimize, n)|
    ensures InOrder(Expected(scans, optimize, n), optimize, at)
  {
    hide ScanEvents, InOrder;
    var before := Expected(scans, optimize, n - 1);
    var log := Expected(scans, optimize, n);
    assert log == before + ScanEvents(scans, optimize, n - 1);
    if at < |before| {
      HeadersInOrder(scans, optimize, n - 1, at);
      StaysInOrder(before, ScanEvents(scans, optimize, n - 1), optimize, at);
    } else {
      HasFrameHeader(scans, optimize, n - 1);
      EventsInOrder(before, scans, optimize, n - 1, at - |before|);
    }
  }

  lemma StaysInOrder(log: Log, more: Log, optimize: bool, at: nat)
    requires at < |log| && InOrder(log, optimize, at)
    ensures InOrder(log + more, optimize, at)
  {
    hide IsDcRefinement;
    assert (log + more)[..at] == log[..at];
    assert forall i :: 0 <= i < |log| ==> (log + more)[i] == log[i];
  }

  lemma EventsInOrder(before: Log, scans: Script, optimize: bool, n: nat, k: nat)
    requires n < |scans| && k < |ScanEvents(scans, optimize, n)| && (FrameHeader in before <==> n > 0)
    ensures InOrder(before + ScanEvents(scans, optimize, n), optimize, |before| + k)
  {
    hide IsDcRefinement;
    var last := ScanEvents(scans, optimize, n);
    var log, at := before + last, |before| + k;
    assert log[at] == last[k];
    assert log[..at] == before + last[..k];
    if last[k].FrameHeader? {
      assert k == 0 || last[..k] == [Gather(scans[n])];
    } else if last[k].ScanHeader? {
      assert n == 0 ==> last[k - 1] == FrameHeader && last[k - 1] in last[..k];
      assert log[at + 1] == last[k + 1];
      assert k > 0 ==> log[at - 1] == last[k - 1];
      assert k > 1 ==> log[at - 2] == last[k - 2];
    } else if last[k].Gather? {
      assert log[at + 1] == last[k + 1] && log[at + 2] == last[k + 2];
    } else if last[k].Data? {
      assert log[at - 1] == last[k - 1];
    }
  }

  lemma {:induction false} HasFrameHeader(scans: Script, optimize: bool, n: nat)
    requires n <= |scans|
    ensures FrameHeader in Expected(scans, optimize, n) <==> n > 0
  {
    if n > 0 {
      HasFrameHeader(scans, optimize, n - 1);
      if n == 1 {
        assert FrameHeader in ScanEvents(scans, optimize, 0);
      }
    }
  }
}
