// The decoder object of a scan: MCUs, restarts, and what a suspension leaves unchanged.
module HuffScanDecoder {
  import opened Powers
  import opened Coefs
  import opened Digits
  import opened Segments
  import opened HuffCode
  import opened HuffTables
  import opened HuffBits
  import opened HuffBlock
  import opened HuffSpectral
  import opened HuffRefine
  import opened HuffRefineDecode
  import opened HuffResume
  import opened HuffScan
  import opened HuffReader
  import opened HuffDecoder

  /** One MCU is decoded, or bytes have yet to arrive, or the marker met is not the restart expected. */
  datatype Status = Done | Suspended | Resync

  /** From state st0 and blocks c0 the decoder got to st1 and c1, or left c1, which decodes to the same. */
  ghost predicate McuGot(sc: Scan, ts: Tables, limits: seq<nat>, st0: DecState, c0: seq<Block>, ok: bool, st1: DecState,
                         c1: seq<Block>)
  {
    && IsScan(sc) && GoodTables(ts) && IsDecState(st0) && |c0| == |c1| == |limits| == |sc.membership|
    && (ok ==> McuResult(st1, c1) == McuDecode(sc, ts, limits, st0, c0))
    && (!ok ==> st1 == st0 && McuDecode(sc, ts, limits, st0, c1) == McuDecode(sc, ts, limits, st0, c0))
  }

  class HuffScanDecoder {
    const sc: Scan
    const ts: Tables
    const ds: seq<DDerived>
    const limits: seq<nat>
    const br: BitReader

    var lastDc: seq<int>
    var eobrun: nat
    var restartsToGo: int
    var nextRestartNum: nat

    ghost predicate Shape() {
      IsScan(sc) && GoodTables(ts) && DecodesWith(ts, ds) && |limits| == |sc.membership|
    }

    ghost predicate Valid()
      reads this, br
    {
      Shape() && br.Valid() && |lastDc| == MAX_COMPS_IN_SCAN && nextRestartNum < 8
    }

    ghost function State(): DecState
      reads this`lastDc, this`eobrun, br`savedAhead
    {
      DecState(lastDc, eobrun, br.savedAhead)
    }

    constructor (sc: Scan, ts: Tables, ds: seq<DDerived>, limits: seq<nat>, src: seq<byte>)
      requires IsScan(sc) && GoodTables(ts) && DecodesWith(ts, ds) && |limits| == |sc.membership|
      ensures Valid() && fresh(br) && this.sc == sc && this.ts == ts && this.limits == limits && br.src == src
      ensures lastDc == NoPred() && eobrun == 0 && restartsToGo == sc.restartInterval && nextRestartNum == 0
      ensures br.arrived == 0 && br.savedPos == 0 && br.savedAhead == SegBits(src, 0)
      ensures br.unreadMarker == 0 && !br.insufficientData
    {
      this.sc, this.ts, this.ds, this.limits := sc, ts, ds, limits;
      br := new BitReader(src);
      lastDc, eobrun := NoPred(), 0;
      restartsToGo, nextRestartNum := sc.restartInterval, 0;
    }

    ghost function Before(): Outset
      requires br.savedPos <= |br.src|
      reads br
    {
      Outset(br.unreadMarker, br.insufficientData, br.SavedComplete(), br.SavedEnd())
    }

    /** The band of a first AC scan, when no run is pending. */
    method DecodeFirstBand(block: array<JCOEF>) returns (ok: bool)
      requires Valid() && block.Length == 64 && ModeOf(sc).AcFirst? && eobrun == 0
      modifies this`eobrun, br, block
      ensures br.Valid() && br.arrived == old(br.arrived) && br.SavedEnd() == old(br.SavedEnd())
      ensures old(br.SavedComplete()) ==> ok && br.SavedComplete()
      ensures old(br.insufficientData) ==> br.insufficientData
      ensures br.insufficientData && !old(br.insufficientData) ==> ok && br.savedAhead == []
      ensures McuGot(sc, ts, limits, old(State()), [old(block[..])], ok, State(), [block[..]])
    {
      hide BitReader.Open, BitReader.Complete, Legal, IsDDerived, FirstDecode, FirstTouched, SameBut, IsScan, McuGot;
      ghost var m := Before();
      BandScan(sc);
      var slot := AcSlot(sc.comps[0].acTbl);
      ghost var b0, st0 := block[..], State();
      br.Load();
      SinceLoaded(br, m);
      var run;
      ok, run := GetAcFirst(br, ts[slot], ds[slot], sc.order, sc.ss, sc.se, sc.al, block, m);
      FirstBandGot(sc, ts, limits, st0, b0, ok, run, br.ahead, block[..]);
      if ok {
        SinceSaves(br, m);
        br.Save();
        eobrun := run;
      } else {
        StillWaiting(br, m);
      }
    }

    /** The band of an AC refinement scan. */
    method DecodeRefineBand(block: array<JCOEF>) returns (ok: bool)
      requires Valid() && block.Length == 64 && ModeOf(sc).AcRefine?
      modifies this`eobrun, br, block
      ensures br.Valid() && br.arrived == old(br.arrived) && br.SavedEnd() == old(br.SavedEnd())
      ensures old(br.SavedComplete()) ==> ok && br.SavedComplete()
      ensures old(br.insufficientData) ==> br.insufficientData
      ensures br.insufficientData && !old(br.insufficientData) ==> ok && br.savedAhead == []
      ensures McuGot(sc, ts, limits, old(State()), [old(block[..])], ok, State(), [block[..]])
    {
      hide BitReader.Open, BitReader.Complete, Legal, IsDDerived, RefineBand, Finished, Partial, IsScan, McuGot;
      ghost var m := Before();
      BandScan(sc);
      var slot := AcSlot(sc.comps[0].acTbl);
      ghost var b0, st0 := block[..], State();
      br.Load();
      SinceLoaded(br, m);
      var run;
      ok, run := GetAcRefine(br, ts[slot], ds[slot], sc.order, eobrun, sc.ss, sc.se, sc.al, block, m);
      RefineBandGot(sc, ts, limits, st0, b0, ok, run, br.ahead, block[..]);
      if ok {
        SinceSaves(br, m);
        br.Save();
        eobrun := run;
      } else {
        StillWaiting(br, m);
      }
    }

    /** The blocks of an MCU in the other modes. */
    method DecodeBlocks(blocks: seq<array<JCOEF>>) returns (ok: bool)
      requires Valid() && AreBlocks(blocks) && |blocks| == |sc.membership| && !ModeOf(sc).AcFirst? &&
               !ModeOf(sc).AcRefine?
      modifies this`lastDc, br, blocks
      ensures br.Valid() && br.arrived == old(br.arrived) && br.SavedEnd() == old(br.SavedEnd()) &&
              |lastDc| == MAX_COMPS_IN_SCAN
      ensures old(br.SavedComplete()) ==> ok && br.SavedComplete()
      ensures old(br.insufficientData) ==> br.insufficientData
      ensures br.insufficientData && !old(br.insufficientData) ==> ok && br.savedAhead == []
      ensures McuGot(sc, ts, limits, old(State()), old(Contents(blocks)), ok, State(), Contents(blocks))
    {
      hide BitReader.Open, BitReader.Complete, GoodTables, DecodesWith, IsScan, BlocksDecode, BlocksGot, McuGot,
           Sound, FindMarker, Ends;
      ghost var m := Before();
      ghost var c0, st0 := Contents(blocks), State();
      br.Load();
      SinceLoaded(br, m);
      var p;
      ok, p := GetBlocks(br, sc, ts, ds, limits, lastDc, blocks, eobrun, m);
      ModeBlocksGot(sc, ts, limits, st0, c0, ok, DecState(p, eobrun, br.ahead), Contents(blocks));
      if ok {
        SinceSaves(br, m);
        br.Save();
        lastDc := p;
      } else {
        StillWaiting(br, m);
      }
    }

    /** One MCU of the current segment. When data has run out the MCU is left as it is, except that refinements of
        DC coefficients do not ask: they read zeros, which change nothing. */
    method DecodeBody(blocks: seq<array<JCOEF>>) returns (ok: bool)
      requires Valid() && AreBlocks(blocks) && |blocks| == |sc.membership|
      modifies this`lastDc, this`eobrun, this`restartsToGo, br, blocks
      ensures Valid() && br.arrived == old(br.arrived) && br.SavedEnd() == old(br.SavedEnd())
      ensures old(br.SavedComplete()) ==> ok && br.SavedComplete()
      ensures !old(br.insufficientData) && br.insufficientData ==> ok && br.savedAhead == []
      ensures !old(br.insufficientData) ==>
              McuGot(sc, ts, limits, old(State()), old(Contents(blocks)), ok, State(), Contents(blocks))
      ensures restartsToGo == if ok then old(restartsToGo) - 1 else old(restartsToGo)
    {
      hide BitReader.Valid, GoodTables, DecodesWith, IsScan, McuDecode;
      ok := true;
      OneBlock(sc);
      if !br.insufficientData || ModeOf(sc).DcRefine? {
        if ModeOf(sc).AcFirst? && eobrun > 0 {
          RunGot(sc, ts, limits, State(), Contents(blocks));
          eobrun := eobrun - 1;
        } else if ModeOf(sc).AcFirst? {
          assert Contents(blocks) == [blocks[0][..]];
          ok := DecodeFirstBand(blocks[0]);
          assert Contents(blocks) == [blocks[0][..]];
        } else if ModeOf(sc).AcRefine? {
          assert Contents(blocks) == [blocks[0][..]];
          ok := DecodeRefineBand(blocks[0]);
          assert Contents(blocks) == [blocks[0][..]];
        } else {
          ok := DecodeBlocks(blocks);
        }
      }
      if ok {
        restartsToGo := restartsToGo - 1;
      }
    }

    /** process_restart: throw away what is left of the segment, swallow the marker, and start over. */
    method ProcessRestart() returns (st: Status)
      requires Valid()
      modifies this`lastDc, this`eobrun, this`restartsToGo, this`nextRestartNum, br
      ensures Valid() && br.arrived == old(br.arrived)
      ensures st.Suspended? ==>
              br.SavedEnd() == old(br.SavedEnd()) && !old(br.SavedComplete()) &&
              br.insufficientData == old(br.insufficientData)
      ensures st.Suspended? ==>
              lastDc == old(lastDc) && eobrun == old(eobrun) && restartsToGo == old(restartsToGo) &&
              nextRestartNum == old(nextRestartNum)
      ensures st.Done? ==>
                && old(br.SavedEnd()).Marker? && old(br.SavedEnd()).code == 0xD0 + old(nextRestartNum)
                && br.savedPos == old(br.SavedEnd()).next &&
                    State() == DecState(NoPred(), 0, SegBits(br.src, br.savedPos))
                && br.unreadMarker == 0 && !br.insufficientData && restartsToGo == sc.restartInterval
                && nextRestartNum == (old(nextRestartNum) + 1) % 8
      ensures st.Resync? ==> old(br.SavedEnd()).Marker? && old(br.SavedEnd()).code != 0xD0 + old(nextRestartNum)
    {
      hide Sound, SegBits, FindMarker, Ends, HuffScanDecoder.Shape;
      br.DropBuffer();
      var ok := br.ReadRestartMarker(nextRestartNum);
      if !ok {
        return Suspended;
      }
      if br.unreadMarker != 0 {
        return Resync;
      }
      nextRestartNum := (nextRestartNum + 1) % 8;
      lastDc, eobrun, restartsToGo := NoPred(), 0, sc.restartInterval;
      br.insufficientData := false;
      st := Status.Done;
    }

    /** One MCU, after a restart when one is due. */
    method DecodeMcu(blocks: seq<array<JCOEF>>) returns (st: Status)
      requires Valid() && AreBlocks(blocks) && |blocks| == |sc.membership|
      modifies this`lastDc, this`eobrun, this`restartsToGo, this`nextRestartNum, br, blocks
      ensures Valid() && br.arrived == old(br.arrived)
      ensures st.Resync? ==> sc.restartInterval != 0 && old(restartsToGo) == 0 && old(br.SavedEnd()).Marker? &&
                             old(br.SavedEnd()).code != 0xD0 + old(nextRestartNum)
      ensures !(sc.restartInterval != 0 && old(restartsToGo) == 0) ==>
                && br.SavedEnd() == old(br.SavedEnd()) && nextRestartNum == old(nextRestartNum)
                && (old(br.SavedComplete()) ==> st.Done? && br.SavedComplete())
                && restartsToGo == (if st.Done? then old(restartsToGo) - 1 else old(restartsToGo))
                && (!old(br.insufficientData) && br.insufficientData ==> st.Done? && br.savedAhead == [])
                && (!old(br.insufficientData) ==>
                      McuGot(sc, ts, limits, old(State()), old(Contents(blocks)), st.Done?, State(), Contents(blocks)))
      ensures sc.restartInterval != 0 && old(restartsToGo) == 0 && !st.Resync? ==>
                || (&& st.Suspended? && !old(br.SavedComplete()) && br.SavedEnd() == old(br.SavedEnd())
                    && lastDc == old(lastDc) && eobrun == old(eobrun) && restartsToGo == 0 &&
                        nextRestartNum == old(nextRestartNum)
                    && Contents(blocks) == old(Contents(blocks)) && br.insufficientData == old(br.insufficientData))
                || (&& old(br.SavedEnd()).Marker? && old(br.SavedEnd()).code == 0xD0 + old(nextRestartNum)
                    && old(br.SavedEnd()).next <= |br.src|
                    && Restarted(old(br.SavedEnd()).next, st.Done?, old(Contents(blocks)), Contents(blocks))
                    && nextRestartNum == (old(nextRestartNum) + 1) % 8)
    {
      hide HuffScanDecoder.Shape, BitReader.Valid, McuGot, FindMarker, SegBits, Ends;
      if sc.restartInterval != 0 && restartsToGo == 0 {
        st := ProcessRestart();
        if st != Status.Done {
          return;
        }
        FoundAt(br);
        ghost var st0, c0 := State(), Contents(blocks);
      }
      var ok := DecodeBody(blocks);
      st := if ok then Status.Done else Suspended;
    }

    /** The state after a restart whose segment starts at p, and one MCU of it or an attempt at it. */
    ghost predicate Restarted(p: nat, ok: bool, c0: seq<Block>, c1: seq<Block>)
      requires p <= |br.src|
      reads this`lastDc, this`eobrun, this`restartsToGo, br
    {
      && br.Valid() && br.SavedEnd() == FindMarker(br.src, |br.src|, p)
      && (p <= br.arrived && Ends(br.src, br.arrived, p) ==> ok && br.SavedComplete())
      && restartsToGo == sc.restartInterval - (if ok then 1 else 0)
      && (br.insufficientData ==> ok && br.savedAhead == [])
      && McuGot(sc, ts, limits, DecState(NoPred(), 0, SegBits(br.src, p)), c0, ok, State(), c1)
    }
  }

  lemma FoundAt(br: BitReader)
    requires br.Valid() && br.unreadMarker == 0
    ensures br.savedPos <= br.arrived <= |br.src| && br.SavedEnd() == FindMarker(br.src, |br.src|, br.savedPos)
    ensures br.SavedComplete() == Ends(br.src, br.arrived, br.savedPos)
  {
  }

  lemma BandScan(sc: Scan)
    requires IsScan(sc) && (ModeOf(sc).AcFirst? || ModeOf(sc).AcRefine?)
    ensures |sc.comps| > 0 && IsMap(sc.order) && IsOrder(sc.order) && sc.se < 64 && sc.al <= MAX_AL &&
            sc.comps[0].acTbl < NUM_HUFF_TBLS
    ensures |sc.membership| == 1
  {
  }

  lemma OneBlock(sc: Scan)
    requires IsScan(sc)
    ensures |sc.membership| > 0 && (ModeOf(sc).AcFirst? || ModeOf(sc).AcRefine? ==> |sc.membership| == 1)
  {
  }

  lemma SinceLoaded(br: BitReader, m: Outset)
    requires br.Open() && br.savedPos <= |br.src|
    requires m == Outset(br.unreadMarker, br.insufficientData, br.Complete(), br.End())
    ensures Since(br, m)
  {
  }

  lemma SinceSaves(br: BitReader, m: Outset)
    requires Since(br, m)
    ensures br.Open() && br.End() == m.end && (m.complete ==> br.Complete()) && (m.short ==> br.insufficientData)
    ensures br.insufficientData && !m.short ==> br.ahead == []
  {
  }

  /** A reader that has to wait has not touched what it saved. */
  lemma StillWaiting(br: BitReader, m: Outset)
    requires Waits(br, m) && br.savedPos <= br.arrived <= |br.src|
    requires Sound(br.src, br.savedPos, 0, br.savedBuf, br.savedLeft, br.savedAhead)
    requires m.end == FindMarker(br.src, |br.src|, br.savedPos)
    ensures br.Valid() && br.SavedEnd() == m.end && !m.complete && br.insufficientData == m.short
  {
  }

  lemma FirstBandGot(sc: Scan, ts: Tables, limits: seq<nat>, st0: DecState, b0: Block, ok: bool, run: nat,
                     s: seq<bool>, b: Block)
    requires IsScan(sc) && ModeOf(sc).AcFirst? && GoodTables(ts) && IsDecState(st0) &&
             |limits| == |sc.membership| && st0.run == 0
    requires IsMap(sc.order)
    requires var t := ts[AcSlot(sc.comps[0].acTbl)];
             && (ok ==> FirstResult(b, s, run) == FirstDecode(t, sc.order, st0.s, b0, sc.ss, sc.se, sc.al))
             && SameBut(b0, b, FirstTouched(t, sc.order, st0.s, sc.ss, sc.se))
    ensures McuGot(sc, ts, limits, st0, [b0], ok, if ok then st0.(run := run, s := s) else st0, [b])
  {
    hide FirstDecode, FirstTouched, Legal, IsOrder;
    FirstAgain(ts[AcSlot(sc.comps[0].acTbl)], sc.order, st0.s, b0, b, sc.ss, sc.se, sc.al);
  }

  lemma RefineBandGot(sc: Scan, ts: Tables, limits: seq<nat>, st0: DecState, b0: Block, ok: bool, run: nat,
                      s: seq<bool>, b: Block)
    requires IsScan(sc) && ModeOf(sc).AcRefine? && GoodTables(ts) && IsDecState(st0) && |limits| == |sc.membership|
    requires IsMap(sc.order)
    requires var g := RefineBand(ts[AcSlot(sc.comps[0].acTbl)], sc.order, st0.s, b0, st0.run, sc.ss, sc.se, sc.al);
             if ok then s == g.s && run == g.run && b == Finished(g, sc.order, sc.se) else Partial(b0, b, g.b)
    ensures McuGot(sc, ts, limits, st0, [b0], ok, if ok then st0.(run := run, s := s) else st0, [b])
  {
    hide RefineDecode, Corrections, Legal, IsOrder, Partial;
    if !ok {
      if st0.run > 0 {
        ResumeRunSame(sc.order, st0.s, b0, b, sc.ss, sc.se, sc.al);
      } else {
        ResumeSame(ts[AcSlot(sc.comps[0].acTbl)], sc.order, st0.s, b0, b, sc.ss, sc.se, sc.al);
      }
    }
  }

  lemma ModeBlocksGot(sc: Scan, ts: Tables, limits: seq<nat>, st0: DecState, c0: seq<Block>, ok: bool, st1: DecState,
                      c1: seq<Block>)
    requires BlocksGot(sc, ts, limits, st0, c0, ok, st1, c1) && !ModeOf(sc).AcFirst? && !ModeOf(sc).AcRefine?
    ensures McuGot(sc, ts, limits, st0, c0, ok, if ok then st1 else st0, c1)
  {
    hide BlocksDecode, IsScan, GoodTables;
  }

  lemma RunGot(sc: Scan, ts: Tables, limits: seq<nat>, st0: DecState, c0: seq<Block>)
    requires IsScan(sc) && GoodTables(ts) && IsDecState(st0) && |c0| == |limits| == |sc.membership|
    requires ModeOf(sc).AcFirst? && st0.run > 0
    ensures McuGot(sc, ts, limits, st0, c0, true, st0.(run := st0.run - 1), c0)
  {
  }
}
