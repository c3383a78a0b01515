// A whole scan through the Huffman encoder, as a statistics pass or to data.
module HuffEncodeScan {
  import opened Coefs
  import opened Digits
  import opened Segments
  import opened HuffCode
  import opened HuffTables
  import opened HuffBits
  import opened HuffBlock
  import opened HuffScan
  import opened HuffWriter
  import opened HuffEncoder

  /** Along the scan, with predictions reset at restarts, the encoder accepts every coefficient. */
  ghost predicate ScanInRange(sc: Scan, p: seq<int>, toGo: nat, mcus: Mcus)
    requires IsScan(sc) && IsPred(p) && AreMcus(sc, mcus)
    decreases |mcus|
  {
    mcus == [] ||
    var p1 := if sc.restartInterval != 0 && toGo == 0 && sc.ss == 0 then NoPred() else p;
    && McuInRange(sc, p1, mcus[0], 0)
    && ScanInRange(sc, if ModeOf(sc).AcFirst? || ModeOf(sc).AcRefine? then p1 else McuPred(sc, p1, mcus[0], 0),
                   NextToGo(sc.restartInterval, toGo), mcus[1..])
  }

  /** Every symbol the scan needs has a code. */
  ghost predicate AllCovered(sc: Scan, ts: Tables, chunks: seq<Mcus>)
    requires IsScan(sc)
  {
    forall j :: 0 <= j < |chunks| ==> AreMcus(sc, chunks[j]) && Covered(ts, SegmentOps(sc, NoCarry(), chunks[j]))
  }

  lemma ChunksOfMcus(sc: Scan, mcus: Mcus)
    requires IsScan(sc) && AreMcus(sc, mcus)
    ensures forall j :: 0 <= j < |Chunks(sc.restartInterval, mcus)| ==> AreMcus(sc, Chunks(sc.restartInterval, mcus)[j])
  {
    hide IsScan;
    ChunksAre(sc.restartInterval, mcus);
    var chunks := Chunks(sc.restartInterval, mcus);
    forall j | 0 <= j < |chunks| ensures AreMcus(sc, chunks[j]) {
      assert chunks[j] in chunks;
      forall i | 0 <= i < |chunks[j]| ensures |chunks[j][i]| == |sc.membership| {
        assert chunks[j][i] in mcus;
      }
    }
  }

  /** What is ahead of the encoder at an MCU: the rest of its segment, or the next one after a restart. */
  lemma Ahead(interval: nat, left: Mcus, rest: Mcus, chunks: seq<Mcus>, j: nat, toGo: nat) returns (rest': Mcus,
              j': nat)
    requires j < |chunks| && left != [] && Remaining(left, rest, chunks, j) &&
             CounterFits(interval, toGo, rest, chunks, j)
    requires ChunksFit(interval, chunks)
    ensures (interval != 0 && toGo == 0) <==> rest == []
    ensures j' == (if rest == [] then j + 1 else j) && j' < |chunks|
    ensures [left[0]] + rest' == (if rest == [] then chunks[j'] else rest)
    ensures Remaining(left[1..], rest', chunks, j') &&
            CounterFits(interval, NextToGo(interval, toGo), rest', chunks, j')
  {
    if rest == [] {
      NextSegment(left, chunks, j);
      LastIsNotEmpty(left, chunks, j + 1);
      TakeOne(left, chunks[j + 1], chunks, j + 1);
      rest', j' := chunks[j + 1][1..], j + 1;
    } else {
      TakeOne(left, rest, chunks, j);
      rest', j' := rest[1..], j;
    }
  }

  /** The bytes of a scan: its segments, each coded with the tables. */
  ghost predicate CodedScan(sc: Scan, tables: Tables, mcus: Mcus, bytes: seq<byte>, datas: seq<seq<byte>>)
    requires IsScan(sc)
  {
    var segs := Chunks(sc.restartInterval, mcus);
    && |datas| == |segs| && (forall j :: 0 <= j < |segs| ==> Coded(sc, tables, segs[j], datas[j]))
    && bytes == Wire(datas[..|datas| - 1]) + Stuff(datas[|datas| - 1])
  }

  method CodeScan(sc: Scan, gather: bool, tables: Tables, derived: seq<CDerived>, mcus: Mcus)
    returns (st: Status, e: HuffEntropyEncoder)
    requires IsScan(sc) && AreMcus(sc, mcus) && (gather || Derived(tables, derived))
    ensures fresh(e) && fresh(e.w) && e.sc == sc && e.w.gather == gather && e.w.tables == tables
    ensures st.BadCoef? ==> !ScanInRange(sc, NoPred(), sc.restartInterval, mcus)
    ensures st.Fine? ==> ScanInRange(sc, NoPred(), sc.restartInterval, mcus)
    ensures st.MissingCode? ==> !gather && !AllCovered(sc, tables, Chunks(sc.restartInterval, mcus))
    ensures st.Fine? ==> e.segs == Chunks(sc.restartInterval, mcus) && |e.datas| == |e.segs|
    ensures st.Fine? ==> (forall j :: 0 <= j < |e.segs| ==>
            AreMcus(sc, e.segs[j])) && e.w.past + e.w.hist == AllOps(sc, e.segs)
    ensures st.Fine? && gather ==> e.w.Valid()
    ensures st.Fine? && !gather ==>
              && e.w.out == Wire(e.datas[..|e.datas| - 1]) + Stuff(e.datas[|e.datas| - 1])
              && forall j :: 0 <= j < |e.segs| ==> Coded(sc, tables, e.segs[j], e.datas[j])
  {
    hide IsScan, SegmentOps, HuffWriter.Valid, Derived, Stuff, Wire, Coded, SegPlan, AllOps, McuInRange, McuPred,
         Covered,
         HuffEntropyEncoder.Valid, Remaining, ChunksFit, CounterFits, Join, Chunks, Running;
    e := new HuffEntropyEncoder(sc, gather, tables, derived);
    ghost var interval := sc.restartInterval;
    ghost var chunks := Chunks(interval, mcus);
    ChunksAre(interval, mcus);
    ChunksOfMcus(sc, mcus);
    ghost var j: nat, rest := 0, chunks[0];
    e.Begins(rest);
    StartPred();
    ghost var range := ScanInRange(sc, NoPred(), interval, mcus);
    assert mcus[0..] == mcus;
    Starts(e, mcus, chunks);
    for i := 0 to |mcus|
      invariant fresh(e) && fresh(e.w) && fresh(e.bitBuffer) && e.sc == sc && e.w.gather == gather &&
                e.w.tables == tables
      invariant j < |chunks| && Running(e, mcus[i..], rest, chunks, j)
      invariant IsPred(e.lastDc) && AreMcus(sc, mcus[i..])
      invariant range == ScanInRange(sc, e.lastDc, e.restartsToGo, mcus[i..])
    {
      assert mcus[i..][0] == mcus[i] && mcus[i..][1..] == mcus[i + 1..];
      st, rest, j := CodeNext(e, mcus[i], mcus[i..], rest, chunks, j);
      if st != Fine {
        return;
      }
    }
    assert mcus[|mcus|..] == [];
    Ended(e, rest, chunks, j);
    st := e.FinishPass();
    NotCovered(sc, e.w, chunks, j, j, st.MissingCode?);
  }

  /** The encoder has coded the MCUs of chunks before those left. */
  ghost predicate Running(e: HuffEntropyEncoder, left: Mcus, rest: Mcus, chunks: seq<Mcus>, j: nat)
    requires j < |chunks|
    reads e, e.w, e.bitBuffer
  {
    && e.Valid(rest) && IsPred(e.lastDc) && AreMcus(e.sc, rest) && AreMcus(e.sc, left)
    && e.segs == chunks[..j] && e.cur + rest == chunks[j]
    && Remaining(left, rest, chunks, j) && CounterFits(e.sc.restartInterval, e.restartsToGo, rest, chunks, j)
  }

  lemma Starts(e: HuffEntropyEncoder, mcus: Mcus, chunks: seq<Mcus>)
    requires |chunks| > 0 && e.Valid(chunks[0]) && IsPred(e.lastDc) && AreMcus(e.sc, mcus)
    requires e.segs == [] && e.cur == [] && Join(chunks) == mcus
    requires ChunksFit(e.sc.restartInterval, chunks) && e.restartsToGo == e.sc.restartInterval
    ensures Running(e, mcus, chunks[0], chunks, 0)
  {
    hide HuffEntropyEncoder.Valid, Remaining, ChunksFit, CounterFits;
    WholeRemains(mcus, chunks);
    StartCounter(e.sc.restartInterval, chunks);
    e.Facts(chunks[0]);
    assert mcus[0..] == mcus && [] + chunks[0] == chunks[0] && chunks[..0] == [];
  }

  lemma Ended(e: HuffEntropyEncoder, rest: Mcus, chunks: seq<Mcus>, j: nat)
    requires j < |chunks| && Running(e, [], rest, chunks, j) && forall i :: 0 < i < |chunks| ==> chunks[i] != []
    ensures e.Valid([]) && e.segs + [e.cur] == chunks && e.cur == chunks[j] && AreMcus(e.sc, chunks[j])
  {
    hide HuffEntropyEncoder.Valid;
    AllDone(rest, chunks, j);
    e.Facts(rest);
    assert chunks[..j] + [chunks[j]] == chunks;
  }

  method CodeNext(e: HuffEntropyEncoder, mcu: Mcu, ghost left: Mcus, ghost rest: Mcus, ghost chunks: seq<Mcus>,
                  ghost j: nat)
    returns (st: Status, ghost rest': Mcus, ghost j': nat)
    requires j < |chunks| && left != [] && mcu == left[0] && IsScan(e.sc) && Running(e, left, rest, chunks, j)
    requires ChunksFit(e.sc.restartInterval, chunks)
    requires forall i :: 0 <= i < |chunks| ==> AreMcus(e.sc, chunks[i])
    modifies e, e.w, e.bitBuffer
    ensures st.Fine? ==> j' < |chunks| && Running(e, left[1..], rest', chunks, j')
    ensures st.Fine? ==> AreMcus(e.sc, left[1..]) && IsPred(e.lastDc) &&
                         ScanInRange(e.sc, old(e.lastDc), old(e.restartsToGo), left) ==
                         ScanInRange(e.sc, e.lastDc, e.restartsToGo, left[1..])
    ensures st.BadCoef? ==> !ScanInRange(e.sc, old(e.lastDc), old(e.restartsToGo), left)
    ensures st.MissingCode? ==> !e.w.gather && !AllCovered(e.sc, e.w.tables, chunks)
  {
    hide IsScan, SegmentOps, HuffWriter.Valid, SegPlan, AllOps, McuInRange, McuPred, Covered,
         HuffEntropyEncoder.Valid, Remaining, ChunksFit, CounterFits, Join, AllCovered, Writable, NextToGo;
    var interval := e.sc.restartInterval;
    rest', j' := Ahead(interval, left, rest, chunks, j, e.restartsToGo);
    RestOfMcus(e.sc, [mcu] + rest', rest');
    e.Facts(rest);
    st := e.EncodeMcu(mcu, rest');
    if st != Fine {
      NotCovered(e.sc, e.w, chunks, j, j', st.MissingCode?);
      return;
    }
    assert chunks[..j + 1] == chunks[..j] + [chunks[j]];
    e.Facts(rest');
  }

  lemma StartPred()
    ensures IsPred(NoPred())
  {
  }

  lemma RestOfMcus(sc: Scan, now: Mcus, rest: Mcus)
    requires AreMcus(sc, now) && now != [] && now[1..] == rest
    ensures AreMcus(sc, rest)
  {
  }

  lemma NotCovered(sc: Scan, w: HuffWriter, chunks: seq<Mcus>, j: nat, j': nat, missing: bool)
    requires IsScan(sc) && j < |chunks| && j' < |chunks|
    requires missing ==> (AreMcus(sc, chunks[j]) && !Writable(w, SegmentOps(sc, NoCarry(), chunks[j])))
                         || (AreMcus(sc, chunks[j']) && !Writable(w, SegmentOps(sc, NoCarry(), chunks[j'])))
    ensures missing ==> !w.gather && !AllCovered(sc, w.tables, chunks)
  {
  }

  lemma AllDone(rest: Mcus, chunks: seq<Mcus>, j: nat)
    requires j < |chunks| && Remaining([], rest, chunks, j) && forall i :: 0 < i < |chunks| ==> chunks[i] != []
    ensures rest == [] && j == |chunks| - 1
  {
    JoinNotEmpty(chunks, j + 1);
  }
}
