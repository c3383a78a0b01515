// A whole scan through the Huffman decoder, from bytes that arrive in pieces, and the round trip of a scan.
module HuffDecodeScan {
  import opened Coefs
  import opened Digits
  import opened Segments
  import opened HuffCode
  import opened HuffTables
  import opened HuffBits
  import opened HuffScan
  import opened HuffWriter
  import opened HuffReader
  import opened HuffEncoder
  import opened HuffEncodeScan
  import opened HuffDecoder
  import opened HuffScanDecoder
  import opened HuffRoundTrip

  /** What is in the source: the segments of a scan, and what follows them. */
  datatype Course = Course(chunks: seq<Mcus>, datas: seq<seq<byte>>, marker: byte, rest: seq<byte>)

  ghost predicate IsCourse(sc: Scan, ts: Tables, limits: seq<nat>, co: Course) {
    && IsScan(sc) && GoodTables(ts) && AreLimits(sc, limits) && IsMarker(co.marker) && |co.chunks| == |co.datas| > 0
    && forall j :: 0 <= j < |co.datas| ==> HuffEncoder.Coded(sc, ts, co.chunks[j], co.datas[j])
  }

  ghost function SegOf(co: Course, j: nat): Segment
    requires j < |co.datas|
  {
    SegAt(co.datas, j, co.marker, co.rest)
  }

  lemma SegOfFacts(co: Course, j: nat)
    requires j < |co.datas| && IsMarker(co.marker)
    ensures SegOf(co, j).data == co.datas[j] && IsMarker(SegOf(co, j).marker)
    ensures j + 1 < |co.datas| ==>
            SegOf(co, j).marker == 0xD0 + j % 8 && SegOf(co, j).rest == Coming(SegOf(co, j + 1), 0)
  {
  }

  /** The decoder reads segment j. */
  ghost predicate InSegment(d: HuffScanDecoder, co: Course, j: nat)
    reads d, d.br
  {
    && j < |co.datas| && d.Valid() && d.nextRestartNum == j % 8 && !d.br.insufficientData
    && var s := SegOf(co, j);
       && |s.rest| <= |d.br.src| && d.br.src[|d.br.src| - |s.rest|..] == s.rest
       && d.br.SavedEnd() == Marker(s.marker, |d.br.src| - |s.rest|)
  }

  /** From a position where segment j starts, its MCUs are all ahead. */
  lemma SegmentAhead(sc: Scan, ts: Tables, limits: seq<nat>, co: Course, src: seq<byte>, j: nat,
                     p: nat) returns (tail: seq<bool>)
    requires IsCourse(sc, ts, limits, co) && j < |co.datas| && p <= |src| && src[p..] == Coming(SegOf(co, j), 0)
    ensures tail != [] && Stands(sc, ts, limits, NoPred(), DecState(NoPred(), 0, SegBits(src, p)), co.chunks[j], tail)
    ensures FindMarker(src, |src|, p) == Marker(SegOf(co, j).marker, |src| - |SegOf(co, j).rest|) && Ends(src, |src|, p)
    ensures |SegOf(co, j).rest| <= |src| && src[|src| - |SegOf(co, j).rest|..] == SegOf(co, j).rest
  {
    hide Stands, SegBits, FindMarker, Ends, BytesBits, HuffEncoder.Coded, Coming;
    SegOfFacts(co, j);
    SegmentInSource(src, p, SegOf(co, j), 0);
    assert co.datas[j][0..] == co.datas[j];
    tail := SegmentStands(sc, ts, limits, co.chunks[j], co.datas[j]);
  }

  lemma {:induction false} BitsNotEmpty(ts: Tables, ops: Ops, tail: seq<bool>)
    requires tail != []
    ensures BitsFrom(ts, ops, tail) != []
    decreases ops
  {
    match ops
    case Done =>
    case Then(op, rest) => BitsNotEmpty(ts, rest, tail);
  }

  /** A decoder with MCUs ahead, or the pad bits at least, has not run out of bits. */
  lemma StandsWithBits(sc: Scan, ts: Tables, limits: seq<nat>, p: seq<int>, st: DecState, mcus: Mcus, tail: seq<bool>)
    requires Stands(sc, ts, limits, p, st, mcus, tail) && tail != []
    ensures st.s != []
  {
    hide BitsFrom, Covered, IsScan, Bands;
    BitsNotEmptyAny(ts, tail);
  }

  lemma BitsNotEmptyAny(ts: Tables, tail: seq<bool>)
    requires tail != []
    ensures forall ops: Ops :: BitsFrom(ts, ops, tail) != []
  {
    forall ops: Ops ensures BitsFrom(ts, ops, tail) != [] {
      BitsNotEmpty(ts, ops, tail);
    }
  }

  /** Decoding MCU mcu from state st and blocks c comes out right; the blocks were those of before. */
  ghost predicate ComesOut(sc: Scan, ts: Tables, limits: seq<nat>, p: seq<int>, st: DecState, before: seq<Block>,
                           c: seq<Block>, mcu: Mcu, more: Mcus, tail: seq<bool>)
  {
    && IsScan(sc) && GoodTables(ts) && IsDecState(st) && IsPred(p) && |c| == |limits| == |sc.membership| == |mcu|
    && var r := McuDecode(sc, ts, limits, st, c);
       BlocksAfter(sc, limits, before, r.blocks, mcu) && Stands(sc, ts, limits, PredAfter(sc, p, mcu), r.st, more, tail)
  }

  lemma ItComesOut(sc: Scan, ts: Tables, limits: seq<nat>, p: seq<int>, st: DecState, c: seq<Block>, mcus: Mcus,
                   tail: seq<bool>)
    requires Stands(sc, ts, limits, p, st, mcus, tail) && GoodTables(ts) && mcus != []
    requires McuInRange(sc, p, mcus[0], 0) && BlocksBefore(sc, c, mcus[0])
    ensures ComesOut(sc, ts, limits, p, st, c, c, mcus[0], mcus[1..], tail)
  {
    hide McuDecode, IsScan, GoodTables, McuInRange;
    McuDecoded(sc, ts, limits, p, st, c, mcus, tail);
  }

  /** An attempt at the MCU either completes it or leaves it to come out all the same. */
  lemma Attempt(sc: Scan, ts: Tables, limits: seq<nat>, p: seq<int>, st0: DecState, before: seq<Block>,
                c0: seq<Block>, ok: bool, st1: DecState, c1: seq<Block>, mcu: Mcu, more: Mcus, tail: seq<bool>)
    requires ComesOut(sc, ts, limits, p, st0, before, c0, mcu, more, tail)
    requires McuGot(sc, ts, limits, st0, c0, ok, st1, c1)
    ensures if ok then BlocksAfter(sc, limits, before, c1, mcu) &&
            Stands(sc, ts, limits, PredAfter(sc, p, mcu), st1, more, tail)
            else ComesOut(sc, ts, limits, p, st1, before, c1, mcu, more, tail)
  {
    hide McuDecode, IsScan, GoodTables, Stands, BlocksAfter;
  }

  /** Once everything has arrived, the segment is complete. */
  lemma AllArrived(br: BitReader)
    requires br.Valid() && br.arrived == |br.src| && br.SavedEnd().Marker?
    ensures br.SavedComplete()
  {
    FoundEnds(br.src, br.savedPos);
  }

  lemma {:induction false} FoundEnds(src: seq<byte>, p: nat)
    requires p <= |src|
    ensures FindMarker(src, |src|, p).Marker? ==> Ends(src, |src|, p)
    decreases |src| - p
  {
    hide HeadAt;
    var h := HeadAt(src, |src|, p);
    if h.Data? {
      FoundEnds(src, h.next);
    }
  }

  /** Some bytes arrive: the next piece, or all that is left. */
  method Receive(br: BitReader, pieces: seq<nat>) returns (pieces': seq<nat>)
    requires br.Valid() && br.arrived < |br.src|
    modifies br`arrived
    ensures br.Valid() && old(br.arrived) < br.arrived <= |br.src| && br.SavedEnd() == old(br.SavedEnd())
  {
    var left := |br.src| - br.arrived;
    var n := if pieces == [] || pieces[0] > left then left else if pieces[0] == 0 then 1 else pieces[0];
    pieces' := if pieces == [] then [] else pieces[1..];
    br.Arrive(n);
  }

  /** The decoder is at the MCU: in its segment, or before the restart that leads to it. */
  ghost predicate AtMcu(d: HuffScanDecoder, before: seq<Block>, c: seq<Block>, co: Course, j: nat, p: seq<int>,
                        mcu: Mcu, more: Mcus, tail: seq<bool>)
    reads d, d.br
  {
    && InSegment(d, co, j) && !(d.sc.restartInterval != 0 && d.restartsToGo == 0)
    && ComesOut(d.sc, d.ts, d.limits, p, d.State(), before, c, mcu, more, tail)
  }

  ghost predicate AtRestart(d: HuffScanDecoder, c: seq<Block>, co: Course, j: nat, mcu: Mcu)
    reads d, d.br
  {
    && InSegment(d, co, j) && d.sc.restartInterval != 0 && d.restartsToGo == 0
    && j + 1 < |co.chunks| == |co.datas| && co.chunks[j + 1] != [] && co.chunks[j + 1][0] == mcu
    && IsScan(d.sc) && IsPred(NoPred()) && |mcu| == |d.sc.membership| && McuInRange(d.sc, NoPred(), mcu, 0) &&
        BlocksBefore(d.sc, c, mcu)
  }

  /** What one attempt at an MCU that is not preceded by a restart brings. */
  method TryMcu(d: HuffScanDecoder, blocks: seq<array<JCOEF>>, ghost before: seq<Block>, ghost co: Course,
                ghost j: nat, ghost p: seq<int>, ghost mcu: Mcu, ghost more: Mcus, ghost tail: seq<bool>)
    returns (done: bool)
    requires IsCourse(d.sc, d.ts, d.limits, co) && AreBlocks(blocks) && |blocks| == |d.sc.membership| && tail != []
    requires AtMcu(d, before, Contents(blocks), co, j, p, mcu, more, tail)
    modifies d`lastDc, d`eobrun, d`restartsToGo, d`nextRestartNum, d.br, blocks
    ensures InSegment(d, co, j) && d.br.arrived == old(d.br.arrived)
    ensures d.restartsToGo == if done then old(d.restartsToGo) - 1 else old(d.restartsToGo)
    ensures done ==> BlocksAfter(d.sc, d.limits, before, Contents(blocks), mcu)
    ensures done ==> IsPred(p) && |mcu| == |d.sc.membership| &&
                     Stands(d.sc, d.ts, d.limits, PredAfter(d.sc, p, mcu), d.State(), more, tail)
    ensures !done ==> d.br.arrived < |d.br.src| && AtMcu(d, before, Contents(blocks), co, j, p, mcu, more, tail)
  {
    hide Stands, ComesOut, McuGot, BlocksAfter, SegBits, FindMarker, Ends, HuffScanDecoder.Shape, BitReader.Valid,
         IsScan, GoodTables,
         AreLimits, HuffEncoder.Coded;
    ghost var st0, c0 := d.State(), Contents(blocks);
    ReaderOf(d);
    ItIs(d.sc, d.ts, d.limits, p, st0, before, c0, mcu, more, tail);
    if d.br.arrived == |d.br.src| {
      AllArrived(d.br);
    }
    var st := d.DecodeMcu(blocks);
    done := st.Done?;
    Attempt(d.sc, d.ts, d.limits, p, st0, before, c0, done, d.State(), Contents(blocks), mcu, more, tail);
    if done {
      StandsWithBits(d.sc, d.ts, d.limits, PredAfter(d.sc, p, mcu), d.State(), more, tail);
    }
  }

  lemma ReaderOf(d: HuffScanDecoder)
    requires d.Valid()
    ensures d.br.Valid() && d.br.savedPos <= d.br.arrived <= |d.br.src|
  {
  }

  lemma ItIs(sc: Scan, ts: Tables, limits: seq<nat>, p: seq<int>, st: DecState, before: seq<Block>, c: seq<Block>,
             mcu: Mcu, more: Mcus, tail: seq<bool>)
    requires ComesOut(sc, ts, limits, p, st, before, c, mcu, more, tail)
    ensures IsScan(sc) && GoodTables(ts) && IsPred(p) && |mcu| == |sc.membership|
  {
  }

  /** An attempt at an MCU that is preceded by a restart: nothing happens yet, or the decoder gets into the
      next segment, and may have completed the MCU. */
  method TryRestart(d: HuffScanDecoder, blocks: seq<array<JCOEF>>, ghost co: Course, ghost j: nat, ghost mcu: Mcu)
    returns (done: bool, ghost inside: bool, ghost tail: seq<bool>)
    requires IsCourse(d.sc, d.ts, d.limits, co) && AreBlocks(blocks) && |blocks| == |d.sc.membership|
    requires AtRestart(d, Contents(blocks), co, j, mcu)
    modifies d`lastDc, d`eobrun, d`restartsToGo, d`nextRestartNum, d.br, blocks
    ensures d.br.arrived == old(d.br.arrived) && (!done ==> d.br.arrived < |d.br.src|)
    ensures done ==> inside
    ensures !inside ==> AtRestart(d, Contents(blocks), co, j, mcu) && Contents(blocks) == old(Contents(blocks))
    ensures inside ==> InSegment(d, co, j + 1) && tail != [] && co.chunks[j + 1] != []
    ensures inside ==> d.restartsToGo == d.sc.restartInterval - (if done then 1 else 0)
    ensures done ==>
              && IsScan(d.sc) && IsPred(NoPred()) && |mcu| == |d.sc.membership| &&
                  BlocksAfter(d.sc, d.limits, old(Contents(blocks)), Contents(blocks), mcu)
              && Stands(d.sc, d.ts, d.limits, PredAfter(d.sc, NoPred(), mcu), d.State(), co.chunks[j + 1][1..], tail)
    ensures inside && !done ==>
            AtMcu(d, old(Contents(blocks)), Contents(blocks), co, j + 1, NoPred(), mcu, co.chunks[j + 1][1..], tail)
  {
    hide Stands, ComesOut, McuGot, BlocksAfter, SegBits, FindMarker, Ends, HuffScanDecoder.Shape, BitReader.Valid,
         IsScan, GoodTables,
         AreLimits, HuffEncoder.Coded, BlocksBefore, McuInRange, SegOf;
    ghost var src, c0 := d.br.src, Contents(blocks);
    ReaderOf(d);
    ghost var p := d.br.SavedEnd().next;
    CourseFacts(d.sc, d.ts, d.limits, co);
    SegOfFacts(co, j);
    tail := SegmentAhead(d.sc, d.ts, d.limits, co, src, j + 1, p);
    ghost var st0 := DecState(NoPred(), 0, SegBits(src, p));
    ghost var more := co.chunks[j + 1][1..];
    ItComesOut(d.sc, d.ts, d.limits, NoPred(), st0, c0, co.chunks[j + 1], tail);
    if d.br.arrived == |src| {
      AllArrived(d.br);
    }
    var st := d.DecodeMcu(blocks);
    done := st.Done?;
    inside := d.restartsToGo != 0 || done;
    if inside {
      Attempt(d.sc, d.ts, d.limits, NoPred(), st0, c0, c0, done, d.State(), Contents(blocks), mcu, more, tail);
      if done {
        StandsWithBits(d.sc, d.ts, d.limits, PredAfter(d.sc, NoPred(), mcu), d.State(), more, tail);
      }
    }
  }

  lemma CourseFacts(sc: Scan, ts: Tables, limits: seq<nat>, co: Course)
    requires IsCourse(sc, ts, limits, co)
    ensures IsScan(sc) && GoodTables(ts) && IsMarker(co.marker) && |co.chunks| == |co.datas| > 0 && IsPred(NoPred())
    ensures |limits| == |sc.membership|
  {
  }

  /** Decode one MCU, waiting for bytes as often as it takes. */
  method DecodeOne(d: HuffScanDecoder, blocks: seq<array<JCOEF>>, pieces: seq<nat>, ghost co: Course, ghost j: nat,
                   ghost p: seq<int>,
                   ghost rem: Mcus, ghost mcu: Mcu, ghost tail: seq<bool>)
    returns (pieces': seq<nat>, ghost p': seq<int>, ghost tail': seq<bool>)
    requires IsCourse(d.sc, d.ts, d.limits, co) && AreBlocks(blocks) && |blocks| == |d.sc.membership| && tail != []
    requires if rem == [] then AtRestart(d, Contents(blocks), co, j, mcu)
             else rem[0] == mcu && AtMcu(d, Contents(blocks), Contents(blocks), co, j, p, mcu, rem[1..], tail)
    modifies d`lastDc, d`eobrun, d`restartsToGo, d`nextRestartNum, d.br, blocks
    ensures var j' := if rem == [] then j + 1 else j;
            && InSegment(d, co, j') && tail' != [] && |co.chunks| == |co.datas|
            && IsScan(d.sc) && |mcu| == |d.sc.membership|
            && BlocksAfter(d.sc, d.limits, old(Contents(blocks)), Contents(blocks), mcu)
            && (rem == [] ==> co.chunks[j'] != [])
            && IsPred(p') && Stands(d.sc, d.ts, d.limits, p', d.State(),
                if rem == [] then co.chunks[j'][1..] else rem[1..], tail')
            && p' == PredAfter(d.sc, if rem == [] then NoPred() else p, mcu)
    ensures d.restartsToGo == if rem == [] then d.sc.restartInterval - 1 else old(d.restartsToGo) - 1
  {
    hide Stands, ComesOut, McuGot, BlocksAfter, SegBits, FindMarker, Ends, HuffScanDecoder.Shape, BitReader.Valid,
         IsScan, GoodTables,
         AreLimits, HuffEncoder.Coded, BlocksBefore, McuInRange, SegOf;
    CourseFacts(d.sc, d.ts, d.limits, co);
    ghost var before := Contents(blocks);
    pieces' := pieces;
    var done := false;
    ghost var inside := rem != [];
    ghost var k, q, more := if rem == [] then j + 1 else j, if rem == [] then NoPred() else p,
        if rem == [] then [] else rem[1..];
    ghost var count := if rem == [] then d.sc.restartInterval else d.restartsToGo;
    tail' := tail;
    while !done
      invariant inside ==> k < |co.chunks| && tail' != [] && (rem == [] ==> co.chunks[k] != [])
      invariant inside ==> more == if rem == [] then co.chunks[k][1..] else rem[1..]
      invariant inside && !done ==>
                AtMcu(d, before, Contents(blocks), co, k, q, mcu, more, tail') && d.restartsToGo == count
      invariant !inside ==> rem == [] && AtRestart(d, Contents(blocks), co, j, mcu) && Contents(blocks) == before
      invariant done ==>
                  && inside && InSegment(d, co, k) && IsPred(q) && |mcu| == |d.sc.membership|
                  && BlocksAfter(d.sc, d.limits, before, Contents(blocks), mcu)
                  && Stands(d.sc, d.ts, d.limits, PredAfter(d.sc, q, mcu), d.State(), more, tail')
                  && d.restartsToGo == count - 1
      decreases !done, |d.br.src| - d.br.arrived
    {
      if d.restartsToGo == 0 && d.sc.restartInterval != 0 {
        done, inside, tail' := TryRestart(d, blocks, co, j, mcu);
        if inside {
          more := co.chunks[j + 1][1..];
        }
      } else {
        done := TryMcu(d, blocks, before, co, k, q, mcu, more, tail');
      }
      if !done {
        ReaderOf(d);
        pieces' := Receive(d.br, pieces');
      }
    }
    p' := PredAfter(d.sc, q, mcu);
  }

  // ----- the scan

  /** Between MCUs: left are the MCUs to come, rem those of the current segment. */
  ghost predicate Between(d: HuffScanDecoder, co: Course, j: nat, p: seq<int>, rem: Mcus, tail: seq<bool>,
                          left: Mcus, toGo: nat)
    reads d, d.br
  {
    && InSegment(d, co, j) && |co.chunks| == |co.datas| && tail != []
    && Stands(d.sc, d.ts, d.limits, p, d.State(), rem, tail)
    && Remaining(left, rem, co.chunks, j) && CounterFits(d.sc.restartInterval, toGo, rem, co.chunks, j)
    && (d.sc.restartInterval != 0 ==> toGo == d.restartsToGo) && (d.sc.ss > 0 ==> p == NoPred())
    && IsScan(d.sc) && IsPred(p) && AreMcus(d.sc, left) && ScanInRange(d.sc, p, toGo, left)
  }

  /** A decoder that has read nothing of its scan. */
  ghost predicate ReadNothing(d: HuffScanDecoder, co: Course, mcus: Mcus)
    reads d, d.br
  {
    && 0 < |co.datas| == |co.chunks| && d.Valid() && IsScan(d.sc) && AreMcus(d.sc, mcus) && IsPred(NoPred())
    && d.br.src == Coming(SegOf(co, 0), 0) && d.State() == DecState(NoPred(), 0, SegBits(d.br.src, 0))
    && d.br.savedPos == 0 && d.br.unreadMarker == 0 && !d.br.insufficientData && d.nextRestartNum == 0
    && d.restartsToGo == d.sc.restartInterval && ChunksFit(d.sc.restartInterval, co.chunks) && Join(co.chunks) == mcus
    && ScanInRange(d.sc, NoPred(), d.sc.restartInterval, mcus)
  }

  lemma AtStart(d: HuffScanDecoder, co: Course, mcus: Mcus) returns (tail: seq<bool>)
    requires IsCourse(d.sc, d.ts, d.limits, co) && ReadNothing(d, co, mcus)
    ensures Between(d, co, 0, NoPred(), co.chunks[0], tail, mcus, d.sc.restartInterval)
  {
    hide Stands, SegBits, FindMarker, Ends, HuffScanDecoder.Shape, IsScan, GoodTables, AreLimits, HuffEncoder.Coded,
         ScanInRange,
         IsCourse, BitReader.Valid, CounterFits, Remaining, ChunksFit, Coming;
    CourseFacts(d.sc, d.ts, d.limits, co);
    ReaderOf(d);
    assert d.br.src[0..] == d.br.src;
    tail := SegmentAhead(d.sc, d.ts, d.limits, co, d.br.src, 0, 0);
    WholeRemains(mcus, co.chunks);
    assert mcus[0..] == mcus;
    StartCounter(d.sc.restartInterval, co.chunks);
  }

  /** What stands before the decoder at the next MCU. */
  lemma Approach(d: HuffScanDecoder, co: Course, j: nat, p: seq<int>, rem: Mcus, tail: seq<bool>, left: Mcus,
                 toGo: nat, c: seq<Block>)
    returns (rest: Mcus, j': nat)
    requires IsCourse(d.sc, d.ts, d.limits, co) && ChunksFit(d.sc.restartInterval, co.chunks)
    requires Between(d, co, j, p, rem, tail, left, toGo) && left != [] && BlocksBefore(d.sc, c, left[0])
    ensures if rem == [] then AtRestart(d, c, co, j, left[0])
            else rem[0] == left[0] && AtMcu(d, c, c, co, j, p, left[0], rem[1..], tail)
    ensures j' == (if rem == [] then j + 1 else j) && j' < |co.chunks| && (rem == [] ==> co.chunks[j'] != [])
    ensures rest == (if rem == [] then co.chunks[j'][1..] else rem[1..])
    ensures Remaining(left[1..], rest, co.chunks, j') &&
            CounterFits(d.sc.restartInterval, NextToGo(d.sc.restartInterval, toGo), rest, co.chunks, j')
    ensures d.sc.restartInterval != 0 && toGo == 0 <==> rem == []
    ensures AreMcus(d.sc, left[1..]) && |left[0]| == |d.sc.membership|
    ensures var q := if rem == [] then NoPred() else p;
            IsPred(q) && ScanInRange(d.sc, PredAfter(d.sc, q, left[0]), NextToGo(d.sc.restartInterval, toGo), left[1..])
    ensures d.sc.ss > 0 ==> PredAfter(d.sc, if rem == [] then NoPred() else p, left[0]) == NoPred()
  {
    hide Stands, ComesOut, SegBits, FindMarker, Ends, HuffScanDecoder.Shape, BitReader.Valid, IsScan, GoodTables,
         AreLimits, HuffEncoder.Coded, BlocksBefore, McuInRange, SegOf, Remaining, ChunksFit, CounterFits;
    CourseFacts(d.sc, d.ts, d.limits, co);
    rest, j' := Ahead(d.sc.restartInterval, left, rem, co.chunks, j, toGo);
    AcScan(d.sc);
    if rem != [] {
      assert rem[0] == left[0] by { assert ([left[0]] + rest)[0] == left[0]; }
      assert rest == rem[1..];
      ItComesOut(d.sc, d.ts, d.limits, p, d.State(), c, rem, tail);
    } else {
      assert co.chunks[j'] == [left[0]] + rest;
    }
  }

  lemma AcScan(sc: Scan)
    requires IsScan(sc)
    ensures sc.ss > 0 ==> ModeOf(sc).AcFirst? || ModeOf(sc).AcRefine?
  {
  }

  /** The segments are those of mcus, which the encoder accepts. */
  ghost predicate CourseOf(sc: Scan, co: Course, mcus: Mcus) {
    && |co.datas| > 0 && ChunksFit(sc.restartInterval, co.chunks) && Join(co.chunks) == mcus
    && IsScan(sc) && AreMcus(sc, mcus) && IsPred(NoPred()) && ScanInRange(sc, NoPred(), sc.restartInterval, mcus)
  }

  /** Before the scan the blocks hold what earlier scans left; scans of the DC coefficient ask nothing of them. */
  ghost predicate ScanBefore(sc: Scan, initial: seq<seq<Block>>, mcus: Mcus) {
    && IsScan(sc) && |initial| == |mcus|
    && forall i :: 0 <= i < |mcus| ==> |initial[i]| == |sc.membership| && BlocksBefore(sc, initial[i], mcus[i])
  }

  /** After the scan the blocks that held the precision before it hold the coefficients to the precision of the
      scan, and a progressive scan has left all other coefficients alone. */
  ghost predicate ScanAfter(sc: Scan, limits: seq<nat>, initial: seq<seq<Block>>, decoded: seq<seq<Block>>,
                            mcus: Mcus) {
    && IsScan(sc) && |initial| == |decoded| == |mcus|
    && forall i :: 0 <= i < |mcus| ==> BlocksAfter(sc, limits, initial[i], decoded[i], mcus[i])
  }

  /** Decode a scan from bytes that arrive piece by piece; initial holds the blocks as they are before. */
  method DecodeScan(sc: Scan, ts: Tables, ds: seq<DDerived>, limits: seq<nat>, bytes: seq<byte>,
                    initial: seq<seq<Block>>,
                    pieces: seq<nat>, ghost mcus: Mcus, ghost co: Course)
    returns (decoded: seq<seq<Block>>)
    requires IsCourse(sc, ts, limits, co) && DecodesWith(ts, ds) && CourseOf(sc, co, mcus) &&
             ScanBefore(sc, initial, mcus)
    requires bytes == Coming(SegOf(co, 0), 0)
    ensures ScanAfter(sc, limits, initial, decoded, mcus)
  {
    hide Between, HuffScanDecoder.Valid, BitReader.Valid, IsScan, GoodTables, DecodesWith, AreLimits,
         HuffEncoder.Coded, BlocksAfter,
         BlocksBefore, ScanInRange, SegOf, Coming, SegBits, ChunksFit, Join, AreMcus;
    CourseFacts(sc, ts, limits, co);
    var d := new HuffScanDecoder(sc, ts, ds, limits, bytes);
    ghost var tail := AtStart(d, co, mcus);
    ghost var j, p, rem, toGo := 0, NoPred(), co.chunks[0], sc.restartInterval;
    var waiting := pieces;
    decoded := [];
    assert mcus[0..] == mcus;
    for i := 0 to |initial|
      invariant fresh(d) && fresh(d.br) && d.sc == sc && d.ts == ts && d.limits == limits
      invariant Between(d, co, j, p, rem, tail, mcus[i..], toGo)
      invariant |decoded| == i && forall k :: 0 <= k < i ==> BlocksAfter(sc, limits, initial[k], decoded[k], mcus[k])
    {
      assert mcus[i..][0] == mcus[i] && mcus[i..][1..] == mcus[i + 1..];
      var blocks;
      blocks, waiting, j, p, rem, tail, toGo := DecodeNext(d, initial[i], waiting, co, j, p, rem, tail, mcus[i..],
          toGo);
      decoded := decoded + [blocks];
    }
  }

  /** The next MCU of the scan. */
  method DecodeNext(d: HuffScanDecoder, before: seq<Block>, pieces: seq<nat>, ghost co: Course, ghost j: nat,
                    ghost p: seq<int>,
                    ghost rem: Mcus, ghost tail: seq<bool>, ghost left: Mcus, ghost toGo: nat)
    returns (after: seq<Block>, pieces': seq<nat>, ghost j': nat, ghost p': seq<int>, ghost rem': Mcus,
        ghost tail': seq<bool>,
             ghost toGo': nat)
    requires IsCourse(d.sc, d.ts, d.limits, co) && ChunksFit(d.sc.restartInterval, co.chunks)
    requires Between(d, co, j, p, rem, tail, left, toGo) && left != []
    requires |before| == |d.sc.membership| && BlocksBefore(d.sc, before, left[0])
    modifies d`lastDc, d`eobrun, d`restartsToGo, d`nextRestartNum, d.br
    ensures Between(d, co, j', p', rem', tail', left[1..], toGo')
    ensures IsScan(d.sc) && BlocksAfter(d.sc, d.limits, before, after, left[0])
  {
    hide Between, HuffScanDecoder.Valid, BitReader.Valid, IsScan, GoodTables, DecodesWith, AreLimits,
         HuffEncoder.Coded, BlocksAfter,
         BlocksBefore, ScanInRange, SegOf, Coming, SegBits, ChunksFit, Join, AtMcu, AtRestart, PredAfter, AreMcus,
             InSegment, Stands;
    var blocks := BlocksOf(before);
    rem', j' := Approach(d, co, j, p, rem, tail, left, toGo, before);
    BetweenFacts(d, co, j, p, rem, tail, left, toGo);
    pieces', p', tail' := DecodeOne(d, blocks, pieces, co, j, p, rem, left[0], tail);
    after := Contents(blocks);
    toGo' := NextToGo(d.sc.restartInterval, toGo);
    BetweenAgain(d, co, j', p', rem', tail', left[1..], toGo');
  }

  lemma BetweenFacts(d: HuffScanDecoder, co: Course, j: nat, p: seq<int>, rem: Mcus, tail: seq<bool>, left: Mcus,
                     toGo: nat)
    requires Between(d, co, j, p, rem, tail, left, toGo)
    ensures tail != [] && (d.sc.restartInterval != 0 ==> toGo == d.restartsToGo) && IsPred(p) && IsScan(d.sc)
  {
  }

  lemma BetweenAgain(d: HuffScanDecoder, co: Course, j: nat, p: seq<int>, rem: Mcus, tail: seq<bool>, left: Mcus,
                     toGo: nat)
    requires InSegment(d, co, j) && |co.chunks| == |co.datas| && tail != []
    requires Stands(d.sc, d.ts, d.limits, p, d.State(), rem, tail)
    requires Remaining(left, rem, co.chunks, j) && CounterFits(d.sc.restartInterval, toGo, rem, co.chunks, j)
    requires (d.sc.restartInterval != 0 ==> toGo == d.restartsToGo) && (d.sc.ss > 0 ==> p == NoPred())
    requires IsScan(d.sc) && IsPred(p) && AreMcus(d.sc, left) && ScanInRange(d.sc, p, toGo, left)
    ensures Between(d, co, j, p, rem, tail, left, toGo)
  {
  }
}
