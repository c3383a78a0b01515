// The arithmetic coder from end to end: what a scan encoder writes, a scan decoder reads back.
module ArithRoundTrip {
  import opened Coefs
  import opened Digits
  import opened Segments
  import opened ArithTable
  import opened ArithInterval
  import opened ArithBlock
  import opened ArithEncoder
  import opened ArithDecoder
  import opened ArithBlockCoder
  import opened ArithScan

  // ----- legal scans

  /** Along the scan, with predictions reset at restarts, every DC difference fits the coder. */
  ghost predicate ScanFits(sc: Scan, p: Pred, toGo: nat, mcus: Mcus)
    requires IsScan(sc) && IsPred(p) && AreMcus(sc, mcus)
    decreases |mcus|
  {
    mcus == [] ||
    var due := sc.restartInterval != 0 && toGo == 0;
    var p1 := if due then ZERO_PRED else p;
    && DcFits(sc, p1, mcus[0], 0)
    && ScanFits(sc, McuPred(sc, p1, mcus[0], 0), NextToGo(sc.restartInterval, toGo), mcus[1..])
  }

  /** The MCUs a decoder recovers: those without, in their segment up to and with them, a difference that does not
      fit; live says that the segment has been free of them so far. */
  ghost function Kept(sc: Scan, p: Pred, toGo: nat, live: bool, mcus: Mcus): (r: seq<bool>)
    requires IsScan(sc) && IsPred(p) && AreMcus(sc, mcus)
    ensures |r| == |mcus|
    decreases |mcus|
  {
    if mcus == [] then []
    else
      var due := sc.restartInterval != 0 && toGo == 0;
      var p1 := if due then ZERO_PRED else p;
      var now := (due || live) && DcFits(sc, p1, mcus[0], 0);
      [now] + Kept(sc, McuPred(sc, p1, mcus[0], 0), NextToGo(sc.restartInterval, toGo), now, mcus[1..])
  }

  predicate All(good: seq<bool>) {
    forall i :: 0 <= i < |good| ==> good[i]
  }

  lemma AllWithFirst(first: bool, more: seq<bool>)
    ensures All([first] + more) <==> first && All(more)
  {
    var s := [first] + more;
    assert s[0] == first && s[1..] == more;
    if All(s) {
      forall i | 0 <= i < |more| ensures more[i] {
        assert s[i + 1];
      }
    }
  }

  /** Every MCU is recovered exactly when every difference fits. */
  lemma {:induction false} KeptWhenFits(sc: Scan, p: Pred, toGo: nat, mcus: Mcus)
    requires IsScan(sc) && IsPred(p) && AreMcus(sc, mcus)
    ensures ScanFits(sc, p, toGo, mcus) <==> All(Kept(sc, p, toGo, true, mcus))
    decreases |mcus|
  {
    hide DcFits, McuPred;
    if mcus != [] {
      var p1 := if sc.restartInterval != 0 && toGo == 0 then ZERO_PRED else p;
      var fits := DcFits(sc, p1, mcus[0], 0);
      var q, n := McuPred(sc, p1, mcus[0], 0), NextToGo(sc.restartInterval, toGo);
      var kept, more := Kept(sc, p, toGo, true, mcus), Kept(sc, q, n, fits, mcus[1..]);
      assert kept == [fits] + more;
      KeptWhenFits(sc, q, n, mcus[1..]);
      AllWithFirst(fits, more);
    }
  }

  // ----- the encoder side

  /** The bytes of a scan: one segment for each restart interval, each a code value of its MCUs of which no zero
      byte at the end is written. */
  ghost predicate CodedScan(sc: Scan, t: Table, mcus: Mcus, bytes: seq<byte>, chunks: seq<Mcus>,
                            datas: seq<seq<byte>>) {
    && AllCoded(sc, t, chunks, datas) && Join(chunks) == mcus && (forall d :: d in datas ==> NoTrailingZero(d))
    && bytes == Wire(datas[..|datas| - 1]) + Stuff(datas[|datas| - 1])
  }

  lemma OneMore(segs: seq<Mcus>, cur: Mcus, segs': seq<Mcus>, cur': Mcus, mcus: Mcus, i: nat)
    requires i < |mcus| && Join(segs + [cur]) == mcus[..i]
    requires if segs' == segs then cur' == cur + [mcus[i]] else segs' == segs + [cur] && cur' == [mcus[i]]
    ensures Join(segs' + [cur']) == mcus[..i + 1]
  {
    hide Join;
    JoinAppend(segs, cur);
    JoinAppend(segs, cur + [mcus[i]]);
    JoinAppend(segs + [cur], [mcus[i]]);
    assert mcus[..i + 1] == mcus[..i] + [mcus[i]];
    assert Join(segs) + (cur + [mcus[i]]) == Join(segs) + cur + [mcus[i]];
  }

  method EncodeScan(sc: Scan, t: Table, mcus: Mcus)
    returns (bytes: seq<byte>, ghost chunks: seq<Mcus>, ghost datas: seq<seq<byte>>)
    requires IsScan(sc) && HasFixedEntry(t) && AreMcus(sc, mcus)
    ensures CodedScan(sc, t, mcus, bytes, chunks, datas) && OnlyRestarts(bytes)
  {
    hide Codes, Wire, Stuff, Join, IsScan, ArithBlockCoder.Ready, SegmentPlan, OnlyRestarts;
    var e := new ScanEncoder(sc, t);
    JoinAppend([], []);
    assert Join([]) == [] && mcus[..0] == [] by { NothingJoined(); }
    for i := 0 to |mcus|
      invariant e.Valid() && fresh(e) && fresh(e.coder) && fresh(e.coder.stats) && e.sc == sc && e.coder.table == t
      invariant Join(e.segs + [e.cur]) == mcus[..i]
    {
      ghost var segs, cur := e.segs, e.cur;
      e.EncodeMcu(mcus[i]);
      OneMore(segs, cur, e.segs, e.cur, mcus, i);
    }
    assert mcus[..|mcus|] == mcus;
    e.FinishPass();
    bytes, chunks, datas := e.coder.out, e.segs + [e.cur], e.datas + [e.coder.emitted];
    assert datas[..|datas| - 1] == e.datas;
    ScanHasOnlyRestarts(e.datas, e.coder.emitted);
  }

  // ----- the decoder side

  /** The decoded blocks agree with mcu at every coded position. */
  ghost predicate SameCoefs(sc: Scan, got: seq<seq<JCOEF>>, mcu: seq<Block>)
    requires IsScan(sc)
  {
    && |got| == |mcu|
    && forall i :: 0 <= i < |mcu| ==>
         |got[i]| == 64 && forall k :: 0 <= k <= sc.limSe ==> got[i][sc.order[k]] == mcu[i][sc.order[k]]
  }

  lemma ContentsMatch(sc: Scan, blocks: seq<array<JCOEF>>, mcu: seq<Block>)
    requires IsScan(sc) && |blocks| == |mcu| && AreBlocks(blocks)
    requires forall i :: 0 <= i < |blocks| ==> Matches(sc, blocks[i], mcu[i])
    ensures SameCoefs(sc, Contents(blocks), mcu)
  {
  }

  /** A code value for a segment feeds a decoder that has just started on it. */
  lemma SegmentStarts(d: ArithDecoder, sc: Scan, mcus: Mcus, s: Segment)
    requires d.pos <= |d.src| && IsMarker(s.marker) && d.unreadMarker == 0 && d.src[d.pos..] == Coming(s, 0)
    requires d.got == [] && d.hist == [] && d.start == InitStats() && Codes(sc, d.table, mcus, s.data)
    ensures Follows(d, s, SegmentTrace(sc, ZERO_PRED, mcus, Done))
  {
    hide SegmentTrace, Plan, Flat, IsOrder;
    PlanIsFlat([], SegmentTrace(sc, ZERO_PRED, mcus, Done));
  }

  /** Between MCUs the decoder is in segment j of the scan, of which rem is left, decoding it or having given it up;
      left are all MCUs to come. */
  ghost predicate Stands(d: ScanDecoder, chunks: seq<Mcus>, datas: seq<seq<byte>>, marker: byte, rest: seq<byte>,
                         j: nat, rem: Mcus, left: Mcus, live: bool)
    reads d, d.coder, d.coder.stats
  {
    && d.Valid() && d.coder.start == InitStats()
    && j < |chunks| == |datas| && d.nextRestartNum == j % 8 && AreMcus(d.sc, rem) && AreMcus(d.sc, left)
    && Remaining(left, rem, chunks, j) && CounterFits(d.sc.restartInterval, d.restartsToGo, rem, chunks, j)
    && InSegment(d, SegAt(datas, j, marker, rest), rem, live)
  }

  ghost predicate InSegment(d: ScanDecoder, s: Segment, rem: Mcus, live: bool)
    requires d.Valid() && AreMcus(d.sc, rem)
    reads d, d.coder, d.coder.stats
  {
    if live then Alive(d.coder) && Follows(d.coder, s, SegmentTrace(d.sc, Pred(d.lastDc, d.dcContext), rem, Done))
    else GaveUp(d.coder, s)
  }

  ghost predicate AllCoded(sc: Scan, t: Table, chunks: seq<Mcus>, datas: seq<seq<byte>>) {
    |chunks| == |datas| && ChunksFit(sc.restartInterval, chunks) && forall j :: 0 <= j < |datas| ==>
        Codes(sc, t, chunks[j], datas[j])
  }

  /** The segment the next MCU is in. */
  ghost function SegmentOf(rem: Mcus, j: nat): nat {
    if rem == [] then j + 1 else j
  }

  ghost function RestOf(rem: Mcus, chunks: seq<Mcus>, j: nat): Mcus {
    if rem == [] && j + 1 < |chunks| then chunks[j + 1] else rem
  }

  /** The decoder stands before the next MCU of its segment, or before the restart marker that leads to the next
      segment, unless it has given up the segment. */
  ghost predicate Boundary(d: ScanDecoder, chunks: seq<Mcus>, datas: seq<seq<byte>>, marker: byte, rest: seq<byte>,
                           j: nat, rem: Mcus, left: Mcus, live: bool)
    reads d, d.coder, d.coder.stats
  {
    var j', rem' := SegmentOf(rem, j), RestOf(rem, chunks, j);
    && j <= j' < |chunks| == |datas| && rem' != [] && left != [] && rem'[0] == left[0] && AreMcus(d.sc, rem')
    && (rem == [] ==> j' == j + 1) && Remaining(left[1..], rem'[1..], chunks, j')
    && d.Due() == (rem == []) && |left[0]| == |d.sc.membership|
    && if rem == [] || live then d.Before(SegAt(datas, j, marker, rest), SegAt(datas, j', marker, rest), rem')
       else GaveUp(d.coder, SegAt(datas, j, marker, rest)) && d.coder.ct == -1
  }

  lemma AtBoundary(d: ScanDecoder, chunks: seq<Mcus>, datas: seq<seq<byte>>, marker: byte, rest: seq<byte>,
                   j: nat, rem: Mcus, left: Mcus, live: bool)
    requires Stands(d, chunks, datas, marker, rest, j, rem, left, live) && left != []
    requires AllCoded(d.sc, d.coder.table, chunks, datas) && IsMarker(marker)
    ensures Boundary(d, chunks, datas, marker, rest, j, rem, left, live)
  {
    hide SegmentTrace, Join, IsScan, Alive, GaveUp, Coming, Follows, Codes, McuPred, Remaining, SegAt,
         ScanDecoder.Before;
    DueWhenDone(d.sc.restartInterval, d.restartsToGo, rem, left, chunks, j);
    if rem == [] {
      NextNotEmpty(d.sc.restartInterval, left, chunks, j);
      StillFed(d, SegAt(datas, j, marker, rest), live);
      BetweenSegments(d, datas, j, marker, rest);
      BeforeRestart(d, chunks, datas, marker, rest, j);
    } else {
      TakeOne(left, rem, chunks, j);
      if live {
        SegMarker(datas, j, marker, rest);
        BeforeNext(d, SegAt(datas, j, marker, rest), rem);
      } else {
        GaveUpFacts(d.coder, SegAt(datas, j, marker, rest));
      }
    }
  }

  lemma StillFed(d: ScanDecoder, s: Segment, live: bool)
    requires d.Valid() && AreMcus(d.sc, []) && InSegment(d, s, [], live)
    ensures d.coder.Feeds(s) && Consistent(d.coder)
  {
    hide Run, InRange, Inside, SegmentTrace, IsScan, ArithDecoder.Feeds;
    if live {
      AliveIsConsistent(d.coder);
    }
  }

  lemma BeforeNext(d: ScanDecoder, seg: Segment, rem: Mcus)
    requires d.Valid() && Alive(d.coder) && d.coder.start == InitStats() && AreMcus(d.sc, rem) &&
             IsMarker(seg.marker) && !d.Due()
    requires Follows(d.coder, seg, SegmentTrace(d.sc, Pred(d.lastDc, d.dcContext), rem, Done))
    ensures d.Before(seg, seg, rem)
  {
    hide Follows, Alive, SegmentTrace, IsScan;
  }

  lemma BeforeRestart(d: ScanDecoder, chunks: seq<Mcus>, datas: seq<seq<byte>>, marker: byte, rest: seq<byte>, j: nat)
    requires d.Valid() && Consistent(d.coder) && d.coder.start == InitStats() && d.Due() && j + 1 < |chunks|
    requires AllCoded(d.sc, d.coder.table, chunks, datas)
    requires var prev, seg := SegAt(datas, j, marker, rest), SegAt(datas, j + 1, marker, rest);
            && d.coder.Feeds(prev) && prev.marker == Rst(d.nextRestartNum) && prev.rest == Coming(seg, 0)
            && IsMarker(prev.marker) && IsMarker(seg.marker)
    ensures d.Before(SegAt(datas, j, marker, rest), SegAt(datas, j + 1, marker, rest), chunks[j + 1])
    ensures AreMcus(d.sc, chunks[j + 1])
  {
    hide Consistent, IsScan, Coming, Codes;
    SegMarker(datas, j + 1, marker, rest);
    assert Codes(d.sc, d.coder.table, chunks[j + 1], datas[j + 1]);
    CodesMcus(d.sc, d.coder.table, chunks[j + 1], datas[j + 1]);
  }

  lemma SegMarker(datas: seq<seq<byte>>, j: nat, marker: byte, rest: seq<byte>)
    requires j < |datas|
    ensures SegAt(datas, j, marker, rest).data == datas[j] && (IsMarker(marker) ==>
            IsMarker(SegAt(datas, j, marker, rest).marker))
  {
  }

  /** At the end of segment j its restart marker comes. */
  lemma BetweenSegments(d: ScanDecoder, datas: seq<seq<byte>>, j: nat, marker: byte, rest: seq<byte>)
    requires j + 1 < |datas| && d.nextRestartNum == j % 8 && IsScan(d.sc) && IsMarker(marker)
    requires d.coder.Feeds(SegAt(datas, j, marker, rest))
    ensures var prev, seg := SegAt(datas, j, marker, rest), SegAt(datas, j + 1, marker, rest);
            && d.coder.Feeds(prev) && prev.marker == Rst(d.nextRestartNum) && prev.rest == Coming(seg, 0)
            && IsMarker(prev.marker) && IsMarker(seg.marker)
  {
    hide Coming, IsScan, Run, InRange, Inside;
  }

  lemma CodesMcus(sc: Scan, t: Table, mcus: Mcus, data: seq<byte>)
    requires Codes(sc, t, mcus, data)
    ensures AreMcus(sc, mcus)
  {
  }

  /** After the MCU it stands one further. */
  lemma AfterMcu(d: ScanDecoder, chunks: seq<Mcus>, datas: seq<seq<byte>>, marker: byte, rest: seq<byte>,
                 j: nat, rem: Mcus, left: Mcus, toGo: nat, live: bool)
    requires d.Valid() && d.coder.start == InitStats()
    requires j < |chunks| == |datas| && left != [] && AreMcus(d.sc, left)
    requires ChunksFit(d.sc.restartInterval, chunks) && CounterFits(d.sc.restartInterval, toGo, rem, chunks, j)
    requires rem == [] ==> j + 1 < |chunks|
    requires (d.sc.restartInterval != 0 && toGo == 0) == (rem == [])
    requires var j', rem' := SegmentOf(rem, j), RestOf(rem, chunks, j);
             && rem' != [] && rem'[0] == left[0] && AreMcus(d.sc, rem') && Remaining(left[1..], rem'[1..], chunks, j')
             && InSegment(d, SegAt(datas, j', marker, rest), rem'[1..], live)
             && d.nextRestartNum == j' % 8
    requires d.restartsToGo == NextToGo(d.sc.restartInterval, toGo)
    ensures Stands(d, chunks, datas, marker, rest, SegmentOf(rem, j), RestOf(rem, chunks, j)[1..], left[1..], live)
  {
    hide InSegment, IsOrder, Join, IsScan, ChunksFit, Remaining, CounterFits;
    NextCounter(d.sc.restartInterval, toGo, rem, chunks, j, SegmentOf(rem, j), RestOf(rem, chunks, j));
  }

  lemma AtStart(d: ScanDecoder, chunks: seq<Mcus>, datas: seq<seq<byte>>, marker: byte, rest: seq<byte>, mcus: Mcus)
    requires d.Valid() && Alive(d.coder) && d.coder.start == InitStats() && d.coder.hist == [] && d.coder.got == []
    requires d.coder.pos == 0 && d.coder.unreadMarker == 0 && Pred(d.lastDc, d.dcContext) == ZERO_PRED
    requires d.restartsToGo == d.sc.restartInterval && d.nextRestartNum == 0 && IsMarker(marker)
    requires AllCoded(d.sc, d.coder.table, chunks, datas) && Join(chunks) == mcus && AreMcus(d.sc, mcus)
    requires |chunks| > 0 && d.coder.src == Coming(SegAt(datas, 0, marker, rest), 0)
    ensures Stands(d, chunks, datas, marker, rest, 0, chunks[0], mcus, true)
  {
    hide SegmentTrace, IsOrder, Join, IsScan, Alive, Follows, Coming, Codes;
    WholeRemains(mcus, chunks);
    assert mcus[0..] == mcus;
    StartCounter(d.sc.restartInterval, chunks);
    CodesMcus(d.sc, d.coder.table, chunks[0], datas[0]);
    assert d.coder.src[0..] == d.coder.src;
    SegMarker(datas, 0, marker, rest);
    SegmentStarts(d.coder, d.sc, chunks[0], SegAt(datas, 0, marker, rest));
  }

  /** What is known of the predictions p of a decoder, and what it recovers from here on. */
  ghost predicate Recovers(d: ScanDecoder, p: Pred, left: Mcus, live: bool, kept: seq<bool>)
    reads d
  {
    && IsScan(d.sc) && IsPred(p) && AreMcus(d.sc, left) && (live ==> p == Pred(d.lastDc, d.dcContext))
    && kept == Kept(d.sc, p, d.restartsToGo, live, left)
  }

  /** Decode all MCUs of a scan; good says which of them were decoded without an error. Those are exactly the MCUs
      whose segment has no unfit difference up to them. */
  method DecodeScan(sc: Scan, t: Table, bytes: seq<byte>, count: nat,
                    ghost mcus: Mcus, ghost chunks: seq<Mcus>, ghost datas: seq<seq<byte>>,
                    ghost marker: byte, ghost rest: seq<byte>)
    returns (good: seq<bool>, decoded: seq<seq<seq<JCOEF>>>)
    requires IsScan(sc) && HasFixedEntry(t) && AreMcus(sc, mcus) && count == |mcus|
    requires AllCoded(sc, t, chunks, datas) && Join(chunks) == mcus && |chunks| > 0 && IsMarker(marker)
    requires bytes == Coming(SegAt(datas, 0, marker, rest), 0)
    ensures good == Kept(sc, ZERO_PRED, sc.restartInterval, true, mcus) && |decoded| == |mcus|
    ensures forall i :: 0 <= i < |mcus| && good[i] ==> SameCoefs(sc, decoded[i], mcus[i])
  {
    hide Stands, AllCoded, Coming, Alive, SegmentTrace, McuPred, DcFits, IsOrder, Matches, Join, SameCoefs, IsZero,
         Kept;
    var d := new ScanDecoder(sc, t, bytes);
    ghost var j: nat, rem, live, p := 0, chunks[0], true, ZERO_PRED;
    AtStart(d, chunks, datas, marker, rest, mcus);
    good, decoded := [], [];
    assert mcus[0..] == mcus;
    ghost var kept := Kept(sc, p, sc.restartInterval, live, mcus);
    for i := 0 to count
      invariant fresh(d) && fresh(d.coder) && fresh(d.coder.stats) && d.sc == sc && d.coder.table == t
      invariant Stands(d, chunks, datas, marker, rest, j, rem, mcus[i..], live)
      invariant |kept| == |mcus| && Recovers(d, p, mcus[i..], live, kept[i..])
      invariant |decoded| == |good| == i && good == kept[..i]
      invariant forall n :: 0 <= n < i && good[n] ==> SameCoefs(sc, decoded[n], mcus[n])
    {
      var blocks := NewBlocks(|sc.membership|);
      ghost var left := mcus[i..];
      assert left[0] == mcus[i] && left[1..] == mcus[i + 1..];
      assert kept[i..][0] == kept[i] && kept[i..][1..] == kept[i + 1..];
      var ok;
      ok, p := DecodeOne(d, blocks, chunks, datas, marker, rest, j, rem, left, live, p, kept[i..]);
      good, decoded := good + [ok], decoded + [Contents(blocks)];
      j, rem, live := SegmentOf(rem, j), RestOf(rem, chunks, j)[1..], ok;
    }
  }

  lemma StandsWith(d: ScanDecoder, chunks: seq<Mcus>, datas: seq<seq<byte>>, marker: byte, rest: seq<byte>,
                   j: nat, rem: Mcus, left: Mcus, live: bool)
    requires Stands(d, chunks, datas, marker, rest, j, rem, left, live) && AllCoded(d.sc, d.coder.table, chunks, datas)
    ensures d.Valid() && d.coder.start == InitStats() && IsScan(d.sc) && AreMcus(d.sc, left)
    ensures j < |chunks| == |datas| && d.nextRestartNum == j % 8
    ensures ChunksFit(d.sc.restartInterval, chunks) && CounterFits(d.sc.restartInterval, d.restartsToGo, rem, chunks, j)
  {
    hide Codes, InSegment, Remaining, ChunksFit, CounterFits;
  }

  /** What is recovered at the next MCU and after it. */
  lemma KeptNext(d: ScanDecoder, p: Pred, left: Mcus, live: bool, kept: seq<bool>)
    returns (p': Pred)
    requires Recovers(d, p, left, live, kept) && left != []
    ensures |left[0]| == |d.sc.membership| && IsPred(if d.Due() then ZERO_PRED else p)
    ensures p' == McuPred(d.sc, if d.Due() then ZERO_PRED else p, left[0], 0) && IsPred(p')
    ensures |kept| == |left|
    ensures kept[0] == ((d.Due() || live) && DcFits(d.sc, if d.Due() then ZERO_PRED else p, left[0], 0))
    ensures AreMcus(d.sc, left[1..])
    ensures kept[1..] == Kept(d.sc, p', NextToGo(d.sc.restartInterval, d.restartsToGo), kept[0], left[1..])
  {
    hide McuPred, DcFits, IsScan;
    p' := McuPred(d.sc, if d.Due() then ZERO_PRED else p, left[0], 0);
  }

  method DecodeOne(d: ScanDecoder, blocks: seq<array<JCOEF>>, ghost chunks: seq<Mcus>, ghost datas: seq<seq<byte>>,
                   ghost marker: byte, ghost rest: seq<byte>, ghost j: nat, ghost rem: Mcus, ghost left: Mcus,
                   ghost live: bool, ghost p: Pred, ghost kept: seq<bool>)
    returns (ok: bool, ghost p': Pred)
    requires Stands(d, chunks, datas, marker, rest, j, rem, left, live) && left != []
    requires Recovers(d, p, left, live, kept)
    requires AllCoded(d.sc, d.coder.table, chunks, datas) && IsMarker(marker)
    requires AreBlocks(blocks) && |blocks| == |d.sc.membership| && forall i :: 0 <= i < |blocks| ==> IsZero(blocks[i])
    modifies d, d.coder, d.coder.stats, blocks
    ensures RestOf(rem, chunks, j) != [] && |kept| == |left| && ok == kept[0]
    ensures Stands(d, chunks, datas, marker, rest, SegmentOf(rem, j), RestOf(rem, chunks, j)[1..], left[1..], ok)
    ensures Recovers(d, p', left[1..], ok, kept[1..])
    ensures ok ==> IsScan(d.sc) && SameCoefs(d.sc, Contents(blocks), left[0])
  {
    hide Coming, Alive, GaveUp, Follows, SegmentTrace, McuPred, DcFits, IsScan, Matches, Join, SameCoefs, IsZero, Codes,
         Remaining, ChunksFit, CounterFits, NextToGo, SegAt, Stands, AllCoded, HasFixedEntry, Kept, ScanDecoder.Before;
    StandsWith(d, chunks, datas, marker, rest, j, rem, left, live);
    AtBoundary(d, chunks, datas, marker, rest, j, rem, left, live);
    p' := KeptNext(d, p, left, live, kept);
    ghost var toGo, due := d.restartsToGo, d.Due();
    ghost var j', rem' := SegmentOf(rem, j), RestOf(rem, chunks, j);
    var status := d.DecodeMcu(blocks, SegAt(datas, j, marker, rest), SegAt(datas, j', marker, rest), rem');
    ok := status.Good?;
    if ok {
      ContentsMatch(d.sc, blocks, rem'[0]);
    }
    AfterMcu(d, chunks, datas, marker, rest, j, rem, left, toGo, ok);
  }

  /** Coding a scan and decoding it, through carries, stuffing, dropped zeros and restarts, for every table and
      whatever follows the final marker: no byte of the scan reads as a marker except the restart markers, and
      the coded coefficients come back, of all MCUs when every DC difference fits. An encoder codes any
      difference; after one that does not fit the rest of its segment is lost, and no more. */
  method RoundTrip(sc: Scan, t: Table, mcus: Mcus, marker: byte, rest: seq<byte>)
    returns (bytes: seq<byte>, good: seq<bool>, decoded: seq<seq<seq<JCOEF>>>, ghost chunks: seq<Mcus>,
             ghost datas: seq<seq<byte>>)
    requires IsScan(sc) && HasFixedEntry(t) && AreMcus(sc, mcus) && IsMarker(marker)
    ensures CodedScan(sc, t, mcus, bytes, chunks, datas) && OnlyRestarts(bytes)
    ensures good == Kept(sc, ZERO_PRED, sc.restartInterval, true, mcus) && |decoded| == |mcus|
    ensures All(good) <==> ScanFits(sc, ZERO_PRED, sc.restartInterval, mcus)
    ensures forall i :: 0 <= i < |mcus| && good[i] ==> SameCoefs(sc, decoded[i], mcus[i])
  {
    hide Codes, Coming, IsScan, Wire, Stuff, Join, ScanFits, SameCoefs, OnlyRestarts, Kept, NoTrailingZero;
    bytes, chunks, datas := EncodeScan(sc, t, mcus);
    WireIsChain(datas, 0, marker, rest);
    assert datas[..0] == [];
    WireEmpty();
    ghost var tail := Coming(SegAt(datas, 0, marker, rest), 0);
    assert [] + tail == tail;
    assert bytes + [0xFF, marker] + rest == tail;
    KeptWhenFits(sc, ZERO_PRED, sc.restartInterval, mcus);
    good, decoded := DecodeScan(sc, t, bytes + [0xFF, marker] + rest, |mcus|, mcus, chunks, datas, marker, rest);
  }

  /** A scan of one component and no restarts. */
  function OneComponent(order: seq<nat>): Scan {
    Scan([Component(0, 0)], [0], 63, order, seq(NUM_ARITH_TBLS, _ => 0), seq(NUM_ARITH_TBLS, _ => 1),
         seq(NUM_ARITH_TBLS, _ => 5), 0)
  }

  /** A block with this DC value and no AC coefficients. */
  function DcBlock(dc: JCOEF): Block {
    seq(64, i => if i == 0 then dc else 0)
  }

  /** Both DC values are ordinary coefficients, and the encoder codes their difference, but the decoder takes the
      second MCU for corrupt. */
  lemma LargeStepIsLost(order: seq<nat>)
    requires IsOrder(order)
    ensures var sc, mcus := OneComponent(order), [[DcBlock(-2)], [DcBlock(0x7FFF)]];
            && IsScan(sc) && AreMcus(sc, mcus) && -0x1_0000 < 0x7FFF - -2 < 0x1_0000
            && Kept(sc, ZERO_PRED, sc.restartInterval, true, mcus) == [true, false]
  {
    hide IsOrder, NextContext;
    var sc := OneComponent(order);
    var a: Mcu, b: Mcu := [DcBlock(-2)], [DcBlock(0x7FFF)];
    var p := McuPred(sc, ZERO_PRED, a, 0);
    assert p == NextPred(sc, ZERO_PRED, 0, a[0]);
    assert [a, b][1..] == [b] && [b][1..] == [];
    assert DcFits(sc, ZERO_PRED, a, 0);
    assert !DcFits(sc, p, b, 0);
    assert Kept(sc, p, 0, true, [b]) == [false] + Kept(sc, McuPred(sc, p, b, 0), 0, false, []);
  }

  lemma NothingJoined()
    ensures Join([]) == []
  {
  }

  lemma WireEmpty()
    ensures Wire([]) == []
  {
  }
}
