// A Huffman-coded scan, from coefficients to bytes and back, in every coding mode.
module HuffScanRoundTrip {
  import opened Coefs
  import opened Digits
  import opened Segments
  import opened HuffCode
  import opened HuffTables
  import opened HuffBits
  import opened HuffScan
  import opened HuffMerge
  import opened HuffWriter
  import opened HuffEncoder
  import opened HuffEncodeScan
  import opened HuffSlots
  import opened HuffTwoPass
  import opened HuffDecoder
  import opened HuffRoundTrip
  import opened HuffDecodeScan

  /** What is asked of a scan: parameters and coefficients the encoder accepts, and acceptable tables, in the slots
      the scan uses, with a code for every symbol needed. */
  ghost predicate CanCode(sc: Scan, ts: Tables, mcus: Mcus) {
    && IsScan(sc) && AreMcus(sc, mcus) && Acceptable(sc, ts) && IsPred(NoPred())
    && ScanInRange(sc, NoPred(), sc.restartInterval, mcus) && AllCovered(sc, ts, Chunks(sc.restartInterval, mcus))
  }

  /** Code a scan: the tables of the scan are derived, and every symbol has a code. */
  method EncodeScan(sc: Scan, ts: Tables, mcus: Mcus) returns (bytes: seq<byte>, ghost datas: seq<seq<byte>>)
    requires CanCode(sc, ts, mcus)
    ensures CodedScan(sc, ts, mcus, bytes, datas) && OnlyRestarts(bytes)
  {
    hide OnlyRestarts, IsScan, Acceptable, ScanInRange, AllCovered, Chunks, HuffEncoder.Coded, Wire, Stuff, Derived,
         Slots, Used;
    var ok, cs := DeriveTables(sc, ts);
    UsedCovered(sc, ts, mcus);
    var st, e := CodeScan(sc, false, Used(sc, ts), cs, mcus);
    UsedCodes(sc, ts, mcus, e.w.out, e.datas);
    bytes, datas := e.w.out, e.datas;
    ScanHasOnlyRestarts(datas[..|datas| - 1], datas[|datas| - 1]);
  }

  /** Decode a coded scan, whatever follows its data. */
  method DecodeCoded(sc: Scan, ts: Tables, limits: seq<nat>, bytes: seq<byte>, initial: seq<seq<Block>>,
                     pieces: seq<nat>, marker: byte, rest: seq<byte>, ghost mcus: Mcus, ghost datas: seq<seq<byte>>)
    returns (decoded: seq<seq<Block>>)
    requires IsScan(sc) && AreMcus(sc, mcus) && Readable(sc, ts) && CodedScan(sc, ts, mcus, bytes, datas)
    requires IsPred(NoPred()) && ScanInRange(sc, NoPred(), sc.restartInterval, mcus)
    requires AreLimits(sc, limits) && IsMarker(marker) && ScanBefore(sc, initial, mcus)
    ensures ScanAfter(sc, limits, initial, decoded, mcus)
  {
    hide IsScan, Readable, ScanInRange, Chunks, HuffEncoder.Coded, Wire, Stuff, Coming, ChunksFit, Join, GoodTables,
         Slots, Used, DecodesWith;
    var ok, ds := DeriveForDecoder(sc, ts);
    UsedCodes(sc, ts, mcus, bytes, datas);
    ghost var co := Course(Chunks(sc.restartInterval, mcus), datas, marker, rest);
    ChunksAre(sc.restartInterval, mcus);
    OnTheWire(co);
    decoded := DecodeScan(sc, Used(sc, ts), ds, limits, bytes + [0xFF, marker] + rest, initial, pieces, mcus, co);
  }

  /** Coding a scan and decoding it brings every coefficient from the precision before to that of the scan: for
      sequential scans, first scans and refinements, any restart interval, any bytes after the final marker, and
      any division of the bytes into arriving pieces. */
  method RoundTrip(sc: Scan, ts: Tables, limits: seq<nat>, mcus: Mcus, initial: seq<seq<Block>>, pieces: seq<nat>,
                   marker: byte, rest: seq<byte>)
    returns (bytes: seq<byte>, decoded: seq<seq<Block>>, ghost datas: seq<seq<byte>>)
    requires CanCode(sc, ts, mcus) && AreLimits(sc, limits) && IsMarker(marker) && ScanBefore(sc, initial, mcus)
    ensures CodedScan(sc, ts, mcus, bytes, datas) && OnlyRestarts(bytes)
    ensures ScanAfter(sc, limits, initial, decoded, mcus)
  {
    hide OnlyRestarts, IsScan, Acceptable, Readable, ScanInRange, AllCovered, Chunks, HuffEncoder.Coded, Wire, Stuff;
    bytes, datas := EncodeScan(sc, ts, mcus);
    AcceptableIsReadable(sc, ts);
    decoded := DecodeCoded(sc, ts, limits, bytes, initial, pieces, marker, rest, mcus, datas);
  }

  lemma OnTheWire(co: Course)
    requires |co.datas| > 0
    ensures var n := |co.datas| - 1;
            Wire(co.datas[..n]) + Stuff(co.datas[n]) + [0xFF, co.marker] + co.rest == Coming(SegOf(co, 0), 0)
  {
    hide Stuff, Coming;
    WireIsChain(co.datas, 0, co.marker, co.rest);
    assert co.datas[..0] == [];
    assert Wire([]) == [];
    var tail := Coming(SegOf(co, 0), 0);
    assert [] + tail == tail;
  }

  /** Optimised tables are found for the scan and it is read back, unless a coefficient is out of range or an
      optimal code size exceeds 32 bits; the latter takes nine million symbols. */
  method OptimizedRoundTrip(sc: Scan, limits: seq<nat>, mcus: Mcus, before: Tables,
                            initial: seq<seq<Block>>, pieces: seq<nat>, marker: byte, rest: seq<byte>)
    returns (r: Outcome, decoded: seq<seq<Block>>, ghost datas: seq<seq<byte>>)
    requires IsScan(sc) && AllPresent(sc) && AreMcus(sc, mcus) && mcus != []
    requires forall j :: 0 <= j < |Chunks(sc.restartInterval, mcus)| ==>
             AreMcus(sc, Chunks(sc.restartInterval, mcus)[j])
    requires |AllOps(sc, Chunks(sc.restartInterval, mcus))| < HUGE
    requires AreLimits(sc, limits) && IsMarker(marker) && ScanBefore(sc, initial, mcus)
    ensures r.BadCoefs? <==> !ScanInRange(sc, NoPred(), sc.restartInterval, mcus)
    ensures r.LengthOverflow? <==> !r.BadCoefs? && CannotBuild(sc, Chunks(sc.restartInterval, mcus))
    ensures r.LengthOverflow? ==> |AllOps(sc, Chunks(sc.restartInterval, mcus))| + 1 >= MANY
    ensures r.Written? ==>
              && OptimalTables(sc, Chunks(sc.restartInterval, mcus), r.tables)
              && (forall t :: 0 <= t < 8 && t !in Slots(sc) ==> r.tables[t] == before[t])
              && CodedScan(sc, r.tables, mcus, r.bytes, datas) && OnlyRestarts(r.bytes)
    ensures r.Written? ==> ScanAfter(sc, limits, initial, decoded, mcus)
  {
    hide OnlyRestarts, IsScan, Acceptable, ScanInRange, AllCovered, Chunks, HuffEncoder.Coded, Wire, Stuff, Coming,
         ChunksFit, Join, GoodTables, Derived, Slots, Used,
         Readable, AllOps, AllPresent, GoodSymbols, Legal, CannotBuild, OptimalTables;
    decoded := [];
    r, datas := OptimizedScan(sc, mcus, before);
    if r.Written? {
      ScanHasOnlyRestarts(datas[..|datas| - 1], datas[|datas| - 1]);
      AcceptableIsReadable(sc, r.tables);
      decoded := DecodeCoded(sc, r.tables, limits, r.bytes, initial, pieces, marker, rest, mcus, datas);
    }
  }
}
