// A whole file of Huffman-coded scans: markers and data, written, read, and decoded with what the markers said.
module HuffFile {
  import opened Coefs
  import opened Digits
  import opened Segments
  import opened HuffCode
  import opened HuffBits
  import opened HuffScan
  import opened HuffSlots
  import opened HuffRoundTrip
  import opened HuffDecodeScan
  import opened HuffScanRoundTrip
  import HES = HuffEncodeScan
  import HT = HuffTables
  import MS = MarkerSyntax
  import MW = MarkerWriter
  import MP = MarkerPrint
  import MR = MarkerReader
  import MRT = MarkerRoundTrip

  // ----- what the markers say

  /** The bytes of a list as numbers, filled up with zeros. */
  function Numbers(vals: seq<byte>, n: nat): (r: seq<nat>)
    ensures |r| == n
  {
    seq(n, k requires 0 <= k => if k < |vals| then vals[k] else 0)
  }

  /** A table as the entropy coders hold it, or none. */
  function TableOf(t: MS.Option<MS.HuffSpec>): HuffTbl {
    match t
    case None => Empty()
    case Some(spec) => HuffTbl([0] + Numbers(spec.bits, 16), Numbers(spec.vals, 256))
  }

  function SlotOf(h: MS.Huffs, t: nat): HuffTbl
    requires MS.AreHuffs(h) && t < 8
  {
    if t < NUM_HUFF_TBLS then TableOf(h.dc[t]) else TableOf(h.ac[t - NUM_HUFF_TBLS])
  }

  function TablesOf(h: MS.Huffs): (r: Tables)
    requires MS.AreHuffs(h)
    ensures forall t :: 0 <= t < 8 ==> r[t] == SlotOf(h, t)
  {
    seq(8, t requires 0 <= t < 8 => SlotOf(h, t))
  }

  /** The table numbers of the scan's components; 0 stands for one that the scan does not look at. */
  function Numbered(comps: seq<MS.CompSpec>, spec: MS.ScanSpec): (r: seq<Component>)
    requires forall j :: 0 <= j < |spec.comps| ==> spec.comps[j] < |comps|
    ensures |r| == |spec.comps|
  {
    seq(|spec.comps|, j requires 0 <= j < |spec.comps| =>
      var c := comps[spec.comps[j]];
      Component(if spec.ss == 0 && spec.ah == 0 then c.dcTbl else 0, if spec.se != 0 then c.acTbl else 0))
  }

  /** A scan of the file: its header, restart interval, MCU layout and coefficient order. */
  datatype FileScan = FileScan(spec: MS.ScanSpec, restart: nat, membership: seq<nat>, order: seq<nat>, found: bool)

  predicate OfFrame(comps: seq<MS.CompSpec>, u: FileScan) {
    forall j :: 0 <= j < |u.spec.comps| ==> u.spec.comps[j] < |comps|
  }

  /** The scan as the encoder has it. */
  function ScanOf(s: MW.Settings, u: FileScan): Scan
    requires OfFrame(s.comps, u)
  {
    Scan(s.progressive, Numbered(s.comps, u.spec), u.membership, u.spec.ss, u.spec.se, u.spec.ah, u.spec.al, u.order,
         u.restart)
  }

  /** The scan as the decoder has it from the markers; the layout of MCUs follows from the frame. */
  function ScanRead(st: MS.State, membership: seq<nat>, order: seq<nat>): Scan
    requires forall j :: 0 <= j < |st.scan.comps| ==> st.scan.comps[j] < |st.comps|
  {
    Scan(st.frame.progressive, Numbered(st.comps, st.scan), membership, st.scan.ss, st.scan.se, st.scan.ah, st.scan.al,
         order, st.restartInterval)
  }

  /** A reader that has been told of the scan has its parameters, and the tables it uses. */
  lemma ToldAgrees(os: MS.Orders, s: MW.Settings, u: FileScan, data: seq<byte>, st: MS.State)
    requires MRT.Told(os, s, MRT.Part(u.spec, u.restart, data, u.found), st) && !s.arith && OfFrame(s.comps, u)
    requires MS.AreHuffs(s.huffs) && IsScan(ScanOf(s, u))
    ensures MS.AreHuffs(st.huffs) && OfFrame(st.comps, u) && st.scan == u.spec
    ensures ScanRead(st, u.membership, u.order) == ScanOf(s, u)
    ensures Used(ScanOf(s, u), TablesOf(st.huffs)) == Used(ScanOf(s, u), TablesOf(s.huffs))
  {
    hide IsOrder, MW.QuantKnown, TableOf;
    var sc := ScanOf(s, u);
    assert MW.CompKnown(s, u.spec, st, u.spec.comps[0]);
    forall j | 0 <= j < |u.spec.comps| ensures MW.CompKnown(s, u.spec, st, u.spec.comps[j]) {
    }
    assert Numbered(st.comps, u.spec) == Numbered(s.comps, u.spec);
    forall t | 0 <= t < 8 && t in Slots(sc)
      ensures TablesOf(st.huffs)[t] == TablesOf(s.huffs)[t]
    {
    }
  }

  // ----- the file

  /** What is asked of a scan: coefficients the encoder accepts and tables for them, and a decoder with the blocks
      as earlier scans left them. */
  ghost predicate CanSend(s: MW.Settings, u: FileScan, mcus: Mcus, limits: seq<nat>, initial: seq<seq<Block>>) {
    && MS.AreHuffs(s.huffs) && OfFrame(s.comps, u)
    && CanCode(ScanOf(s, u), TablesOf(s.huffs), mcus) && AreLimits(ScanOf(s, u), limits)
    && ScanBefore(ScanOf(s, u), initial, mcus)
  }

  /** The scans coded with the file's tables. */
  method CodeScans(s: MW.Settings, us: seq<FileScan>, mcus: seq<Mcus>)
    returns (parts: seq<MRT.Part>, ghost datas: seq<seq<seq<byte>>>)
    requires |mcus| == |us| && MS.AreHuffs(s.huffs)
    requires forall k :: 0 <= k < |us| ==>
             OfFrame(s.comps, us[k]) && CanCode(ScanOf(s, us[k]), TablesOf(s.huffs), mcus[k])
    ensures |parts| == |datas| == |us|
    ensures forall k :: 0 <= k < |us| ==>
              && parts[k] == MRT.Part(us[k].spec, us[k].restart, parts[k].data, us[k].found)
              && IsScan(ScanOf(s, us[k]))
              && HES.CodedScan(ScanOf(s, us[k]), TablesOf(s.huffs), mcus[k], parts[k].data, datas[k])
  {
    hide CanCode, HES.CodedScan, ScanOf, TablesOf;
    parts, datas := [], [];
    for k := 0 to |us|
      invariant |parts| == |datas| == k
      invariant forall i :: 0 <= i < k ==>
                  && parts[i] == MRT.Part(us[i].spec, us[i].restart, parts[i].data, us[i].found)
                  && IsScan(ScanOf(s, us[i]))
                  && HES.CodedScan(ScanOf(s, us[i]), TablesOf(s.huffs), mcus[i], parts[i].data, datas[i])
    {
      CanCodeScan(ScanOf(s, us[k]), TablesOf(s.huffs), mcus[k]);
      var bytes;
      ghost var segs;
      bytes, segs := EncodeScan(ScanOf(s, us[k]), TablesOf(s.huffs), mcus[k]);
      parts := parts + [MRT.Part(us[k].spec, us[k].restart, bytes, us[k].found)];
      datas := datas + [segs];
    }
  }

  lemma CanCodeScan(sc: Scan, ts: Tables, mcus: Mcus)
    requires CanCode(sc, ts, mcus)
    ensures IsScan(sc) && AreMcus(sc, mcus) && Acceptable(sc, ts) && IsPred(NoPred())
    ensures HES.ScanInRange(sc, NoPred(), sc.restartInterval, mcus)
  {
    hide IsScan, Acceptable, HES.ScanInRange;
  }

  /** Tables that agree on the scan's slots are as good. */
  lemma SameUsed(sc: Scan, a: Tables, b: Tables, mcus: Mcus, bytes: seq<byte>, datas: seq<seq<byte>>)
    requires IsScan(sc) && AreMcus(sc, mcus) && HES.ScanInRange(sc, NoPred(), sc.restartInterval, mcus)
    requires Used(sc, a) == Used(sc, b) && Readable(sc, a) && HES.CodedScan(sc, a, mcus, bytes, datas)
    ensures Readable(sc, b) && HES.CodedScan(sc, b, mcus, bytes, datas)
  {
    hide IsScan, AreMcus, HES.ScanInRange, HES.CodedScan, Slots, Decodable;
    UsedCodes(sc, a, mcus, bytes, datas);
    UsedCodes(sc, b, mcus, bytes, datas);
    forall t | t in Slots(sc) ensures t < 8 && Decodable(t, b[t]) {
      assert Used(sc, a)[t] == Used(sc, b)[t];
    }
  }

  /** One scan of a file that has been read: decoded with the parameters and tables that the reader holds. */
  method DecodeRead(os: MS.Orders, s: MW.Settings, u: FileScan, seen: MRT.Seen, limits: seq<nat>, mcus: Mcus,
                    initial: seq<seq<Block>>, pieces: seq<nat>, marker: byte, rest: seq<byte>,
                    ghost datas: seq<seq<byte>>)
    returns (decoded: seq<seq<Block>>)
    requires !s.arith && CanSend(s, u, mcus, limits, initial) && IsMarker(marker)
    requires MRT.Told(os, s, MRT.Part(u.spec, u.restart, seen.data, u.found), seen.st)
    requires HES.CodedScan(ScanOf(s, u), TablesOf(s.huffs), mcus, seen.data, datas)
    ensures ScanAfter(ScanOf(s, u), limits, initial, decoded, mcus)
  {
    hide IsScan, HES.ScanInRange, HES.CodedScan, Slots, Decodable, MRT.Told, CanCode, ScanOf, ScanRead, TablesOf, Used,
         AreLimits, ScanBefore, Readable, Acceptable, AreMcus;
    ghost var sent := ScanOf(s, u);
    CanCodeScan(sent, TablesOf(s.huffs), mcus);
    ToldAgrees(os, s, u, seen.data, seen.st);
    AcceptableIsReadable(sent, TablesOf(s.huffs));
    SameUsed(sent, TablesOf(s.huffs), TablesOf(seen.st.huffs), mcus, seen.data, datas);
    var sc := ScanRead(seen.st, u.membership, u.order);
    decoded := DecodeCoded(sc, TablesOf(seen.st.huffs), limits, seen.data, initial, pieces, marker, rest, mcus, datas);
  }

  ghost predicate AreSent(s: MW.Settings, us: seq<FileScan>, mcus: seq<Mcus>, limits: seq<seq<nat>>,
                          initials: seq<seq<seq<Block>>>) {
    && |us| == |mcus| == |limits| == |initials|
    && forall k :: 0 <= k < |us| ==>
         && MW.IsScanSpec(s, us[k].spec) && us[k].restart < 0x1_0000
         && CanSend(s, us[k], mcus[k], limits[k], initials[k])
  }

  /** A file written marker by marker and scan by scan, and read back in any pieces: with nothing but what the markers
      said, the decoder takes the blocks of every scan to the scan's precision. */
  method HuffmanFileRoundTrip(os: MS.Orders, s: MW.Settings, extras: seq<MRT.Extra>, us: seq<FileScan>,
                              mcus: seq<Mcus>, limits: seq<seq<nat>>, initials: seq<seq<seq<Block>>>, rest: seq<byte>,
                              pieces: seq<nat>, marker: byte)
    returns (ok: bool, decoded: seq<seq<seq<Block>>>)
    requires MS.AreOrders(os) && MW.AreSettings(s) && !s.arith && MRT.AreExtras(extras) && us != []
    requires AreSent(s, us, mcus, limits, initials) && IsMarker(marker)
    ensures ok <==> MRT.ExtrasFit(extras) && MW.AllQuants(s) && s.height <= 65535 && s.width <= 65535 &&
                    forall k :: 0 <= k < |us| ==> MW.AllHuffs(s, us[k].spec)
    ensures ok ==> |decoded| == |us| && forall k :: 0 <= k < |us| ==>
              OfFrame(s.comps, us[k]) && ScanAfter(ScanOf(s, us[k]), limits[k], initials[k], decoded[k], mcus[k])
  {
    hide MS.AreOrders, MW.AreSettings, MRT.AreExtras, MW.IsScanSpec, CanCode, HES.CodedScan, ScanOf, TablesOf, MRT.Told,
         AreLimits, ScanBefore, ScanAfter, MRT.ExtrasFit, MW.AllQuants, MW.AllHuffs, MR.MarkerReader.Valid, OfFrame;
    assert CanSend(s, us[0], mcus[0], limits[0], initials[0]);
    forall k | 0 <= k < |us| ensures OfFrame(s.comps, us[k]) && CanCode(ScanOf(s, us[k]), TablesOf(s.huffs), mcus[k]) {
    }
    var parts;
    ghost var datas;
    parts, datas := CodeScans(s, us, mcus);
    assert MRT.PartsFit(s, parts) <==> forall k :: 0 <= k < |us| ==> MW.AllHuffs(s, us[k].spec) by {
      assert forall k :: 0 <= k < |us| ==> parts[k].spec == us[k].spec;
    }
    var seen, reached, r, left;
    ok, seen, reached, r, left := MRT.FileRoundTrip(os, s, extras, parts, rest, pieces);
    decoded := [];
    if ok {
      for k := 0 to |us|
        invariant |decoded| == k
        invariant forall i :: 0 <= i < k ==>
                  ScanAfter(ScanOf(s, us[i]), limits[i], initials[i], decoded[i], mcus[i])
      {
        var blocks := DecodeRead(os, s, us[k], seen[k], limits[k], mcus[k], initials[k], pieces, marker, rest,
            datas[k]);
        decoded := decoded + [blocks];
      }
    }
  }
}
