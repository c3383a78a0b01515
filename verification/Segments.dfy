// Entropy-coded segments on the wire: stuffed data, markers and restart intervals, for either coder.
module Segments {
  import opened Coefs
  import opened Digits

  const MAX_COMPS_IN_SCAN := 4

  datatype Component = Component(dcTbl: nat, acTbl: nat)

  type Mcu = seq<Block>
  type Mcus = seq<Mcu>

  /** One entropy-coded segment in the source: data bytes, the marker that ends it, what follows. */
  datatype Segment = Segment(data: seq<byte>, marker: byte, rest: seq<byte>)

  ghost predicate IsMarker(m: byte) {
    0 < m < 255
  }

  /** The bytes of a segment from its n-th data byte on. */
  ghost function Coming(s: Segment, n: nat): (r: seq<byte>)
    requires n <= |s.data|
    ensures |r| >= 2
  {
    Stuff(s.data[n..]) + [255, s.marker] + s.rest
  }

  /** The next one or two bytes are a data byte, a stuffed FF, or the marker. */
  lemma SegmentHead(s: Segment, n: nat)
    requires n <= |s.data| && IsMarker(s.marker)
    ensures n < |s.data| && s.data[n] < 255 ==>
              Coming(s, n)[0] == s.data[n] && Coming(s, n)[1..] == Coming(s, n + 1)
    ensures n < |s.data| && s.data[n] == 255 ==>
              Coming(s, n)[0] == 255 && Coming(s, n)[1] == 0 && Coming(s, n)[2..] == Coming(s, n + 1)
    ensures n == |s.data| ==> Coming(s, n)[0] == 255 && Coming(s, n)[1] == s.marker && Coming(s, n)[2..] == s.rest
  {
    if n < |s.data| {
      assert s.data[n..][1..] == s.data[n + 1..];
      assert Coming(s, n) == Stuff1(s.data[n]) + Coming(s, n + 1);
    } else {
      assert s.data[n..] == [];
      assert Coming(s, n) == [255, s.marker] + s.rest;
    }
  }

  function Rst(n: nat): byte {
    0xD0 + n % 8
  }

  /** Finished segments on the wire: stuffed data, each followed by its restart marker. */
  ghost function Wire(datas: seq<seq<byte>>): seq<byte> {
    if datas == [] then []
    else
      var n := |datas| - 1;
      Wire(datas[..n]) + Stuff(datas[n]) + [0xFF, Rst(n)]
  }

  lemma WireSnoc(datas: seq<seq<byte>>, data: seq<byte>)
    ensures Wire(datas + [data]) == Wire(datas) + Stuff(data) + [0xFF, Rst(|datas|)]
  {
    hide Stuff;
    assert (datas + [data])[..|datas|] == datas;
  }

  lemma JoinWire(out: seq<byte>, w: seq<byte>, stuffed: seq<byte>, r: byte)
    requires |w| <= |out| && out[..|w|] == w && out[|w|..] == stuffed
    ensures out + [0xFF] + [r] == w + stuffed + [0xFF, r]
  {
    assert out == w + stuffed;
  }

  /** Every FF is followed by 00 or is a restart marker: nothing else in these bytes reads as a marker. */
  ghost predicate OnlyRestarts(bytes: seq<byte>) {
    forall i :: 0 <= i < |bytes| && bytes[i] == 0xFF ==>
        i + 1 < |bytes| && (bytes[i + 1] == 0 || 0xD0 <= bytes[i + 1] <= 0xD7)
  }

  lemma OnlyRestartsJoined(a: seq<byte>, b: seq<byte>)
    requires OnlyRestarts(a) && OnlyRestarts(b)
    ensures OnlyRestarts(a + b)
  {
    forall i | 0 <= i < |a + b| && (a + b)[i] == 0xFF
      ensures i + 1 < |a + b| && ((a + b)[i + 1] == 0 || 0xD0 <= (a + b)[i + 1] <= 0xD7)
    {
      if i < |a| {
        assert a[i] == 0xFF;
      } else {
        assert b[i - |a|] == 0xFF;
      }
    }
  }

  lemma OnlyRestartsStuffed(data: seq<byte>)
    ensures OnlyRestarts(Stuff(data))
  {
    hide Stuff;
    forall i | 0 <= i < |Stuff(data)| && Stuff(data)[i] == 0xFF
      ensures i + 1 < |Stuff(data)| && Stuff(data)[i + 1] == 0
    {
      StuffedHasNoMarker(data, i);
    }
  }

  lemma {:induction false} OnlyRestartsOnWire(datas: seq<seq<byte>>)
    ensures OnlyRestarts(Wire(datas))
  {
    hide Stuff, OnlyRestarts;
    if datas == [] {
      assert Wire(datas) == [];
      OnlyRestartsStuffed([]);
      NothingOnWire();
    } else {
      var n := |datas| - 1;
      OnlyRestartsOnWire(datas[..n]);
      OnlyRestartsStuffed(datas[n]);
      RestartOnly(n);
      OnlyRestartsJoined(Wire(datas[..n]), Stuff(datas[n]));
      OnlyRestartsJoined(Wire(datas[..n]) + Stuff(datas[n]), [0xFF, Rst(n)]);
    }
  }

  lemma NothingOnWire()
    ensures OnlyRestarts([])
  {
  }

  lemma RestartOnly(n: nat)
    ensures OnlyRestarts([0xFF, Rst(n)])
  {
  }

  /** The bytes of a whole scan. */
  lemma ScanHasOnlyRestarts(datas: seq<seq<byte>>, last: seq<byte>)
    ensures OnlyRestarts(Wire(datas) + Stuff(last))
  {
    OnlyRestartsOnWire(datas);
    OnlyRestartsStuffed(last);
    OnlyRestartsJoined(Wire(datas), Stuff(last));
  }

  // ----- the wire as a chain of segments

  ghost function Join(chunks: seq<Mcus>): Mcus {
    if chunks == [] then [] else chunks[0] + Join(chunks[1..])
  }

  lemma {:induction false} JoinAppend(chunks: seq<Mcus>, last: Mcus)
    ensures Join(chunks + [last]) == Join(chunks) + last
  {
    if chunks == [] {
      assert chunks + [last] == [last];
      assert [last][1..] == [];
    } else {
      JoinAppend(chunks[1..], last);
      assert (chunks + [last])[1..] == chunks[1..] + [last];
      assert chunks[0] + (Join(chunks[1..]) + last) == chunks[0] + Join(chunks[1..]) + last;
    }
  }

  /** The j-th of the segments datas, each ended by its restart marker and the last one by marker. */
  ghost function SegAt(datas: seq<seq<byte>>, j: nat, marker: byte, rest: seq<byte>): Segment
    requires j < |datas|
    decreases |datas| - j
  {
    if j == |datas| - 1 then Segment(datas[j], marker, rest)
    else Segment(datas[j], Rst(j), Coming(SegAt(datas, j + 1, marker, rest), 0))
  }

  /** The bytes on the wire are the first segment, which leads to all the others. */
  lemma {:induction false} WireIsChain(datas: seq<seq<byte>>, j: nat, marker: byte, rest: seq<byte>)
    requires j < |datas|
    ensures var n := |datas| - 1;
            Wire(datas[..j]) + Coming(SegAt(datas, j, marker, rest), 0) ==
            Wire(datas[..n]) + Stuff(datas[n]) + [255, marker] + rest
    decreases |datas| - j
  {
    var n := |datas| - 1;
    assert datas[j][0..] == datas[j];
    if j < n {
      WireIsChain(datas, j + 1, marker, rest);
      assert datas[..j + 1][..j] == datas[..j];
      var w, s, tail := Wire(datas[..j]), Stuff(datas[j]), Coming(SegAt(datas, j + 1, marker, rest), 0);
      assert Wire(datas[..j + 1]) == w + s + [255, Rst(j)];
      assert (w + s + [255, Rst(j)]) + tail == w + (s + [255, Rst(j)] + tail);
    } else {
      var w, s := Wire(datas[..j]), Stuff(datas[j]);
      assert w + (s + [255, marker] + rest) == w + s + [255, marker] + rest;
    }
  }

  /** The MCUs still to come are the rest of segment j and the segments after it. */
  ghost predicate Remaining(mcus: Mcus, rem: Mcus, chunks: seq<Mcus>, j: nat)
    requires j < |chunks|
  {
    mcus == rem + Join(chunks[j + 1..])
  }

  /** If nothing is left of segment j but MCUs remain, the next segment starts with them. */
  lemma NextSegment(mcus: Mcus, chunks: seq<Mcus>, j: nat)
    requires j < |chunks| && Remaining(mcus, [], chunks, j) && mcus != []
    ensures j + 1 < |chunks| && Remaining(mcus, chunks[j + 1], chunks, j + 1)
  {
    assert chunks[j + 1..][1..] == chunks[j + 2..];
  }

  lemma TakeOne(mcus: Mcus, rem: Mcus, chunks: seq<Mcus>, j: nat)
    requires j < |chunks| && Remaining(mcus, rem, chunks, j) && rem != []
    ensures mcus != [] && mcus[0] == rem[0] && Remaining(mcus[1..], rem[1..], chunks, j)
  {
    assert (rem + Join(chunks[j + 1..]))[1..] == rem[1..] + Join(chunks[j + 1..]);
  }

  ghost predicate ChunksFit(interval: nat, chunks: seq<Mcus>)
  {
    && |chunks| > 0
    && (interval == 0 ==> |chunks| == 1)
    && (interval != 0 ==>
          && (forall j :: 0 <= j < |chunks| - 1 ==> |chunks[j]| == interval)
          && |chunks[|chunks| - 1]| <= interval)
  }

  /** How the restart counter of a decoder in segment j relates to what is left of the segment. */
  ghost predicate CounterFits(interval: nat, toGo: nat, rem: Mcus, chunks: seq<Mcus>, j: nat)
    requires j < |chunks|
  {
    interval != 0 ==> |rem| <= toGo && (j < |chunks| - 1 ==> |rem| == toGo)
  }

  lemma LastIsNotEmpty(left: Mcus, chunks: seq<Mcus>, j: nat)
    requires j < |chunks| && left != [] && Remaining(left, chunks[j], chunks, j)
    requires j == |chunks| - 1 || chunks[j] != []
    ensures chunks[j] != []
  {
    if j == |chunks| - 1 {
      assert chunks[j + 1..] == [];
    }
  }

  /** At the end of a segment the next one has an MCU to decode, if any are left. */
  lemma NextNotEmpty(interval: nat, left: Mcus, chunks: seq<Mcus>, j: nat)
    requires j < |chunks| && ChunksFit(interval, chunks) && Remaining(left, [], chunks, j) && left != []
    ensures j + 1 < |chunks| && chunks[j + 1] != [] && chunks[j + 1][0] == left[0]
    ensures Remaining(left[1..], chunks[j + 1][1..], chunks, j + 1)
  {
    NextSegment(left, chunks, j);
    LastIsNotEmpty(left, chunks, j + 1);
    TakeOne(left, chunks[j + 1], chunks, j + 1);
  }

  /** A restart is due exactly when the segment is done. */
  lemma DueWhenDone(interval: nat, toGo: nat, rem: Mcus, left: Mcus, chunks: seq<Mcus>, j: nat)
    requires j < |chunks| && ChunksFit(interval, chunks) && CounterFits(interval, toGo, rem, chunks, j)
    requires Remaining(left, rem, chunks, j) && left != []
    ensures (interval != 0 && toGo == 0) == (rem == [])
  {
    if rem == [] {
      NextSegment(left, chunks, j);
    }
  }

  lemma StartCounter(interval: nat, chunks: seq<Mcus>)
    requires ChunksFit(interval, chunks)
    ensures CounterFits(interval, interval, chunks[0], chunks, 0)
  {
    if |chunks| > 1 {
      assert 0 <= 0 < |chunks| - 1;
    }
  }

  /** The counter after an MCU, at the end of a segment the first of the next one. */
  lemma NextCounter(interval: nat, toGo: nat, rem: Mcus, chunks: seq<Mcus>, j: nat, j': nat, rem': Mcus)
    requires j < |chunks| && j' < |chunks| && ChunksFit(interval, chunks) && CounterFits(interval, toGo, rem, chunks, j)
    requires (interval != 0 && toGo == 0) == (rem == []) && rem' != []
    requires if rem == [] then j' == j + 1 && rem' == chunks[j'] else j' == j && rem' == rem
    ensures CounterFits(interval, NextToGo(interval, toGo), rem'[1..], chunks, j')
  {
  }

  lemma WholeRemains(mcus: Mcus, chunks: seq<Mcus>)
    requires |chunks| > 0 && Join(chunks) == mcus
    ensures Remaining(mcus[0..], chunks[0], chunks, 0)
  {
    assert mcus[0..] == mcus;
  }

  /** The MCUs of a scan, cut where restarts fall. */
  ghost function Chunks(interval: nat, mcus: Mcus): (r: seq<Mcus>)
    ensures |r| > 0
    decreases |mcus|
  {
    if interval == 0 || |mcus| <= interval then [mcus] else [mcus[..interval]] + Chunks(interval, mcus[interval..])
  }

  lemma FirstChunk(interval: nat, mcus: Mcus)
    requires mcus != []
    ensures Chunks(interval, mcus)[0] != []
  {
  }

  lemma JoinNotEmpty(chunks: seq<Mcus>, k: nat)
    requires k <= |chunks|
    ensures k < |chunks| && chunks[k] != [] ==> Join(chunks[k..]) != []
  {
  }

  lemma {:induction false} ChunksAre(interval: nat, mcus: Mcus)
    ensures Join(Chunks(interval, mcus)) == mcus && ChunksFit(interval, Chunks(interval, mcus))
    ensures forall c :: c in Chunks(interval, mcus) ==> forall m :: m in c ==> m in mcus
    ensures forall j :: 0 < j < |Chunks(interval, mcus)| ==> Chunks(interval, mcus)[j] != []
    decreases |mcus|
  {
    var chunks := Chunks(interval, mcus);
    if interval == 0 || |mcus| <= interval {
      assert chunks[1..] == [];
    } else {
      ChunksAre(interval, mcus[interval..]);
      assert chunks[1..] == Chunks(interval, mcus[interval..]);
      FirstChunk(interval, mcus[interval..]);
      assert mcus == mcus[..interval] + mcus[interval..];
    }
  }

  /** The restart counter after an MCU. */
  function NextToGo(interval: nat, toGo: nat): nat {
    if interval == 0 then toGo else if toGo == 0 then interval - 1 else toGo - 1
  }
}
