// A whole datastream of markers prints and parses back, scan by scan, in whatever pieces it arrives.
module MarkerRoundTrip {
  import opened Digits
  import opened Segments
  import opened MarkerSyntax
  import opened MarkerResume
  import opened MarkerPrint
  import opened MarkerReader
  import opened MarkerWriter

  lemma HeaderStands(os: Orders, before: seq<byte>, bs: seq<byte>, rest: seq<byte>, st: State, st': State)
    requires Ends(os, bs, st, st')
    ensures IsState(st) && AreOrders(os)
    ensures Future(os, before + bs + rest, 0, |before|, st) == ReachedSos(st', |before| + |bs|)
  {
    hide Run, AreOrders, IsState;
    var d := before + bs + rest;
    assert Has(d, |before|, bs);
  }

  lemma TrailerStands(os: Orders, before: seq<byte>, rest: seq<byte>, st: State)
    requires AreOrders(os) && IsState(st) && st.sawSoi
    ensures Future(os, before + Trailer() + rest, 0, |before|, st) == ReachedEoi(st, |before| + 2)
  {
    hide AreOrders, IsState;
    var d := before + Trailer() + rest;
    assert d[|before|] == 0xFF && d[|before| + 1] == M_EOI;
    assert SkipFill(d, |before| + 1) == |before| + 1;
    assert FindMarker(d, |before|) == Found(M_EOI, |before| + 2);
    assert Run(os, d, |before|, st) == RunCode(os, d, M_EOI, |before| + 2, st);
  }

  function Trailer(): seq<byte> {
    [0xFF, M_EOI]
  }

  lemma FutureOf(os: Orders, src: seq<byte>, d: seq<byte>, u: nat, at: nat, st: State, u': nat, at': nat, st': State)
    requires SameFuture(os, src, u, at, st, u', at', st') && src <= d
    ensures AreOrders(os) && IsState(st) && IsState(st') && at <= |d| && at' <= |d|
    ensures Future(os, d, u, at, st) == Future(os, d, u', at', st')
  {
    hide Future;
  }

  lemma OutcomeOf(os: Orders, src: seq<byte>, d: seq<byte>, u: nat, at: nat, st: State, o: Outcome)
    requires Comes(os, src, u, at, st, o) && src <= d
    ensures AreOrders(os) && IsState(st) && at <= |d| && Future(os, d, u, at, st) == o
  {
    hide Future;
  }

  // ----- reading

  /** Reading goes on from position at: no marker is pending, or the one there has been read already, as by an
      entropy decoder at the end of its data. */
  ghost predicate Resumes(src: seq<byte>, at: nat, unread: nat, pos: nat, st: State) {
    if unread == 0 then pos == at <= |src|
    else st.sawSoi && 0 < unread < 0xFF && pos == at + 2 <= |src| && src[at] == 0xFF && src[at + 1] == unread
  }

  lemma ResumesSame(os: Orders, src: seq<byte>, at: nat, unread: nat, pos: nat, st: State)
    requires AreOrders(os) && IsState(st) && Resumes(src, at, unread, pos, st)
    ensures SameFuture(os, src, 0, at, st, unread, pos, st)
  {
    hide AreOrders, IsState, Run, RunCode, FindMarker;
    if unread != 0 {
      assert SkipFill(src, at + 1) == at + 1;
      AtFill(src, at);
      FutureFound(os, src, at, st);
    } else {
      FutureHere(os, src, 0, at, st);
    }
  }

  /** All that is to come, read to its first SOS or EOI: it arrives in pieces, the reader suspends and is called
      again. */
  method ReadTo(r: MarkerReader, bytes: seq<byte>, pieces: seq<nat>, ghost at: nat, ghost goal: Outcome)
    returns (reached: Reached, left: seq<byte>)
    requires r.Valid() && r.Allocated() && Resumes(r.src, at, r.unreadMarker, r.pos, r.Contents())
    requires AreOrders(r.os) && IsState(r.Contents()) && at <= |r.src + bytes|
    requires Future(r.os, r.src + bytes, 0, at, r.Contents()) == goal && (goal.ReachedSos? || goal.ReachedEoi?)
    modifies r
    ensures r.Valid() && r.unreadMarker == 0 && r.src + left == old(r.src) + bytes && r.pos <= |r.src|
    ensures r.Contents() == goal.st && r.pos == goal.next
    ensures if goal.ReachedSos? then reached == Sos && r.Allocated() else reached == Eoi
  {
    hide AreOrders, IsState, SameFuture, Comes, Future, MarkerReader.Valid, MarkerReader.Allocated;
    ghost var d, was := r.src + bytes, r.Contents();
    left := bytes;
    var waiting: seq<nat> := pieces;
    reached := Waiting;
    ResumesSame(r.os, r.src, at, r.unreadMarker, r.pos, was);
    Within(r);
    while reached == Waiting
      invariant r.Valid() && r.src + left == d && r.src <= d
      invariant match reached
                case Waiting =>
                  && r.Allocated() && SameFuture(r.os, r.src, 0, at, was, r.unreadMarker, r.pos, r.Contents())
                case Sos => goal.ReachedSos? && r.Allocated() && r.unreadMarker == 0 && r.Contents() == goal.st &&
                    r.pos == goal.next
                case Eoi => goal.ReachedEoi? && r.unreadMarker == 0 && r.Contents() == goal.st && r.pos == goal.next
                case Invalid => false
      decreases |left|, reached == Waiting, |waiting|
    {
      ghost var src, u, p, c := r.src, r.unreadMarker, r.pos, r.Contents();
      var n := |left|;
      if |waiting| > 0 {
        n := if waiting[0] < n then waiting[0] else n;
        waiting := waiting[1..];
      }
      r.Arrive(left[..n]);
      FutureMore(r.os, src, left[..n], 0, at, was, u, p, c);
      left := left[n..];
      FutureOf(r.os, r.src, d, 0, at, was, u, p, c);
      reached := r.ReadMarkers();
      Within(r);
      if reached == Waiting {
        FutureFurther(r.os, r.src, 0, at, was, u, p, c, r.unreadMarker, r.pos, r.Contents());
        FutureOf(r.os, r.src, d, u, p, c, r.unreadMarker, r.pos, r.Contents());
        assert r.src != d;
      } else {
        ghost var o := if reached == Sos then ReachedSos(r.Contents(), r.pos)
                       else if reached == Eoi then ReachedEoi(r.Contents(), r.pos) else Error;
        OutcomeOf(r.os, r.src, d, u, p, c, o);
      }
    }
    Within(r);
  }

  lemma Within(r: MarkerReader)
    requires r.Valid()
    ensures r.pos <= |r.src| && IsState(r.Contents()) && AreOrders(r.os)
  {
  }

  /** What is still to come is bs and then rest. */
  ghost predicate Follows(r: MarkerReader, left: seq<byte>, at: nat, bs: seq<byte>)
    reads r
  {
    at <= |r.src| && Resumes(r.src, at, r.unreadMarker, r.pos, r.Contents()) && r.src[at..] + left == bs
  }

  lemma Ahead(src: seq<byte>, left: seq<byte>, at: nat, bs: seq<byte>, rest: seq<byte>, n: nat)
    requires at <= |src| && src[at..] + left == bs + rest && n == at + |bs|
    ensures src + left == src[..at] + bs + rest
    ensures n <= |src| ==> src[n..] + left == rest
  {
    assert src + left == src[..at] + (src[at..] + left);
    if n <= |src| {
      assert (src[at..] + left)[|bs|..] == src[n..] + left;
      assert (bs + rest)[|bs|..] == rest;
    }
  }

  /** A header ending in SOS; the reader stops at the first byte of the scan. */
  method ReadHeader(r: MarkerReader, bytes: seq<byte>, ghost at: nat, ghost bs: seq<byte>, ghost rest: seq<byte>,
                    pieces: seq<nat>,
                    ghost st: State)
    returns (left: seq<byte>)
    requires r.Valid() && r.Allocated() && Follows(r, bytes, at, bs + rest) && Ends(r.os, bs, r.Contents(), st)
    modifies r
    ensures r.Valid() && r.Allocated() && r.Contents() == st && r.unreadMarker == 0 &&
            r.src + left == old(r.src) + bytes
    ensures Follows(r, left, r.pos, rest)
  {
    hide AreOrders, IsState, Ends, Future, MarkerReader.Valid, MarkerReader.Allocated, Resumes;
    ghost var src, was := r.src, r.Contents();
    Ahead(src, bytes, at, bs, rest, at + |bs|);
    HeaderStands(r.os, src[..at], bs, rest, was, st);
    var reached;
    reached, left := ReadTo(r, bytes, pieces, at, ReachedSos(st, at + |bs|));
    StillAhead(src, bytes, r.src, left, at);
    Ahead(r.src, left, at, bs, rest, r.pos);
    NowHere(r);
  }

  lemma NowHere(r: MarkerReader)
    requires r.unreadMarker == 0 && r.pos <= |r.src|
    ensures Resumes(r.src, r.pos, r.unreadMarker, r.pos, r.Contents())
  {
  }

  lemma StillAhead(src: seq<byte>, bytes: seq<byte>, src': seq<byte>, left: seq<byte>, at: nat)
    requires src' + left == src + bytes && at <= |src| && at <= |src'|
    ensures src'[at..] + left == src[at..] + bytes
  {
    assert src'[at..] + left == (src' + left)[at..];
    assert src[at..] + bytes == (src + bytes)[at..];
  }

  /** The end of the datastream. */
  method ReadTrailer(r: MarkerReader, bytes: seq<byte>, ghost at: nat, ghost rest: seq<byte>, pieces: seq<nat>)
    returns (reached: Reached, left: seq<byte>)
    requires r.Valid() && r.Allocated() && r.sawSoi && Follows(r, bytes, at, Trailer() + rest)
    modifies r
    ensures reached == Eoi && r.Valid() && r.Contents() == old(r.Contents())
    ensures r.pos <= |r.src| && r.src[r.pos..] + left == rest
  {
    hide AreOrders, IsState, Future, MarkerReader.Valid, MarkerReader.Allocated, Resumes;
    ghost var src, was := r.src, r.Contents();
    Within(r);
    Ahead(src, bytes, at, Trailer(), rest, at + 2);
    TrailerStands(r.os, src[..at], rest, was);
    reached, left := ReadTo(r, bytes, pieces, at, ReachedEoi(was, at + 2));
    StillAhead(src, bytes, r.src, left, at);
    Ahead(r.src, left, at, Trailer(), rest, r.pos);
  }

  /** The entropy decoder reads the n bytes of a scan, and perhaps the marker that stands there. */
  method PassData(r: MarkerReader, bytes: seq<byte>, n: nat, found: bool, ghost rest: seq<byte>)
    returns (data: seq<byte>, left: seq<byte>, at: nat)
    requires r.Valid() && r.Allocated() && r.sawSof && r.sawSoi && r.unreadMarker == 0 && n <= |r.src[r.pos..] + bytes|
    requires r.src[r.pos..] + bytes == (r.src[r.pos..] + bytes)[..n] + rest
    requires |rest| >= 2
    modifies r
    ensures r.Valid() && r.Allocated() && r.Contents() == old(r.Contents())
    ensures data == old(r.src[r.pos..] + bytes)[..n] && Follows(r, left, at, rest)
  {
    hide AreOrders, IsState;
    ghost var all, start, src := r.src[r.pos..] + bytes, r.pos, r.src;
    var need := n + (if found then 2 else 0);
    left := bytes;
    if need > |r.src| - r.pos {
      var k := need - (|r.src| - r.pos);
      r.Arrive(left[..k]);
      left := left[k..];
    }
    assert r.src + left == src + bytes;
    StillAhead(src, bytes, r.src, left, start);
    data := r.src[r.pos..r.pos + n];
    assert data == all[..n];
    at := r.pos + n;
    r.pos := at;
    Ahead(r.src, left, start, data, rest, at);
    if found && r.src[at] == 0xFF && 0 < r.src[at + 1] < 0xFF {
      r.unreadMarker := r.src[at + 1];
      r.pos := at + 2;
    }
  }

  // ----- whole datastreams

  /** A marker of the application's own. */
  datatype Extra = Extra(code: byte, data: seq<byte>)

  /** A scan: its header, its restart interval and its data; found tells whether its decoder reads the marker
      after the data. */
  datatype Part = Part(spec: ScanSpec, restart: nat, data: seq<byte>, found: bool)

  ghost predicate AreParts(s: Settings, parts: seq<Part>) {
    forall k :: 0 <= k < |parts| ==> IsScanSpec(s, parts[k].spec) && parts[k].restart < 0x1_0000
  }

  ghost predicate AreExtras(extras: seq<Extra>) {
    forall k :: 0 <= k < |extras| ==> IsSkipped(extras[k].code)
  }

  ghost predicate ExtrasFit(extras: seq<Extra>) {
    forall k :: 0 <= k < |extras| ==> |extras[k].data| <= 65533
  }

  ghost predicate PartsFit(s: Settings, parts: seq<Part>) {
    s.arith || forall k :: 0 <= k < |parts| ==> AllHuffs(s, parts[k].spec)
  }

  /** What a reader is told by the time it reaches a scan: the frame, the scan's parameters, the restart interval,
      every quantization table, and the Huffman tables or conditioning that the scan uses. */
  ghost predicate Told(os: Orders, s: Settings, part: Part, st: State) {
    && st.sawSoi && HasFrame(s, st) && st.scan == part.spec && st.restartInterval == part.restart
    && st.frame == Frame(IsBaseline(os, s), s.progressive, s.arith, s.precision, s.height, s.width, |s.comps|)
    && (forall c :: 0 <= c < |s.comps| ==> QuantKnown(os, s, st, c))
    && (forall j :: 0 <= j < |part.spec.comps| ==> CompKnown(s, part.spec, st, part.spec.comps[j]))
  }

  /** The headers written and what a reader of each holds. */
  ghost predicate AreHeads(os: Orders, heads: seq<seq<byte>>, states: seq<State>) {
    |states| == |heads| + 1 && forall k :: 0 <= k < |heads| ==> Ends(os, heads[k], states[k], states[k + 1])
  }

  /** The scans from the k-th on, to the end. */
  function Stream(heads: seq<seq<byte>>, parts: seq<Part>, k: nat): seq<byte>
    requires k <= |heads| == |parts|
    decreases |heads| - k
  {
    if k == |heads| then Trailer() else heads[k] + parts[k].data + Stream(heads, parts, k + 1)
  }

  function Front(heads: seq<seq<byte>>, parts: seq<Part>, k: nat): seq<byte>
    requires k <= |heads| <= |parts|
  {
    if k == 0 then [] else Front(heads, parts, k - 1) + (heads[k - 1] + parts[k - 1].data)
  }

  lemma {:induction false} FrontStream(heads: seq<seq<byte>>, parts: seq<Part>, k: nat)
    requires k <= |heads| == |parts|
    ensures Front(heads, parts, k) + Stream(heads, parts, k) == Stream(heads, parts, 0)
  {
    if k > 0 {
      FrontStream(heads, parts, k - 1);
      var a, b, c := Front(heads, parts, k - 1), heads[k - 1] + parts[k - 1].data, Stream(heads, parts, k);
      assert (a + b) + c == a + (b + c);
    } else {
      assert [] + Stream(heads, parts, 0) == Stream(heads, parts, 0);
    }
  }

  lemma {:induction false} FrontSame(heads: seq<seq<byte>>, more: seq<byte>, parts: seq<Part>, k: nat)
    requires k <= |heads| < |parts|
    ensures Front(heads + [more], parts, k) == Front(heads, parts, k)
  {
    if k > 0 {
      FrontSame(heads, more, parts, k - 1);
    }
  }

  /** A reader at the start of a datastream. */
  lemma AtStart(os: Orders, s: Settings, st: State)
    requires AreSettings(s) && IsState(st)
    ensures Knows(os, s, NothingSent(), AfterSoi(st))
  {
  }

  function NothingSent(): Flags {
    Flags([false, false, false, false], [false, false, false, false], [false, false, false, false], 0)
  }

  lemma MoreHeads(os: Orders, heads: seq<seq<byte>>, states: seq<State>, head: seq<byte>, st: State)
    requires AreHeads(os, heads, states) && Ends(os, head, states[|heads|], st)
    ensures AreHeads(os, heads + [head], states + [st])
  {
    hide Ends;
  }

  /** The headers and data of the scans. */
  method WriteScans(w: MarkerWriter, parts: seq<Part>) returns (ok: bool, ghost heads: seq<seq<byte>>,
                    ghost states: seq<State>)
    requires w.Valid() && HasFrame(w.s, w.reader) && AreParts(w.s, parts)
    requires w.reader.frame == Frame(IsBaseline(w.os, w.s), w.s.progressive, w.s.arith, w.s.precision, w.s.height,
             w.s.width, |w.s.comps|)
    requires forall c :: 0 <= c < |w.s.comps| ==> QuantKnown(w.os, w.s, w.reader, c)
    modifies w
    ensures ok <==> PartsFit(w.s, parts)
    ensures ok ==> w.Valid() && AreHeads(w.os, heads, states) && |states| - 1 == |heads| == |parts| && states[0] == old(w.reader)
    ensures ok ==> w.out == old(w.out) + Front(heads, parts, |parts|)
    ensures ok ==> (forall k :: 0 <= k < |parts| ==> Told(w.os, w.s, parts[k], states[k + 1]))
  {
    hide MarkerWriter.Valid, HasFrame, IsBaseline, QuantKnown, CompKnown, AllHuffs, IsScanSpec, Ends, AreHeads, Front;
    var os, s := w.os, w.s;
    heads, states := [], [w.reader];
    AtFirst(os, w.reader, parts);
    assert w.out == old(w.out) + [];
    for k := 0 to |parts|
      invariant w.Valid() && HasFrame(s, w.reader)
      invariant w.reader.frame == Frame(IsBaseline(os, s), s.progressive, s.arith, s.precision, s.height, s.width,
                |s.comps|)
      invariant forall c :: 0 <= c < |s.comps| ==> QuantKnown(os, s, w.reader, c)
      invariant AreHeads(os, heads, states) && |heads| == k && |states| == k + 1 && states[0] == old(w.reader) &&
                states[k] == w.reader
      invariant w.out == old(w.out) + Front(heads, parts, k)
      invariant forall i :: 0 <= i < k ==> Told(os, s, parts[i], states[i + 1])
      invariant s.arith || forall i :: 0 <= i < k ==> AllHuffs(s, parts[i].spec)
    {
      ghost var before, st := w.out, w.reader;
      ok := w.WriteScanHeader(parts[k].spec, parts[k].restart);
      if !ok {
        return;
      }
      ghost var head := w.Since(|before|);
      MoreHeads(os, heads, states, head, w.reader);
      FrontMore(heads, head, parts, k);
      w.WriteData(parts[k].data);
      w.OrderOk();
      assert w.out == before + (head + parts[k].data);
      forall c | 0 <= c < |s.comps| ensures QuantKnown(os, s, w.reader, c) {
        QuantStays(os, s, st, w.reader, c);
      }
      heads, states := heads + [head], states + [w.reader];
    }
    ok := true;
  }

  lemma AtFirst(os: Orders, st: State, parts: seq<Part>)
    ensures AreHeads(os, [], [st]) && Front([], parts, 0) == []
  {
  }

  lemma FrontMore(heads: seq<seq<byte>>, head: seq<byte>, parts: seq<Part>, k: nat)
    requires k == |heads| < |parts|
    ensures Front(heads + [head], parts, k + 1) == Front(heads, parts, k) + (head + parts[k].data)
  {
    FrontSame(heads, head, parts, k);
  }

  lemma StreamFrom(heads: seq<seq<byte>>, parts: seq<Part>, k: nat, rest: seq<byte>)
    requires k <= |heads| == |parts|
    ensures |Stream(heads, parts, k)| >= 2
    ensures k < |heads| ==> Stream(heads, parts, k) + rest == heads[k] + (parts[k].data + (Stream(heads, parts, k + 1) + rest))
    ensures k == |heads| ==> Stream(heads, parts, k) == Trailer()
    decreases |heads| - k
  {
    if k < |heads| {
      StreamFrom(heads, parts, k + 1, rest);
      Regroup(heads[k], parts[k].data, Stream(heads, parts, k + 1), rest);
    }
  }

  lemma Regroup(a: seq<byte>, b: seq<byte>, c: seq<byte>, d: seq<byte>)
    ensures a + b + c + d == a + (b + (c + d))
  {
  }

  lemma HeadEnds(os: Orders, heads: seq<seq<byte>>, states: seq<State>, k: nat)
    requires AreHeads(os, heads, states) && k < |heads|
    ensures |states| == |heads| + 1 && Ends(os, heads[k], states[k], states[k + 1])
  {
  }

  /** What the reader held at the start of a scan, and the bytes it was left at. */
  datatype Seen = Seen(st: State, data: seq<byte>)

  /** The scans, one after the other, and the end. */
  method ReadScans(r: MarkerReader, bytes: seq<byte>, ghost at: nat, parts: seq<Part>, ghost heads: seq<seq<byte>>,
                   ghost states: seq<State>, ghost rest: seq<byte>, pieces: seq<nat>)
    returns (seen: seq<Seen>, reached: Reached, left: seq<byte>)
    requires r.Valid() && r.Allocated() && AreHeads(r.os, heads, states)
    requires |states| - 1 == |heads| == |parts| > 0
    requires states[0] == r.Contents() && Follows(r, bytes, at, Stream(heads, parts, 0) + rest)
    requires forall k :: 0 < k < |states| ==> states[k].sawSoi && states[k].sawSof
    modifies r
    ensures |seen| == |parts| && forall k :: 0 <= k < |parts| ==> seen[k] == Seen(states[k + 1], parts[k].data)
    ensures reached == Eoi && r.pos <= |r.src| && r.src[r.pos..] + left == rest
  {
    hide AreHeads, Ends, MarkerReader.Valid, MarkerReader.Allocated, Resumes, Stream, Trailer;
    seen, left := [], bytes;
    ghost var here := at;
    for k := 0 to |parts|
      invariant r.Valid() && r.Allocated() && r.Contents() == states[k]
      invariant |seen| == k && forall i :: 0 <= i < k ==> seen[i] == Seen(states[i + 1], parts[i].data)
      invariant Follows(r, left, here, Stream(heads, parts, k) + rest)
    {
      HeadEnds(r.os, heads, states, k);
      StreamFrom(heads, parts, k, rest);
      StreamFrom(heads, parts, k + 1, rest);
      ghost var next := Stream(heads, parts, k + 1) + rest;
      left := ReadHeader(r, left, here, heads[k], parts[k].data + next, pieces, states[k + 1]);
      var st := r.Contents();
      assert (parts[k].data + next)[..|parts[k].data|] == parts[k].data;
      AtData(r, left, parts[k].data + next);
      var data;
      data, left, here := PassData(r, left, |parts[k].data|, parts[k].found, next);
      seen := seen + [Seen(st, data)];
    }
    StreamFrom(heads, parts, |parts|, rest);
    reached, left := ReadTrailer(r, left, here, rest, pieces);
  }

  lemma AtData(r: MarkerReader, left: seq<byte>, bs: seq<byte>)
    requires r.unreadMarker == 0 && Follows(r, left, r.pos, bs)
    ensures r.pos <= |r.src| && r.src[r.pos..] + left == bs
  {
  }

  method WriteExtras(w: MarkerWriter, extras: seq<Extra>, ghost n0: nat, ghost origin: State) returns (ok: bool)
    requires w.Valid() && AreExtras(extras) && n0 <= |w.out| && Leads(w.os, w.Since(n0), origin, w.reader)
    modifies w
    ensures w.reader == old(w.reader) && (ok <==> ExtrasFit(extras))
    ensures ok ==> w.Valid() && old(w.out) <= w.out && Leads(w.os, w.Since(n0), origin, w.reader)
  {
    hide MarkerWriter.Valid, Leads;
    for k := 0 to |extras|
      invariant w.Valid() && w.reader == old(w.reader) && old(w.out) <= w.out &&
                Leads(w.os, w.Since(n0), origin, w.reader)
      invariant forall i :: 0 <= i < k ==> |extras[i].data| <= 65533
    {
      ghost var m, a := |w.out|, w.Since(n0);
      ok := w.WriteMarker(extras[k].code, extras[k].data);
      if !ok {
        return;
      }
      assert w.out[n0..m] == a;
      w.Continue(n0, m, origin, w.reader);
    }
    ok := true;
  }

  /** A whole datastream: SOI, any application markers, the frame header, the scans with tables sent once and
      DRI where the interval changes, and EOI. Read in any pieces it shows, at every scan, all that the compressor
      set for that scan, leaves the reader at the first byte of the scan's data, and ends in EOI. */
  method FileRoundTrip(os: Orders, s: Settings, extras: seq<Extra>, parts: seq<Part>, rest: seq<byte>, pieces: seq<nat>)
    returns (ok: bool, seen: seq<Seen>, reached: Reached, r: MarkerReader, left: seq<byte>)
    requires AreOrders(os) && AreSettings(s) && AreExtras(extras) && AreParts(s, parts) && parts != []
    ensures ok <==> ExtrasFit(extras) && AllQuants(s) && s.height <= 65535 && s.width <= 65535 && PartsFit(s, parts)
    ensures ok ==> |seen| == |parts| && forall k :: 0 <= k < |parts| ==>
            Told(os, s, parts[k], seen[k].st) && seen[k].data == parts[k].data
    ensures ok ==> reached == Eoi && r.pos <= |r.src| && r.src[r.pos..] + left == rest
  {
    hide AreOrders, IsState, Ends, Leads, HasFrame, QuantKnown, CompKnown, AllQuants, IsBaseline, AreParts,
         AreExtras, ExtrasFit, PartsFit,
         MarkerReader.Valid, MarkerReader.Allocated, MarkerWriter.Valid, Knows, AreSettings, Told, AreHeads, Stream,
             Front, Resumes;
    r := new MarkerReader(os);
    seen, reached, left := [], Waiting, rest;
    Within(r);
    ghost var start := r.Contents();
    AtStart(os, s, start);
    var no := [false, false, false, false];
    var w := new MarkerWriter(os, s, no, no, no, start);
    ok := WriteExtras(w, extras, 0, start);
    if !ok {
      return;
    }
    ghost var soi, first := w.out, w.reader;
    assert w.Since(0) == soi;
    ok := w.WriteFrameHeader();
    if !ok {
      return;
    }
    ghost var st, fh, tail := w.reader, w.out, w.Since(|soi|);
    assert fh == soi + tail;
    ghost var heads, states;
    ok, heads, states := WriteScans(w, parts);
    if !ok {
      return;
    }
    ghost var body := w.out;
    w.WriteTrailer();
    assert w.out == fh + Front(heads, parts, |parts|) + Trailer() by { assert w.out == body + Trailer(); }
    left := w.out + rest;
    NowHere(r);
    assert r.src[0..] + left == left;
    WholeStream(fh, heads, parts, w.out, rest);
    AreTold(os, s, parts, states);
    if s.progressive && s.blockSize != 8 {
      EndsOn(os, soi, tail, start, first, st);
      left := ReadHeader(r, left, 0, fh, Stream(heads, parts, 0) + rest, pieces, st);
      seen, reached, left := ReadScans(r, left, r.pos, parts, heads, states, rest, pieces);
    } else {
      LeadsOn(os, soi, tail, start, first, st);
      ghost var heads' := heads[0 := fh + heads[0]];
      FirstHead(os, start, fh, heads, states, parts);
      assert fh + (Stream(heads, parts, 0) + rest) == Stream(heads', parts, 0) + rest;
      seen, reached, left := ReadScans(r, left, 0, parts, heads', states[0 := start], rest, pieces);
    }
  }

  lemma WholeStream(fh: seq<byte>, heads: seq<seq<byte>>, parts: seq<Part>, out: seq<byte>, rest: seq<byte>)
    requires |heads| == |parts| && out == fh + Front(heads, parts, |parts|) + Trailer()
    ensures out + rest == fh + (Stream(heads, parts, 0) + rest)
  {
    hide Front, Trailer;
    FrontStream(heads, parts, |parts|);
    var a, b := Front(heads, parts, |parts|), Trailer();
    assert Stream(heads, parts, |parts|) == b;
    assert a + b == Stream(heads, parts, 0);
    Regroup(fh, a, b, rest);
    assert (a + b) + rest == a + (b + rest);
  }

  lemma AreTold(os: Orders, s: Settings, parts: seq<Part>, states: seq<State>)
    requires |states| == |parts| + 1 && forall k :: 0 <= k < |parts| ==> Told(os, s, parts[k], states[k + 1])
    ensures forall k :: 0 < k < |states| ==> states[k].sawSoi && states[k].sawSof
  {
    forall k | 0 < k < |states| ensures states[k].sawSoi && states[k].sawSof {
      assert Told(os, s, parts[k - 1], states[k - 1 + 1]);
    }
  }

  /** What comes before the first scan read with its header. */
  lemma FirstHead(os: Orders, start: State, fh: seq<byte>, heads: seq<seq<byte>>, states: seq<State>, parts: seq<Part>)
    requires AreHeads(os, heads, states) && |heads| == |parts| > 0 && Leads(os, fh, start, states[0])
    ensures AreHeads(os, heads[0 := fh + heads[0]], states[0 := start])
    ensures Stream(heads[0 := fh + heads[0]], parts, 0) == fh + Stream(heads, parts, 0)
  {
    hide Ends, Leads, Trailer;
    var heads' := heads[0 := fh + heads[0]];
    EndsOn(os, fh, heads[0], start, states[0], states[1]);
    StreamSame(heads, heads', parts, 1);
    var next := Stream(heads, parts, 1);
    assert fh + heads[0] + parts[0].data + next == fh + (heads[0] + parts[0].data + next);
  }

  lemma {:induction false} StreamSame(heads: seq<seq<byte>>, heads': seq<seq<byte>>, parts: seq<Part>, k: nat)
    requires k <= |heads| == |heads'| == |parts| && forall i :: k <= i < |heads| ==> heads[i] == heads'[i]
    ensures Stream(heads, parts, k) == Stream(heads', parts, k)
    decreases |heads| - k
  {
    if k < |heads| {
      StreamSame(heads, heads', parts, k + 1);
    }
  }
}
