// The marker reader. Each routine reads from the restart point with a cursor of its own, and moves the restart
// point only at the end; when the input runs out it leaves what it changed and is called again.
module MarkerReader {
  import opened Digits
  import opened Segments
  import opened MarkerSyntax
  import opened MarkerResume

  datatype Status = Ready | Suspended | Failed

  datatype Reached = Sos | Eoi | Waiting | Invalid

  class MarkerReader {
    const os: Orders
    // The bytes that have arrived, and the restart point in them.
    var src: seq<byte>
    var pos: nat
    var unreadMarker: nat
    var sawSoi: bool
    var sawSof: bool
    var frame: Frame
    var comps: seq<CompSpec>
    var scan: ScanSpec
    var quants: Quants
    var huffs: Huffs
    var cond: Conditioning
    var restartInterval: nat
    var nextRestartNum: nat
    var inputScanNumber: nat

    ghost predicate Valid()
      reads this
    {
      && AreOrders(os) && pos <= |src| && |quants| == NUM_QUANT_TBLS && AreHuffs(huffs) && IsConditioning(cond)
    }

    /** The components are allocated once, even if reading SOF suspends. */
    ghost predicate Allocated()
      reads this
    {
      !sawSof && comps != [] ==> IsSof(unreadMarker) && pos + 8 <= |src| && |comps| == src[pos + 7]
    }

    constructor (os: Orders)
      requires AreOrders(os)
      ensures Valid() && Allocated() && this.os == os && src == [] && pos == 0 && unreadMarker == 0 && !sawSoi &&
              !sawSof
    {
      this.os := os;
      src, pos, unreadMarker, sawSoi, sawSof := [], 0, 0, false, false;
      frame := Frame(false, false, false, 0, 0, 0, 0);
      comps := [];
      scan := ScanSpec([], 0, 0, 0, 0);
      quants := [None, None, None, None];
      huffs := Huffs([None, None, None, None], [None, None, None, None]);
      cond := Conditioning(seq(NUM_ARITH_TBLS, _ => 0), seq(NUM_ARITH_TBLS, _ => 1), seq(NUM_ARITH_TBLS, _ => 5));
      restartInterval, nextRestartNum, inputScanNumber := 0, 0, 0;
    }

    /** More bytes arrive. */
    method Arrive(more: seq<byte>)
      requires Valid()
      modifies `src
      ensures Valid() && src == old(src) + more && (old(Allocated()) ==> Allocated())
    {
      src := src + more;
    }

    // ----- input

    method InputByte(at: nat) returns (ok: bool, v: byte)
      ensures ok <==> at < |src|
      ensures ok ==> v == src[at]
    {
      ok, v := at < |src|, 0;
      if ok {
        v := src[at];
      }
    }

    method Input2Bytes(at: nat) returns (ok: bool, v: nat)
      ensures ok <==> at + 2 <= |src|
      ensures ok ==> v == Two(src, at)
    {
      ok, v := false, 0;
      if at < |src| {
        var high: nat := src[at];
        v := high * 256;
        if at + 1 < |src| {
          v := v + src[at + 1];
          ok := true;
        }
      }
    }

    // ----- the routines

    method GetDri() returns (r: Status)
      requires Valid()
      modifies `restartInterval, `pos
      ensures Valid() && match ParseDri(src, old(pos), old(restartInterval))
                         case Done(v, next) => r == Ready && restartInterval == v && pos == next
                         case NeedMore(v) => r == Suspended && restartInterval == v && pos == old(pos)
                         case Bad => r == Failed
    {
      var ok, length := Input2Bytes(pos);
      if !ok {
        return Suspended;
      }
      if length != 4 {
        return Failed;
      }
      var tmp;
      ok, tmp := Input2Bytes(pos + 2);
      if !ok {
        return Suspended;
      }
      restartInterval := tmp;
      pos := pos + 4;
      return Ready;
    }

    /** skip_variable, and what get_interesting_appn passes over. */
    method SkipVariable() returns (r: Status)
      requires Valid()
      modifies `pos
      ensures Valid() && match ParseSkip(src, old(pos))
                         case Done(_, next) => r == Ready && pos == next
                         case NeedMore(_) => r == Suspended && pos == old(pos)
                         case Bad => false
    {
      hide AreOrders;
      var ok, length := Input2Bytes(pos);
      if !ok {
        return Suspended;
      }
      var at: nat := pos + 2;
      if length > 2 {
        at := at + (length - 2);
      }
      if at > |src| {
        return Suspended;
      }
      pos := at;
      return Ready;
    }

    method StoreConditioning(index: byte, val: byte) returns (ok: bool)
      requires IsConditioning(cond) && index < 2 * NUM_ARITH_TBLS
      modifies `cond
      ensures cond == SetConditioning(old(cond), index, val)
      ensures ok <==> !(index < NUM_ARITH_TBLS && val % 16 > val / 16)
    {
      ok := true;
      if index >= NUM_ARITH_TBLS {
        cond := cond.(acK := cond.acK[index - NUM_ARITH_TBLS := val]);
      } else {
        cond := cond.(dcL := cond.dcL[index := val % 16], dcU := cond.dcU[index := val / 16]);
        ok := cond.dcL[index] <= cond.dcU[index];
      }
    }

    method GetDac() returns (r: Status)
      requires Valid()
      modifies `cond, `pos
      ensures Valid() && match ParseDac(src, old(pos), old(cond))
                         case Done(v, next) => r == Ready && cond == v && pos == next
                         case NeedMore(v) => r == Suspended && cond == v && pos == old(pos)
                         case Bad => r == Failed
    {
      hide AreOrders, SetConditioning;
      var ok, length: int := Input2Bytes(pos);
      if !ok {
        return Suspended;
      }
      length := length - 2;
      var at: nat := pos + 2;
      while length > 0
        invariant IsConditioning(cond) && pos == old(pos) && at <= |src|
        invariant DacEntries(src, at, length, cond) == ParseDac(src, old(pos), old(cond))
        decreases length
      {
        var index, val;
        ok, index := InputByte(at);
        if !ok {
          return Suspended;
        }
        ok, val := InputByte(at + 1);
        if !ok {
          return Suspended;
        }
        at := at + 2;
        length := length - 2;
        if index < 0 || index >= 2 * NUM_ARITH_TBLS {
          return Failed;
        }
        ok := StoreConditioning(index, val);
        if !ok {
          return Failed;
        }
      }
      if length != 0 {
        return Failed;
      }
      pos := at;
      return Ready;
    }

    /** The sixteen counts of a Huffman table. */
    method InputBits(at: nat) returns (ok: bool, bits: seq<byte>, count: nat)
      ensures ok <==> at + 16 <= |src|
      ensures ok ==> bits == src[at..at + 16] && count == Total(bits)
    {
      bits, count := [], 0;
      for i := 0 to 16
        invariant at + i <= |src| || i == 0
        invariant |bits| == i && (i > 0 ==> bits == src[at..at + i]) && count == Total(bits)
      {
        var b;
        ok, b := InputByte(at + i);
        if !ok {
          return;
        }
        assert (bits + [b])[..i] == bits;
        bits := bits + [b];
        count := count + b;
      }
      ok := true;
    }

    method InputBytes(at: nat, n: nat) returns (ok: bool, vals: seq<byte>)
      requires at <= |src|
      ensures ok <==> at + n <= |src|
      ensures ok ==> vals == src[at..at + n]
    {
      vals := [];
      for i := 0 to n
        invariant at + i <= |src| && vals == src[at..at + i]
      {
        var b;
        ok, b := InputByte(at + i);
        if !ok {
          return;
        }
        vals := vals + [b];
      }
      ok := true;
    }

    method StoreTable(index: byte, bits: seq<byte>, vals: seq<byte>) returns (ok: bool)
      requires AreHuffs(huffs)
      modifies `huffs
      ensures if ok then SlotOf(index).Some? else SlotOf(index).None?
      ensures !ok ==> huffs == old(huffs)
      ensures ok ==> huffs == SetHuff(old(huffs), SlotOf(index).value, HuffSpec(bits, vals))
    {
      var ac := index % 32 >= 16;
      var i := if ac then index - 16 else index;
      if i < 0 || i >= NUM_HUFF_TBLS {
        return false;
      }
      if ac {
        huffs := huffs.(ac := huffs.ac[i := Some(HuffSpec(bits, vals))]);
      } else {
        huffs := huffs.(dc := huffs.dc[i := Some(HuffSpec(bits, vals))]);
      }
      return true;
    }

    method GetDht() returns (r: Status)
      requires Valid()
      modifies `huffs, `pos
      ensures Valid() && match ParseDht(src, old(pos), old(huffs))
                         case Done(v, next) => r == Ready && huffs == v && pos == next
                         case NeedMore(v) => r == Suspended && huffs == v && pos == old(pos)
                         case Bad => r == Failed
    {
      hide AreOrders, Total, SlotOf, SetHuff;
      var ok, length: int := Input2Bytes(pos);
      if !ok {
        return Suspended;
      }
      length := length - 2;
      var at: nat := pos + 2;
      while length > 16
        invariant AreHuffs(huffs) && pos == old(pos) && at <= |src|
        invariant DhtTables(src, at, length, huffs) == ParseDht(src, old(pos), old(huffs))
        decreases length
      {
        var index, bits, count, vals;
        ok, index := InputByte(at);
        if !ok {
          return Suspended;
        }
        ok, bits, count := InputBits(at + 1);
        if !ok {
          return Suspended;
        }
        length := length - 17;
        if count > 256 || count > length {
          return Failed;
        }
        ok, vals := InputBytes(at + 17, count);
        if !ok {
          return Suspended;
        }
        length := length - count;
        ok := StoreTable(index, bits, vals);
        if !ok {
          return Failed;
        }
        at := at + 17 + count;
      }
      if length != 0 {
        return Failed;
      }
      pos := at;
      return Ready;
    }

    /** The entries of table n. */
    method InputEntries(at: nat, count: nat, wide: bool, n: nat) returns (ok: bool, next: nat)
      requires Valid() && at <= |src| && count <= 64 && n < NUM_QUANT_TBLS
      modifies `quants
      ensures Valid()
      ensures match DqtTable(os, src, at, count, wide, n, old(quants))
              case Done(v, e) => ok && next == e <= |src| && quants == v
              case NeedMore(v) => !ok && quants == v
              case Bad => false
    {
      hide AreOrders, OrderFor, Blank;
      OrderIs(os, count);
      var order := OrderFor(os, count);
      quants := quants[n := Some(Blank(quants[n], count))];
      next := at;
      for i := 0 to count
        invariant |quants| == NUM_QUANT_TBLS && quants[n].Some? && quants == old(quants)[n := quants[n]] &&
                  next <= |src|
        invariant DqtValues(src, at, 0, count, wide, order, Blank(old(quants)[n], count))
                  == DqtValues(src, next, i, count, wide, order, quants[n].value)
      {
        var tmp;
        if wide {
          ok, tmp := Input2Bytes(next);
          if !ok {
            return;
          }
          next := next + 2;
        } else {
          ok, tmp := InputByte(next);
          if !ok {
            return;
          }
          next := next + 1;
        }
        quants := quants[n := Some(quants[n].value[order[i] := tmp])];
      }
      ok := true;
    }

    method GetDqt() returns (r: Status)
      requires Valid()
      modifies `quants, `pos
      ensures Valid() && match ParseDqt(os, src, old(pos), old(quants))
                         case Done(v, next) => r == Ready && quants == v && pos == next
                         case NeedMore(v) => r == Suspended && quants == v && pos == old(pos)
                         case Bad => r == Failed
    {
      hide AreOrders, DqtTable;
      var ok, length: int := Input2Bytes(pos);
      if !ok {
        return Suspended;
      }
      length := length - 2;
      var at: nat := pos + 2;
      while length > 0
        invariant Valid() && pos == old(pos) && at <= |src|
        invariant DqtTables(os, src, at, length, quants) == ParseDqt(os, src, old(pos), old(quants))
        decreases length
      {
        length := length - 1;
        var n;
        ok, n := InputByte(at);
        if !ok {
          return Suspended;
        }
        var wide := n / 16 != 0;
        n := n % 16;
        if n >= NUM_QUANT_TBLS {
          return Failed;
        }
        var count := Entries(length, wide);
        ok, at := InputEntries(at + 1, count, wide, n);
        if !ok {
          return Suspended;
        }
        length := length - count;
        if wide {
          length := length - count;
        }
      }
      if length != 0 {
        return Failed;
      }
      pos := at;
      return Ready;
    }

    /** The length and the fixed part of SOF. */
    method InputFrame() returns (ok: bool, length: nat)
      modifies `frame
      ensures ok <==> pos + 8 <= |src|
      ensures ok ==> length == Two(src, pos)
                     && frame == old(frame).(precision := src[pos + 2], height := Two(src, pos + 3),
                         width := Two(src, pos + 5),
                                             numComponents := src[pos + 7])
    {
      ok, length := Input2Bytes(pos);
      if !ok {
        return;
      }
      var v;
      ok, v := InputByte(pos + 2);
      if !ok {
        return;
      }
      frame := frame.(precision := v);
      ok, v := Input2Bytes(pos + 3);
      if !ok {
        return;
      }
      frame := frame.(height := v);
      ok, v := Input2Bytes(pos + 5);
      if !ok {
        return;
      }
      frame := frame.(width := v);
      ok, v := InputByte(pos + 7);
      if !ok {
        return;
      }
      frame := frame.(numComponents := v);
    }

    method GetSof(baseline: bool, progressive: bool, arith: bool) returns (r: Status)
      requires Valid() && Allocated() && IsSof(unreadMarker)
      modifies `frame, `comps, `sawSof, `pos
      ensures Valid() && Allocated() && match ParseSof(src, old(pos), baseline, progressive, arith, old(sawSof))
                         case Done(v, next) => r == Ready && frame == v.0 && comps == v.1 && sawSof && pos == next
                         case NeedMore(_) => r == Suspended && pos == old(pos) && sawSof == old(sawSof) && (sawSof ==> comps == old(comps))
                         case Bad => r == Failed
    {
      hide AreOrders, SofComps, AreHuffs, IsConditioning, Two;
      frame := frame.(baseline := baseline, progressive := progressive, arith := arith);
      var ok, length: int := InputFrame();
      if !ok {
        return Suspended;
      }
      length := length - 8;
      if sawSof {
        return Failed;
      }
      if frame.height <= 0 || frame.width <= 0 || frame.numComponents <= 0 {
        return Failed;
      }
      if length != frame.numComponents * 3 {
        return Failed;
      }
      if comps == [] {
        comps := seq(frame.numComponents, _ => CompSpec(0, 0, 0, 0, 0, 0));
      }
      var next;
      ok, next := InputComponents(frame.numComponents, pos + 8);
      if !ok {
        return Suspended;
      }
      sawSof := true;
      pos := next;
      return Ready;
    }

    method InputComponents(n: nat, start: nat) returns (ok: bool, at: nat)
      requires |comps| == n && start <= |src|
      modifies `comps
      ensures |comps| == n && (ok <==> start + 3 * n <= |src|)
      ensures ok ==> at == start + 3 * n && comps == SofComps(src, start, n)
    {
      at := start;
      for ci := 0 to n
        invariant |comps| == n && at == start + 3 * ci <= |src| && comps[..ci] == SofComps(src, start, ci)
      {
        var id, c, q;
        ok, id := InputByte(at);
        if !ok {
          return;
        }
        ok, c := InputByte(at + 1);
        if !ok {
          return;
        }
        ok, q := InputByte(at + 2);
        if !ok {
          return;
        }
        comps := comps[ci := CompSpec(id, c / 16, c % 16, q, 0, 0)];
        assert comps[..ci + 1] == comps[..ci] + [SofComp(src, at)];
        at := at + 3;
      }
      assert comps[..n] == comps;
      ok := true;
    }

    /** The component selectors of a scan. */
    method InputSelectors(n: nat, start: nat) returns (r: Status, at: nat)
      requires start <= |src|
      modifies `comps, `scan
      ensures match SosComps(src, start, n, old(comps), [])
              case Done(v, next) => r == Ready && comps == v.0 && scan.comps == v.1 && at == next <= |src|
              case NeedMore(v) => r == Suspended && comps == v.0
              case Bad => r == Failed
    {
      scan := scan.(comps := []);
      at := start;
      for i := 0 to n
        invariant at <= |src| && SosComps(src, start, n, old(comps), []) == SosComps(src, at, n - i, comps, scan.comps)
      {
        var ok, cc, c;
        ok, cc := InputByte(at);
        if !ok {
          return Suspended, at;
        }
        ok, c := InputByte(at + 1);
        if !ok {
          return Suspended, at;
        }
        var ci: nat := 0;
        while ci < |comps| && comps[ci].id != cc
          invariant ci <= |comps| && FindComp(comps, cc, 0) == FindComp(comps, cc, ci)
          modifies {}
        {
          ci := ci + 1;
        }
        if ci == |comps| {
          return Failed, at;
        }
        scan := scan.(comps := scan.comps + [ci]);
        comps := comps[ci := comps[ci].(dcTbl := c / 16, acTbl := c % 16)];
        at := at + 2;
      }
      r := Ready;
    }

    /** Ss, Se, Ah and Al. */
    method InputProgression(at: nat) returns (ok: bool)
      modifies `scan
      ensures ok <==> at + 3 <= |src|
      ensures ok ==> scan == ScanSpec(old(scan.comps), src[at], src[at + 1], src[at + 2] / 16, src[at + 2] % 16)
    {
      var c;
      ok, c := InputByte(at);
      if !ok {
        return;
      }
      scan := scan.(ss := c);
      ok, c := InputByte(at + 1);
      if !ok {
        return;
      }
      scan := scan.(se := c);
      ok, c := InputByte(at + 2);
      if !ok {
        return;
      }
      scan := scan.(ah := c / 16, al := c % 16);
    }

    method GetSos() returns (r: Status)
      requires Valid() && unreadMarker == M_SOS
      modifies `comps, `scan, `nextRestartNum, `inputScanNumber, `pos
      ensures Valid() && match ParseSos(src, old(pos), sawSof, frame.progressive, old(comps))
                         case Done(v, next) =>
                           && r == Ready && comps == v.0 && scan == v.1 && pos == next && nextRestartNum == 0
                           && inputScanNumber == old(inputScanNumber) + (if scan.comps != [] then 1 else 0)
                         case NeedMore(v) => r == Suspended && comps == v.0 && pos == old(pos)
                                             && nextRestartNum == old(nextRestartNum) &&
                                                 inputScanNumber == old(inputScanNumber)
                         case Bad => r == Failed
    {
      hide AreOrders, SosComps, AreHuffs, IsConditioning, Two;
      if !sawSof {
        return Failed;
      }
      var ok, length := Input2Bytes(pos);
      if !ok {
        return Suspended;
      }
      var n;
      ok, n := InputByte(pos + 2);
      if !ok {
        return Suspended;
      }
      if length != n * 2 + 6 || n > MAX_COMPS_IN_SCAN || (n == 0 && !frame.progressive) {
        return Failed;
      }
      var at;
      r, at := InputSelectors(n, pos + 3);
      if r != Ready {
        return;
      }
      ok := InputProgression(at);
      if !ok {
        return Suspended;
      }
      nextRestartNum := 0;
      if n != 0 {
        inputScanNumber := inputScanNumber + 1;
      }
      pos := at + 3;
      return Ready;
    }

    /** Finds the next marker. Bytes passed over are given up even when the input ends first. */
    method NextMarker() returns (ok: bool)
      requires Valid() && unreadMarker == 0
      modifies `unreadMarker, `pos
      ensures Valid() && old(pos) <= pos
      ensures if ok then FindMarker(src, old(pos)) == Found(unreadMarker, pos) && unreadMarker != 0
              else FindMarker(src, old(pos)) == NotYet && unreadMarker == 0 && PassedOver(src, old(pos), pos)
    {
      hide AreOrders, PassedOver, FindMarker, SkipFill, AreHuffs, IsConditioning;
      var at: nat := pos;
      var c;
      Here(src, pos);
      while true
        invariant pos == at <= |src| && old(pos) <= pos && unreadMarker == 0 && PassedOver(src, old(pos), pos)
        decreases |src| - pos
      {
        Ending(src, pos);
        ok, c := InputByte(at);
        if !ok {
          FoundSame(src, old(pos), pos);
          return;
        }
        at := at + 1;
        while c != 0xFF
          invariant at <= |src| && pos == at - 1 && c == src[pos] && old(pos) <= pos
          invariant unreadMarker == 0 && PassedOver(src, old(pos), pos)
          decreases |src| - at
        {
          PassByte(src, pos);
          Further(src, old(pos), pos, at);
          pos := at;
          ok, c := InputByte(at);
          if !ok {
            Ending(src, pos);
            FoundSame(src, old(pos), pos);
            return;
          }
          at := at + 1;
        }
        FoundSame(src, old(pos), pos);
        AtFill(src, pos);
        ghost var first := at;
        ok, c := InputByte(at);
        if !ok {
          SkipFillIs(src, at);
          return;
        }
        at := at + 1;
        while c == 0xFF
          invariant first < at <= |src| && c == src[at - 1] && SkipFill(src, first) == SkipFill(src, at - 1)
          modifies {}
          decreases |src| - at
        {
          SkipFillIs(src, at - 1);
          ok, c := InputByte(at);
          if !ok {
            SkipFillIs(src, at);
            return;
          }
          at := at + 1;
        }
        SkipFillIs(src, at - 1);
        if c != 0 {
          break;
        }
        PassZero(src, pos);
        Further(src, old(pos), pos, at);
        pos := at;
      }
      unreadMarker := c;
      pos := at;
    }

    /** What the reader has set so far. */
    function Contents(): State
      reads this
    {
      State(sawSoi, sawSof, frame, comps, scan, quants, huffs, cond, restartInterval, nextRestartNum, inputScanNumber)
    }

    method GetSoi() returns (r: Status)
      requires Valid()
      modifies `sawSoi, `cond, `restartInterval
      ensures Valid() && r == if old(sawSoi) then Failed else Ready
      ensures r == Ready ==> Contents() == old(Contents()).(sawSoi := true, cond := DefaultConditioning(), restartInterval := 0)
    {
      if sawSoi {
        return Failed;
      }
      cond := Conditioning(seq(NUM_ARITH_TBLS, _ => 0), seq(NUM_ARITH_TBLS, _ => 1), seq(NUM_ARITH_TBLS, _ => 5));
      assert cond == DefaultConditioning();
      restartInterval := 0;
      sawSoi := true;
      return Ready;
    }

    /** The datastream must start with SOI. */
    method FirstMarker() returns (r: Status)
      requires Valid() && unreadMarker == 0
      modifies `unreadMarker, `pos
      ensures Valid()
      ensures r == if |src| < old(pos) + 2 then Suspended
                   else if src[old(pos)] != 0xFF || src[old(pos) + 1] != M_SOI then Failed else Ready
      ensures if r == Ready then unreadMarker == M_SOI && pos == old(pos) + 2 else unreadMarker == 0 && pos == old(pos)
    {
      hide AreOrders;
      var ok, c, c2;
      ok, c := InputByte(pos);
      if !ok {
        return Suspended;
      }
      ok, c2 := InputByte(pos + 1);
      if !ok {
        return Suspended;
      }
      if c != 0xFF || c2 != M_SOI {
        return Failed;
      }
      unreadMarker := c2;
      pos := pos + 2;
      return Ready;
    }

    /** The routines that only define tables. */
    method ProcessTables() returns (r: Status)
      requires Valid() && IsTables(unreadMarker)
      modifies `quants, `huffs, `cond, `restartInterval, `pos
      ensures Valid() && Processed(r, old(pos), old(Contents()))
    {
      hide AreOrders, ParseDac, ParseDht, ParseDqt, ParseDri;
      if unreadMarker == M_DAC {
        r := GetDac();
      } else if unreadMarker == M_DHT {
        r := GetDht();
      } else if unreadMarker == M_DQT {
        r := GetDqt();
      } else {
        r := GetDri();
      }
    }

    ghost predicate Processed(r: Status, at: nat, before: State)
      requires AreOrders(os)
      reads this
    {
      && IsState(before) && at <= |src|
      && match r
         case Ready => Step(os, src, unreadMarker, at, before) == Done(Contents(), pos)
         case Suspended => pos == at && Partial(os, src, unreadMarker, at, before, Contents())
         case Failed => Step(os, src, unreadMarker, at, before).Bad?
    }

    /** Reads the parameters of the pending marker. */
    method ProcessMarker() returns (r: Status)
      requires Valid() && Allocated() && unreadMarker != 0
      modifies `sawSoi, `sawSof, `frame, `comps, `scan, `quants, `huffs, `cond, `restartInterval, `nextRestartNum,
               `inputScanNumber, `pos
      ensures Valid() && Processed(r, old(pos), old(Contents()))
      ensures r == Ready ==> sawSof || comps == []
      ensures r == Suspended ==> Allocated()
    {
      hide AreOrders, ParseSof, ParseSos, ParseSkip;
      if unreadMarker == M_SOI {
        r := GetSoi();
      } else if IsSof(unreadMarker) {
        r := GetSof(unreadMarker == M_SOF0, unreadMarker == M_SOF2 || unreadMarker == M_SOF10,
                    unreadMarker == M_SOF9 || unreadMarker == M_SOF10);
      } else if unreadMarker == M_SOS {
        SosNeedsSof();
        r := GetSos();
      } else if IsTables(unreadMarker) {
        r := ProcessTables();
      } else if IsSkipped(unreadMarker) {
        r := SkipVariable();
      } else if M_RST0 <= unreadMarker <= M_RST7 || unreadMarker == M_TEM {
        r := Ready;
      } else {
        r := Failed;
      }
    }

    lemma SosNeedsSof()
      ensures !sawSof ==> ParseSos(src, pos, sawSof, frame.progressive, comps).Bad?
    {
    }

    /** read_markers: up to SOS or EOI. Suspending changes nothing about what reading comes to in the end, and
        what it comes to is what an uninterrupted reading of all the input comes to. */
    method ReadMarkers() returns (r: Reached)
      requires Valid() && Allocated()
      modifies this
      ensures src == old(src) && Valid() && old(pos) <= |src| && IsState(old(Contents()))
      ensures match r
              case Waiting =>
                && Allocated() && Future(os, src, unreadMarker, pos, Contents()) == Short
                && SameFuture(os, src, old(unreadMarker), old(pos), old(Contents()), unreadMarker, pos, Contents())
              case Sos =>
                unreadMarker == 0 && Allocated() &&
                    Comes(os, src, old(unreadMarker), old(pos), old(Contents()), ReachedSos(Contents(), pos))
              case Eoi => unreadMarker == 0 &&
                  Comes(os, src, old(unreadMarker), old(pos), old(Contents()), ReachedEoi(Contents(), pos))
              case Invalid => Comes(os, src, old(unreadMarker), old(pos), old(Contents()), Error)
    {
      hide AreOrders, Step, Run, RunCode, Partial, SameFuture, FindMarker, PassedOver, Comes, Future,
           MarkerReader.Processed, IsState;
      ghost var u, at, st := unreadMarker, pos, Contents();
      IsStateNow();
      FutureHere(os, src, u, at, st);
      while true
        invariant Valid() && Allocated() && src == old(src)
        invariant SameFuture(os, src, u, at, st, unreadMarker, pos, Contents())
        decreases |src| - pos, unreadMarker
      {
        IsStateNow();
        if unreadMarker == 0 {
          r := CollectMarker(u, at, st);
          if r != Sos {
            return;
          }
        }
        if unreadMarker == M_EOI {
          FutureEoi(os, src, pos, Contents());
          ComesThrough(os, src, u, at, st, unreadMarker, pos, Contents(), ReachedEoi(Contents(), pos));
          unreadMarker := 0;
          return Eoi;
        }
        r := AdvancePast(u, at, st);
        if r != Sos || unreadMarker == M_SOS {
          if r == Sos {
            unreadMarker := 0;
          }
          return;
        }
        unreadMarker := 0;
      }
    }

    lemma IsStateNow()
      requires Valid()
      ensures IsState(Contents())
    {
    }

    /** The marker proper, unless it was collected before. Sos stands for success. */
    method CollectMarker(ghost u: nat, ghost at: nat, ghost st: State) returns (r: Reached)
      requires Valid() && Allocated() && unreadMarker == 0 && SameFuture(os, src, u, at, st, 0, pos, Contents())
      modifies `unreadMarker, `pos
      ensures Valid() && old(pos) <= pos
      ensures match r
              case Waiting =>
                && Allocated() && unreadMarker == 0 && Future(os, src, 0, pos, Contents()) == Short
                && SameFuture(os, src, u, at, st, 0, pos, Contents())
              case Sos => unreadMarker != 0 && old(pos) < pos && Allocated() &&
                  SameFuture(os, src, u, at, st, unreadMarker, pos, Contents())
              case Eoi => false
              case Invalid => Comes(os, src, u, at, st, Error)
    {
      hide AreOrders, Step, Run, RunCode, SameFuture, FindMarker, PassedOver, Comes, Future, IsState;
      ghost var from := pos;
      IsStateNow();
      if !sawSoi {
        FutureFirst(os, src, pos, Contents());
        var f := FirstMarker();
        if f == Suspended {
          return Waiting;
        }
        if f == Failed {
          ComesThrough(os, src, u, at, st, 0, from, Contents(), Error);
          return Invalid;
        }
        FutureFurther(os, src, u, at, st, 0, from, Contents(), unreadMarker, pos, Contents());
        return Sos;
      }
      var ok := NextMarker();
      if !ok {
        FutureNotFound(os, src, from, pos, Contents());
        FutureFurther(os, src, u, at, st, 0, from, Contents(), 0, pos, Contents());
        return Waiting;
      }
      FutureFound(os, src, from, Contents());
      FutureFurther(os, src, u, at, st, 0, from, Contents(), unreadMarker, pos, Contents());
      return Sos;
    }

    /** The parameters of the marker. Sos stands for success. */
    method AdvancePast(ghost u: nat, ghost at: nat, ghost st: State) returns (r: Reached)
      requires Valid() && Allocated() && unreadMarker != 0 && unreadMarker != M_EOI
      requires SameFuture(os, src, u, at, st, unreadMarker, pos, Contents())
      modifies `sawSoi, `sawSof, `frame, `comps, `scan, `quants, `huffs, `cond, `restartInterval, `nextRestartNum,
               `inputScanNumber, `pos
      ensures Valid() && (r == Sos ==> old(pos) <= pos)
      ensures match r
              case Waiting =>
                && Allocated() && Future(os, src, unreadMarker, pos, Contents()) == Short
                && SameFuture(os, src, u, at, st, unreadMarker, pos, Contents())
              case Sos =>
                (sawSof || comps == []) &&
                    if unreadMarker == M_SOS then Comes(os, src, u, at, st, ReachedSos(Contents(), pos))
                                           else SameFuture(os, src, u, at, st, 0, pos, Contents())
              case Eoi => false
              case Invalid => Comes(os, src, u, at, st, Error)
    {
      hide AreOrders, Step, Run, RunCode, Partial, SameFuture, Comes, Future, IsState;
      ghost var from, before := pos, Contents();
      IsStateNow();
      var s := ProcessMarker();
      if s == Suspended {
        FutureSuspended(os, src, unreadMarker, from, before, Contents());
        FutureFurther(os, src, u, at, st, unreadMarker, from, before, unreadMarker, pos, Contents());
        return Waiting;
      }
      if s == Failed {
        FutureFailed(os, src, unreadMarker, from, before);
        ComesThrough(os, src, u, at, st, unreadMarker, from, before, Error);
        return Invalid;
      }
      if unreadMarker == M_SOS {
        FutureSos(os, src, from, before);
        ComesThrough(os, src, u, at, st, unreadMarker, from, before, ReachedSos(Contents(), pos));
      } else {
        FutureDone(os, src, unreadMarker, from, before);
        FutureFurther(os, src, u, at, st, unreadMarker, from, before, 0, pos, Contents());
      }
      return Sos;
    }
  }

  predicate IsTables(code: nat) {
    code == M_DAC || code == M_DHT || code == M_DQT || code == M_DRI
  }
}
