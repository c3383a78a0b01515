// Reading an entropy-coded segment bit by bit from a source whose bytes arrive in pieces: the bit
// buffer, the lookahead decoder, and what a reader that must wait leaves untouched.
module HuffReader {
  import opened Powers
  import opened Digits
  import opened HuffCode
  import opened HuffTables
  import opened HuffBits

  // ----- the source as data bytes and markers

  /** What stands at a position of the source: a data byte (FF 00 is the data byte FF), a marker
      (after any number of FF bytes), or nothing yet. */
  datatype Head = Data(c: byte, next: nat) | Marker(code: byte, next: nat) | Short

  function SkipFF(src: seq<byte>, lim: nat, p: nat): (r: nat)
    requires p <= lim <= |src|
    ensures p <= r <= lim && (r < lim ==> src[r] != 0xFF)
    decreases lim - p
  {
    if p < lim && src[p] == 0xFF then SkipFF(src, lim, p + 1) else p
  }

  function HeadAt(src: seq<byte>, lim: nat, p: nat): (h: Head)
    requires p <= lim <= |src|
    ensures !h.Short? ==> p < h.next <= lim
    ensures h.Marker? ==> 0 < h.code < 0xFF
  {
    if p == lim then Short
    else if src[p] != 0xFF then Data(src[p], p + 1)
    else
      var q := SkipFF(src, lim, p);
      if q == lim then Short else if src[q] == 0 then Data(0xFF, q + 1) else Marker(src[q], q + 1)
  }

  /** The bits of the data bytes up to the next marker, and one zero bit after them. Decoders make up
      zero bits when a segment ends too soon; the one here is there to be missed if they do. */
  ghost function SegBits(src: seq<byte>, p: nat): seq<bool>
    requires p <= |src|
    decreases |src| - p
  {
    match HeadAt(src, |src|, p)
    case Data(c, next) => NumBits(c, 8) + SegBits(src, next)
    case _ => [false]
  }

  /** The marker that ends the segment is among the first lim bytes. */
  ghost predicate Ends(src: seq<byte>, lim: nat, p: nat)
    requires p <= lim <= |src|
    decreases lim - p
  {
    match HeadAt(src, lim, p)
    case Data(c, next) => Ends(src, lim, next)
    case Marker(_, _) => true
    case Short => false
  }

  lemma {:induction false} SkipFFMore(src: seq<byte>, lim: nat, p: nat)
    requires p <= lim <= |src| && SkipFF(src, lim, p) < lim
    ensures SkipFF(src, |src|, p) == SkipFF(src, lim, p)
    decreases lim - p
  {
    if p < lim && src[p] == 0xFF {
      SkipFFMore(src, lim, p + 1);
    }
  }

  /** More bytes arriving do not change what has been recognised. */
  lemma HeadStays(src: seq<byte>, lim: nat, p: nat)
    requires p <= lim <= |src| && !HeadAt(src, lim, p).Short?
    ensures HeadAt(src, |src|, p) == HeadAt(src, lim, p)
  {
    if src[p] == 0xFF {
      SkipFFMore(src, lim, p);
    }
  }

  // ----- the bit buffer

  const BIT_BUF_SIZE := 32
  const MIN_GET_BITS := 25
  const BUF_LIMIT := 0x1_0000_0000

  /** The low left bits of buf are the next bits of ahead, and the rest of ahead is still in the source. */
  ghost predicate Sound(src: seq<byte>, pos: nat, marker: byte, buf: nat, left: nat, ahead: seq<bool>) {
    && pos <= |src| && left <= BIT_BUF_SIZE && buf < BUF_LIMIT
    && buf % Pow2(left) == Peek(ahead, left)
    && (if marker == 0 then Rest(ahead, left) == SegBits(src, pos)
        else |ahead| <= left + 1 && (|ahead| == left + 1 ==> !ahead[left]))
  }

  lemma ShiftIn(buf: nat, left: nat, c: byte)
    requires left <= 24
    ensures (buf * 256 + c) % BUF_LIMIT % Pow2(left + 8) == buf % Pow2(left) * 256 + c
  {
    hide Pow2;
    Pow2Add(left, 8);
    Pow2Add(left, 24 - left);
    Pow2Values();
    ShiftInParts(buf, Pow2(left), Pow2(24 - left), c);
  }

  lemma ShiftInParts(buf: nat, p: nat, q: nat, c: byte)
    requires p > 0 && q > 0 && p * q == 0x100_0000
    ensures (buf * 256 + c) % BUF_LIMIT % (p * 256) == buf % p * 256 + c
  {
    var k, r := buf / p, buf % p;
    var h, l := k / q, k % q;
    assert buf == k * p + r && k == h * q + l;
    MulAdd(h * q, l, p);
    MulAssociateLeft(h, q, p);
    assert q * p == 0x100_0000;
    MulMonotone(l + 1, q, p);
    MulAdd(l, 1, p);
    var low := l * p + r;
    DivModUnique(buf * 256 + c, BUF_LIMIT, h, low * 256 + c);
    MulAssociateLeft(l, p, 256);
    DivModUnique(low * 256 + c, p * 256, l, r * 256 + c);
  }

  /** Shifting a data byte in. */
  lemma AddByte(src: seq<byte>, pos: nat, buf: nat, left: nat, ahead: seq<bool>, c: byte, next: nat)
    requires Sound(src, pos, 0, buf, left, ahead) && left < MIN_GET_BITS
    requires HeadAt(src, |src|, pos) == Data(c, next)
    ensures Sound(src, next, 0, (buf * 256 + c) % BUF_LIMIT, left + 8, ahead)
  {
    hide Pow2, NumBits, HeadAt, Peek, Rest;
    ShiftIn(buf, left, c);
    PeekSplit(ahead, left, 8);
    PeekNum(c, 8, SegBits(src, next));
    Pow2Values();
  }

  lemma AtMarker(src: seq<byte>, pos: nat, buf: nat, left: nat, ahead: seq<bool>, m: byte, next: nat)
    requires Sound(src, pos, 0, buf, left, ahead) && HeadAt(src, |src|, pos) == Marker(m, next)
    ensures m != 0 && Sound(src, next, m, buf, left, ahead)
  {
  }

  /** Zero bits made up after the end of the segment change nothing. */
  lemma AddZeros(src: seq<byte>, pos: nat, marker: byte, buf: nat, left: nat, ahead: seq<bool>)
    requires Sound(src, pos, marker, buf, left, ahead) && marker != 0 && left <= MIN_GET_BITS
    ensures Sound(src, pos, marker, buf * Pow2(MIN_GET_BITS - left) % BUF_LIMIT, MIN_GET_BITS, ahead)
  {
    hide Pow2;
    var n := MIN_GET_BITS - left;
    PeekSplit(ahead, left, n);
    PeekZeros(Rest(ahead, left), n);
    Pow2Add(left, n);
    Pow2Add(MIN_GET_BITS, 7);
    Pow2Add(16, 16);
    Pow2Values();
    ShiftZeros(buf, Pow2(left), Pow2(n), Pow2(7));
  }

  lemma ShiftZeros(buf: nat, p: nat, d: nat, q: nat)
    requires p > 0 && d > 0 && q > 0 && p * d * q == BUF_LIMIT
    ensures p * d > 0 && buf * d % BUF_LIMIT % (p * d) == buf % p * d
  {
    var k, r := buf / p, buf % p;
    assert buf == k * p + r;
    MulMonotone(1, p, d);
    MulAdd(k * p, r, d);
    MulAssociateLeft(k, p, d);
    MulMonotone(r + 1, p, d);
    MulAdd(r, 1, d);
    var w := p * d;
    var h, l := k / q, k % q;
    assert k == h * q + l;
    MulAdd(h * q, l, w);
    MulAssociateLeft(h, q, w);
    MulMonotone(l + 1, q, w);
    MulAdd(l, 1, w);
    DivModUnique(buf * d, BUF_LIMIT, h, l * w + r * d);
    DivModUnique(l * w + r * d, w, l, r * d);
  }

  lemma {:induction false} PeekZeros(s: seq<bool>, n: nat)
    requires forall i :: 0 <= i < |s| ==> !s[i]
    ensures Peek(s, n) == 0
  {
    if n > 0 {
      PeekZeros(s, n - 1);
    }
  }

  /** Taking n bits off the front. */
  lemma TakeBits(src: seq<byte>, pos: nat, marker: byte, buf: nat, left: nat, ahead: seq<bool>, n: nat)
    requires Sound(src, pos, marker, buf, left, ahead) && n <= left
    ensures buf / Pow2(left - n) % Pow2(n) == Peek(ahead, n)
    ensures Sound(src, pos, marker, buf, left - n, Rest(ahead, n))
  {
    hide Pow2, SegBits;
    PeekSplit(ahead, n, left - n);
    PeekBound(ahead, n);
    PeekBound(Rest(ahead, n), left - n);
    Pow2Add(n, left - n);
    TakeParts(buf, Pow2(n), Pow2(left - n), Peek(ahead, n), Peek(Rest(ahead, n), left - n));
  }

  lemma TakeParts(buf: nat, p: nat, d: nat, q: nat, r: nat)
    requires p > 0 && d > 0 && q < p && r < d && p * d > 0 && buf % (p * d) == q * d + r
    ensures buf / d % p == q && buf % d == r
  {
    var k := buf / (p * d);
    assert buf == k * (p * d) + (q * d + r);
    MulAssociateLeft(k, p, d);
    MulAdd(k * p, q, d);
    DivModUnique(buf, d, k * p + q, r);
    DivModUnique(k * p + q, p, k, q);
  }

  // ----- the reader

  class BitReader {
    const src: seq<byte>
    var arrived: nat
    var unreadMarker: byte
    var insufficientData: bool

    // Where the next MCU starts.
    var savedPos: nat
    var savedBuf: nat
    var savedLeft: nat
    ghost var savedAhead: seq<bool>

    // Where the MCU being decoded has got to.
    var pos: nat
    var buf: nat
    var left: nat
    ghost var ahead: seq<bool>

    /** Between MCUs. */
    ghost predicate Valid()
      reads this`arrived, this`unreadMarker, this`savedPos, this`savedBuf, this`savedLeft, this`savedAhead
    {
      savedPos <= arrived <= |src| && Sound(src, savedPos, unreadMarker, savedBuf, savedLeft, savedAhead)
    }

    /** Within an MCU. */
    ghost predicate Open()
      reads this`arrived, this`unreadMarker, this`pos, this`buf, this`left, this`ahead
    {
      pos <= arrived <= |src| && Sound(src, pos, unreadMarker, buf, left, ahead)
    }

    /** The whole segment has arrived. */
    ghost predicate Complete()
      reads this`arrived, this`unreadMarker, this`pos
    {
      pos <= arrived <= |src| && (unreadMarker != 0 || Ends(src, arrived, pos))
    }

    /** The marker that ends the segment being read, and where it is behind. */
    ghost function End(): Head
      requires pos <= |src|
      reads this`unreadMarker, this`pos
    {
      if unreadMarker != 0 then Marker(unreadMarker, pos) else FindMarker(src, |src|, pos)
    }

    // The same for where the next MCU starts.
    ghost function SavedEnd(): Head
      requires savedPos <= |src|
      reads this`unreadMarker, this`savedPos
    {
      if unreadMarker != 0 then Marker(unreadMarker, savedPos) else FindMarker(src, |src|, savedPos)
    }

    ghost predicate SavedComplete()
      reads this`arrived, this`unreadMarker, this`savedPos
    {
      savedPos <= arrived <= |src| && (unreadMarker != 0 || Ends(src, arrived, savedPos))
    }

    constructor (src: seq<byte>)
      ensures this.src == src && Valid() && arrived == 0 && savedPos == 0 && savedLeft == 0
      ensures savedAhead == SegBits(src, 0) && unreadMarker == 0 && !insufficientData
    {
      this.src := src;
      arrived, unreadMarker, insufficientData := 0, 0, false;
      savedPos, savedBuf, savedLeft, savedAhead := 0, 0, 0, SegBits(src, 0);
      pos, buf, left, ahead := 0, 0, 0, SegBits(src, 0);
      new;
      assert Pow2(0) == 1;
    }

    /** More bytes become available. */
    method Arrive(n: nat)
      requires Valid() && arrived + n <= |src|
      modifies this`arrived
      ensures Valid() && arrived == old(arrived) + n
    {
      arrived := arrived + n;
    }

    method Load()
      requires Valid()
      modifies this`pos, this`buf, this`left, this`ahead
      ensures Open() && ahead == savedAhead && pos == savedPos
      ensures End() == SavedEnd() && Complete() == SavedComplete()
    {
      pos, buf, left, ahead := savedPos, savedBuf, savedLeft, savedAhead;
    }

    method Save()
      requires Open()
      modifies this`savedPos, this`savedBuf, this`savedLeft, this`savedAhead
      ensures Valid() && savedAhead == ahead && savedPos == pos
      ensures SavedEnd() == End() && SavedComplete() == Complete()
    {
      savedPos, savedBuf, savedLeft, savedAhead := pos, buf, left, ahead;
    }

    /** The data byte or marker at pos, as far as bytes have arrived; FF bytes before a marker are padding. */
    method ReadHead() returns (h: Head)
      requires pos <= arrived <= |src|
      ensures h == HeadAt(src, arrived, pos)
    {
      hide SkipFF;
      if pos == arrived {
        return Short;
      }
      var c := src[pos];
      var p := pos + 1;
      SkipStep(src, arrived, pos);
      if c != 0xFF {
        return Data(c, p);
      }
      while c == 0xFF
        invariant pos < p <= arrived && c == src[p - 1]
        invariant SkipFF(src, arrived, pos) == if c == 0xFF then SkipFF(src, arrived, p) else p - 1
        decreases arrived - p, c
      {
        if p == arrived {
          SkipEnd(src, arrived);
          return Short;
        }
        SkipStep(src, arrived, p);
        c := src[p];
        p := p + 1;
      }
      h := if c == 0 then Data(0xFF, p) else Marker(c, p);
    }

    /** Fill the bit buffer, to nbits at least. It fails only when bytes have yet to arrive; at the end
        of the segment it makes up zero bits, and remembers having done so. */
    method FillBitBuffer(nbits: nat) returns (ok: bool)
      requires Open() && left < MIN_GET_BITS && nbits <= MIN_GET_BITS
      modifies this`pos, this`buf, this`left, this`unreadMarker, this`insufficientData
      ensures ok ==> Open() && left >= nbits && (left >= MIN_GET_BITS || unreadMarker != 0)
      ensures insufficientData && !old(insufficientData) ==> 0 < nbits && |ahead| <= nbits
      ensures old(insufficientData) ==> insufficientData
      ensures insufficientData && !old(insufficientData) ==> unreadMarker != 0
      ensures !ok ==> unreadMarker == 0 && insufficientData == old(insufficientData)
      ensures old(unreadMarker) != 0 ==> ok && unreadMarker == old(unreadMarker)
      ensures old(Complete()) ==> ok && Complete()
      ensures ok ==> End() == old(End())
    {
      hide Sound, SegBits, HeadAt, Ends, SkipFF, Pow2, FindMarker;
      SoundFacts(src, pos, unreadMarker, buf, left, ahead);
      while unreadMarker == 0 && left < MIN_GET_BITS
        invariant Open() && (unreadMarker == 0 ==> left <= BIT_BUF_SIZE)
        invariant unreadMarker == 0 || old(unreadMarker) == 0 || unreadMarker == old(unreadMarker)
        invariant old(unreadMarker) != 0 ==> unreadMarker == old(unreadMarker)
        invariant unreadMarker != 0 ==> left < MIN_GET_BITS
        invariant insufficientData == old(insufficientData)
        invariant old(Complete()) ==> Complete()
        invariant End() == old(End())
        decreases unreadMarker == 0, BIT_BUF_SIZE - left
      {
        var h := ReadHead();
        HeadFacts(src, arrived, pos);
        if h.Short? {
          return false;
        }
        if h.Marker? {
          AtMarker(src, pos, buf, left, ahead, h.code, h.next);
          unreadMarker := h.code;
          pos := h.next;
        } else {
          AddByte(src, pos, buf, left, ahead, h.c, h.next);
          pos := h.next;
          buf := (buf * 256 + h.c) % BUF_LIMIT;
          left := left + 8;
        }
      }
      if unreadMarker != 0 && nbits > left {
        AheadEnds(src, pos, unreadMarker, buf, left, ahead);
        AddZeros(src, pos, unreadMarker, buf, left, ahead);
        insufficientData := true;
        buf := buf * Pow2(MIN_GET_BITS - left) % BUF_LIMIT;
        left := MIN_GET_BITS;
      }
      ok := true;
    }

    /** CHECK_BIT_BUFFER: have at least n bits in the buffer. */
    method CheckBitBuffer(n: nat) returns (ok: bool)
      requires Open() && n <= 16
      modifies this`pos, this`buf, this`left, this`unreadMarker, this`insufficientData
      ensures ok ==> Open() && left >= n
      ensures insufficientData && !old(insufficientData) ==> |ahead| <= n
      ensures old(insufficientData) ==> insufficientData
      ensures insufficientData && !old(insufficientData) ==> unreadMarker != 0
      ensures !ok ==> unreadMarker == 0 && insufficientData == old(insufficientData)
      ensures old(unreadMarker) != 0 ==> ok && unreadMarker == old(unreadMarker)
      ensures old(Complete()) ==> ok && Complete()
      ensures ok ==> End() == old(End())
    {
      hide Sound, SegBits, HeadAt, Ends, Pow2, FindMarker;
      ok := true;
      if left < n {
        ok := FillBitBuffer(n);
      }
    }

    function PeekBits(n: nat): nat
      requires n <= left
      reads this`buf, this`left
    {
      buf / Pow2(left - n) % Pow2(n)
    }

    method DropBits(n: nat)
      requires Open() && n <= left
      modifies this`left, this`ahead
      ensures Open() && left == old(left) - n && ahead == Rest(old(ahead), n)
    {
      hide Sound;
      TakeBits(src, pos, unreadMarker, buf, left, ahead, n);
      left := left - n;
      ahead := Rest(ahead, n);
    }

    /** GET_BITS: the next n bits as a number. */
    method GetBits(n: nat) returns (v: nat)
      requires Open() && n <= left
      modifies this`left, this`ahead
      ensures Open() && v == Peek(old(ahead), n) && ahead == Rest(old(ahead), n)
      ensures left == old(left) - n
    {
      hide Sound, Pow2, Peek;
      TakeBits(src, pos, unreadMarker, buf, left, ahead, n);
      v := PeekBits(n);
      DropBits(n);
    }

    /** jpeg_huff_decode: one bit at a time from minBits on. */
    method SlowDecode(t: HuffTbl, d: DDerived, minBits: nat) returns (ok: bool, sym: nat)
      requires Open() && IsDDerived(t, d) && 1 <= minBits <= 16
      requires Search(t.bits, ahead, 1) == Search(t.bits, ahead, minBits)
      modifies this`pos, this`buf, this`left, this`ahead, this`unreadMarker, this`insufficientData
      ensures ok ==> Open() && sym == SymAt(t, old(ahead)) && sym < 256 && ahead == AfterSym(t, old(ahead))
      ensures ok && insufficientData && !old(insufficientData) ==> ahead == []
      ensures old(insufficientData) ==> insufficientData
      ensures insufficientData && !old(insufficientData) ==> unreadMarker != 0
      ensures !ok ==> unreadMarker == 0 && insufficientData == old(insufficientData)
      ensures old(unreadMarker) != 0 ==> ok && unreadMarker == old(unreadMarker)
      ensures old(Complete()) ==> ok && Complete()
      ensures ok ==> End() == old(End())
    {
      hide Sound, SegBits, Ends, Pow2, Peek, IsDDerived, Search, Rest, SymAt, HasLength, MaxCode, FindMarker;
      ghost var s := ahead;
      DecodeTables(t, d);
      var l := minBits;
      SearchAtLeast(t.bits, s, l);
      ok := CheckBitBuffer(l);
      if !ok {
        return false, 0;
      }
      RestLength(s, l);
      var code := GetBits(l);
      while code > d.maxcode[l]
        invariant Open() && minBits <= l <= 17 && code == Peek(s, l) && ahead == Rest(s, l)
        invariant Search(t.bits, s, 1) == Search(t.bits, s, l) >= l
        invariant insufficientData && !old(insufficientData) ==> ahead == []
        invariant old(insufficientData) ==> insufficientData
        invariant insufficientData && !old(insufficientData) ==> unreadMarker != 0
        invariant old(unreadMarker) != 0 ==> unreadMarker == old(unreadMarker)
        invariant old(Complete()) ==> Complete()
        invariant End() == old(End())
        decreases 17 - l
      {
        SearchNext(t.bits, s, l);
        SearchAtLeast(t.bits, s, l + 1);
        PeekSplit(s, l, 1);
        RestLength(Rest(s, l), 1);
        ok := CheckBitBuffer(1);
        if !ok {
          return false, 0;
        }
        var bit := GetBits(1);
        code := 2 * code + bit;
        Pow2Values();
        l := l + 1;
      }
      SearchStops(t.bits, s, l);
      if l > 16 {
        sym := 0;
      } else {
        FoundIndex(t, d, s, l);
        sym := d.pub.vals[code + d.valoffset[l]];
      }
      SymFound(t, s);
    }

    /** HUFF_DECODE: look eight bits up at once when there are as many, and go on from nine bits when
        no code is that short; otherwise from one bit. Either way the symbol is the one the
        bit-by-bit search finds. */
    method HuffDecode(t: HuffTbl, d: DDerived) returns (ok: bool, sym: nat)
      requires Open() && IsDDerived(t, d)
      modifies this`pos, this`buf, this`left, this`ahead, this`unreadMarker, this`insufficientData
      ensures ok ==> Open() && sym == SymAt(t, old(ahead)) && sym < 256 && ahead == AfterSym(t, old(ahead))
      ensures ok && insufficientData && !old(insufficientData) ==> ahead == []
      ensures old(insufficientData) ==> insufficientData
      ensures insufficientData && !old(insufficientData) ==> unreadMarker != 0
      ensures !ok ==> unreadMarker == 0 && insufficientData == old(insufficientData)
      ensures old(unreadMarker) != 0 ==> ok && unreadMarker == old(unreadMarker)
      ensures old(Complete()) ==> ok && Complete()
      ensures ok ==> End() == old(End())
    {
      hide Sound, SegBits, Ends, Pow2, Peek, IsDDerived, Search, Rest, SymAt, HasLength, MaxCode, LookRight, FindMarker;
      if left < HUFF_LOOKAHEAD {
        ok := FillBitBuffer(0);
        if !ok {
          return false, 0;
        }
        if left < HUFF_LOOKAHEAD {
          ok, sym := SlowDecode(t, d, 1);
          return;
        }
      }
      TakeBits(src, pos, unreadMarker, buf, left, ahead, HUFF_LOOKAHEAD);
      PeekBound(ahead, HUFF_LOOKAHEAD);
      Pow2Values();
      var look := PeekBits(HUFF_LOOKAHEAD);
      DecodeTables(t, d);
      LookedUp(t, d, ahead);
      var nb := d.lookNbits[look];
      if nb != 0 {
        SymFound(t, ahead);
        DropBits(nb);
        ok, sym := true, d.lookSym[look];
      } else {
        ok, sym := SlowDecode(t, d, HUFF_LOOKAHEAD + 1);
      }
    }

    // ----- between segments

    /** next_marker: skip to the next marker. What has been skipped stays skipped if bytes run out, and
        the search then resumes to the same end. */
    method NextMarker() returns (ok: bool)
      requires savedPos <= arrived <= |src| && unreadMarker == 0
      modifies this`savedPos, this`unreadMarker
      ensures savedPos <= arrived
      ensures ok ==> unreadMarker != 0 && FindMarker(src, |src|, old(savedPos)) == Marker(unreadMarker, savedPos)
      ensures !ok ==> unreadMarker == 0 && FindMarker(src, arrived, old(savedPos)).Short?
      ensures !ok ==> FindMarker(src, |src|, savedPos) == FindMarker(src, |src|, old(savedPos))
    {
      hide SkipFF, FindMarker, HeadAt;
      ghost var p0 := savedPos;
      var c: byte := 0;
      while c == 0
        invariant savedPos <= arrived && c != 0xFF
        invariant unreadMarker == 0
        invariant c == 0 ==> FindMarker(src, arrived, savedPos) == FindMarker(src, arrived, p0)
        invariant c == 0 ==> FindMarker(src, |src|, savedPos) == FindMarker(src, |src|, p0)
        invariant c != 0 ==> FindMarker(src, |src|, p0) == Marker(c, savedPos)
        decreases arrived - savedPos, c == 0
      {
        if savedPos == arrived {
          NoMarkerYet(src, arrived, savedPos);
          return false;
        }
        c := src[savedPos];
        while c != 0xFF
          invariant savedPos < arrived && c == src[savedPos] && unreadMarker == 0
          invariant FindMarker(src, arrived, savedPos) == FindMarker(src, arrived, p0)
          invariant FindMarker(src, |src|, savedPos) == FindMarker(src, |src|, p0)
          decreases arrived - savedPos
        {
          SkipData(src, arrived, savedPos);
          savedPos := savedPos + 1;
          if savedPos == arrived {
            NoMarkerYet(src, arrived, savedPos);
            return false;
          }
          c := src[savedPos];
        }
        var p := savedPos + 1;
        SkipStep(src, arrived, savedPos);
        while c == 0xFF
          invariant savedPos < p <= arrived && c == src[p - 1]
          invariant SkipFF(src, arrived, savedPos) == if c == 0xFF then SkipFF(src, arrived, p) else p - 1
          decreases arrived - p, c
          modifies {}
        {
          if p == arrived {
            OnlyFF(src, arrived, savedPos, p);
            NoMarkerYet(src, arrived, savedPos);
            return false;
          }
          SkipStep(src, arrived, p);
          c := src[p];
          p := p + 1;
        }
        HeadAfterFF(src, arrived, savedPos, p);
        FindStep(src, arrived, savedPos);
        FindStep(src, |src|, savedPos);
        savedPos := p;
      }
      unreadMarker := c;
      ok := true;
    }

    /** Throw away the bits in the buffer; what is ahead is what the source still holds. */
    method DropBuffer()
      requires Valid()
      modifies this`savedLeft, this`savedAhead
      ensures Valid() && savedLeft == 0
    {
      hide SegBits;
      savedLeft := 0;
      savedAhead := if unreadMarker != 0 then [] else SegBits(src, savedPos);
      NothingBuffered(savedBuf, savedAhead);
    }

    /** read_restart_marker: expect RST number num, and swallow it. Another marker is left for error recovery. */
    method ReadRestartMarker(num: nat) returns (ok: bool)
      requires Valid() && savedLeft == 0 && num < 8
      modifies this`savedPos, this`unreadMarker, this`savedAhead
      ensures Valid() && savedLeft == 0
      ensures !ok ==> unreadMarker == 0 && SavedEnd() == old(SavedEnd()) && !old(SavedComplete())
      ensures ok ==> old(SavedEnd()).Marker? && savedPos == old(SavedEnd()).next
      ensures ok ==> (unreadMarker == 0 <==> old(SavedEnd()).code == 0xD0 + num)
      ensures ok && old(SavedEnd()).code == 0xD0 + num ==> unreadMarker == 0 && savedAhead == SegBits(src, savedPos)
      ensures ok && old(SavedEnd()).code != 0xD0 + num ==> unreadMarker == old(SavedEnd()).code
    {
      hide SegBits, FindMarker, Ends, HeadAt;
      ok := true;
      if unreadMarker == 0 {
        EndsFound(src, arrived, savedPos);
        ok := NextMarker();
        if !ok {
          savedAhead := SegBits(src, savedPos);
          NothingBuffered(savedBuf, savedAhead);
          return;
        }
      }
      if unreadMarker == 0xD0 + num {
        unreadMarker := 0;
      }
      savedAhead := if unreadMarker != 0 then [] else SegBits(src, savedPos);
      NothingBuffered(savedBuf, savedAhead);
    }
  }

  lemma NothingBuffered(buf: nat, ahead: seq<bool>)
    ensures buf % Pow2(0) == 0 && Peek(ahead, 0) == 0 && Rest(ahead, 0) == ahead
  {
    DivModUnique(buf, 1, buf, 0);
  }

  lemma {:induction false} EndsFound(src: seq<byte>, lim: nat, p: nat)
    requires p <= lim <= |src|
    ensures Ends(src, lim, p) ==> FindMarker(src, lim, p).Marker?
    decreases lim - p
  {
    hide HeadAt;
    var h := HeadAt(src, lim, p);
    if h.Data? {
      EndsFound(src, lim, h.next);
    }
  }

  lemma SoundFacts(src: seq<byte>, pos: nat, marker: byte, buf: nat, left: nat, ahead: seq<bool>)
    requires Sound(src, pos, marker, buf, left, ahead)
    ensures pos <= |src| && left <= BIT_BUF_SIZE && buf < BUF_LIMIT
  {
  }

  lemma AheadEnds(src: seq<byte>, pos: nat, marker: byte, buf: nat, left: nat, ahead: seq<bool>)
    requires Sound(src, pos, marker, buf, left, ahead) && marker != 0
    ensures |ahead| <= left + 1
  {
  }

  /** What the head at p says about the segment. */
  lemma HeadFacts(src: seq<byte>, lim: nat, p: nat)
    requires p <= lim <= |src|
    ensures var h := HeadAt(src, lim, p);
            && (h.Short? ==> !Ends(src, lim, p))
            && (!h.Short? ==> p < h.next <= lim && HeadAt(src, |src|, p) == h)
            && (h.Data? && Ends(src, lim, p) ==> Ends(src, lim, h.next))
            && (h.Data? ==> FindMarker(src, |src|, p) == FindMarker(src, |src|, h.next))
            && (h.Marker? ==> FindMarker(src, |src|, p) == h)
  {
    if !HeadAt(src, lim, p).Short? {
      HeadStays(src, lim, p);
    }
  }

  lemma SkipEnd(src: seq<byte>, lim: nat)
    requires lim <= |src|
    ensures SkipFF(src, lim, lim) == lim
  {
  }

  lemma SkipStep(src: seq<byte>, lim: nat, p: nat)
    requires p < lim <= |src|
    ensures SkipFF(src, lim, p) == if src[p] == 0xFF then SkipFF(src, lim, p + 1) else p
  {
  }

  lemma OnlyFF(src: seq<byte>, lim: nat, p: nat, q: nat)
    requires p < q == lim <= |src| && src[p] == 0xFF && SkipFF(src, lim, p) == SkipFF(src, lim, q)
    ensures HeadAt(src, lim, p).Short? && !Ends(src, lim, p)
  {
  }

  lemma HeadAfterFF(src: seq<byte>, lim: nat, p: nat, q: nat)
    requires p < q <= lim <= |src| && src[p] == 0xFF && SkipFF(src, lim, p) == q - 1
    ensures HeadAt(src, |src|, p) == HeadAt(src, lim, p)
    ensures HeadAt(src, lim, p) == if src[q - 1] == 0 then Data(0xFF, q) else Marker(src[q - 1], q)
    ensures Ends(src, lim, p) && src[q - 1] == 0 ==> Ends(src, lim, q)
  {
    HeadStays(src, lim, p);
  }

  lemma RestLength(s: seq<bool>, n: nat)
    ensures |Rest(s, n)| == if n <= |s| then |s| - n else 0
  {
  }

  // ----- the decoding tables

  lemma DecodeTables(t: HuffTbl, d: DDerived)
    requires IsDDerived(t, d)
    ensures Legal(t.bits) && d.pub == t && |d.maxcode| == 18 && |d.valoffset| == 17
    ensures |d.lookNbits| == |d.lookSym| == 256
    ensures forall l :: 1 <= l <= 17 ==> d.maxcode[l] == MaxCode(t.bits, l)
  {
  }

  lemma SearchAtLeast(bits: seq<nat>, s: seq<bool>, l: nat)
    requires |bits| == 17 && 1 <= l <= 17
    ensures l <= Search(bits, s, l) <= 17
  {
  }

  lemma SearchNext(bits: seq<nat>, s: seq<bool>, l: nat)
    requires |bits| == 17 && 1 <= l <= 17 && Peek(s, l) > MaxCode(bits, l)
    ensures l < 17 && Search(bits, s, l) == Search(bits, s, l + 1)
  {
    SentinelStops(s);
  }

  lemma SearchStops(bits: seq<nat>, s: seq<bool>, l: nat)
    requires |bits| == 17 && 1 <= l <= 17 && Peek(s, l) <= MaxCode(bits, l)
    ensures Search(bits, s, l) == l
  {
  }

  lemma FoundIndex(t: HuffTbl, d: DDerived, s: seq<bool>, l: nat)
    requires IsDDerived(t, d) && l == Search(t.bits, s, 1) <= 16
    ensures 1 <= l && 0 <= Peek(s, l) + d.valoffset[l] < 256
    ensures SymAt(t, s) == t.vals[Peek(s, l) + d.valoffset[l]]
  {
    hide Search, Peek, Legal, HasLength, Start, First, LookRight, MaxCode;
    SearchIndex(t.bits, s);
    SearchHit(t.bits, s);
    UsedLength(t.bits, Peek(s, l) + ValOffset(t.bits, l), l);
    IndexInTable(t.bits, Peek(s, l) + ValOffset(t.bits, l), l);
  }

  lemma SearchHit(bits: seq<nat>, s: seq<bool>)
    requires |bits| == 17
    ensures 1 <= Search(bits, s, 1)
  {
  }

  lemma UsedLength(bits: seq<nat>, p: nat, l: nat)
    requires |bits| == 17 && HasLength(bits, p, l)
    ensures 1 <= l <= 16 && bits[l] != 0
  {
  }

  lemma SymFound(t: HuffTbl, s: seq<bool>)
    requires Legal(t.bits)
    ensures SymAt(t, s) < 256 && (Search(t.bits, s, 1) > 16 ==> SymAt(t, s) == 0)
    ensures AfterSym(t, s) == Rest(s, Search(t.bits, s, 1))
  {
    hide Search, Peek, Legal, HasLength, Start, First, MaxCode;
    var l := Search(t.bits, s, 1);
    if l <= 16 {
      SearchIndex(t.bits, s);
      IndexInTable(t.bits, Peek(s, l) + ValOffset(t.bits, l), l);
    }
  }

  /** What the lookahead tables find is what the search finds. */
  lemma LookedUp(t: HuffTbl, d: DDerived, s: seq<bool>)
    requires IsDDerived(t, d) && Peek(s, HUFF_LOOKAHEAD) < 256
    ensures var look := Peek(s, HUFF_LOOKAHEAD);
            if d.lookNbits[look] != 0
            then d.lookNbits[look] <= 8 && Search(t.bits, s, 1) == d.lookNbits[look] && SymAt(t, s) == d.lookSym[look]
            else Search(t.bits, s, 1) == Search(t.bits, s, HUFF_LOOKAHEAD + 1)
  {
    hide Search, Peek, Legal, HasLength, Start, First, MaxCode, ShortCode;
    var look := Peek(s, HUFF_LOOKAHEAD);
    assert LookRight(t, d.lookNbits[look], d.lookSym[look], look);
    if d.lookNbits[look] != 0 {
      var p: nat :| ShortCode(t.bits, look, p, d.lookNbits[look]) && p < 256 && d.lookSym[look] == t.vals[p];
      LookaheadHit(t.bits, s, p, d.lookNbits[look]);
      ShortIsShort(t.bits, look, p, d.lookNbits[look]);
    } else {
      LookaheadMiss(t.bits, s);
    }
  }

  lemma ShortIsShort(bits: seq<nat>, look: nat, p: nat, l: nat)
    requires |bits| == 17 && ShortCode(bits, look, p, l)
    ensures l <= 8
  {
  }

  // ----- looking for a marker

  /** The first marker from p on. */
  function FindMarker(src: seq<byte>, lim: nat, p: nat): Head
    requires p <= lim <= |src|
    decreases lim - p
  {
    var h := HeadAt(src, lim, p);
    if h.Data? then FindMarker(src, lim, h.next) else h
  }

  lemma FindStep(src: seq<byte>, lim: nat, p: nat)
    requires p <= lim <= |src|
    ensures var h := HeadAt(src, lim, p);
            FindMarker(src, lim, p) == if h.Data? then FindMarker(src, lim, h.next) else h
  {
  }

  lemma NoMarkerYet(src: seq<byte>, lim: nat, p: nat)
    requires p <= lim <= |src| && (p == lim || HeadAt(src, lim, p).Short?)
    ensures FindMarker(src, lim, p).Short?
  {
  }

  lemma SkipData(src: seq<byte>, lim: nat, p: nat)
    requires p < lim <= |src| && src[p] != 0xFF
    ensures FindMarker(src, lim, p) == FindMarker(src, lim, p + 1)
    ensures FindMarker(src, |src|, p) == FindMarker(src, |src|, p + 1)
  {
  }
}
