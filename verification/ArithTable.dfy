// The probability estimation state machine shared by the arithmetic encoder and decoder
// (Table D.3 of ITU-T T.81, plus the fixed-probability entry of T.851).
module ArithTable {

  // Qe value, next index after LPS, next index after MPS, switch-MPS flag.
  datatype RawEntry = Row(qe: nat, nextLps: nat, nextMps: nat, switch: nat)

  // Every entry leaves both subintervals nonempty and both successors in the table.
  type Entry = e: RawEntry |
    1 <= e.qe < 0x8000 && e.nextLps <= 113 && e.nextMps <= 113 && e.switch <= 1
    witness Row(1, 0, 0, 0)

  type Table = t: seq<Entry> | |t| == 114 witness seq(114, _ => Row(1, 0, 0, 0))

  function E(qe: nat, nextLps: nat, nextMps: nat, switch: nat): Entry
    requires 1 <= qe < 0x8000 && nextLps <= 113 && nextMps <= 113 && switch <= 1
  {
    Row(qe, nextLps, nextMps, switch)
  }

  const ROWS_0: seq<Entry> := [
    E(0x5a1d, 1, 1, 1), E(0x2586, 14, 2, 0), E(0x1114, 16, 3, 0), E(0x080b, 18, 4, 0),
    E(0x03d8, 20, 5, 0), E(0x01da, 23, 6, 0), E(0x00e5, 25, 7, 0), E(0x006f, 28, 8, 0),
    E(0x0036, 30, 9, 0), E(0x001a, 33, 10, 0), E(0x000d, 35, 11, 0), E(0x0006, 9, 12, 0),
    E(0x0003, 10, 13, 0), E(0x0001, 12, 13, 0), E(0x5a7f, 15, 15, 1), E(0x3f25, 36, 16, 0)
  ]

  const ROWS_16: seq<Entry> := [
    E(0x2cf2, 38, 17, 0), E(0x207c, 39, 18, 0), E(0x17b9, 40, 19, 0), E(0x1182, 42, 20, 0),
    E(0x0cef, 43, 21, 0), E(0x09a1, 45, 22, 0), E(0x072f, 46, 23, 0), E(0x055c, 48, 24, 0),
    E(0x0406, 49, 25, 0), E(0x0303, 51, 26, 0), E(0x0240, 52, 27, 0), E(0x01b1, 54, 28, 0),
    E(0x0144, 56, 29, 0), E(0x00f5, 57, 30, 0), E(0x00b7, 59, 31, 0), E(0x008a, 60, 32, 0)
  ]

  const ROWS_32: seq<Entry> := [
    E(0x0068, 62, 33, 0), E(0x004e, 63, 34, 0), E(0x003b, 32, 35, 0), E(0x002c, 33, 9, 0),
    E(0x5ae1, 37, 37, 1), E(0x484c, 64, 38, 0), E(0x3a0d, 65, 39, 0), E(0x2ef1, 67, 40, 0),
    E(0x261f, 68, 41, 0), E(0x1f33, 69, 42, 0), E(0x19a8, 70, 43, 0), E(0x1518, 72, 44, 0),
    E(0x1177, 73, 45, 0), E(0x0e74, 74, 46, 0), E(0x0bfb, 75, 47, 0), E(0x09f8, 77, 48, 0)
  ]

  const ROWS_48: seq<Entry> := [
    E(0x0861, 78, 49, 0), E(0x0706, 79, 50, 0), E(0x05cd, 48, 51, 0), E(0x04de, 50, 52, 0),
    E(0x040f, 50, 53, 0), E(0x0363, 51, 54, 0), E(0x02d4, 52, 55, 0), E(0x025c, 53, 56, 0),
    E(0x01f8, 54, 57, 0), E(0x01a4, 55, 58, 0), E(0x0160, 56, 59, 0), E(0x0125, 57, 60, 0),
    E(0x00f6, 58, 61, 0), E(0x00cb, 59, 62, 0), E(0x00ab, 61, 63, 0), E(0x008f, 61, 32, 0)
  ]

  const ROWS_64: seq<Entry> := [
    E(0x5b12, 65, 65, 1), E(0x4d04, 80, 66, 0), E(0x412c, 81, 67, 0), E(0x37d8, 82, 68, 0),
    E(0x2fe8, 83, 69, 0), E(0x293c, 84, 70, 0), E(0x2379, 86, 71, 0), E(0x1edf, 87, 72, 0),
    E(0x1aa9, 87, 73, 0), E(0x174e, 72, 74, 0), E(0x1424, 72, 75, 0), E(0x119c, 74, 76, 0),
    E(0x0f6b, 74, 77, 0), E(0x0d51, 75, 78, 0), E(0x0bb6, 77, 79, 0), E(0x0a40, 77, 48, 0)
  ]

  const ROWS_80: seq<Entry> := [
    E(0x5832, 80, 81, 1), E(0x4d1c, 88, 82, 0), E(0x438e, 89, 83, 0), E(0x3bdd, 90, 84, 0),
    E(0x34ee, 91, 85, 0), E(0x2eae, 92, 86, 0), E(0x299a, 93, 87, 0), E(0x2516, 86, 71, 0),
    E(0x5570, 88, 89, 1), E(0x4ca9, 95, 90, 0), E(0x44d9, 96, 91, 0), E(0x3e22, 97, 92, 0),
    E(0x3824, 99, 93, 0), E(0x32b4, 99, 94, 0), E(0x2e17, 93, 86, 0), E(0x56a8, 95, 96, 1)
  ]

  const ROWS_96: seq<Entry> := [
    E(0x4f46, 101, 97, 0), E(0x47e5, 102, 98, 0), E(0x41cf, 103, 99, 0), E(0x3c3d, 104, 100, 0),
    E(0x375e, 99, 93, 0), E(0x5231, 105, 102, 0), E(0x4c0f, 106, 103, 0), E(0x4639, 107, 104, 0),
    E(0x415e, 103, 99, 0), E(0x5627, 105, 106, 1), E(0x50e7, 108, 107, 0), E(0x4b85, 109, 103, 0),
    E(0x5597, 110, 109, 0), E(0x504f, 111, 107, 0), E(0x5a10, 110, 111, 1), E(0x5522, 112, 109, 0)
  ]

  const ROWS_112: seq<Entry> := [
    E(0x59eb, 112, 111, 1), E(0x5a1d, 113, 113, 0)
  ]

  const ARITAB: Table := ROWS_0 + ROWS_16 + ROWS_32 + ROWS_48 + ROWS_64 + ROWS_80 + ROWS_96 + ROWS_112

  const FIXED_STATE := 113

  /** The packed word of the table: (qe << 16) | (nextMps << 8) | (switch << 7) | nextLps. */
  function Pack(e: Entry): nat {
    e.qe * 0x10000 + e.nextMps * 0x100 + e.switch * 0x80 + e.nextLps
  }

  /** What the coders extract from the packed word with shifts and masks. */
  lemma Unpack(e: Entry)
    ensures Pack(e) % 0x100 == e.switch * 0x80 + e.nextLps
    ensures Pack(e) / 0x100 % 0x100 == e.nextMps
    ensures Pack(e) / 0x100 / 0x100 == e.qe
  {
    assert Pack(e) == (e.qe * 0x100 + e.nextMps) * 0x100 + (e.switch * 0x80 + e.nextLps);
  }

  /** A statistics bin: the more probable symbol and an index into the table. */
  datatype RawState = State(mps: bool, index: nat)

  type state = s: RawState | s.index <= 113 witness State(false, 0)

  const ZERO_STATE: state := State(false, 0)

  function Lookup(t: Table, sv: state): Entry {
    t[sv.index]
  }

  function AfterLps(t: Table, sv: state): state {
    State(sv.mps != (Lookup(t, sv).switch == 1), Lookup(t, sv).nextLps)
  }

  function AfterMps(t: Table, sv: state): state {
    State(sv.mps, Lookup(t, sv).nextMps)
  }

  /** The byte that stores a bin: the more probable symbol in bit 7, the index below it. */
  function AsByte(sv: state): (b: nat)
    ensures b < 256
  {
    (if sv.mps then 128 else 0) + sv.index
  }

  /** (sv & 0x80) ^ next on bytes: bit 7 is added modulo two, the low seven bits are replaced. */
  function Exchange(sv: nat, next: nat): nat
    requires sv < 256 && next < 256
  {
    (sv / 128 + next / 128) % 2 * 128 + next % 128
  }

  /** Folding the switch flag into the next index and XORing the top bits moves a stored bin to the
      byte of its next state, after the more and after the less probable symbol. */
  lemma ExchangeIsTransition(t: Table, sv: state)
    ensures AsByte(sv) % 128 == sv.index && (AsByte(sv) / 128 == 1 <==> sv.mps)
    ensures var nl, nm := Pack(Lookup(t, sv)) % 0x100, Pack(Lookup(t, sv)) / 0x100 % 0x100;
            Exchange(AsByte(sv), nl) == AsByte(AfterLps(t, sv)) && Exchange(AsByte(sv), nm) == AsByte(AfterMps(t, sv))
  {
    var e := Lookup(t, sv);
    Unpack(e);
    var nl, nm := Pack(e) % 0x100, Pack(e) / 0x100 % 0x100;
    assert nl / 128 == e.switch && nl % 128 == e.nextLps;
    assert nm / 128 == 0 && nm % 128 == e.nextMps;
    ExchangeBytes(sv, nl, e.switch, e.nextLps);
    ExchangeBytes(sv, nm, 0, e.nextMps);
  }

  lemma ExchangeBytes(sv: state, next: nat, switch: nat, n: nat)
    requires next < 256 && next / 128 == switch <= 1 && next % 128 == n <= 113
    ensures Exchange(AsByte(sv), next) == AsByte(State(sv.mps != (switch == 1), n))
  {
    assert AsByte(sv) / 128 == if sv.mps then 1 else 0;
  }
}
