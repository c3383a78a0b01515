// The redundant row pointers of one component: two lists over one workspace, so that the rows above and below
// a row group always stand next to it.
module RowLists {
  import opened Powers

  /** The list in use, 0 or 1. */
  type Which = w: nat | w < 2

  /** Row pointers of a component. The workspace has span + 2 * rg rows; each list has rg rows of pointers before
      its start, and goes on for span + 3 * rg. A sample row is stood for by its number in the component. */
  class RowLists {
    const rg: nat
    const span: nat
    const rows: array<int>
    const list0: array<nat>
    const list1: array<nat>

    ghost predicate Shape() {
      && 0 < rg && 2 * rg <= span && rows.Length == span + 2 * rg
      && list0.Length == span + 4 * rg && list1.Length == span + 4 * rg && list0 != list1
    }

    /** An offset with a pointer. */
    predicate InList(i: int) {
      0 <= i + rg < span + 4 * rg
    }

    /** The pointer at offset i of a list. */
    function At(w: Which, i: int): nat
      requires Shape() && InList(i)
      reads list0, list1
    {
      if w == 0 then list0[i + rg] else list1[i + rg]
    }

    /** The second list has the last two pairs of row groups exchanged. */
    function Home(w: Which, i: int): int
      requires Shape()
    {
      if w == 0 || i < span - 2 * rg then i else if i < span then i + 2 * rg else i - 2 * rg
    }

    ghost predicate Plain(w: Which)
      requires Shape()
      reads list0, list1
    {
      forall i :: 0 <= i < span + 2 * rg ==> At(w, i) == Home(w, i)
    }

    /** Offsets before the start stand for the last row group of the list, those past its end for the first. */
    function Wrap(i: int): int {
      if i < 0 then span + 2 * rg + i else if i >= span + 2 * rg then i - (span + 2 * rg) else i
    }

    ghost predicate Wrapped(w: Which)
      requires Shape()
      reads list0, list1
    {
      forall i :: InList(i) ==> At(w, i) == Home(w, Wrap(i))
    }

    /** Above the image, the first row again. */
    ghost predicate AtTop()
      requires Shape()
      reads list0, list1
    {
      forall i :: InList(i) && i < 0 ==> At(0, i) == At(0, 0)
    }

    ghost predicate Safe()
      reads list0, list1
    {
      && Shape()
      && (forall i :: 0 <= i < list0.Length ==> list0[i] < span + 2 * rg)
      && (forall i :: 0 <= i < list1.Length ==> list1[i] < span + 2 * rg)
    }

    /** The row that offset i of a list shows. */
    function Seen(w: Which, i: int): int
      requires Safe() && InList(i)
      reads rows, list0, list1
    {
      rows[At(w, i)]
    }

    constructor (rg: nat, span: nat)
      requires 0 < rg && 2 * rg <= span
      ensures this.rg == rg && this.span == span && Safe() && fresh(rows) && fresh(list0) && fresh(list1)
    {
      this.rg := rg;
      this.span := span;
      rows := new int[span + 2 * rg](_ => 0);
      list0 := new nat[span + 4 * rg](_ => 0);
      list1 := new nat[span + 4 * rg](_ => 0);
    }

    method Set(w: Which, i: int, p: nat)
      requires Safe() && InList(i) && p < span + 2 * rg
      modifies list0, list1
      ensures Safe() && forall v: Which, j :: InList(j) ==> At(v, j) == if v == w && j == i then p else old(At(v, j))
    {
      if w == 0 {
        list0[i + rg] := p;
      } else {
        list1[i + rg] := p;
      }
    }

    /** make_funny_pointers, for this component. */
    method MakeFunnyPointers()
      requires Safe()
      modifies list0, list1
      ensures Safe() && Plain(0) && Plain(1) && AtTop()
    {
      for i: int := 0 to span + 2 * rg
        invariant Safe() && forall w: Which, j :: 0 <= j < i ==> At(w, j) == j
      {
        Set(0, i, i);
        Set(1, i, i);
      }
      for i: int := 0 to rg * 2
        invariant Safe() && Plain(0)
        invariant forall j :: 0 <= j < span + 2 * rg ==>
                    At(1, j) == if span - 2 * rg <= j < span - 2 * rg + i || span <= j < span + i then Home(1, j) else j
      {
        Set(1, span - 2 * rg + i, span + i);
        Set(1, span + i, span - 2 * rg + i);
      }
      for i: int := 0 to rg
        invariant Safe() && Plain(0) && Plain(1)
        invariant forall j :: InList(j) && j < i - rg ==> At(0, j) == At(0, 0)
      {
        Set(0, i - rg, At(0, 0));
      }
    }

    /** set_wraparound_pointers: from the top of the image to the normal state. */
    method SetWraparoundPointers()
      requires Safe()
      modifies list0, list1
      ensures Safe() && forall w: Which, j :: InList(j) ==> At(w, j) == old(At(w, Wrap(j)))
    {
      WrapList(list0);
      WrapList(list1);
    }

    /** The rows before the list and those after it. */
    method WrapList(list: array<nat>)
      requires Shape() && list.Length == span + 4 * rg
      modifies list
      ensures forall k :: 0 <= k < list.Length ==> list[k] == old(list[Wrap(k - rg) + rg])
    {
      for i: int := 0 to rg
        invariant forall k :: 0 <= k < list.Length ==>
                    list[k] == old(list[if k < i ||
                        span + 3 * rg <= k < span + 3 * rg + i then Wrap(k - rg) + rg else k])
      {
        list[i] := list[span + 2 * rg + i];
        list[span + 3 * rg + i] := list[rg + i];
      }
    }

    /** set_bottom_pointers: past the last real row of list w, that row again. */
    method SetBottomPointers(w: Which, rowsLeft: nat)
      requires Safe() && 0 < rowsLeft <= span
      modifies list0, list1
      ensures Safe() && forall v: Which, j :: InList(j) ==>
                At(v, j) == old(At(v, if v == w && rowsLeft <= j < rowsLeft + 2 * rg then rowsLeft - 1 else j))
    {
      for i: int := 0 to rg * 2
        invariant Safe() && forall v: Which, j :: InList(j) ==>
                    At(v, j) == old(At(v, if v == w && rowsLeft <= j < rowsLeft + i then rowsLeft - 1 else j))
      {
        Set(w, rowsLeft + i, At(w, rowsLeft - 1));
      }
    }

    /** The coefficient controller delivers the first n rows of an iMCU row, starting with row base. */
    method Deliver(w: Which, base: int, n: nat)
      requires Safe() && Plain(w) && n <= span
      modifies rows
      ensures Safe() && Plain(w)
      ensures forall i :: 0 <= i < n ==> Seen(w, i) == base + i
      ensures forall i :: span <= i < span + 2 * rg ==> Seen(w, i) == old(Seen(w, i))
    {
      for i: int := 0 to n
        invariant Safe() && Plain(w) && forall j :: 0 <= j < i ==> Seen(w, j) == base + j
        invariant forall j :: span <= j < span + 2 * rg ==> Seen(w, j) == old(Seen(w, j))
      {
        rows[At(w, i)] := base + i;
      }
    }

    // ----- what the lists show

    /** The list shows iMCU row r, after the last row group of the iMCU row before it; at the top of the image,
        after copies of its first row. */
    ghost predicate Front(w: Which, r: nat)
      requires Safe()
      reads rows, list0, list1
    {
      forall i :: InList(i) && i < span ==> Seen(w, i) == if r == 0 && i < 0 then 0 else r * span + i
    }

    /** Past the iMCU row the list shows the last two row groups before it, and its first row group again. */
    ghost predicate Back(w: Which, r: nat)
      requires Safe()
      reads rows, list0, list1
    {
      forall i :: InList(i) && i >= span ==> Seen(w, i) == r * span + (i - span) - 2 * rg
    }

    /** The last two row groups before iMCU row k are kept where the list will not be written. */
    ghost predicate Kept(w: Which, k: nat)
      requires Safe()
      reads rows, list0, list1
    {
      forall i :: InList(i) && span <= i < span + 2 * rg ==> Seen(w, i) == k * span + (i - span) - 2 * rg
    }

    /** The list of the last iMCU row repeats the last row of the image. */
    ghost predicate Bottom(w: Which, r: nat, height: nat)
      requires Safe()
      reads rows, list0, list1
    {
      forall i :: InList(i) && r * span + i < height + 2 * rg ==> Seen(w, i) == Clamp(r * span + i, height)
    }

    lemma WrappedNow()
      requires Safe() && Plain(0) && Plain(1) && forall w: Which, j :: InList(j) ==> At(w, j) == At(w, Wrap(j))
      ensures Wrapped(0) && Wrapped(1)
    {
    }

    /** Loading an iMCU row completes the list. */
    lemma Completed(w: Which, r: nat)
      requires Safe() && Plain(w) && forall i :: InList(i) && 0 <= i < span ==> Seen(w, i) == r * span + i
      ensures r == 0 && w == 0 && AtTop() ==> Front(w, r)
      ensures r > 0 && Wrapped(w) && Kept(w, r) ==> Front(w, r) && Back(w, r)
    {
      assert Seen(w, 0) == r * span;
      if r > 0 && Wrapped(w) && Kept(w, r) {
        forall i | InList(i) && i < 0
          ensures Seen(w, i) == r * span + i
        {
          var j := span + 2 * rg + i;
          assert Seen(w, i) == Seen(w, j);
          assert Seen(w, j) == r * span + (j - span) - 2 * rg;
        }
        forall i | InList(i) && i >= span + 2 * rg
          ensures Seen(w, i) == r * span + (i - span) - 2 * rg
        {
          assert Seen(w, i) == Seen(w, i - span - 2 * rg);
        }
      }
    }

    /** The two lists meet in the last two row groups: what one list shows at the end of its iMCU row, the
        other keeps. */
    lemma Exchange(w: Which, r: nat)
      requires Safe() && Plain(0) && Plain(1) && Front(w, r)
      ensures Kept(1 - w, r + 1)
    {
      forall i | InList(i) && span <= i < span + 2 * rg
        ensures Seen(1 - w, i) == (r + 1) * span + (i - span) - 2 * rg
      {
        assert At(1 - w, i) == Home(1 - w, i) == Home(w, i - 2 * rg) == At(w, i - 2 * rg);
        assert Seen(w, i - 2 * rg) == r * span + (i - 2 * rg);
        assert (r + 1) * span == r * span + span;
      }
    }

    // ----- what the postprocessor is shown

    /** v is row group g of a list with the row groups next to it in the list. */
    ghost predicate Shows(w: Which, g: nat, v: seq<int>)
      reads rows, list0, list1
    {
      && Safe() && |v| == 3 * rg && 0 <= g * rg <= span + rg
      && forall t :: 0 <= t < 3 * rg ==> v[t] == Seen(w, g * rg - rg + t)
    }

    /** The postprocessor reads the rows next to a row group. */
    method Read(w: Which, g: nat) returns (v: seq<int>)
      requires Safe() && 0 <= g * rg <= span + rg
      ensures Shows(w, g, v)
    {
      v := [];
      for t := 0 to 3 * rg
        invariant |v| == t && forall u :: 0 <= u < t ==> v[u] == Seen(w, g * rg - rg + u)
      {
        v := v + [rows[At(w, g * rg - rg + t)]];
      }
    }

    /** The next iMCU row of the image has been delivered and the lists are as they should be. */
    ghost predicate Ready(w: Which, r: nat)
      reads rows, list0, list1
    {
      && Safe() && Plain(0) && Plain(1) && Front(w, r)
      && if r == 0 then w == 0 else Wrapped(0) && Wrapped(1) && Back(w, r)
    }

    /** Before iMCU row k is delivered. */
    ghost predicate Waiting(w: Which, k: nat)
      reads rows, list0, list1
    {
      && Safe() && Plain(0) && Plain(1)
      && if k == 0 then w == 0 && AtTop() else Wrapped(0) && Wrapped(1) && Kept(w, k)
    }

    /** An iMCU row arrives, or only its first n rows do. */
    method Receive(w: Which, k: nat, n: nat)
      requires Waiting(w, k) && n <= span
      modifies rows
      ensures if n == span then Ready(w, k) else Waiting(w, k)
    {
      Deliver(w, k * span, n);
      if n == span {
        Completed(w, k);
      }
    }

    /** The first row groups of the iMCU row: all but the last one. */
    lemma FirstGroups(w: Which, r: nat, g: nat, m: nat, height: nat, v: seq<int>)
      requires Ready(w, r) && span == m * rg && g + 2 <= m && (r + 1) * span <= height && Shows(w, g, v)
      ensures v == Shown(rg, height, r * m + g, false)
    {
      MulMonotone(g + 2, m, rg);
      MulAdd(g, 2, rg);
      GroupRows(r, m, g);
      MulMonotone(0, r, span);
      MulAdd(r, 1, span);
      if r > 0 {
        MulMonotone(1, r, span);
      } else {
        assert r * span == 0;
      }
      MulMonotone(0, g, rg);
      var n := r * m + g;
      assert n * rg == r * span + g * rg;
      forall t | 0 <= t < 3 * rg
        ensures v[t] == Clamp(n * rg - rg + t, height)
      {
        var i := g * rg - rg + t;
        assert v[t] == Seen(w, i);
        assert InList(i) && i < span && r * span + i < height;
        assert Seen(w, i) == if r == 0 && i < 0 then 0 else r * span + i;
      }
    }

    /** The last row group, once the next iMCU row is there. */
    lemma PostponedGroup(w: Which, r: nat, m: nat, height: nat, v: seq<int>)
      requires Ready(w, r) && span == m * rg && r > 0 && 0 < m && Shows(w, m + 1, v)
      ensures r * m > 0 && v == Shown(rg, height, r * m - 1, true)
      ensures r * span + rg <= height ==> v == Shown(rg, height, r * m - 1, false)
    {
      hide RowLists.Plain, RowLists.Wrapped, RowLists.At, RowLists.Front;
      MulAdd(m, 1, rg);
      MulMonotone(1, r, m);
      GroupRows(r, m, 0);
      MulAdd(r * m, 1, rg);
      MulMonotone(1, r, span);
      var n := r * m - 1;
      assert n * rg == r * span - rg;
      assert (m + 1) * rg == span + rg;
      forall t | 0 <= t < 3 * rg
        ensures v[t] == n * rg - rg + t >= 0
      {
        var i := (m + 1) * rg - rg + t;
        assert v[t] == Seen(w, i);
        assert InList(i) && i >= span;
        assert Seen(w, i) == r * span + (i - span) - 2 * rg;
      }
      if r * span + rg <= height {
        var s := Shown(rg, height, n, false);
        forall t | 0 <= t < 3 * rg
          ensures s[t] == v[t]
        {
          var y := n * rg - rg + t;
          assert 0 <= y < height;
          assert s[t] == Clamp(y, height);
        }
      }
    }

    /** The row groups of the last iMCU row, once the last row is repeated below it. */
    lemma BottomGroup(w: Which, r: nat, g: nat, m: nat, height: nat, v: seq<int>)
      requires Safe() && Bottom(w, r, height) && span == m * rg && g < m && r * span + g * rg < height && Shows(w, g, v)
      ensures v == Shown(rg, height, r * m + g, false)
    {
      MulMonotone(g + 1, m, rg);
      MulAdd(g, 1, rg);
      GroupRows(r, m, g);
      MulMonotone(0, g, rg);
      forall t | 0 <= t < 3 * rg
        ensures v[t] == Clamp(r * span + (g * rg - rg + t), height)
      {
        var i := g * rg - rg + t;
        assert InList(i);
        assert v[t] == Seen(w, i);
        assert r * span + i < height + 2 * rg;
        assert Seen(w, i) == Clamp(r * span + i, height);
      }
    }

    /** After the first iMCU row. */
    method EndOfTop()
      requires Ready(0, 0)
      modifies list0, list1
      ensures Waiting(1, 1)
    {
      Exchange(0, 0);
      SetWraparoundPointers();
      assert forall w: Which, i :: InList(i) && 0 <= i < span + 2 * rg ==> Wrap(i) == i && At(w, i) == old(At(w, i));
      WrappedNow();
    }

    /** After any other. */
    lemma EndOfRow(w: Which, r: nat)
      requires Ready(w, r) && r > 0
      ensures Waiting(1 - w, r + 1)
    {
      Exchange(w, r);
    }

    /** At the bottom of an image of the given height. */
    method EndOfImage(w: Which, ghost r: nat, rowsLeft: nat, ghost height: nat)
      requires Ready(w, r) && 0 < rowsLeft <= span && height == r * span + rowsLeft
      modifies list0, list1
      ensures Safe() && Bottom(w, r, height)
    {
      MulMonotone(0, r, span);
      SetBottomPointers(w, rowsLeft);
      forall i | InList(i) && r * span + i < height + 2 * rg
        ensures Seen(w, i) == Clamp(r * span + i, height)
      {
        var j := if rowsLeft <= i < rowsLeft + 2 * rg then rowsLeft - 1 else i;
        assert At(w, i) == old(At(w, j));
        assert old(Seen(w, j)) == if r == 0 && j < 0 then 0 else r * span + j;
        AboveTop(r, i);
      }
    }

    lemma AboveTop(r: nat, i: int)
      requires InList(i) && 2 * rg <= span
      ensures r > 0 ==> r * span + i > 0
      ensures r == 0 ==> r * span == 0
    {
      if r > 0 {
        MulMonotone(1, r, span);
      }
    }

    lemma GroupRows(r: nat, m: nat, g: nat)
      requires span == m * rg
      ensures (r * m + g) * rg == r * span + g * rg
    {
      MulAdd(r * m, g, rg);
      MulAssociateLeft(r, m, rg);
    }
  }

  /** Rows above the image stand for its first row, those below for its last. */
  function Clamp(y: int, height: nat): int {
    if y < 0 then 0 else if y >= height then height - 1 else y
  }

  /** The rows of row group n of a component and of the row groups around it. Unless raw, they are rows of the
      image, its first and last row repeated. */
  function Shown(rg: nat, height: nat, n: nat, raw: bool): (v: seq<int>)
    ensures |v| == 3 * rg
  {
    seq(3 * rg, t => if raw then n * rg - rg + t else Clamp(n * rg - rg + t, height))
  }
}
