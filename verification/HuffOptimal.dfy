// Why merging the two rarest symbols is optimal: every assignment of code lengths that satisfies the
// Kraft inequality costs at least what the merges cost.
module HuffOptimal {
  import opened Powers

  function Sum(s: seq<nat>): nat {
    if s == [] then 0 else Sum(s[..|s| - 1]) + s[|s| - 1]
  }

  lemma {:induction false} SumUpdate(s: seq<nat>, i: nat, v: nat)
    requires i < |s|
    ensures Sum(s[i := v]) + s[i] == Sum(s) + v
  {
    var n := |s| - 1;
    if i == n {
      assert s[i := v][..n] == s[..n];
    } else {
      SumUpdate(s[..n], i, v);
      assert s[i := v][..n] == s[..n][i := v];
    }
  }

  lemma {:induction false} SumScale(s: seq<nat>, t: seq<nat>, k: nat)
    requires |s| == |t| && forall i :: 0 <= i < |s| ==> t[i] == s[i] * k
    ensures Sum(t) == Sum(s) * k
  {
    if s != [] {
      var n := |s| - 1;
      SumScale(s[..n], t[..n], k);
      MulAdd(Sum(s[..n]), s[n], k);
    }
  }

  lemma SumAtLeastTwo(s: seq<nat>, i: nat, j: nat)
    requires i < |s| && j < |s| && i != j
    ensures Sum(s) >= s[i] + s[j]
  {
    SumUpdate(s, i, 0);
    SumUpdate(s[i := 0], j, 0);
  }

  // ----- cost and Kraft sum of an assignment of lengths

  function Costs(f: seq<nat>, len: seq<nat>): (r: seq<nat>)
    requires |f| == |len|
    ensures |r| == |f|
  {
    seq(|f|, i requires 0 <= i < |f| => f[i] * len[i])
  }

  /** Total count times length. */
  function Cost(f: seq<nat>, len: seq<nat>): nat
    requires |f| == |len|
  {
    Sum(Costs(f, len))
  }

  function Share(fi: nat, li: nat, base: nat): nat {
    if fi == 0 || li > base then 0 else Pow2(base - li)
  }

  function Shares(f: seq<nat>, len: seq<nat>, base: nat): (r: seq<nat>)
    requires |f| == |len|
    ensures |r| == |f|
  {
    seq(|f|, i requires 0 <= i < |f| => Share(f[i], len[i], base))
  }

  /** The lengths of the symbols in use are at most base and satisfy the Kraft inequality, which every
      prefix code does (PrefixCodeIsFeasible). */
  ghost predicate Feasible(f: seq<nat>, len: seq<nat>, base: nat) {
    && |f| == |len|
    && (forall i :: 0 <= i < |f| && f[i] > 0 ==> len[i] <= base)
    && Sum(Shares(f, len, base)) <= Pow2(base)
  }

  // ----- exchanging two lengths

  lemma CostUpdate(f: seq<nat>, len: seq<nat>, i: nat, v: nat)
    requires |f| == |len| && i < |f|
    ensures Cost(f, len[i := v]) + f[i] * len[i] == Cost(f, len) + f[i] * v
  {
    assert Costs(f, len[i := v]) == Costs(f, len)[i := f[i] * v];
    SumUpdate(Costs(f, len), i, f[i] * v);
  }

  lemma ShareUpdate(f: seq<nat>, len: seq<nat>, base: nat, i: nat, v: nat)
    requires |f| == |len| && i < |f|
    ensures Sum(Shares(f, len[i := v], base)) + Share(f[i], len[i], base) ==
            Sum(Shares(f, len, base)) + Share(f[i], v, base)
  {
    assert Shares(f, len[i := v], base) == Shares(f, len, base)[i := Share(f[i], v, base)];
    SumUpdate(Shares(f, len, base), i, Share(f[i], v, base));
  }

  /** Giving the rarer of two symbols the longer code costs no more. */
  lemma Exchange(f: seq<nat>, len: seq<nat>, base: nat, i: nat, j: nat)
    requires Feasible(f, len, base) && i < |f| && j < |f|
    requires 0 < f[i] <= f[j] && len[i] <= len[j]
    ensures var len' := len[i := len[j]][j := len[i]];
            Feasible(f, len', base) && Cost(f, len') <= Cost(f, len)
  {
    if i != j {
      var mid := len[i := len[j]];
      CostUpdate(f, len, i, len[j]);
      CostUpdate(f, mid, j, len[i]);
      ShareUpdate(f, len, base, i, len[j]);
      ShareUpdate(f, mid, base, j, len[i]);
      ExchangeGain(f[i], f[j], len[i], len[j]);
    } else {
      assert len[i := len[j]][j := len[i]] == len;
    }
  }

  lemma ExchangeGain(fi: nat, fj: nat, li: nat, lj: nat)
    requires fi <= fj && li <= lj
    ensures fi * lj + fj * li <= fi * li + fj * lj
  {
    assert (fj - fi) * (lj - li) >= 0;
    assert (fj - fi) * (lj - li) == fj * lj - fj * li - fi * lj + fi * li;
  }

  /** The longest code among the symbols in use other than skip. */
  lemma {:induction false} Longest(f: seq<nat>, len: seq<nat>, skip: int, n: nat) returns (x: nat)
    requires |f| == |len| && n <= |f|
    requires exists i :: 0 <= i < n && f[i] > 0 && i != skip
    ensures x < n && f[x] > 0 && x != skip
    ensures forall i :: 0 <= i < n && f[i] > 0 && i != skip ==> len[i] <= len[x]
  {
    if exists i :: 0 <= i < n - 1 && f[i] > 0 && i != skip {
      x := Longest(f, len, skip, n - 1);
      if f[n - 1] > 0 && n - 1 != skip && len[n - 1] > len[x] {
        x := n - 1;
      }
    } else {
      x := n - 1;
    }
  }

  lemma {:induction false} SumAdd(s: seq<nat>, t: seq<nat>, u: seq<nat>)
    requires |s| == |t| == |u| && forall i :: 0 <= i < |s| ==> u[i] == s[i] + t[i]
    ensures Sum(u) == Sum(s) + Sum(t)
  {
    if s != [] {
      var n := |s| - 1;
      SumAdd(s[..n], t[..n], u[..n]);
    }
  }

  // ----- merging the two rarest symbols

  /** The smallest nonzero count below index n, other than that of skip; the larger index on a tie. */
  function Least(f: seq<nat>, skip: int, n: nat): (r: int)
    requires n <= |f|
    ensures -1 <= r < n
    ensures r >= 0 ==> f[r] > 0 && r != skip
    ensures forall i :: 0 <= i < n && f[i] > 0 && i != skip ==> r >= 0 && f[r] <= f[i]
  {
    if n == 0 then -1
    else
      var r := Least(f, skip, n - 1);
      if f[n - 1] > 0 && n - 1 != skip && (r < 0 || f[n - 1] <= f[r]) then n - 1 else r
  }

  /** How many symbols are in use. */
  function InUse(f: seq<nat>): (r: nat)
    ensures r <= |f|
  {
    if f == [] then 0 else InUse(f[..|f| - 1]) + (if f[|f| - 1] > 0 then 1 else 0)
  }

  lemma {:induction false} InUseUpdate(f: seq<nat>, i: nat, v: nat)
    requires i < |f|
    ensures InUse(f[i := v]) + (if f[i] > 0 then 1 else 0) == InUse(f) + (if v > 0 then 1 else 0)
  {
    var n := |f| - 1;
    if i == n {
      assert f[i := v][..n] == f[..n];
    } else {
      InUseUpdate(f[..n], i, v);
      assert f[i := v][..n] == f[..n][i := v];
    }
  }

  function SetTwo(s: seq<nat>, i: nat, v: nat, j: nat, w: nat): (r: seq<nat>)
    requires i < |s| && j < |s| && i != j
    ensures |r| == |s|
  {
    s[i := v][j := w]
  }

  lemma SumUpdates(s: seq<nat>, i: nat, v: nat, j: nat, w: nat)
    requires i < |s| && j < |s| && i != j
    ensures Sum(SetTwo(s, i, v, j, w)) + s[i] + s[j] == Sum(s) + v + w
  {
    SumUpdate(s, i, v);
    SumUpdate(s[i := v], j, w);
  }

  lemma InUseUpdates(s: seq<nat>, i: nat, v: nat, j: nat, w: nat)
    requires i < |s| && j < |s| && i != j
    ensures InUse(SetTwo(s, i, v, j, w)) + (if s[i] > 0 then 1 else 0) + (if s[j] > 0 then 1 else 0) ==
            InUse(s) + (if v > 0 then 1 else 0) + (if w > 0 then 1 else 0)
  {
    InUseUpdate(s, i, v);
    InUseUpdate(s[i := v], j, w);
  }

  /** The counts after symbols a and b become one. */
  function Merge(f: seq<nat>, a: nat, b: nat): (r: seq<nat>)
    requires a < |f| && b < |f| && a != b
    ensures |r| == |f|
  {
    SetTwo(f, a, f[a] + f[b], b, 0)
  }

  lemma MergeFacts(f: seq<nat>, a: nat, b: nat)
    requires a < |f| && b < |f| && a != b && f[a] > 0 && f[b] > 0
    ensures InUse(Merge(f, a, b)) == InUse(f) - 1
    ensures Sum(Merge(f, a, b)) == Sum(f)
  {
    hide Sum, InUse, SetTwo;
    SumUpdates(f, a, f[a] + f[b], b, 0);
    InUseUpdates(f, a, f[a] + f[b], b, 0);
  }

  /** What repeatedly merging the two rarest symbols adds up to. */
  function MergeCost(f: seq<nat>): nat
    decreases InUse(f)
  {
    var a := Least(f, -1, |f|);
    var b := Least(f, a, |f|);
    if b < 0 then 0
    else
      MergeFacts(f, a, b);
      f[a] + f[b] + MergeCost(Merge(f, a, b))
  }

  /** The two rarest symbols may be given the two longest codes. */
  lemma RarestLongest(f: seq<nat>, len: seq<nat>, base: nat, a: nat, b: nat) returns (len': seq<nat>)
    requires Feasible(f, len, base) && a < |f| && b < |f| && a != b && 0 < f[a] <= f[b]
    requires forall i :: 0 <= i < |f| && f[i] > 0 && i != a ==> f[b] <= f[i]
    ensures Feasible(f, len', base) && Cost(f, len') <= Cost(f, len)
    ensures len'[b] <= len'[a] && forall i :: 0 <= i < |f| && f[i] > 0 && i != a ==> len'[i] <= len'[b]
  {
    var x := Longest(f, len, -1, |f|);
    Exchange(f, len, base, a, x);
    var mid := len[a := len[x]][x := len[a]];
    var y := Longest(f, mid, a, |f|);
    Exchange(f, mid, base, b, y);
    len' := mid[b := mid[y]][y := mid[b]];
  }

  /** The longest code of all need not be longer than the second. */
  lemma EqualLongest(f: seq<nat>, len: seq<nat>, base: nat, a: nat, b: nat)
    requires Feasible(f, len, base) && a < |f| && b < |f| && a != b && f[a] > 0 && f[b] > 0
    requires len[b] <= len[a] && forall i :: 0 <= i < |f| && f[i] > 0 && i != a ==> len[i] <= len[b]
    ensures Feasible(f, len[a := len[b]], len[b]) && Cost(f, len[a := len[b]]) <= Cost(f, len)
  {
    hide Sum;
    var top := len[b];
    CostUpdate(f, len, a, top);
    MulMonotone(top, len[a], f[a]);
    var d := Pow2(base - top);
    var f0 := f[a := 0];
    assert Shares(f0, len, base) == Shares(f, len, base)[a := 0];
    SumUpdate(Shares(f, len, base), a, 0);
    forall i | 0 <= i < |f| ensures Shares(f0, len, base)[i] == Shares(f0, len, top)[i] * d {
      if f0[i] > 0 {
        Pow2Add(top - len[i], base - top);
      }
    }
    SumScale(Shares(f0, len, top), Shares(f0, len, base), d);
    Pow2Add(top, base - top);
    var rest := Sum(Shares(f0, len, top));
    CompareQuotient(Pow2(top) - 1 - rest, 0, d, 0);
    MulAdd(Pow2(top), rest, d);
    if rest >= Pow2(top) {
      MulMonotone(Pow2(top), rest, d);
      assert false;
    }
    assert Shares(f, len[a := top], top) == Shares(f0, len, top)[a := 1];
    SumUpdate(Shares(f0, len, top), a, 1);
  }

  /** Sharing the longest codes' common prefix: any assignment costs at least one merge more than
      some assignment for the merged counts. */
  lemma MergeBound(f: seq<nat>, len: seq<nat>, base: nat, a: nat, b: nat) returns (len': seq<nat>, base': nat)
    requires Feasible(f, len, base) && a < |f| && b < |f| && a != b && 0 < f[a] <= f[b]
    requires forall i :: 0 <= i < |f| && f[i] > 0 && i != a ==> f[b] <= f[i]
    ensures Feasible(Merge(f, a, b), len', base')
    ensures Cost(f, len) >= f[a] + f[b] + Cost(Merge(f, a, b), len')
  {
    var far := RarestLongest(f, len, base, a, b);
    EqualLongest(f, far, base, a, b);
    base' := far[b];
    var even := far[a := base'];
    SumAtLeastTwo(Shares(f, even, base'), a, b);
    assert Pow2(0) == 1;
    len' := even[a := base' - 1];
    MergeAccounts(f, even, base', a, b);
  }

  lemma MergeAccounts(f: seq<nat>, len: seq<nat>, base: nat, a: nat, b: nat)
    requires Feasible(f, len, base) && a < |f| && b < |f| && a != b && f[a] > 0 && f[b] > 0
    requires len[a] == len[b] == base > 0
    ensures Feasible(Merge(f, a, b), len[a := base - 1], base)
    ensures Cost(f, len) == f[a] + f[b] + Cost(Merge(f, a, b), len[a := base - 1])
  {
    MergeShares(f, len, base, a, b);
    MergeCosts(f, len, base, a, b);
  }

  lemma MergeShares(f: seq<nat>, len: seq<nat>, base: nat, a: nat, b: nat)
    requires Feasible(f, len, base) && a < |f| && b < |f| && a != b && f[a] > 0 && f[b] > 0
    requires len[a] == len[b] == base > 0
    ensures Feasible(Merge(f, a, b), len[a := base - 1], base)
  {
    hide Sum, Cost;
    var g, len' := Merge(f, a, b), len[a := base - 1];
    var s := Shares(f, len, base);
    assert Pow2(1) == 2 && Pow2(0) == 1;
    assert Shares(g, len', base) == SetTwo(s, a, 2, b, 0);
    assert s[a] == s[b] == 1;
    hide SetTwo, Pow2, Shares;
    SumUpdates(s, a, 2, b, 0);
  }

  lemma MergeCosts(f: seq<nat>, len: seq<nat>, base: nat, a: nat, b: nat)
    requires |f| == |len| && a < |f| && b < |f| && a != b && len[a] == len[b] == base > 0
    ensures Cost(f, len) == f[a] + f[b] + Cost(Merge(f, a, b), len[a := base - 1])
  {
    hide Sum, Pow2;
    var g, len' := Merge(f, a, b), len[a := base - 1];
    var c := Costs(f, len);
    var ca := (f[a] + f[b]) * (base - 1);
    assert Costs(g, len') == SetTwo(c, a, ca, b, 0);
    assert c[a] == f[a] * base && c[b] == f[b] * base;
    hide SetTwo, Costs;
    SumUpdates(c, a, ca, b, 0);
    MulAdd(f[a], f[b], base - 1);
    MulAdd(base, 1, f[a]);
    MulAdd(base, 1, f[b]);
  }

  /** Merging is optimal: no assignment of lengths that satisfies the Kraft inequality costs less. */
  lemma {:induction false} MergeCostIsLeast(f: seq<nat>, len: seq<nat>, base: nat)
    requires Feasible(f, len, base)
    ensures Cost(f, len) >= MergeCost(f)
    decreases InUse(f)
  {
    var a := Least(f, -1, |f|);
    var b := Least(f, a, |f|);
    if b >= 0 {
      var len', base' := MergeBound(f, len, base, a, b);
      MergeFacts(f, a, b);
      MergeCostIsLeast(Merge(f, a, b), len', base');
    }
  }

  // ----- prefix codes

  /** No code of a symbol in use is a prefix of the code of another. */
  ghost predicate PrefixCode(f: seq<nat>, code: seq<seq<bool>>) {
    && |f| == |code|
    && forall i, j :: 0 <= i < |f| && 0 <= j < |f| && i != j && f[i] > 0 && f[j] > 0 ==> !(code[i] <= code[j])
  }

  function Lengths(code: seq<seq<bool>>): (r: seq<nat>)
    ensures |r| == |code|
  {
    seq(|code|, i requires 0 <= i < |code| => |code[i]|)
  }

  /** The counts of the symbols whose code starts with bit. */
  function Side(f: seq<nat>, code: seq<seq<bool>>, bit: bool): (r: seq<nat>)
    requires |f| == |code|
    ensures |r| == |f|
  {
    seq(|f|, i requires 0 <= i < |f| => if |code[i]| > 0 && code[i][0] == bit then f[i] else 0)
  }

  function Tails(code: seq<seq<bool>>): (r: seq<seq<bool>>)
    ensures |r| == |code|
  {
    seq(|code|, i requires 0 <= i < |code| => if code[i] == [] then [] else code[i][1..])
  }

  lemma SideIsPrefixCode(f: seq<nat>, code: seq<seq<bool>>, bit: bool)
    requires PrefixCode(f, code)
    ensures PrefixCode(Side(f, code, bit), Tails(code))
  {
    var g, t := Side(f, code, bit), Tails(code);
    forall i, j | 0 <= i < |g| && 0 <= j < |g| && i != j && g[i] > 0 && g[j] > 0 ensures !(t[i] <= t[j]) {
      assert code[i] == [bit] + t[i] && code[j] == [bit] + t[j];
    }
  }

  /** Every prefix code satisfies the Kraft inequality. */
  lemma {:induction false} PrefixCodeIsFeasible(f: seq<nat>, code: seq<seq<bool>>, base: nat)
    requires PrefixCode(f, code)
    requires forall i :: 0 <= i < |f| && f[i] > 0 ==> |code[i]| <= base
    ensures Feasible(f, Lengths(code), base)
    decreases base
  {
    hide Sum;
    if exists i :: 0 <= i < |f| && f[i] > 0 && code[i] == [] {
      var i :| 0 <= i < |f| && f[i] > 0 && code[i] == [];
      assert forall j :: 0 <= j < |f| ==> code[i] <= code[j];
      var zeros := seq(|f|, _ => 0);
      assert Shares(f, Lengths(code), base) == zeros[i := Pow2(base)];
      SumUpdate(zeros, i, Pow2(base));
      SumScale(zeros, zeros, 0);
    } else if base == 0 {
      var zeros := seq(|f|, _ => 0);
      assert Shares(f, Lengths(code), base) == zeros;
      SumScale(zeros, zeros, 0);
    } else {
      var tails, left, right := Tails(code), Side(f, code, false), Side(f, code, true);
      SideIsPrefixCode(f, code, false);
      SideIsPrefixCode(f, code, true);
      PrefixCodeIsFeasible(left, tails, base - 1);
      PrefixCodeIsFeasible(right, tails, base - 1);
      SumAdd(Shares(left, Lengths(tails), base - 1), Shares(right, Lengths(tails), base - 1), Shares(f,
          Lengths(code), base));
    }
  }
}
