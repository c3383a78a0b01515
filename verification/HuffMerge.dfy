// The merge loop of the optimal table generator: trees kept as chains of symbols threaded through an
// array, code sizes counted as the trees are joined.
module HuffMerge {
  import opened Powers
  import opened HuffOptimal

  const SYMBOLS := 257
  const HUGE := 1_000_000_000

  /** Which tree each symbol in use is in (by the symbol its chain starts with), each tree's symbols in
      chain order, and each symbol's place there. */
  datatype Forest = Forest(owner: seq<int>, chain: seq<seq<nat>>, place: seq<nat>)

  ghost predicate Shape(f: Forest) {
    |f.owner| == |f.chain| == |f.place| == SYMBOLS
  }

  /** Place k of chain s links to the next one, or ends the chain. */
  ghost predicate Linked(others: seq<int>, s: seq<nat>, k: nat)
    requires k < |s|
  {
    s[k] < |others| && others[s[k]] == if k + 1 < |s| then s[k + 1] else -1
  }

  /** The chain from c runs through exactly the symbols of c's tree and ends with no link. */
  ghost predicate Threaded(f: Forest, others: seq<int>, c: nat)
    requires Shape(f) && |others| == SYMBOLS && c < SYMBOLS
  {
    var s := f.chain[c];
    && |s| > 0 && s[0] == c
    && (forall k :: 0 <= k < |s| ==> s[k] < SYMBOLS && f.owner[s[k]] == c && f.place[s[k]] == k)
    && (forall k :: 0 <= k < |s| ==> Linked(others, s, k))
    && (forall i :: 0 <= i < SYMBOLS && f.owner[i] == c ==> f.place[i] < |s| && s[f.place[i]] == i)
  }

  /** The counts of the symbols of tree c. */
  function Part(counts: seq<nat>, owner: seq<int>, c: int): (r: seq<nat>)
    requires |counts| == |owner|
    ensures |r| == |counts|
  {
    seq(|counts|, i requires 0 <= i < |counts| => if owner[i] == c then counts[i] else 0)
  }

  /** The state of the merge loop: counts are the original counts, freq those of the trees. */
  ghost predicate Merging(counts: seq<nat>, freq: seq<nat>, sizes: seq<nat>, others: seq<int>, f: Forest) {
    && |counts| == |freq| == |sizes| == |others| == SYMBOLS && Shape(f)
    && (forall c :: 0 <= c < SYMBOLS && freq[c] > 0 ==> Threaded(f, others, c))
    && (forall c :: 0 <= c < SYMBOLS && freq[c] > 0 ==> Tree(counts, freq, sizes, f.owner, c))
    && (forall i :: 0 <= i < SYMBOLS && counts[i] > 0 ==> 0 <= f.owner[i] < SYMBOLS && freq[f.owner[i]] > 0)
    && (forall i :: 0 <= i < SYMBOLS && counts[i] == 0 ==> f.owner[i] == -1 && sizes[i] == 0)
    && (forall i :: 0 <= i < SYMBOLS ==> sizes[i] + InUse(freq) <= InUse(counts))
    && Cost(counts, sizes) + MergeCost(freq) == MergeCost(counts)
  }

  /** Tree c weighs what its symbols do, and its code sizes fill the code space exactly. */
  ghost predicate Tree(counts: seq<nat>, freq: seq<nat>, sizes: seq<nat>, owner: seq<int>, c: nat)
    requires |counts| == |freq| == |sizes| == |owner| && c < |freq|
  {
    && Sum(Part(counts, owner, c)) == freq[c]
    && Sum(Shares(Part(counts, owner, c), sizes, SYMBOLS)) == Pow2(SYMBOLS)
  }

  // ----- joining two trees

  function Joined(owner: seq<int>, a: nat, b: nat): (r: seq<int>)
    ensures |r| == |owner|
  {
    seq(|owner|, i requires 0 <= i < |owner| => if owner[i] == b then a else owner[i])
  }

  function Deeper(sizes: seq<nat>, owner: seq<int>, a: nat, b: nat): (r: seq<nat>)
    requires |sizes| == |owner|
    ensures |r| == |sizes|
  {
    seq(|sizes|, i requires 0 <= i < |sizes| => if owner[i] == a || owner[i] == b then sizes[i] + 1 else sizes[i])
  }

  function JoinForest(f: Forest, a: nat, b: nat): (r: Forest)
    requires Shape(f) && a < SYMBOLS && b < SYMBOLS
    ensures Shape(r)
  {
    var n := |f.chain[a]|;
    Forest(Joined(f.owner, a, b), f.chain[a := f.chain[a] + f.chain[b]],
           seq(SYMBOLS, i requires 0 <= i < SYMBOLS => if f.owner[i] == b then n + f.place[i] else f.place[i]))
  }

  /** The symbols of the joined tree cost one bit more each: together, its weight. */
  lemma JoinCost(counts: seq<nat>, sizes: seq<nat>, owner: seq<int>, a: nat, b: nat)
    requires |counts| == |sizes| == |owner| && a != b
    ensures Sum(Part(counts, Joined(owner, a, b), a)) == Sum(Part(counts, owner, a)) + Sum(Part(counts, owner, b))
    ensures Cost(counts, Deeper(sizes, owner, a, b)) ==
            Cost(counts, sizes) + Sum(Part(counts, owner, a)) + Sum(Part(counts, owner, b))
  {
    hide Sum;
    var pa, pb, p := Part(counts, owner, a), Part(counts, owner, b), Part(counts, Joined(owner, a, b), a);
    SumAdd(pa, pb, p);
    SumAdd(Costs(counts, sizes), p, Costs(counts, Deeper(sizes, owner, a, b)));
  }

  lemma HalfShare(size: nat)
    requires size < SYMBOLS
    ensures Pow2(SYMBOLS - size) == 2 * Pow2(SYMBOLS - (size + 1))
  {
  }

  /** Two full trees one level deeper make one full tree. */
  lemma JoinShares(counts: seq<nat>, sizes: seq<nat>, owner: seq<int>, a: nat, b: nat)
    requires |counts| == |sizes| == |owner| && a != b
    requires forall i :: 0 <= i < |sizes| ==> sizes[i] < SYMBOLS
    ensures 2 * Sum(Shares(Part(counts, Joined(owner, a, b), a), Deeper(sizes, owner, a, b), SYMBOLS)) ==
            Sum(Shares(Part(counts, owner, a), sizes, SYMBOLS)) + Sum(Shares(Part(counts, owner, b), sizes, SYMBOLS))
  {
    hide Sum, Pow2;
    var sa := Shares(Part(counts, owner, a), sizes, SYMBOLS);
    var sb := Shares(Part(counts, owner, b), sizes, SYMBOLS);
    var s := Shares(Part(counts, Joined(owner, a, b), a), Deeper(sizes, owner, a, b), SYMBOLS);
    var twice := seq(|s|, i requires 0 <= i < |s| => s[i] * 2);
    forall i | 0 <= i < |s| ensures twice[i] == sa[i] + sb[i] {
      HalfShare(sizes[i]);
    }
    SumScale(s, twice, 2);
    SumAdd(sa, sb, twice);
  }

  lemma OtherTree(counts: seq<nat>, freq: seq<nat>, sizes: seq<nat>, owner: seq<int>, a: nat, b: nat, c: nat)
    requires |counts| == |freq| == |sizes| == |owner| && a < |freq| && b < |freq| && c < |freq|
    requires a != b && c != a && c != b && Tree(counts, freq, sizes, owner, c)
    ensures Tree(counts, Merge(freq, a, b), Deeper(sizes, owner, a, b), Joined(owner, a, b), c)
  {
    hide Sum, Pow2;
    var p := Part(counts, owner, c);
    assert Part(counts, Joined(owner, a, b), c) == p;
    assert Shares(p, Deeper(sizes, owner, a, b), SYMBOLS) == Shares(p, sizes, SYMBOLS);
  }

  lemma JoinedTree(counts: seq<nat>, freq: seq<nat>, sizes: seq<nat>, owner: seq<int>, a: nat, b: nat)
    requires |counts| == |freq| == |sizes| == |owner| && a < |freq| && b < |freq| && a != b
    requires forall i :: 0 <= i < |sizes| ==> sizes[i] < SYMBOLS
    requires Tree(counts, freq, sizes, owner, a) && Tree(counts, freq, sizes, owner, b)
    ensures Tree(counts, Merge(freq, a, b), Deeper(sizes, owner, a, b), Joined(owner, a, b), a)
  {
    hide Sum, Pow2, Shares, Part, Joined, Deeper;
    JoinCost(counts, sizes, owner, a, b);
    JoinShares(counts, sizes, owner, a, b);
  }

  /** The last symbol on tree c's chain. */
  function ChainEnd(f: Forest, c: nat): nat
    requires Shape(f) && c < SYMBOLS
  {
    var s := f.chain[c];
    if s == [] then 0 else s[|s| - 1]
  }

  lemma ChainEnds(f: Forest, others: seq<int>, c: nat)
    requires Shape(f) && |others| == SYMBOLS && c < SYMBOLS && Threaded(f, others, c)
    ensures ChainEnd(f, c) < SYMBOLS && f.owner[ChainEnd(f, c)] == c
  {
  }

  lemma JoinLink(others: seq<int>, s: seq<nat>, t: seq<nat>, k: nat)
    requires |s| > 0 && |t| > 0 && k < |s + t| && s[|s| - 1] < |others|
    requires if k < |s| then Linked(others, s, k) else Linked(others, t, k - |s|)
    requires (s + t)[k] == s[|s| - 1] ==> k == |s| - 1
    ensures Linked(others[s[|s| - 1] := t[0]], s + t, k)
  {
  }

  /** Linking the end of a's chain to b threads the joined tree. */
  lemma JoinThread(f: Forest, others: seq<int>, a: nat, b: nat)
    requires Shape(f) && |others| == SYMBOLS && a < SYMBOLS && b < SYMBOLS && a != b
    requires Threaded(f, others, a) && Threaded(f, others, b) && ChainEnd(f, a) < SYMBOLS
    ensures Threaded(JoinForest(f, a, b), others[ChainEnd(f, a) := b], a)
  {
    hide Linked;
    var g, others' := JoinForest(f, a, b), others[ChainEnd(f, a) := b];
    var s, t := f.chain[a], f.chain[b];
    var n, u := |s|, s + t;
    assert g.chain[a] == u;
    forall k | 0 <= k < |u|
      ensures u[k] < SYMBOLS && g.owner[u[k]] == a && g.place[u[k]] == k && Linked(others', u, k)
    {
      assert f.owner[s[n - 1]] == a && f.place[s[n - 1]] == n - 1;
      if k < n {
        assert u[k] == s[k] && f.place[s[k]] == k && f.owner[s[k]] == a;
      } else {
        assert u[k] == t[k - n] && f.owner[t[k - n]] == b && f.place[t[k - n]] == k - n;
      }
      JoinLink(others, s, t, k);
    }
    forall i | 0 <= i < SYMBOLS && g.owner[i] == a
      ensures g.place[i] < |u| && u[g.place[i]] == i
    {
      if f.owner[i] == b {
        assert u[n + f.place[i]] == t[f.place[i]];
      } else {
        assert u[f.place[i]] == s[f.place[i]];
      }
    }
  }

  /** It leaves the other trees alone. */
  lemma OtherThread(f: Forest, others: seq<int>, a: nat, b: nat, c: nat)
    requires Shape(f) && |others| == SYMBOLS && a < SYMBOLS && b < SYMBOLS && c < SYMBOLS
    requires a != b && c != a && c != b
    requires ChainEnd(f, a) < SYMBOLS && f.owner[ChainEnd(f, a)] == a && Threaded(f, others, c)
    ensures Threaded(JoinForest(f, a, b), others[ChainEnd(f, a) := b], c)
  {
    var g, others' := JoinForest(f, a, b), others[ChainEnd(f, a) := b];
    var s := f.chain[c];
    assert g.chain[c] == s;
    forall k | 0 <= k < |s|
      ensures s[k] < SYMBOLS && g.owner[s[k]] == c && g.place[s[k]] == k
      ensures Linked(others', s, k)
    {
      assert Linked(others, s, k);
      assert f.owner[s[k]] == c;
    }
    forall i | 0 <= i < SYMBOLS && g.owner[i] == c
      ensures g.place[i] < |s| && s[g.place[i]] == i
    {
      assert f.owner[i] == c;
    }
  }

  /** One round of the loop keeps the state. */
  lemma MergeKeeps(counts: seq<nat>, freq: seq<nat>, sizes: seq<nat>, others: seq<int>, f: Forest, a: nat, b: nat)
    requires Merging(counts, freq, sizes, others, f)
    requires a == Least(freq, -1, SYMBOLS) && b == Least(freq, a, SYMBOLS)
    ensures ChainEnd(f, a) < SYMBOLS
    ensures Merging(counts, Merge(freq, a, b), Deeper(sizes, f.owner, a, b), others[ChainEnd(f, a) := b],
            JoinForest(f, a, b))
  {
    hide Sum, Pow2, Shares, Part, InUse, Threaded, Tree, Least, MergeCost, Cost, ChainEnd;
    ChainEnds(f, others, a);
    var freq', sizes' := Merge(freq, a, b), Deeper(sizes, f.owner, a, b);
    var f', others' := JoinForest(f, a, b), others[ChainEnd(f, a) := b];
    MergeFacts(freq, a, b);
    forall c | 0 <= c < SYMBOLS && freq'[c] > 0
      ensures Threaded(f', others', c) && Tree(counts, freq', sizes', f'.owner, c)
    {
      if c == a {
        JoinThread(f, others, a, b);
        JoinedTree(counts, freq, sizes, f.owner, a, b);
      } else {
        OtherThread(f, others, a, b, c);
        OtherTree(counts, freq, sizes, f.owner, a, b, c);
      }
    }
    JoinAccount(counts, freq, sizes, f.owner, a, b);
  }

  lemma JoinAccount(counts: seq<nat>, freq: seq<nat>, sizes: seq<nat>, owner: seq<int>, a: nat, b: nat)
    requires |counts| == |freq| == |sizes| == |owner| == SYMBOLS
    requires a == Least(freq, -1, SYMBOLS) && b == Least(freq, a, SYMBOLS)
    requires Tree(counts, freq, sizes, owner, a) && Tree(counts, freq, sizes, owner, b)
    ensures Cost(counts, Deeper(sizes, owner, a, b)) + MergeCost(Merge(freq, a, b)) == Cost(counts,
            sizes) + MergeCost(freq)
  {
    hide Sum, Pow2, Shares, Part, Least, Cost;
    JoinCost(counts, sizes, owner, a, b);
  }

  // ----- how deep a tree can grow

  function Fib(n: nat): (r: nat)
    ensures n > 0 ==> r > 0
  {
    if n < 2 then n else Fib(n - 1) + Fib(n - 2)
  }

  lemma {:induction false} FibGrows(m: nat, n: nat)
    requires m <= n
    ensures Fib(m) <= Fib(n)
  {
    if m < n {
      FibGrows(m, n - 1);
    }
  }

  /** A code size above 32 bits needs this many symbols. */
  lemma Fib35()
    ensures Fib(35) == 9_227_465
  {
    assert Fib(12) == 144 && Fib(13) == 233;
    assert Fib(22) == 17_711 && Fib(23) == 28_657;
    assert Fib(30) == 832_040 && Fib(31) == 1_346_269;
  }

  /** A symbol's tree weighs at least the Fibonacci number its depth calls for, and every other tree at least
      the one before it. */
  ghost predicate Weighs(freq: seq<nat>, owner: int, size: nat) {
    && 0 <= owner < |freq| && Fib(size + 2) <= freq[owner]
    && forall b :: 0 <= b < |freq| && b != owner && freq[b] > 0 ==> Fib(size + 1) <= freq[b]
  }

  ghost predicate Deep(counts: seq<nat>, freq: seq<nat>, sizes: seq<nat>, owner: seq<int>) {
    && |counts| == |freq| == |sizes| == |owner|
    && forall i :: 0 <= i < |counts| && counts[i] > 0 ==> Weighs(freq, owner[i], sizes[i])
  }

  /** Joining the two lightest trees keeps this. */
  lemma WeighsAfter(freq: seq<nat>, owner: int, size: nat, a: nat, b: nat)
    requires a < |freq| && b < |freq| && a != b && freq[a] > 0 && freq[b] > 0
    requires forall c :: 0 <= c < |freq| && c != a && c != b && freq[c] > 0 ==> freq[a] <= freq[c] && freq[b] <= freq[c]
    requires Weighs(freq, owner, size)
    ensures if owner == a ||
            owner == b then Weighs(Merge(freq, a, b), a, size + 1) else Weighs(Merge(freq, a, b), owner, size)
  {
    hide Fib;
    assert Fib(size + 3) == Fib(size + 2) + Fib(size + 1) by { FibStep(size + 1); }
    FibGrows(size + 1, size + 2);
  }

  lemma FibStep(n: nat)
    ensures Fib(n + 2) == Fib(n + 1) + Fib(n)
  {
  }

  lemma DeepAfter(counts: seq<nat>, freq: seq<nat>, sizes: seq<nat>, owner: seq<int>, a: nat, b: nat)
    requires |freq| == SYMBOLS && Deep(counts, freq, sizes, owner)
    requires a == Least(freq, -1, SYMBOLS) && b == Least(freq, a, SYMBOLS)
    ensures Deep(counts, Merge(freq, a, b), Deeper(sizes, owner, a, b), Joined(owner, a, b))
  {
    hide Weighs, Least, Merge;
    forall i | 0 <= i < |counts| && counts[i] > 0
      ensures Weighs(Merge(freq, a, b), Joined(owner, a, b)[i], Deeper(sizes, owner, a, b)[i])
    {
      WeighsAfter(freq, owner[i], sizes[i], a, b);
    }
  }

  lemma DeepStart(counts: seq<nat>, sizes: seq<nat>, owner: seq<int>)
    requires |counts| == |sizes| == |owner|
    requires forall i :: 0 <= i < |counts| ==> sizes[i] == 0 && (counts[i] > 0 ==> owner[i] == i)
    ensures Deep(counts, counts, sizes, owner)
  {
    assert Fib(2) == 1 && Fib(1) == 1;
  }

  /** No code size calls for more symbols than were counted. */
  ghost predicate DepthBounded(counts: seq<nat>, sizes: seq<nat>) {
    |counts| == |sizes| && forall i :: 0 <= i < |counts| && counts[i] > 0 ==> Fib(sizes[i] + 2) <= Sum(counts)
  }

  lemma DeepIsBounded(counts: seq<nat>, freq: seq<nat>, sizes: seq<nat>, owner: seq<int>)
    requires Deep(counts, freq, sizes, owner) && Sum(freq) == Sum(counts)
    ensures DepthBounded(counts, sizes)
  {
    hide Sum, Fib;
    forall i | 0 <= i < |counts| && counts[i] > 0 ensures Fib(sizes[i] + 2) <= Sum(counts) {
      assert Weighs(freq, owner[i], sizes[i]);
      InUseSum(freq, owner[i]);
    }
  }

  /** A code size above 32 bits takes at least 9,227,465 symbols. */
  lemma LongNeedsMany(counts: seq<nat>, sizes: seq<nat>, i: nat)
    requires DepthBounded(counts, sizes) && i < |counts| && counts[i] > 0 && sizes[i] > 32
    ensures Sum(counts) >= 9_227_465
  {
    hide Sum, Fib;
    Fib35();
    FibGrows(35, sizes[i] + 2);
  }

  // ----- the code sizes as a function of the counts

  /** How much deeper each tree will be in the end: the two lightest trees end one deeper than the tree that
      joins them. For the original counts these are the code sizes. */
  function Depths(freq: seq<nat>): (r: seq<nat>)
    ensures |r| == |freq|
    decreases InUse(freq)
  {
    var a := Least(freq, -1, |freq|);
    var b := Least(freq, a, |freq|);
    if b < 0 then seq(|freq|, _ => 0)
    else
      MergeFacts(freq, a, b);
      var d := Depths(Merge(freq, a, b));
      d[a := d[a] + 1][b := d[a] + 1]
  }

  lemma {:induction false} UnusedDepth(freq: seq<nat>, i: nat)
    requires i < |freq| && freq[i] == 0
    ensures Depths(freq)[i] == 0
    decreases InUse(freq)
  {
    hide InUse, Least, Sum;
    var a := Least(freq, -1, |freq|);
    var b := Least(freq, a, |freq|);
    if b >= 0 {
      MergeFacts(freq, a, b);
      UnusedDepth(Merge(freq, a, b), i);
    }
  }

  /** The sizes so far and the depths to come add up to the code sizes. */
  ghost predicate Settling(counts: seq<nat>, freq: seq<nat>, sizes: seq<nat>, owner: seq<int>) {
    && |counts| == |freq| == |sizes| == |owner|
    && forall i :: 0 <= i < |counts| && counts[i] > 0 ==>
         0 <= owner[i] < |freq| && sizes[i] + Depths(freq)[owner[i]] == Depths(counts)[i]
  }

  lemma DepthStep(freq: seq<nat>)
    requires Least(freq, Least(freq, -1, |freq|), |freq|) >= 0
    ensures var a := Least(freq, -1, |freq|);
            var b := Least(freq, a, |freq|);
            var d := Depths(Merge(freq, a, b));
            Depths(freq) == d[a := d[a] + 1][b := d[a] + 1]
  {
  }

  lemma SettlingAfter(counts: seq<nat>, freq: seq<nat>, sizes: seq<nat>, owner: seq<int>, a: nat, b: nat)
    requires |freq| == SYMBOLS && Settling(counts, freq, sizes, owner)
    requires a == Least(freq, -1, SYMBOLS) && b == Least(freq, a, SYMBOLS)
    ensures Settling(counts, Merge(freq, a, b), Deeper(sizes, owner, a, b), Joined(owner, a, b))
  {
    hide Depths, Least, Merge;
    DepthStep(freq);
  }

  lemma Settled(counts: seq<nat>, freq: seq<nat>, sizes: seq<nat>, owner: seq<int>)
    requires |freq| == SYMBOLS && Settling(counts, freq, sizes, owner)
    requires Least(freq, Least(freq, -1, SYMBOLS), SYMBOLS) < 0
    requires forall i :: 0 <= i < |counts| && counts[i] == 0 ==> sizes[i] == 0
    ensures sizes == Depths(counts)
  {
    hide Least;
    assert Depths(freq) == seq(SYMBOLS, _ => 0);
    hide Depths;
    forall i | 0 <= i < |counts| ensures sizes[i] == Depths(counts)[i] {
      if counts[i] == 0 {
        UnusedDepth(counts, i);
      }
    }
  }

  // ----- the loop

  /** Code sizes that fill the code space exactly, give a code to exactly the symbols in use, and cost no
      more than any others that satisfy the Kraft inequality. */
  ghost predicate OptimalSizes(counts: seq<nat>, sizes: seq<nat>) {
    && |counts| == |sizes|
    && Feasible(counts, sizes, SYMBOLS) && Sum(Shares(counts, sizes, SYMBOLS)) == Pow2(SYMBOLS)
    && (forall len: seq<nat>, base: nat :: Feasible(counts, len, base) ==> Cost(counts, sizes) <= Cost(counts, len))
    && (forall i :: 0 <= i < |counts| && counts[i] == 0 ==> sizes[i] == 0)
  }

  /** In particular no prefix code costs less. */
  lemma OptimalAmongPrefixCodes(counts: seq<nat>, sizes: seq<nat>, code: seq<seq<bool>>)
    requires OptimalSizes(counts, sizes) && PrefixCode(counts, code)
    ensures Cost(counts, sizes) <= Cost(counts, Lengths(code))
  {
    var base := LongestCode(code);
    PrefixCodeIsFeasible(counts, code, base);
  }

  lemma {:induction false} LongestCode(code: seq<seq<bool>>) returns (base: nat)
    ensures forall i :: 0 <= i < |code| ==> |code[i]| <= base
  {
    if code == [] {
      base := 0;
    } else {
      base := LongestCode(code[1..]);
      forall i | 0 <= i < |code| ensures |code[i]| <= (if base < |code[0]| then |code[0]| else base) {
        assert i > 0 ==> code[i] == code[1..][i - 1];
      }
      base := if base < |code[0]| then |code[0]| else base;
    }
  }

  lemma {:induction false} InUseSum(s: seq<nat>, i: nat)
    requires i < |s|
    ensures s[i] <= Sum(s)
  {
    SumUpdate(s, i, 0);
  }

  /** Before any merge every symbol in use is a tree of its own. */
  lemma SingleTrees(counts: seq<nat>, sizes: seq<nat>, others: seq<int>) returns (f: Forest)
    requires |counts| == |sizes| == |others| == SYMBOLS
    requires forall i :: 0 <= i < SYMBOLS ==> sizes[i] == 0 && others[i] == -1
    ensures Merging(counts, counts, sizes, others, f) && Deep(counts, counts, sizes, f.owner)
    ensures Settling(counts, counts, sizes, f.owner)
  {
    hide Sum, Pow2, InUse, MergeCost, Weighs, Depths;
    f := Forest(seq(SYMBOLS, i requires 0 <= i < SYMBOLS => if counts[i] > 0 then i else -1),
                seq(SYMBOLS, i requires 0 <= i < SYMBOLS => [i]), seq(SYMBOLS, _ => 0));
    forall c | 0 <= c < SYMBOLS && counts[c] > 0 ensures Tree(counts, counts, sizes, f.owner, c) {
      SingleTree(counts, sizes, f.owner, c);
    }
    forall c | 0 <= c < SYMBOLS && counts[c] > 0 ensures Threaded(f, others, c) {
      assert Linked(others, [c], 0);
    }
    var zeros := seq(SYMBOLS, _ => 0);
    assert Costs(counts, sizes) == zeros;
    SumScale(zeros, zeros, 0);
    DeepStart(counts, sizes, f.owner);
  }

  lemma SingleTree(counts: seq<nat>, sizes: seq<nat>, owner: seq<int>, c: nat)
    requires |counts| == |sizes| == |owner| == SYMBOLS && c < SYMBOLS && counts[c] > 0
    requires forall i :: 0 <= i < SYMBOLS ==> sizes[i] == 0 && (owner[i] == c <==> i == c)
    ensures Tree(counts, counts, sizes, owner, c)
  {
    hide Sum, Pow2;
    var zeros := seq(SYMBOLS, _ => 0);
    SumScale(zeros, zeros, 0);
    SumUpdate(zeros, c, counts[c]);
    assert Part(counts, owner, c) == zeros[c := counts[c]];
    SumUpdate(zeros, c, Pow2(SYMBOLS));
    assert Shares(Part(counts, owner, c), sizes, SYMBOLS) == zeros[c := Pow2(SYMBOLS)];
  }

  /** When one tree is left its code sizes are optimal. */
  lemma LastTree(counts: seq<nat>, freq: seq<nat>, sizes: seq<nat>, others: seq<int>, f: Forest)
    requires Merging(counts, freq, sizes, others, f)
    requires Least(freq, Least(freq, -1, SYMBOLS), SYMBOLS) < 0
    requires exists i :: 0 <= i < SYMBOLS && counts[i] > 0
    ensures OptimalSizes(counts, sizes)
  {
    hide Sum, Pow2, InUse, Cost, Threaded;
    var a := Least(freq, -1, SYMBOLS);
    var i :| 0 <= i < SYMBOLS && counts[i] > 0;
    assert freq[f.owner[i]] > 0;
    assert Part(counts, f.owner, a) == counts;
    assert Tree(counts, freq, sizes, f.owner, a);
    forall len: seq<nat>, base: nat | Feasible(counts, len, base)
      ensures Cost(counts, sizes) <= Cost(counts, len)
    {
      MergeCostIsLeast(counts, len, base);
    }
  }

  /** The state of the loop, with what bounds the code sizes. */
  ghost predicate Growing(counts: seq<nat>, freq: seq<nat>, sizes: seq<nat>, others: seq<int>, f: Forest) {
    && Merging(counts, freq, sizes, others, f) && Deep(counts, freq, sizes, f.owner)
    && Settling(counts, freq, sizes, f.owner) && Sum(freq) == Sum(counts)
  }

  lemma StepKeeps(counts: seq<nat>, freq: seq<nat>, sizes: seq<nat>, others: seq<int>, f: Forest, a: nat, b: nat)
    requires Growing(counts, freq, sizes, others, f)
    requires a == Least(freq, -1, SYMBOLS) && b == Least(freq, a, SYMBOLS)
    ensures a < SYMBOLS && b < SYMBOLS && a != b && ChainEnd(f, a) < SYMBOLS && |others| == |freq| == SYMBOLS
    ensures Threaded(f, others, a) && Threaded(f, others, b)
    ensures InUse(Merge(freq, a, b)) < InUse(freq)
    ensures Growing(counts, Merge(freq, a, b), Deeper(sizes, f.owner, a, b), others[ChainEnd(f, a) := b],
            JoinForest(f, a, b))
  {
    hide Sum, InUse, Least, ChainEnd, Threaded, Deep, Merge, Settling;
    LeastFacts(counts, freq, sizes, others, f);
    hide Merging;
    MergeFacts(freq, a, b);
    MergeKeeps(counts, freq, sizes, others, f, a, b);
    DeepAfter(counts, freq, sizes, f.owner, a, b);
    SettlingAfter(counts, freq, sizes, f.owner, a, b);
  }

  lemma LightTrees(freq: seq<nat>)
    requires Sum(freq) <= HUGE
    ensures forall i :: 0 <= i < |freq| ==> freq[i] <= HUGE
  {
    hide Sum;
    forall i | 0 <= i < |freq| ensures freq[i] <= HUGE {
      InUseSum(freq, i);
    }
  }

  lemma LoopDone(counts: seq<nat>, freq: seq<nat>, sizes: seq<nat>, others: seq<int>, f: Forest)
    requires Growing(counts, freq, sizes, others, f) && |counts| == SYMBOLS && counts[256] > 0
    requires Least(freq, Least(freq, -1, SYMBOLS), SYMBOLS) < 0
    ensures OptimalSizes(counts, sizes) && DepthBounded(counts, sizes) && sizes == Depths(counts)
  {
    hide Sum, OptimalSizes, DepthBounded, Least, Deep, Settling, Threaded, Tree;
    assert forall i :: 0 <= i < |counts| && counts[i] == 0 ==> sizes[i] == 0;
    hide Merging;
    LastTree(counts, freq, sizes, others, f);
    Settled(counts, freq, sizes, f.owner);
    DeepIsBounded(counts, freq, sizes, f.owner);
  }

  method FindLeast(freq: array<nat>, skip: int) returns (c: int)
    requires freq.Length == SYMBOLS && forall i :: 0 <= i < SYMBOLS ==> freq[i] <= HUGE
    ensures c == Least(freq[..], skip, SYMBOLS)
  {
    c := -1;
    var v := HUGE;
    for i := 0 to SYMBOLS
      invariant c == Least(freq[..], skip, i)
      invariant v == if c < 0 then HUGE else freq[c]
    {
      if freq[i] != 0 && freq[i] <= v && i != skip {
        v := freq[i];
        c := i;
      }
    }
  }

  /** Add one to the code size of every symbol on the chain from c; return the end of the chain. */
  method Deepen(codesize: array<nat>, others: array<int>, c: nat, ghost f: Forest) returns (last: nat)
    requires codesize.Length == others.Length == SYMBOLS && codesize as object != others && c < SYMBOLS
    requires Shape(f) && Threaded(f, others[..], c)
    modifies codesize
    ensures last == ChainEnd(f, c) < SYMBOLS
    ensures forall i :: 0 <= i < SYMBOLS ==> codesize[i] == old(codesize[i]) + if f.owner[i] == c then 1 else 0
  {
    ghost var s, links := f.chain[c], others[..];
    ghost var k := 0;
    last := c;
    codesize[last] := codesize[last] + 1;
    assert Linked(links, s, k);
    while others[last] >= 0
      invariant others[..] == links && 0 <= k < |s| && last == s[k] && Linked(links, s, k)
      invariant forall i :: 0 <= i < SYMBOLS ==>
                  codesize[i] == old(codesize[i]) + if f.owner[i] == c && f.place[i] <= k then 1 else 0
      decreases |s| - k
    {
      last := others[last];
      k := k + 1;
      assert f.owner[s[k]] == c && f.place[s[k]] == k && Linked(links, s, k);
      codesize[last] := codesize[last] + 1;
    }
  }

  /** Merge the trees of lowest count until one is left; freq[256] stands for a symbol of count one. */
  method CodeSizes(freq: array<nat>) returns (codesize: array<nat>)
    requires freq.Length == SYMBOLS && Sum(freq[..][256 := 1]) <= HUGE
    modifies freq
    ensures fresh(codesize) && codesize.Length == SYMBOLS
    ensures OptimalSizes(old(freq[..])[256 := 1], codesize[..])
    ensures codesize[..] == Depths(old(freq[..])[256 := 1]) && DepthBounded(old(freq[..])[256 := 1], codesize[..])
  {
    hide Growing, Merging, Deep, Settling, Depths, OptimalSizes, DepthBounded, Sum, InUse, Threaded, Least, ChainEnd,
         Merge, Deeper;
    codesize := new nat[SYMBOLS](_ => 0);
    var others := new int[SYMBOLS](_ => -1);
    freq[256] := 1;
    ghost var counts := old(freq[..])[256 := 1];
    assert freq[..] == counts;
    ghost var f := SingleTrees(counts, codesize[..], others[..]);
    GrowingStart(counts, codesize[..], others[..], f);
    while true
      invariant codesize.Length == others.Length == SYMBOLS && fresh(codesize) && fresh(others)
      invariant codesize as object != others
      invariant Growing(counts, freq[..], codesize[..], others[..], f)
      decreases InUse(freq[..])
    {
      ghost var was, sizes, links := freq[..], codesize[..], others[..];
      GrowingIsLight(counts, was, sizes, links, f);
      assert forall i :: 0 <= i < SYMBOLS ==> freq[i] == was[i];
      var c1 := FindLeast(freq, -1);
      var c2 := FindLeast(freq, c1);
      if c2 < 0 {
        break;
      }
      LeastBound(was, c1);
      StepKeeps(counts, was, sizes, links, f, c1, c2);
      freq[c1] := freq[c1] + freq[c2];
      freq[c2] := 0;
      MergedArray(was, freq[..], c1, c2);
      var last := Deepen(codesize, others, c1, f);
      others[last] := c2;
      assert others[..] == links[ChainEnd(f, c1) := c2];
      ThreadAfter(f, links, others[..], c1, c2);
      last := Deepen(codesize, others, c2, f);
      DeepenedTwice(f, sizes, codesize[..], c1, c2);
      f := JoinForest(f, c1, c2);
    }
    LoopDone(counts, freq[..], codesize[..], others[..], f);
  }

  lemma GrowingStart(counts: seq<nat>, sizes: seq<nat>, others: seq<int>, f: Forest)
    requires Merging(counts, counts, sizes, others, f) && Deep(counts, counts, sizes, f.owner)
    requires Settling(counts, counts, sizes, f.owner)
    ensures Growing(counts, counts, sizes, others, f)
  {
    hide Merging, Deep, Settling, Sum;
  }

  lemma GrowingIsLight(counts: seq<nat>, freq: seq<nat>, sizes: seq<nat>, others: seq<int>, f: Forest)
    requires Growing(counts, freq, sizes, others, f) && Sum(counts) <= HUGE
    ensures |freq| == SYMBOLS && forall i :: 0 <= i < SYMBOLS ==> freq[i] <= HUGE
    ensures Shape(f)
  {
    hide Sum;
    LightTrees(freq);
  }

  lemma LeastBound(freq: seq<nat>, c: int)
    requires |freq| == SYMBOLS && c == Least(freq, -1, SYMBOLS) && Least(freq, c, SYMBOLS) >= 0
    ensures 0 <= c < SYMBOLS
  {
  }

  lemma MergedArray(freq: seq<nat>, freq': seq<nat>, a: nat, b: nat)
    requires |freq| == |freq'| && a < |freq| && b < |freq| && a != b
    requires freq' == freq[a := freq[a] + freq[b]][b := 0]
    ensures freq' == Merge(freq, a, b)
  {
  }

  lemma DeepenedTwice(f: Forest, sizes: seq<nat>, sizes': seq<nat>, a: nat, b: nat)
    requires Shape(f) && |sizes| == |sizes'| == SYMBOLS && a != b
    requires forall i :: 0 <= i < SYMBOLS ==>
               sizes'[i] == sizes[i] + (if f.owner[i] == a then 1 else 0) + (if f.owner[i] == b then 1 else 0)
    ensures sizes' == Deeper(sizes, f.owner, a, b)
  {
  }

  lemma LeastFacts(counts: seq<nat>, freq: seq<nat>, sizes: seq<nat>, others: seq<int>, f: Forest)
    requires Merging(counts, freq, sizes, others, f) && Least(freq, Least(freq, -1, SYMBOLS), SYMBOLS) >= 0
    ensures var a := Least(freq, -1, SYMBOLS);
            var b := Least(freq, a, SYMBOLS);
            && 0 <= a < SYMBOLS && 0 <= b < SYMBOLS && a != b && freq[a] > 0 && freq[b] > 0
            && Shape(f) && Threaded(f, others, a) && Threaded(f, others, b)
  {
  }

  /** The second chain is intact after the first is linked to it. */
  lemma ThreadAfter(f: Forest, others: seq<int>, others': seq<int>, a: nat, b: nat)
    requires Shape(f) && |others| == SYMBOLS && a < SYMBOLS && b < SYMBOLS && a != b
    requires Threaded(f, others, a) && Threaded(f, others, b)
    requires ChainEnd(f, a) < SYMBOLS && others' == others[ChainEnd(f, a) := b]
    ensures Threaded(f, others', b)
  {
    var s := f.chain[b];
    ChainEnds(f, others, a);
    forall k | 0 <= k < |s| ensures Linked(others', s, k) {
      assert Linked(others, s, k) && f.owner[s[k]] == b;
    }
  }
}
