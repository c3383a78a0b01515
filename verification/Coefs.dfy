// Coefficients and blocks, shared by the entropy coders.
module Coefs {

  // JCOEF is a 16-bit integer.
  type JCOEF = x: int | -0x8000 <= x < 0x8000

  /** Storing an int in a coefficient keeps its low sixteen bits. */
  function ToCoef(v: int): JCOEF {
    (v + 0x8000) % 0x1_0000 - 0x8000
  }

  function Abs(v: int): nat {
    if v < 0 then -v else v
  }

  // A block of coefficients in natural order.
  type Block = b: seq<JCOEF> | |b| == 64 witness seq(64, _ => 0)

  /** natural_order: a permutation of the 64 positions with the DC position first. */
  ghost predicate IsOrder(order: seq<nat>) {
    && |order| == 64 && order[0] == 0
    && (forall i :: 0 <= i < 64 ==> order[i] < 64)
    && (forall i, j :: 0 <= i < j < 64 ==> order[i] != order[j])
  }

  /** Distinct blocks of 64 coefficients. */
  ghost predicate AreBlocks(blocks: seq<array<JCOEF>>) {
    && (forall i :: 0 <= i < |blocks| ==> blocks[i].Length == 64)
    && (forall i, j :: 0 <= i < j < |blocks| ==> blocks[i] != blocks[j])
  }

  ghost predicate IsZero(block: array<JCOEF>)
    reads block
  {
    forall k :: 0 <= k < block.Length ==> block[k] == 0
  }

  method NewBlocks(n: nat) returns (blocks: seq<array<JCOEF>>)
    ensures |blocks| == n && AreBlocks(blocks)
    ensures forall i :: 0 <= i < n ==> fresh(blocks[i]) && IsZero(blocks[i])
  {
    blocks := [];
    for i := 0 to n
      invariant |blocks| == i && AreBlocks(blocks)
      invariant forall j :: 0 <= j < i ==> fresh(blocks[j]) && IsZero(blocks[j])
    {
      var b := new JCOEF[64](_ => 0);
      blocks := blocks + [b];
    }
  }

  function Contents(blocks: seq<array<JCOEF>>): (r: seq<Block>)
    requires forall i :: 0 <= i < |blocks| ==> blocks[i].Length == 64
    reads blocks
    ensures |r| == |blocks|
    ensures forall i :: 0 <= i < |blocks| ==> r[i] == blocks[i][..]
  {
    seq(|blocks|, i requires 0 <= i < |blocks| && blocks[i].Length == 64 reads blocks => blocks[i][..])
  }

  /** Arrays that hold the given blocks. */
  method BlocksOf(values: seq<Block>) returns (blocks: seq<array<JCOEF>>)
    ensures |blocks| == |values| && AreBlocks(blocks) && Contents(blocks) == values
    ensures forall i :: 0 <= i < |blocks| ==> fresh(blocks[i])
  {
    blocks := [];
    for i := 0 to |values|
      invariant |blocks| == i && AreBlocks(blocks)
      invariant forall j :: 0 <= j < i ==> fresh(blocks[j]) && blocks[j][..] == values[j]
    {
      var b := new JCOEF[64](k requires 0 <= k < 64 => values[i][k]);
      assert b[..] == values[i];
      blocks := blocks + [b];
    }
  }
}
