/**
 The two scanners. `AlgoVerify` compares every instruction of a block with
 every instruction after it; `AlgoCalculate` compares one subject instruction
 with every instruction of a block. Both append each independent pair
 (earlier, later) in the order the comparisons are made.

 The functions follow the loops step by step: appending after the last
 comparison is recursion on a shorter prefix.
 */
module Scanners {
  import opened Operands
  import opened Dependence

  /** One result entry: two instructions that may run in parallel, the
      earlier (or subject) one first. DataDependency.cpp stores it as a
      two-element vector of strings. */
  datatype ParallelSet = Pair(earlier: Instruction, later: Instruction)

  /** Every instruction of the block has an output variable. */
  predicate WellFormedBlock(block: seq<Instruction>) {
    forall i :: 0 <= i < |block| ==> WellFormed(block[i])
  }

  /** What the block self-scan reads: the output variable of every
      instruction, but only once there is a pair to compare. */
  predicate ScannableBlock(block: seq<Instruction>) {
    |block| <= 1 || WellFormedBlock(block)
  }

  // ---------------------------------------------------------------- AlgoCalculate

  /** The subject compared with each block instruction in block order. */
  function AlgoCalculate(simple: Instruction, block: seq<Instruction>): (r: seq<ParallelSet>)
    requires WellFormed(simple) && WellFormedBlock(block)
    ensures |r| <= |block|
    ensures forall p :: p in r ==> p.earlier == simple && p.later in block
    decreases |block|
  {
    if block == [] then []
    else
      var n := |block| - 1;
      AlgoCalculate(simple, block[..n])
      + (if Independent(simple, block[n]) then [Pair(simple, block[n])] else [])
  }

  /** The loop of AlgoCalculate: one comparison per block instruction. */
  method AlgoCalculateLoop(simple: Instruction, block: seq<Instruction>) returns (result: seq<ParallelSet>)
    requires WellFormed(simple) && WellFormedBlock(block)
    ensures result == AlgoCalculate(simple, block)
  {
    result := [];
    var i := 0;
    while i < |block|
      invariant 0 <= i <= |block|
      invariant result == AlgoCalculate(simple, block[..i])
    {
      assert block[..i + 1][..i] == block[..i];
      if Independent(simple, block[i]) {
        result := result + [Pair(simple, block[i])];
      }
      i := i + 1;
    }
    assert block[..i] == block;
  }

  // ---------------------------------------------------------------- AlgoVerify

  /** The inner loop for outer index i after it has compared B[i] with
      B[i+1] .. B[m-1]. */
  function RowUpTo(block: seq<Instruction>, i: nat, m: nat): (r: seq<ParallelSet>)
    requires i < m <= |block| && WellFormedBlock(block)
    ensures |r| <= m - i - 1
    decreases m
  {
    if m == i + 1 then []
    else
      RowUpTo(block, i, m - 1)
      + (if Independent(block[i], block[m - 1]) then [Pair(block[i], block[m - 1])] else [])
  }

  /** The outer loop after it has run for i = 0 .. m-1. */
  function RowsUpTo(block: seq<Instruction>, m: nat): seq<ParallelSet>
    requires m == 0 || (m < |block| && WellFormedBlock(block))
    decreases m
  {
    if m == 0 then []
    else RowsUpTo(block, m - 1) + RowUpTo(block, m - 1, |block|)
  }

  /** The outer loop bound: the signed value |block| - 1, so an empty block
      runs no iteration and the bound does not wrap around. */
  function OuterBound(block: seq<Instruction>): nat {
    var bound: int := |block| - 1;
    if bound < 0 then 0 else bound
  }

  /** Every instruction compared with every later one. A block of one
      instruction never reads that instruction's output. */
  function AlgoVerify(block: seq<Instruction>): (r: seq<ParallelSet>)
    requires ScannableBlock(block)
    ensures |block| <= 1 ==> r == []
  {
    RowsUpTo(block, OuterBound(block))
  }

  /** The two nested loops of AlgoVeirfy, with the signed outer bound. */
  method AlgoVerifyLoops(block: seq<Instruction>) returns (result: seq<ParallelSet>)
    requires ScannableBlock(block)
    ensures result == AlgoVerify(block)
  {
    result := [];
    var size: int := |block|;
    var i := 0;
    while i < size - 1
      invariant 0 <= i && (i <= size - 1 || i == 0)
      invariant result == RowsUpTo(block, i)
    {
      var j := i + 1;
      while j < size
        invariant i < j <= size
        invariant result == RowsUpTo(block, i) + RowUpTo(block, i, j)
      {
        if Independent(block[i], block[j]) {
          result := result + [Pair(block[i], block[j])];
        }
        j := j + 1;
      }
      assert RowsUpTo(block, i + 1) == RowsUpTo(block, i) + RowUpTo(block, i, size);
      i := i + 1;
    }
    assert i == OuterBound(block);
  }
}
