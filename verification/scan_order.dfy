/**
 What the two scanners return, exactly: which pairs, in which order, and how
 many at most; and how the block self-scan is the subject scan applied to
 every instruction and the instructions after it.
 */
module ScanOrder {
  import opened Operands
  import opened Dependence
  import opened Scanners

  // ---------------------------------------------------------------- AlgoCalculate

  /** `idx` gives, for each entry of `r`, the block position it was taken
      from, and these positions strictly increase. */
  ghost predicate ListsPositions(r: seq<ParallelSet>, simple: Instruction, block: seq<Instruction>,
                                 idx: seq<int>)
  {
    && |idx| == |r|
    && (forall k :: 0 <= k < |idx| ==> 0 <= idx[k] < |block| && r[k] == Pair(simple, block[idx[k]]))
    && (forall k, l :: 0 <= k < l < |idx| ==> idx[k] < idx[l])
  }

  /** The positions listed are exactly those of the block instructions that
      are independent of the subject. */
  ghost predicate ExactlyIndependent(simple: Instruction, block: seq<Instruction>, idx: seq<int>)
    requires WellFormed(simple) && WellFormedBlock(block)
  {
    forall i :: 0 <= i < |block| ==> (i in idx <==> Independent(simple, block[i]))
  }

  /** AlgoCalculate holds one entry per independent block instruction, in
      ascending block order, and nothing else. */
  lemma {:induction false} AlgoCalculatePositions(simple: Instruction, block: seq<Instruction>)
    returns (idx: seq<int>)
    requires WellFormed(simple) && WellFormedBlock(block)
    ensures ListsPositions(AlgoCalculate(simple, block), simple, block, idx)
    ensures ExactlyIndependent(simple, block, idx)
    decreases |block|
  {
    if block == [] {
      idx := [];
    } else {
      var n := |block| - 1;
      var front := AlgoCalculatePositions(simple, block[..n]);
      var r, rf := AlgoCalculate(simple, block), AlgoCalculate(simple, block[..n]);
      var added := Independent(simple, block[n]);
      assert r == rf + (if added then [Pair(simple, block[n])] else []);
      idx := front + (if added then [n] else []);
      forall k | 0 <= k < |idx|
        ensures 0 <= idx[k] < |block| && r[k] == Pair(simple, block[idx[k]])
      {
        if k < |front| {
          assert idx[k] == front[k] && r[k] == rf[k];
          assert block[..n][front[k]] == block[front[k]];
        }
      }
      forall k, l | 0 <= k < l < |idx|
        ensures idx[k] < idx[l]
      {
        if l < |front| {
          assert idx[k] == front[k] && idx[l] == front[l];
        } else {
          assert idx[k] == front[k];
        }
      }
      forall i | 0 <= i < |block|
        ensures i in idx <==> Independent(simple, block[i])
      {
        if i < n {
          assert block[..n][i] == block[i];
          assert i in idx <==> i in front;
        }
      }
    }
  }

  /** Membership in the subject scan, both ways: an entry pairs the subject
      with an independent block instruction, and every independent block
      instruction is paired with the subject. */
  lemma {:induction false} AlgoCalculateMembers(simple: Instruction, block: seq<Instruction>)
    requires WellFormed(simple) && WellFormedBlock(block)
    ensures forall p :: p in AlgoCalculate(simple, block) <==>
              p.earlier == simple && p.later in block && Independent(simple, p.later)
  {
    var r := AlgoCalculate(simple, block);
    var idx := AlgoCalculatePositions(simple, block);
    forall p | p in r
      ensures p.earlier == simple && p.later in block && Independent(simple, p.later)
    {
      var k :| 0 <= k < |r| && r[k] == p;
      assert idx[k] in idx;
    }
    forall p: ParallelSet | p.earlier == simple && p.later in block && Independent(simple, p.later)
      ensures p in r
    {
      var i :| 0 <= i < |block| && block[i] == p.later;
      var k :| 0 <= k < |idx| && idx[k] == i;
      assert r[k] == p;
    }
  }

  /** Splitting the block splits the result: the subject scan keeps block
      order across any cut. */
  lemma {:induction false} AlgoCalculateAppend(simple: Instruction, front: seq<Instruction>,
                                               back: seq<Instruction>)
    requires WellFormed(simple) && WellFormedBlock(front) && WellFormedBlock(back)
    ensures WellFormedBlock(front + back)
    ensures AlgoCalculate(simple, front + back) == AlgoCalculate(simple, front) + AlgoCalculate(simple, back)
    decreases |back|
  {
    var all := front + back;
    assert forall i :: 0 <= i < |all| ==> all[i] == (if i < |front| then front[i] else back[i - |front|]);
    if back != [] {
      var n := |back| - 1;
      assert all[..|all| - 1] == front + back[..n];
      AlgoCalculateAppend(simple, front, back[..n]);
    } else {
      assert all == front;
    }
  }

  // ---------------------------------------------------------------- AlgoVerify

  /** The block positions (i, j) of the two instructions of one entry. */
  type Position = (int, int)

  /** Lexicographic order on positions: the order of the nested loops. */
  ghost predicate LexLess(p: Position, q: Position) {
    p.0 < q.0 || (p.0 == q.0 && p.1 < q.1)
  }

  /** `idx` gives, for each entry of `r`, the two block positions i < j it was
      taken from, and these pairs strictly increase lexicographically. */
  ghost predicate ListsPairPositions(r: seq<ParallelSet>, block: seq<Instruction>, idx: seq<Position>) {
    && |idx| == |r|
    && (forall k :: 0 <= k < |idx| ==>
          0 <= idx[k].0 < idx[k].1 < |block| && r[k] == Pair(block[idx[k].0], block[idx[k].1]))
    && (forall k, l :: 0 <= k < l < |idx| ==> LexLess(idx[k], idx[l]))
  }

  /** The pairs listed are exactly the independent ones. */
  ghost predicate ExactlyIndependentPairs(block: seq<Instruction>, idx: seq<Position>)
    requires ScannableBlock(block)
  {
    forall i, j :: 0 <= i < j < |block| ==> ((i, j) in idx <==> Independent(block[i], block[j]))
  }

  /** The inner loop for outer index i lists (i, j) for the independent j
      below m, in ascending j. */
  lemma {:induction false} RowPositions(block: seq<Instruction>, i: nat, m: nat)
    returns (idx: seq<Position>)
    requires i < m <= |block| && WellFormedBlock(block)
    ensures ListsPairPositions(RowUpTo(block, i, m), block, idx)
    ensures forall k :: 0 <= k < |idx| ==> idx[k].0 == i && idx[k].1 < m
    ensures forall j :: i < j < m ==> ((i, j) in idx <==> Independent(block[i], block[j]))
    decreases m
  {
    if m == i + 1 {
      idx := [];
    } else {
      var front := RowPositions(block, i, m - 1);
      var r, rf := RowUpTo(block, i, m), RowUpTo(block, i, m - 1);
      var added := Independent(block[i], block[m - 1]);
      assert r == rf + (if added then [Pair(block[i], block[m - 1])] else []);
      idx := front + (if added then [(i, m - 1)] else []);
      forall k | 0 <= k < |idx|
        ensures 0 <= idx[k].0 < idx[k].1 < |block| && r[k] == Pair(block[idx[k].0], block[idx[k].1])
      {
        if k < |front| {
          assert idx[k] == front[k] && r[k] == rf[k];
        }
      }
      forall k, l | 0 <= k < l < |idx|
        ensures LexLess(idx[k], idx[l])
      {
        if l < |front| {
          assert idx[k] == front[k] && idx[l] == front[l];
        }
      }
      forall j | i < j < m
        ensures (i, j) in idx <==> Independent(block[i], block[j])
      {
        if j < m - 1 {
          assert (i, j) in idx <==> (i, j) in front;
        }
      }
    }
  }

  /** The outer loop after m iterations lists, lexicographically, every
      independent (i, j) with i < m. */
  lemma {:induction false} RowsPositions(block: seq<Instruction>, m: nat)
    returns (idx: seq<Position>)
    requires m == 0 || (m < |block| && WellFormedBlock(block))
    ensures ListsPairPositions(RowsUpTo(block, m), block, idx)
    ensures forall k :: 0 <= k < |idx| ==> idx[k].0 < m
    ensures forall i, j :: 0 <= i < m && i < j < |block| ==>
              ((i, j) in idx <==> Independent(block[i], block[j]))
    decreases m
  {
    if m == 0 {
      idx := [];
    } else {
      var front := RowsPositions(block, m - 1);
      var row := RowPositions(block, m - 1, |block|);
      idx := front + row;
      AppendPairPositions(RowsUpTo(block, m - 1), RowUpTo(block, m - 1, |block|), block, front, row, m - 1);
      forall i, j | 0 <= i < m && i < j < |block|
        ensures (i, j) in idx <==> Independent(block[i], block[j])
      {
        if i < m - 1 {
          assert (i, j) !in row;
        } else {
          assert (i, j) !in front;
        }
      }
    }
  }

  /** Appending the entries of a later outer iteration keeps the listing
      lexicographic. */
  lemma AppendPairPositions(front: seq<ParallelSet>, row: seq<ParallelSet>, block: seq<Instruction>,
                            f: seq<Position>, g: seq<Position>, i: int)
    requires ListsPairPositions(front, block, f) && ListsPairPositions(row, block, g)
    requires forall k :: 0 <= k < |f| ==> f[k].0 < i
    requires forall k :: 0 <= k < |g| ==> g[k].0 == i
    ensures ListsPairPositions(front + row, block, f + g)
  {
    var r, idx := front + row, f + g;
    forall k | 0 <= k < |idx|
      ensures 0 <= idx[k].0 < idx[k].1 < |block| && r[k] == Pair(block[idx[k].0], block[idx[k].1])
    {
      if k < |f| {
        assert idx[k] == f[k] && r[k] == front[k];
      } else {
        assert idx[k] == g[k - |f|] && r[k] == row[k - |f|];
      }
    }
    forall k, l | 0 <= k < l < |idx|
      ensures LexLess(idx[k], idx[l])
    {
      if l < |f| {
        assert idx[k] == f[k] && idx[l] == f[l];
      } else if k >= |f| {
        assert idx[k] == g[k - |f|] && idx[l] == g[l - |f|];
      } else {
        assert idx[k] == f[k] && idx[l] == g[l - |f|];
      }
    }
  }

  /** AlgoVerify holds one entry per independent pair i < j, in the order of
      the nested loops (i, then j, ascending), and nothing else. */
  lemma AlgoVerifyPositions(block: seq<Instruction>) returns (idx: seq<Position>)
    requires ScannableBlock(block)
    ensures ListsPairPositions(AlgoVerify(block), block, idx)
    ensures ExactlyIndependentPairs(block, idx)
  {
    idx := RowsPositions(block, OuterBound(block));
  }

  /** Membership in the self-scan, both ways: an entry is a pair of block
      instructions at positions i < j that are independent, and every such
      pair is an entry. */
  lemma AlgoVerifyMembers(block: seq<Instruction>)
    requires ScannableBlock(block)
    ensures forall p :: p in AlgoVerify(block) <==>
              exists i, j :: 0 <= i < j < |block| && p == Pair(block[i], block[j])
                             && Independent(block[i], block[j])
  {
    var r := AlgoVerify(block);
    var idx := AlgoVerifyPositions(block);
    forall p | p in r
      ensures exists i, j :: 0 <= i < j < |block| && p == Pair(block[i], block[j])
                             && Independent(block[i], block[j])
    {
      var k :| 0 <= k < |r| && r[k] == p;
      assert idx[k] in idx;
    }
    forall i, j | 0 <= i < j < |block| && Independent(block[i], block[j])
      ensures Pair(block[i], block[j]) in r
    {
      var k :| 0 <= k < |idx| && idx[k] == (i, j);
      assert r[k] == Pair(block[i], block[j]);
    }
  }

  /** The self-scan holds at most n(n-1)/2 entries, one per compared pair. */
  lemma AlgoVerifySize(block: seq<Instruction>)
    requires ScannableBlock(block)
    ensures 2 * |AlgoVerify(block)| <= |block| * (|block| - 1)
  {
    var n := |block|;
    RowsSize(block, OuterBound(block));
    if n > 0 {
      assert OuterBound(block) == n - 1;
      assert (n - 1) * (2 * n - (n - 1) - 1) == n * (n - 1);
    }
  }

  lemma {:induction false} RowsSize(block: seq<Instruction>, m: nat)
    requires m == 0 || (m < |block| && WellFormedBlock(block))
    ensures 2 * |RowsUpTo(block, m)| <= m * (2 * |block| - m - 1)
    decreases m
  {
    if m > 0 {
      var n := |block|;
      RowsSize(block, m - 1);
      var front, row := RowsUpTo(block, m - 1), RowUpTo(block, m - 1, n);
      assert |RowsUpTo(block, m)| == |front| + |row|;
      SizeStep(m, n, |front|, |row|);
    }
  }

  /** Adding the at most n - m comparisons of outer iteration m - 1. */
  lemma SizeStep(m: int, n: int, a: int, b: int)
    requires 2 * a <= (m - 1) * (2 * n - m) && b <= n - m
    ensures 2 * (a + b) <= m * (2 * n - m - 1)
  {
    assert (m - 1) * (2 * n - m) + 2 * (n - m) == m * (2 * n - m - 1);
  }

  // ---------------------------------------------------------------- the two scans

  /** The inner loop of the self-scan for outer index i is the subject scan
      of B[i] against the instructions after it. */
  lemma {:induction false} RowIsAlgoCalculate(block: seq<Instruction>, i: nat, m: nat)
    requires i < m <= |block| && WellFormedBlock(block)
    ensures RowUpTo(block, i, m) == AlgoCalculate(block[i], block[i + 1..m])
    decreases m
  {
    if m > i + 1 {
      RowIsAlgoCalculate(block, i, m - 1);
      var tail := block[i + 1..m];
      var n := |tail| - 1;
      assert tail[..n] == block[i + 1..m - 1];
      assert tail[n] == block[m - 1];
      assert AlgoCalculate(block[i], tail) == AlgoCalculate(block[i], tail[..n])
        + (if Independent(block[i], tail[n]) then [Pair(block[i], tail[n])] else []);
    }
  }

  /** Concatenation of a sequence of lists, first to last. */
  function Flatten<T>(xss: seq<seq<T>>): seq<T> {
    if xss == [] then [] else Flatten(xss[..|xss| - 1]) + xss[|xss| - 1]
  }

  /** The subject scan of every B[i], for i below m, against the instructions
      after it. */
  function LaterScans(block: seq<Instruction>, m: nat): seq<seq<ParallelSet>>
    requires m == 0 || (m <= |block| && WellFormedBlock(block))
  {
    seq(m, i requires 0 <= i < m => AlgoCalculate(block[i], block[i + 1..]))
  }

  /** The self-scan is the subject scan of each B[i], i from 0 to |B|-2,
      against B[i+1..], concatenated in order of i. */
  lemma AlgoVerifyIsSubjectScans(block: seq<Instruction>)
    requires ScannableBlock(block)
    ensures AlgoVerify(block) == Flatten(LaterScans(block, OuterBound(block)))
  {
    RowsAreSubjectScans(block, OuterBound(block));
  }

  lemma {:induction false} RowsAreSubjectScans(block: seq<Instruction>, m: nat)
    requires m == 0 || (m < |block| && WellFormedBlock(block))
    ensures RowsUpTo(block, m) == Flatten(LaterScans(block, m))
    decreases m
  {
    if m > 0 {
      RowsAreSubjectScans(block, m - 1);
      RowIsAlgoCalculate(block, m - 1, |block|);
      assert block[m..|block|] == block[m..];
      LaterScansStep(block, m);
    }
  }

  /** The concatenation up to m is the one up to m - 1 followed by the scan of B[m-1]. */
  lemma LaterScansStep(block: seq<Instruction>, m: nat)
    requires 0 < m <= |block| && WellFormedBlock(block)
    ensures Flatten(LaterScans(block, m))
            == Flatten(LaterScans(block, m - 1)) + AlgoCalculate(block[m - 1], block[m..])
  {
    var scans := LaterScans(block, m);
    assert scans[..m - 1] == LaterScans(block, m - 1);
  }
}
