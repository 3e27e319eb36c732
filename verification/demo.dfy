/**
 The demonstration data the program's entry point analyses: a block of three
 instructions and one subject instruction, with the results the rules give.
 */
module Demo {
  import opened Operands
  import opened Dependence
  import opened Scanners

  const DemoBlock: seq<Instruction> := ["b = b * c", "d = c - a", "a = a + b * c"]
  const DemoSubject: Instruction := "d = b + ( c - d / e)"

  /** The operand sets of the four demonstration instructions. The output
      variable b of the first one is read because it recurs after '='. */
  lemma DemoOperands()
    ensures InputVariables(DemoBlock[0]) == {'b', 'c'}
    ensures InputVariables(DemoBlock[1]) == {'c', 'a'}
    ensures InputVariables(DemoBlock[2]) == {'a', 'b', 'c'}
    ensures InputVariables(DemoSubject) == {'b', 'c', 'd', 'e'}
  {
    var s0, s1, s2 := DemoBlock[0], DemoBlock[1], DemoBlock[2];
    assert s0[4] == 'b' && s0[8] == 'c';
    OperandsExactly(s0, {'b', 'c'});
    assert s1[4] == 'c' && s1[8] == 'a';
    OperandsExactly(s1, {'c', 'a'});
    assert s2[4] == 'a' && s2[8] == 'b' && s2[12] == 'c';
    OperandsExactly(s2, {'a', 'b', 'c'});
    assert DemoSubject[4] == 'b' && DemoSubject[10] == 'c' && DemoSubject[14] == 'd' && DemoSubject[18] == 'e';
    OperandsExactly(DemoSubject, {'b', 'c', 'd', 'e'});
  }

  /** Which demonstration pairs are independent: only the first two block
      instructions, and the subject with the last block instruction. */
  lemma DemoIndependence()
    ensures Independent(DemoBlock[0], DemoBlock[1])
    ensures !Independent(DemoBlock[0], DemoBlock[2])
    ensures !Independent(DemoBlock[1], DemoBlock[2])
    ensures !Independent(DemoSubject, DemoBlock[0])
    ensures !Independent(DemoSubject, DemoBlock[1])
    ensures Independent(DemoSubject, DemoBlock[2])
  {
    DemoOperands();
  }

  /** The block self-scan of the demonstration block finds one pair. */
  lemma DemoAlgoVerify()
    ensures AlgoVerify(DemoBlock) == [Pair("b = b * c", "d = c - a")]
  {
    DemoIndependence();
    assert OuterBound(DemoBlock) == 2;
    assert RowUpTo(DemoBlock, 0, 2) == [Pair(DemoBlock[0], DemoBlock[1])];
    assert RowUpTo(DemoBlock, 0, 3) == RowUpTo(DemoBlock, 0, 2);
    assert RowUpTo(DemoBlock, 1, 3) == [];
    assert RowsUpTo(DemoBlock, 1) == RowUpTo(DemoBlock, 0, 3);
  }

  /** The subject scan of the demonstration subject finds one pair. */
  lemma DemoAlgoCalculate()
    ensures AlgoCalculate(DemoSubject, DemoBlock) == [Pair("d = b + ( c - d / e)", "a = a + b * c")]
  {
    DemoIndependence();
    assert DemoBlock[..2][..1] == DemoBlock[..1];
    assert AlgoCalculate(DemoSubject, DemoBlock[..1]) == [];
    assert AlgoCalculate(DemoSubject, DemoBlock[..2]) == [];
  }
}
