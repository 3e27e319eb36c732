/**
 The three classical data hazards between an earlier and a later instruction:
 flow (read after write), anti (write after read) and output (write after
 write), and the independence rule both scanners apply.
 */
module Dependence {
  import opened Operands

  /** Read after write: the later instruction reads what the earlier one
      wrote, i.e. the earlier write set meets the later read set. */
  function IsFlowDependent(earlierOutput: char, laterInputs: set<char>): (r: bool)
    ensures r <==> {earlierOutput} * laterInputs != {}
  {
    assert earlierOutput in laterInputs ==> earlierOutput in {earlierOutput} * laterInputs;
    earlierOutput in laterInputs
  }

  /** Write after read: the later instruction overwrites what the earlier one
      read, i.e. the earlier read set meets the later write set. */
  function IsAntiDependent(laterOutput: char, earlierInputs: set<char>): (r: bool)
    ensures r <==> earlierInputs * {laterOutput} != {}
  {
    assert laterOutput in earlierInputs ==> laterOutput in earlierInputs * {laterOutput};
    laterOutput in earlierInputs
  }

  /** Write after write: both instructions write the same variable, i.e. the
      two write sets meet. */
  function IsOutputDependent(earlierOutput: char, laterOutput: char): (r: bool)
    ensures r <==> {earlierOutput} * {laterOutput} != {}
  {
    assert earlierOutput == laterOutput ==> earlierOutput in {earlierOutput} * {laterOutput};
    earlierOutput == laterOutput
  }

  /** Two instructions may run in parallel when none of the three predicates
      holds with `earlier` in the earlier role: with W the written variable
      and R the read set, W1 and R2, R1 and W2, and W1 and W2 are disjoint. */
  function Independent(earlier: Instruction, later: Instruction): (r: bool)
    requires WellFormed(earlier) && WellFormed(later)
    ensures r <==> && {Output(earlier)} * InputVariables(later) == {}
                   && InputVariables(earlier) * {Output(later)} == {}
                   && {Output(earlier)} * {Output(later)} == {}
  {
    && !IsFlowDependent(Output(earlier), InputVariables(later))
    && !IsAntiDependent(Output(later), InputVariables(earlier))
    && !IsOutputDependent(Output(earlier), Output(later))
  }

  /** A dependence verdict. */
  datatype Hazard = Flow | Anti | OutputHazard

  /** Every verdict that holds for the ordered pair (earlier, later), stated
      in terms of the instruction texts; the pair is independent exactly when
      there is none. */
  function Hazards(earlier: Instruction, later: Instruction): (r: set<Hazard>)
    requires WellFormed(earlier) && WellFormed(later)
    ensures r == {} <==> Independent(earlier, later)
    ensures Flow in r <==> Reads(later, earlier[0])
    ensures Anti in r <==> Reads(earlier, later[0])
    ensures OutputHazard in r <==> earlier[0] == later[0]
  {
    InputVariablesSpec(earlier);
    InputVariablesSpec(later);
    (if IsFlowDependent(Output(earlier), InputVariables(later)) then {Flow} else {})
    + (if IsAntiDependent(Output(later), InputVariables(earlier)) then {Anti} else {})
    + (if IsOutputDependent(Output(earlier), Output(later)) then {OutputHazard} else {})
  }

  /** Independence in terms of the texts alone: the later text does not read
      the earlier first character, the earlier text does not read the later
      first character, and the two first characters differ. */
  lemma IndependentIffNoReads(earlier: Instruction, later: Instruction)
    requires WellFormed(earlier) && WellFormed(later)
    ensures Independent(earlier, later) <==>
              !Reads(later, earlier[0]) && !Reads(earlier, later[0]) && earlier[0] != later[0]
  {
    InputVariablesSpec(earlier);
    InputVariablesSpec(later);
  }

  /** Swapping the roles turns a flow dependence into an anti dependence on the
      same variable and back; output dependence does not care about order. */
  lemma SwapRoles(a: Instruction, b: Instruction)
    requires WellFormed(a) && WellFormed(b)
    ensures Flow in Hazards(a, b) <==> Anti in Hazards(b, a)
    ensures Anti in Hazards(a, b) <==> Flow in Hazards(b, a)
    ensures OutputHazard in Hazards(a, b) <==> OutputHazard in Hazards(b, a)
  {
  }

  /** Hence independence is symmetric: an independent pair can run in either order. */
  lemma IndependentSymmetric(a: Instruction, b: Instruction)
    requires WellFormed(a) && WellFormed(b)
    ensures Independent(a, b) <==> Independent(b, a)
  {
  }

  /** An instruction is never independent of itself: it writes its own output. */
  lemma NotSelfIndependent(a: Instruction)
    requires WellFormed(a)
    ensures !Independent(a, a)
  {
  }

  /** Each hazard alone is enough to exclude a pair: for each verdict there is
      a pair exhibiting only that verdict. */
  lemma EachHazardExcludes()
    ensures Hazards("a = b", "c = a") == {Flow}
    ensures Hazards("a = b", "b = c") == {Anti}
    ensures Hazards("a = b", "a = c") == {OutputHazard}
  {
  }
}
