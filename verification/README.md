# Data dependency analysis of single-letter assignment instructions

This project models the analysis layer of `DataDependency.cpp` in Dafny and
proves properties of it. The layer decides which pairs of assignment
instructions can run in parallel. An instruction is raw text such as
`"b = b * c"`:

- its first character is the variable it writes (its output);
- every alphabetic character after index 0 is a variable it reads (its
  input variables, collected as a set).

Two instructions, an earlier and a later one, are *independent* when none of
the three classical hazards holds:

- flow (read after write): the earlier output is an input of the later one;
- anti (write after read): the later output is an input of the earlier one;
- output (write after write): the two outputs are equal.

There are two scanners:

- `AlgoVeirfy` compares every instruction of a block with every instruction
  after it.
- `AlgoCalculate` compares one subject instruction with every instruction of
  a block.

Both append each independent pair `(earlier, later)` in the order the
comparisons are made.

Modules, one per part of the source:

- `Operands` (`operands.dfy`): `getInputVariables`, modelled as
  `InputVariables` plus the loop method `GetInputVariables`.
- `Dependence` (`dependence.dfy`): the three hazard predicates, the
  independence rule `Independent` used by both scanners, and a `Hazards`
  verdict set.
- `Scanners` (`scanners.dfy`): `AlgoCalculate` and `AlgoVerify`. The source
  calls the second one `AlgoVeirfy`. Both are written as pure functions that
  follow the loops step by step, since appending after the last comparison is
  recursion on a shorter prefix. They also come as methods with the loops of
  the source, proved equal to the functions.
- `ScanOrder` (`scan_order.dfy`): exactly which entries each scanner
  returns, in which order and how many. It also proves that the block
  self-scan is the subject scan of each `B[i]` against `B[i+1..]`,
  concatenated.
- `Demo` (`demo.dfy`): the data of the program's entry point and the
  results the rules give for it.

Modelling decisions:

- `isalpha` is modelled as the ASCII letters `A`-`Z` and `a`-`z`.
- The source reads `[0]` of instructions without checking them. The model
  states this as preconditions:
  - `AlgoCalculate` reads the subject's first character before its loop
    (DataDependency.cpp:129), so it needs a non-empty subject even for an
    empty block. It also needs every block instruction to be non-empty.
  - `AlgoVerify` needs non-empty instructions only when the block has at
    least two of them. Its outer bound is the signed value `|B| - 1`, so
    blocks of size 0 or 1 never index anything (`ScannableBlock`).
- One result entry is a `vector<string>` of two elements in the source. The
  model uses the datatype `Pair(earlier, later)`, so "every entry has two
  components" holds by construction.
- The output character counts as an operand whenever it recurs after
  index 0 (`"b = b * c"` reads `{b, c}`).
- The source does no input validation, so the model has no error path.

## Model

| member | source | states |
|---|---|---|
| Operands.InputVariables | DataDependency.cpp:12-27 | the operand set holds only letters, holds every letter found at an index >= 1, and is empty for a text of at most one character |
| Operands.LettersBeforeSpec | DataDependency.cpp:16-24 | after the loop has scanned up to n, the set holds exactly the alphabetic characters found at indices 1 .. n-1 |
| Operands.InputVariablesSpec | DataDependency.cpp:12-27 | c is an input variable iff some index k >= 1 holds c and c is a letter; all members are letters; text of length at most 1 has no input variables |
| Operands.GetInputVariables | DataDependency.cpp:12-27 | the loop from index 1 returns exactly the letters found after index 0, which is the operand set |
| Operands.OperandsIgnoreOutput | DataDependency.cpp:16 | index 0 is never scanned: two instructions that agree after index 0 have the same operand set, whatever their output |
| Operands.AppendKnownOperand | DataDependency.cpp:14-23 | the result is a set: appending a letter already read, or a non-letter, leaves the operand set unchanged |
| Operands.OperandsExactly | DataDependency.cpp:16-23 | a set equals the operand set when it holds every letter at index >= 1 and only letters that occur there |
| Dependence.IsFlowDependent | DataDependency.cpp:41-52 | flow dependence holds iff the earlier output is in the later input set, i.e. the earlier write set meets the later read set |
| Dependence.IsAntiDependent | DataDependency.cpp:54-65 | anti dependence holds iff the later output is in the earlier input set, i.e. the earlier read set meets the later write set |
| Dependence.IsOutputDependent | DataDependency.cpp:67-73 | output dependence holds iff the two output characters are equal, i.e. the two write sets meet |
| Dependence.Independent | DataDependency.cpp:98-100 | the scanners' three-way test: a pair is independent iff earlier write and later read, earlier read and later write, and the two writes are pairwise disjoint |
| Dependence.Hazards | DataDependency.cpp:41-73 | flow holds iff the later text reads the earlier output; anti holds iff the earlier text reads the later output; output holds iff the two first characters are equal; the pair is independent iff no verdict holds |
| Dependence.IndependentIffNoReads | DataDependency.cpp:98-100 | a pair passes the scanners' test iff the later text does not read the earlier first character, the earlier text does not read the later first character, and the two first characters differ |
| Dependence.SwapRoles | DataDependency.cpp:41-65 | swapping earlier and later turns a flow dependence into an anti dependence and back; output dependence is symmetric |
| Dependence.IndependentSymmetric | DataDependency.cpp:136-138 | the three-way test gives the same answer for (a, b) and (b, a) |
| Dependence.NotSelfIndependent | DataDependency.cpp:67-73 | an instruction is output dependent on itself, so it is never independent of itself |
| Dependence.EachHazardExcludes | DataDependency.cpp:98-100 | there are pairs with only a flow, only an anti and only an output dependence, and each is excluded |
| Scanners.AlgoCalculate | DataDependency.cpp:124-149 | at most one entry per block instruction; every entry has the subject first and a block instruction second |
| Scanners.AlgoCalculateLoop | DataDependency.cpp:124-149 | the loop over the block, which appends (subject, B[i]) when independent, computes the subject scan |
| Scanners.RowUpTo | DataDependency.cpp:94-108 | the inner loop for outer index i, after comparing B[i] with B[i+1] .. B[m-1], holds at most m - i - 1 entries |
| Scanners.AlgoVerify | DataDependency.cpp:85-112 | a block of zero or one instruction yields no pair |
| Scanners.AlgoVerifyLoops | DataDependency.cpp:85-112 | the two nested loops, with the signed outer bound size - 1, compute the self-scan |
| ScanOrder.AlgoCalculatePositions | DataDependency.cpp:132-146 | the entries are (subject, B[i]) for strictly increasing positions i, and a position is listed iff B[i] is independent of the subject |
| ScanOrder.AlgoCalculateMembers | DataDependency.cpp:136-145 | p is an entry iff p pairs the subject with a block instruction independent of it |
| ScanOrder.AlgoCalculateAppend | DataDependency.cpp:132-146 | scanning front + back gives the scan of front followed by the scan of back, so block order is kept |
| ScanOrder.RowPositions | DataDependency.cpp:94-108 | the inner loop lists (i, j) for ascending j below m, and (i, j) is listed iff B[i] and B[j] are independent |
| ScanOrder.RowsPositions | DataDependency.cpp:90-109 | after m outer iterations the entries are lexicographically increasing pairs (i, j), with i < m, and each independent pair with i < m is listed |
| ScanOrder.AlgoVerifyPositions | DataDependency.cpp:90-111 | the self-scan lists [B[i], B[j]] for index pairs i < j in strictly increasing lexicographic order, and (i, j) is listed iff B[i] and B[j] are independent |
| ScanOrder.AlgoVerifyMembers | DataDependency.cpp:98-106 | p is an entry iff p = (B[i], B[j]) for some independent pair of positions i < j |
| ScanOrder.AlgoVerifySize | DataDependency.cpp:88-111 | the self-scan holds at most n(n-1)/2 entries for a block of n instructions |
| ScanOrder.RowIsAlgoCalculate | DataDependency.cpp:94-106 | the inner loop for outer index i computes the subject scan of B[i] against B[i+1..] |
| ScanOrder.AlgoVerifyIsSubjectScans | DataDependency.cpp:90-109 | the self-scan is the concatenation, for i from 0 to n-2, of the subject scan of B[i] against B[i+1..] |
| Demo.DemoOperands | DataDependency.cpp:176-177 | the demonstration instructions read {b, c}, {c, a}, {a, b, c} and {b, c, d, e} |
| Demo.DemoIndependence | DataDependency.cpp:176-177 | of the demonstration pairs, only (B[0], B[1]) and (subject, B[2]) are independent |
| Demo.DemoAlgoVerify | DataDependency.cpp:176-181 | the self-scan of the demonstration block is the single pair ("b = b * c", "d = c - a") |
| Demo.DemoAlgoCalculate | DataDependency.cpp:176-186 | the subject scan of the demonstration data is the single pair ("d = b + ( c - d / e)", "a = a + b * c") |

## Left out

- `printInputVariables` and `printParallelSetInstructions` (DataDependency.cpp:33-39, 155-172) are console output with no analysis content.
- `main` (DataDependency.cpp:174-190) prints results. Only its input data is kept, in `Demo`.
- The source's `std::string` is a sequence of bytes; the model's `string` is a sequence of Unicode characters. For ASCII text the two agree. For other text they differ in three ways:
  - `isalpha` depends on the C locale and on byte values above 127; the model classifies only the ASCII letters as variables.
  - The output variable is the first byte in the source but the first character in the model. `"é = a"` and `"è = b"` share the UTF-8 lead byte 0xC3, so the source finds an output dependence; the model finds the pair independent.
  - Indices after a non-ASCII character count bytes in the source and characters in the model.
- Index arithmetic in the source uses `int` against `size()`. The model uses unbounded integers, which differs only for texts or blocks longer than `INT_MAX`.
- Scanners.AlgoCalculate: requires a non-empty subject and non-empty block instructions. In the source an empty text is defined behaviour, because `std::string::operator[](size())` returns `'\0'` since C++11: an empty instruction has output `'\0'` and no inputs, so it is independent of every instruction that does not start with `'\0'`. The model excludes empty texts instead of giving them this output.
- Scanners.AlgoVerify: requires non-empty instructions in blocks of two or more, for the same reason; the source would treat an empty instruction as writing `'\0'`.
- Dependence.Independent: requires both texts to be non-empty, for the same reason.
- The source treats only single characters as identifiers and does not parse expressions or give `=` any role. The model does the same and adds no tokenizer.
- The scanners are deterministic because they are functions. No lemma restates this.
