/**
 Operand extraction for single-letter assignment instructions.

 An instruction is the raw text `<output> = <expression>`: its first character
 is the variable it writes and every alphabetic character after it is a
 variable it reads. Nothing else of the text is interpreted.
 */
module Operands {

  /** The textual form of one instruction, e.g. "b = b * c". */
  type Instruction = string

  /** The character classification used to tell variables from operators,
      restricted to the ASCII letters. */
  predicate IsAlpha(c: char) {
    ('A' <= c <= 'Z') || ('a' <= c <= 'z')
  }

  /** An instruction whose output variable can be read (index 0 exists). */
  predicate WellFormed(s: Instruction) {
    |s| > 0
  }

  /** The variable an instruction writes: its first character. */
  function Output(s: Instruction): char
    requires WellFormed(s)
  {
    s[0]
  }

  /** `c` is read by `s`: it is a letter standing at some index k >= 1. */
  ghost predicate Reads(s: Instruction, c: char) {
    exists k :: 1 <= k < |s| && s[k] == c && IsAlpha(c)
  }

  /** The letters found at indices 1 .. n-1, collected in scanning order. */
  function LettersBefore(s: Instruction, n: nat): (r: set<char>)
    requires n <= |s|
    ensures forall c :: c in r ==> IsAlpha(c)
    ensures forall k :: 1 <= k < n && IsAlpha(s[k]) ==> s[k] in r
    decreases n
  {
    if n <= 1 then {}
    else LettersBefore(s, n - 1) + (if IsAlpha(s[n - 1]) then {s[n - 1]} else {})
  }

  /** The set of variables an instruction reads: only letters, every letter
      after index 0, and nothing for a text of at most one character. */
  function InputVariables(s: Instruction): (r: set<char>)
    ensures forall c :: c in r ==> IsAlpha(c)
    ensures forall k :: 1 <= k < |s| && IsAlpha(s[k]) ==> s[k] in r
    ensures |s| <= 1 ==> r == {}
  {
    LettersBefore(s, |s|)
  }

  /** Scanning up to n collects exactly the letters at indices 1 .. n-1. */
  lemma {:induction false} LettersBeforeSpec(s: Instruction, n: nat)
    requires n <= |s|
    ensures forall c :: c in LettersBefore(s, n) <==> exists k :: 1 <= k < n && s[k] == c && IsAlpha(c)
    decreases n
  {
    if n > 1 {
      LettersBeforeSpec(s, n - 1);
    }
  }

  /** A character is an operand exactly when it is a letter at some index
      k >= 1, so repeated letters count once and digits, operators and
      spaces never count; text of length at most one reads nothing. */
  lemma InputVariablesSpec(s: Instruction)
    ensures forall c :: c in InputVariables(s) <==> Reads(s, c)
    ensures forall c :: c in InputVariables(s) ==> IsAlpha(c)
    ensures |s| <= 1 ==> InputVariables(s) == {}
  {
    LettersBeforeSpec(s, |s|);
  }

  /** A set is the operand set of `s` when it holds every letter after index
      0 and nothing that does not occur there as a letter. */
  lemma OperandsExactly(s: Instruction, operands: set<char>)
    requires forall k :: 1 <= k < |s| && IsAlpha(s[k]) ==> s[k] in operands
    requires forall c :: c in operands ==> Reads(s, c)
    ensures InputVariables(s) == operands
  {
    InputVariablesSpec(s);
  }

  /** The scanning loop itself: insert every letter from index 1 onwards. */
  method GetInputVariables(s: Instruction) returns (ret: set<char>)
    ensures forall c :: c in ret <==> Reads(s, c)
    ensures ret == InputVariables(s)
  {
    InputVariablesSpec(s);
    ret := {};
    var i := 1;
    while i < |s|
      invariant 1 <= i
      invariant forall c :: c in ret <==> exists k :: 1 <= k < i && k < |s| && s[k] == c && IsAlpha(c)
    {
      if IsAlpha(s[i]) {
        ret := ret + {s[i]};
      }
      i := i + 1;
    }
  }

  /** The output character never counts as read by itself: the operand set
      depends only on the text after index 0. */
  lemma OperandsIgnoreOutput(s: Instruction, t: Instruction)
    requires |s| > 0 && |t| > 0 && s[1..] == t[1..]
    ensures InputVariables(s) == InputVariables(t)
  {
    InputVariablesSpec(s);
    InputVariablesSpec(t);
    forall c | c in InputVariables(s)
      ensures c in InputVariables(t)
    {
      var k :| 1 <= k < |s| && s[k] == c && IsAlpha(c);
      assert t[k] == t[1..][k - 1] == s[1..][k - 1] == c;
    }
    forall c | c in InputVariables(t)
      ensures c in InputVariables(s)
    {
      var k :| 1 <= k < |t| && t[k] == c && IsAlpha(c);
      assert s[k] == s[1..][k - 1] == t[1..][k - 1] == c;
    }
  }

  /** Repeating a variable on the right-hand side adds nothing: appending a
      character already read, or a non-letter, leaves the operand set as it is. */
  lemma {:induction false} AppendKnownOperand(s: Instruction, c: char)
    requires c in InputVariables(s) || !IsAlpha(c)
    ensures InputVariables(s + [c]) == InputVariables(s)
  {
    var t := s + [c];
    assert LettersBefore(t, |t|) == LettersBefore(t, |s|) + (if IsAlpha(c) then {c} else {});
    PrefixLetters(s, t, |s|);
  }

  /** Scanning a prefix of `t` up to n sees exactly what scanning `s` does when
      `s` and `t` agree below n. */
  lemma {:induction false} PrefixLetters(s: Instruction, t: Instruction, n: nat)
    requires n <= |s| && n <= |t|
    requires s[..n] == t[..n]
    ensures LettersBefore(s, n) == LettersBefore(t, n)
    decreases n
  {
    if n > 1 {
      assert s[..n - 1] == s[..n][..n - 1] == t[..n][..n - 1] == t[..n - 1];
      PrefixLetters(s, t, n - 1);
      assert s[n - 1] == s[..n][n - 1] == t[..n][n - 1] == t[n - 1];
    }
  }
}
