/** Three ways in which the cycle text of a Permutation, as the code builds
 *  it, stops being a permutation of the alphabet. Each is written here as
 *  the code has it, with an input that shows the defect, next to the
 *  corrected definition that the rest of the model uses. */
module Findings {
  import opened Chars
  import opened Cycles
  import opened Validation
  import opened Permutations

  // ----- a letter outside every cycle ---------------------------------------

  /** The constructor's acceptance test as written: the cycles pattern and
   *  isValidCycle, with nothing about letters that stand between cycles. */
  predicate AcceptedAsWritten(alpha: seq<char>, text: string)
  {
    text == [] || (CyclesPattern(text) && ValidCycle(alpha, text))
  }

  /** The corrected test is the written one plus "no stray letter". */
  lemma AcceptedCorrection(alpha: seq<char>, text: string)
    requires ConstructorSafe(text)
    ensures Accepted(alpha, text) <==> AcceptedAsWritten(alpha, text) && (text == [] || !HasStray(text))
  {
  }

  /** "(A)B(C)" over "ABC" passes the written test, yet 'B' stands outside
   *  every cycle and permute('B') answers '(' rather than a letter. */
  lemma StrayLetterAccepted()
    ensures AcceptedAsWritten("ABC", "(A)B(C)")
    ensures !Accepted("ABC", "(A)B(C)")
    ensures Next("(A)B(C)", 'B') == Some('(')
  {
    var s := "(A)B(C)";
    StrayPattern();
    StrayValid();
    assert StrayAt(s, 3);
    assert Find(s, 'B') == 3 by {
      assert FindFrom(s, 'B', 3) == 3;
    }
  }

  /** "(A)B(C)" matches the cycles pattern. */
  lemma StrayPattern()
    ensures CyclesPattern("(A)B(C)")
  {
    var s := "(A)B(C)";
    assert s[1..][1..][1..][1..][1..][1..][1..] == [];
  }

  /** "(A)B(C)" passes isValidCycle over "ABC". */
  lemma StrayValid()
    ensures ValidCycle("ABC", "(A)B(C)")
  {
    var s := "(A)B(C)";
    assert !BadWhitespace(s) by {
      forall k | 0 <= k < |s| ensures !BadAt(s, k) { }
    }
    assert !Nested(s) by {
      assert LastParen(s, 2) == '(' && LastParen(s, 4) == ')' && LastParen(s, 6) == '(';
    }
  }

  /** Every text the corrected test accepts is a permutation: each letter
   *  has a successor that is a letter, and the successor's predecessor is
   *  the letter itself. */
  lemma AcceptedIsPermutation(alpha: seq<char>, text: string, c: char)
    requires ValidAlphabet(alpha) && ConstructorSafe(text) && text != []
    requires Accepted(alpha, text) && IsLetter(c)
    ensures Canonical(alpha, text)
    ensures Next(text, c).Some? && IsLetter(Next(text, c).value)
    ensures Prev(text, Next(text, c).value) == Some(c)
  {
    ValidCycleCanonical(alpha, text);
    NextDefined(text, c);
    PrevOfNext(text, c);
  }

  // ----- overlapping cycles -------------------------------------------------

  /** addCycle as written: the cycle is appended whenever it passes
   *  isValidCycle, whatever the stored text already holds. */
  function AddCycleAsWritten(alpha: seq<char>, existing: string, cycle: string): string
    requires ValidatorsSafe(cycle)
  {
    if ValidCycle(alpha, cycle) then existing + " " + cycle else existing
  }

  /** The corrected addCycle appends in fewer cases than the written one,
   *  and where both append they agree. */
  lemma AddCycleCorrection(alpha: seq<char>, existing: string, cycle: string)
    requires ValidatorsSafe(cycle)
    ensures Addable(alpha, existing, cycle) ==> AddCycleAsWritten(alpha, existing, cycle) == existing + " " + cycle
    ensures !ValidCycle(alpha, cycle) ==> !Addable(alpha, existing, cycle)
  {
  }

  /** Adding "(CA)" to "(AB)" over "ABC": the written addCycle appends it,
   *  and then both 'B' and 'C' go to 'A', so the text is no longer a
   *  one-to-one map. The corrected test refuses the cycle. */
  lemma OverlapAccepted()
    ensures ValidatorsSafe("(CA)")
    ensures AddCycleAsWritten("ABC", "(AB)", "(CA)") == "(AB) (CA)"
    ensures Next("(AB) (CA)", 'B') == Some('A') && Next("(AB) (CA)", 'C') == Some('A')
    ensures !Addable("ABC", "(AB)", "(CA)")
  {
    OverlapValid();
    assert "(AB)" + " " + "(CA)" == "(AB) (CA)";
    OverlapRefused();
    OverlapLookups();
  }

  /** 'A' of "(CA)" already occurs in "(AB)". */
  lemma OverlapRefused()
    ensures ValidatorsSafe("(CA)") && !Disjoint("(AB)", "(CA)")
  {
    OverlapValid();
    var c := "(CA)";
    assert c[2] == 'A' && IsLetter(c[2]) && "(AB)"[1] == 'A';
  }

  /** "(CA)" passes isValidCycle over "ABC". */
  lemma OverlapValid()
    ensures ValidatorsSafe("(CA)") && ValidCycle("ABC", "(CA)")
  {
    var c := "(CA)";
    assert ValidatorsSafe(c) by {
      forall k | 0 <= k < |c| ensures !CrashAt(c, k) { }
    }
    assert !BadWhitespace(c) by {
      forall k | 0 <= k < |c| ensures !BadAt(c, k) { }
    }
    assert !Nested(c) by {
      assert LastParen(c, 3) == '(';
    }
  }

  /** The lookups of 'B' and 'C' on "(AB) (CA)". */
  lemma OverlapLookups()
    ensures Next("(AB) (CA)", 'B') == Some('A') && Next("(AB) (CA)", 'C') == Some('A')
  {
    var t := "(AB) (CA)";
    assert Find(t, 'B') == 2 by {
      assert FindFrom(t, 'B', 2) == 2;
    }
    assert LastOpen(t, 2) == 0;
    assert Find(t, 'C') == 6 by {
      assert FindFrom(t, 'C', 6) == 6;
    }
  }

  /** The corrected addCycle keeps a permutation: appending an addable
   *  cycle to a permutation gives a permutation whose successor and
   *  predecessor undo each other. */
  lemma AddablePreservesPermutation(alpha: seq<char>, existing: string, cycle: string, c: char)
    requires Canonical(alpha, existing) && ValidatorsSafe(cycle)
    requires Addable(alpha, existing, cycle) && IsLetter(c)
    ensures Canonical(alpha, existing + " " + cycle)
    ensures Next(existing + " " + cycle, c).Some?
    ensures Prev(existing + " " + cycle, Next(existing + " " + cycle, c).value) == Some(c)
  {
    ValidCycleCanonical(alpha, cycle);
    AppendCanonical(alpha, existing, cycle);
    PrevOfNext(existing + " " + cycle, c);
  }

  // ----- the "null" prefix ----------------------------------------------------

  /** mapToSelf as written, on top of the written addCycle. */
  function MapToSelfAsWritten(alpha: seq<char>, a: seq<char>, text: string): string
    decreases |a|
  {
    if a == [] then text
    else
      LoopSafe(a[0]);
      MapToSelfAsWritten(alpha, a[1..], AddCycleAsWritten(alpha, text, Loop(a[0])))
  }

  /** The constructor given "" over "lnu": the stored text starts out null,
   *  which string concatenation writes as "null", so mapToSelf leaves
   *  "null (l) (n) (u)". Then 'n' goes to 'u' instead of itself, and 'l'
   *  and 'u' both go to 'l'. */
  lemma NullPrefix()
    ensures MapToSelfAsWritten("lnu", "lnu", "null") == "null (l) (n) (u)"
    ensures Next("null (l) (n) (u)", 'n') == Some('u')
    ensures Next("null (l) (n) (u)", 'l') == Some('l') && Next("null (l) (n) (u)", 'u') == Some('l')
  {
    var a := "lnu";
    var t0 := "null";
    var t1 := AddLoopAsWritten(a, t0, 'l');
    var t2 := AddLoopAsWritten(a, t1, 'n');
    var t3 := AddLoopAsWritten(a, t2, 'u');
    assert a[1..] == "nu" && a[1..][1..] == "u" && a[1..][1..][1..] == [];
    assert MapToSelfAsWritten(a, a[1..][1..][1..], t3) == t3;
    assert t3 == "null (l) (n) (u)";
    NullLookups();
  }

  /** One step of the written mapToSelf: the one-letter cycle of an
   *  alphabet character always passes isValidCycle, so it is appended
   *  whatever the text already holds. */
  function AddLoopAsWritten(alpha: seq<char>, text: string, x: char): (r: string)
    requires ValidAlphabet(alpha) && x in alpha
    ensures r == text + " " + Loop(x)
  {
    LoopAddable(alpha, [], x);
    AddCycleAsWritten(alpha, text, Loop(x))
  }

  /** The lookups on "null (l) (n) (u)". */
  lemma NullLookups()
    ensures Next("null (l) (n) (u)", 'n') == Some('u')
    ensures Next("null (l) (n) (u)", 'l') == Some('l') && Next("null (l) (n) (u)", 'u') == Some('l')
  {
    var t := "null (l) (n) (u)";
    assert Find(t, 'n') == 0;
    NullFind('u', 1);
    NullFind('l', 2);
  }

  /** The first occurrence of `x` in "null (l) (n) (u)" is at `k`. */
  lemma NullFind(x: char, k: nat)
    requires k < 4 && "null"[k] == x && x !in "null"[..k]
    ensures Find("null (l) (n) (u)", x) == k
  {
    var t := "null (l) (n) (u)";
    assert t[..4] == "null";
    assert FindFrom(t, x, k) == k;
  }

  /** The corrected constructor starts mapToSelf from the empty text, and
   *  the result maps every letter to itself in both directions. */
  lemma EmptyIsIdentity(alpha: seq<char>, c: char)
    requires ValidAlphabet(alpha) && IsLetter(c)
    ensures Canonical(alpha, SelfLoops(alpha, alpha, []))
    ensures Next(SelfLoops(alpha, alpha, []), c) == Some(c)
    ensures Prev(SelfLoops(alpha, alpha, []), c) == Some(c)
  {
    SelfLoopsKeep(alpha, alpha, []);
  }
}
