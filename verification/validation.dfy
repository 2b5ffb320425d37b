/** The checks a Permutation applies to cycle text before it stores it, and
 *  the two regular expressions of the engine, as recognisers over strings.
 *  The validator loops themselves are methods of Permutation; this module
 *  states what each of them decides and when it stays inside the text. */
module Validation {
  import opened Chars
  import opened Cycles

  // ----- hasBadWhitespace ---------------------------------------------------

  /** Position k makes hasBadWhitespace answer true: whitespace with neither
   *  a ')' before it nor a '(' after it, or the empty cycle "()". */
  predicate BadAt(s: string, k: int)
    requires 0 <= k < |s|
  {
    (IsWhitespace(s[k]) && 0 < k && s[k - 1] != ')' && k + 1 < |s| && s[k + 1] != '(')
    || (s[k] == '(' && k + 1 < |s| && s[k + 1] == ')')
  }

  /** Position k makes the hasBadWhitespace scan read outside the text:
   *  whitespace first, whitespace last without a ')' before it, or a '('
   *  last. */
  predicate CrashAt(s: string, k: int)
    requires 0 <= k < |s|
  {
    (IsWhitespace(s[k]) && (k == 0 || (s[k - 1] != ')' && k + 1 == |s|)))
    || (s[k] == '(' && k + 1 == |s|)
  }

  /** The scan answers before it reaches any position that would crash it. */
  predicate WhitespaceScanSafe(s: string)
  {
    forall k :: 0 <= k < |s| && CrashAt(s, k) ==> exists j :: 0 <= j < k && BadAt(s, j)
  }

  predicate BadWhitespace(s: string)
  {
    exists k :: 0 <= k < |s| && BadAt(s, k)
  }

  // ----- hasNestedCycle -----------------------------------------------------

  /** The last parenthesis among s[..i]; the text starts with '('. */
  function LastParen(s: string, i: int): (c: char)
    requires 0 < i <= |s| && s[0] == '('
    ensures IsParen(c)
    decreases i
  {
    if IsParen(s[i - 1]) then s[i - 1] else LastParen(s, i - 1)
  }

  /** hasNestedCycle: the text does not start with '(', or some parenthesis
   *  repeats the previous one, so parentheses fail to alternate. */
  predicate Nested(s: string)
    requires |s| > 0
  {
    s[0] != '(' || exists i :: 1 <= i < |s| && IsParen(s[i]) && s[i] == LastParen(s, i)
  }

  // ----- isValidCycle -------------------------------------------------------

  /** isValidCycle runs to completion: the text is not empty (hasRepeat and
   *  hasNestedCycle read its first character) and, when hasRepeat lets the
   *  whitespace scan run, that scan stays inside the text. */
  predicate ValidatorsSafe(s: string)
  {
    |s| > 0 && (!NoRepeat(s) || WhitespaceScanSafe(s))
  }

  /** isValidCycle: no repeated letter, no misplaced whitespace and no empty
   *  cycle, no letter outside the alphabet, alternating parentheses that
   *  start with '('. */
  predicate ValidCycle(alpha: seq<char>, s: string)
    requires |s| > 0
  {
    NoRepeat(s) && !BadWhitespace(s) && LettersIn(s, alpha) && !Nested(s)
  }

  // ----- the pattern "(\s*\(.+\)\s*)*" ------------------------------------

  /** States of a deterministic recogniser for (\s*\(.+\)\s*)*, where `.`
   *  is any character but a line terminator and \s is IsRegexSpace. Each
   *  state stands for the set of places in the pattern the text read so far
   *  can have reached:
   *  Lead: before the first block's '(', inside its leading \s* (not
   *  accepting: whitespace alone is no block, and only the empty text
   *  matches with no block at all);
   *  Between: after a block's closing ')' and a line terminator, inside that
   *  block's trailing \s* or the next block's leading \s* (accepting; the
   *  two places read the same characters);
   *  Opened: just after a block's '(', where `.+` still needs a character;
   *  Inside: inside `.+`, where the closing ')' may come next;
   *  Closed: after a ')' that may close the block, or may still be part of
   *  `.+` (accepting). A '(' there either starts a new block or continues
   *  `.+`; both places behave as Inside from then on. A \s there is either
   *  trailing space or part of `.+`, unless it is a line terminator, which
   *  `.` refuses. */
  datatype Scan = Lead | Between | Opened | Inside | Closed | Dead

  function Step(st: Scan, c: char): Scan
  {
    match st
    case Lead =>
      if IsRegexSpace(c) then Lead else if c == '(' then Opened else Dead
    case Between =>
      if IsRegexSpace(c) then Between else if c == '(' then Opened else Dead
    case Opened =>
      if IsLineTerminator(c) then Dead else Inside
    case Inside =>
      if c == ')' then Closed else if IsLineTerminator(c) then Dead else Inside
    case Closed =>
      if c == ')' then Closed
      else if IsLineTerminator(c) then (if IsRegexSpace(c) then Between else Dead)
      else if IsRegexSpace(c) then Closed
      else Inside
    case Dead => Dead
  }

  function Run(st: Scan, s: string): Scan
    decreases |s|
  {
    if s == [] then st else Run(Step(st, s[0]), s[1..])
  }

  /** Reading two texts one after the other is reading their concatenation. */
  lemma {:induction false} RunAppend(st: Scan, a: string, b: string)
    ensures Run(st, a + b) == Run(Run(st, a), b)
    decreases |a|
  {
    if a == [] {
      assert a + b == b;
    } else {
      assert a + b != [] && (a + b)[0] == a[0] && (a + b)[1..] == a[1..] + b;
      RunAppend(Step(st, a[0]), a[1..], b);
    }
  }

  /** The whole text matches (\s*\(.+\)\s*)*: it is empty, or the
   *  recogniser ends after a closed block. */
  predicate CyclesPattern(s: string)
  {
    s == [] || Run(Lead, s) == Between || Run(Lead, s) == Closed
  }

  /** Leading whitespace keeps the recogniser before the first block. */
  lemma {:induction false} SpacesStayLead(s: string)
    requires forall i :: 0 <= i < |s| ==> IsRegexSpace(s[i])
    ensures Run(Lead, s) == Lead
    decreases |s|
  {
    if s != [] {
      assert forall i :: 0 <= i < |s[1..]| ==> IsRegexSpace(s[1..][i]) by {
        forall i | 0 <= i < |s[1..]| ensures IsRegexSpace(s[1..][i]) {
          assert s[1..][i] == s[i + 1];
        }
      }
      SpacesStayLead(s[1..]);
    }
  }

  /** Text made only of whitespace does not match the pattern unless it is
   *  empty, so the constructor refuses it before isValidCycle. */
  lemma SpacesRefused(s: string)
    requires forall i :: 0 <= i < |s| ==> IsRegexSpace(s[i])
    ensures CyclesPattern(s) <==> s == []
  {
    SpacesStayLead(s);
  }

  // ----- the plugboard pattern "(\([^\*\(\)][^\*\(\)]\))+" ----------------

  predicate Plain(c: char)
  {
    c != '*' && c != '(' && c != ')'
  }

  /** The whole text is one or more adjacent two-character cycles "(xy)". */
  predicate PairCycles(s: string)
    decreases |s|
  {
    |s| >= 4 && s[0] == '(' && Plain(s[1]) && Plain(s[2]) && s[3] == ')'
    && (|s| == 4 || PairCycles(s[4..]))
  }

  /** Positions in a plugboard text: '(' every fourth character, ')' three
   *  later, and nothing left over. */
  lemma {:induction false} PairCyclesLayout(s: string)
    requires PairCycles(s)
    ensures |s| % 4 == 0
    ensures forall k :: 0 <= k < |s| && k % 4 == 0 ==> s[k] == '('
    ensures forall k :: 0 <= k < |s| && k % 4 == 3 ==> s[k] == ')'
    decreases |s|
  {
    if |s| > 4 {
      var t := s[4..];
      PairCyclesLayout(t);
      forall k | 4 <= k < |s|
        ensures (k % 4 == 0 ==> s[k] == '(') && (k % 4 == 3 ==> s[k] == ')')
      {
        assert s[k] == t[k - 4];
        assert (k - 4) % 4 == k % 4;
      }
    }
  }

  /** A plugboard text has cycles of at most two letters. */
  lemma PairCyclesShort(s: string)
    requires PairCycles(s)
    ensures ShortCycles(s)
  {
    PairCyclesLayout(s);
    forall k | 1 <= k < |s| - 1 && IsLetter(s[k])
      ensures s[k - 1] == '(' || s[k + 1] == ')'
    {
      var q, m := k / 4, k % 4;
      assert k == 4 * q + m && 0 <= m < 4;
      assert m != 0 && m != 3;
      if m == 1 {
        assert (k - 1) % 4 == 0 by { assert k - 1 == 4 * q; }
      } else {
        assert (k + 1) % 4 == 3 by { assert k + 1 == 4 * q + 3; }
      }
    }
  }

  // ----- letters outside a cycle --------------------------------------------

  /** A letter at k that is not enclosed in a cycle: it begins or ends the
   *  text, or touches whitespace, a ')' on its left or a '(' on its right. */
  predicate StrayAt(s: string, k: int)
    requires 0 <= k < |s|
  {
    IsLetter(s[k])
    && (k == 0 || k + 1 == |s| || s[k - 1] == ')' || IsWhitespace(s[k - 1])
        || s[k + 1] == '(' || IsWhitespace(s[k + 1]))
  }

  predicate HasStray(s: string)
  {
    exists k :: 0 <= k < |s| && StrayAt(s, k)
  }

  /** What isValidCycle leaves open is exactly a stray letter: text that
   *  passes it and has no stray letter is a permutation over the alphabet. */
  lemma ValidCycleCanonical(alpha: seq<char>, s: string)
    requires ValidAlphabet(alpha) && ValidatorsSafe(s)
    requires ValidCycle(alpha, s) && !HasStray(s)
    ensures Canonical(alpha, s)
  {
    forall k | 0 <= k < |s|
      ensures WellFormedAt(s, k)
    {
      assert !BadAt(s, k) && !CrashAt(s, k);
      if IsLetter(s[k]) {
        assert !StrayAt(s, k);
      } else if s[k] == '(' {
        assert k + 1 < |s| && !BadAt(s, k + 1) && !CrashAt(s, k + 1);
        AfterOpen(s, k);
      } else if s[k] == ')' {
        assert 0 < k && !BadAt(s, k - 1) && !CrashAt(s, k - 1);
        BeforeClose(s, k);
      }
    }
  }

  /** The parenthesis that the nesting scan remembers just after a '(' at k,
   *  when the next character is '(' or whitespace. */
  lemma AfterOpen(s: string, k: int)
    requires 0 <= k < |s| && s[0] == '(' && s[k] == '('
    ensures k + 1 < |s| && s[k + 1] == '(' ==> LastParen(s, k + 1) == '('
    ensures k + 2 < |s| && IsWhitespace(s[k + 1]) ==> LastParen(s, k + 2) == '('
  {
  }

  /** The parenthesis that the nesting scan remembers at a ')' at k, when
   *  the character before is ')' or whitespace after a ')'. */
  lemma BeforeClose(s: string, k: int)
    requires 0 < k < |s| && s[0] == '(' && s[k] == ')'
    ensures s[k - 1] == ')' ==> LastParen(s, k) == ')'
    ensures k >= 2 && IsWhitespace(s[k - 1]) && s[k - 2] == ')' ==> LastParen(s, k) == ')'
  {
  }

  /** Joining two permutations over disjoint letters with a space, as
   *  addCycle does, gives a permutation. */
  lemma AppendCanonical(alpha: seq<char>, a: string, b: string)
    requires Canonical(alpha, a) && Canonical(alpha, b)
    requires forall k :: 0 <= k < |b| && IsLetter(b[k]) ==> b[k] !in a
    ensures Canonical(alpha, a + " " + b)
  {
    var t := a + " " + b;
    forall k | 0 <= k < |t|
      ensures WellFormedAt(t, k)
    {
      if k < |a| {
        assert WellFormedAt(a, k);
      } else if k > |a| {
        assert t[k] == b[k - |a| - 1];
        assert WellFormedAt(b, k - |a| - 1);
      }
    }
    forall i, j | 0 <= i < j < |t| && IsLetter(t[i])
      ensures t[i] != t[j]
    {
      if j < |a| {
        assert t[i] == a[i] && t[j] == a[j];
      } else if i > |a| {
        assert t[i] == b[i - |a| - 1] && t[j] == b[j - |a| - 1];
      } else if j > |a| && i < |a| {
        assert t[j] == b[j - |a| - 1];
        assert t[i] == a[i];
      }
    }
  }
}
