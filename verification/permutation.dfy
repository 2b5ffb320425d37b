/** Permutation: a permutation of the indices of an alphabet, stored as
 *  cycle-notation text and validated when it is built or extended. */
module Permutations {
  import opened Chars
  import opened Cycles
  import opened Validation

  /** Text accepted by the constructor: the empty text, or text that matches
   *  the cycles pattern, passes isValidCycle and encloses every letter in a
   *  cycle (the last condition corrects the code; see Findings). */
  predicate Accepted(alpha: seq<char>, text: string)
  {
    text == [] || (CyclesPattern(text) && ValidatorsSafe(text) && ValidCycle(alpha, text) && !HasStray(text))
  }

  /** The constructor's validation runs to completion on `text`: the empty
   *  text is handled first and the pattern is tried before isValidCycle. */
  predicate ConstructorSafe(text: string)
  {
    text == [] || !CyclesPattern(text) || ValidatorsSafe(text)
  }

  /** Non-empty text made only of whitespace is within the constructor's
   *  reach and is refused: it fails the pattern, so isValidCycle never
   *  sees it. */
  lemma WhitespaceRefused(alpha: seq<char>, s: string)
    requires s != [] && forall i :: 0 <= i < |s| ==> IsRegexSpace(s[i])
    ensures ConstructorSafe(s) && !Accepted(alpha, s)
  {
    SpacesRefused(s);
  }

  /** Space after the last cycle, and a line break between cycles, match
   *  the pattern; a text ending in one space is accepted. */
  lemma TrailingSpaceAccepted()
    ensures CyclesPattern("(AB) ") && CyclesPattern("(AB) \n(CD)")
    ensures ConstructorSafe("(AB) ") && Accepted("AB", "(AB) ")
  {
    TrailingSpacePattern();
    LineBreakPattern();
    TrailingSpaceValid();
  }

  /** "(AB) " matches the cycles pattern. */
  lemma TrailingSpacePattern()
    ensures Run(Lead, "(AB) ") == Closed && CyclesPattern("(AB) ")
  {
    var s := "(AB) ";
    assert s[1..][1..][1..][1..][1..] == [];
  }

  /** "(AB) \n(CD)" matches the cycles pattern. */
  lemma LineBreakPattern()
    ensures CyclesPattern("(AB) \n(CD)")
  {
    var u, v := "(AB) ", "\n(CD)";
    TrailingSpacePattern();
    LineBreakTail();
    RunAppend(Lead, u, v);
    assert u + v == "(AB) \n(CD)";
  }

  /** After a closed cycle, a line break and one more cycle end closed. */
  lemma LineBreakTail()
    ensures Run(Closed, "\n(CD)") == Closed
  {
    var u := "\n(CD)";
    assert u[1..][1..][1..][1..][1..] == [];
  }

  /** "(AB) " passes isValidCycle over "AB" and encloses every letter. */
  lemma TrailingSpaceValid()
    ensures ValidatorsSafe("(AB) ") && ValidCycle("AB", "(AB) ") && !HasStray("(AB) ")
  {
    var s := "(AB) ";
    assert forall k :: 0 <= k < |s| ==> !CrashAt(s, k);
    assert forall k :: 0 <= k < |s| ==> !BadAt(s, k);
    assert forall k :: 0 <= k < |s| ==> !StrayAt(s, k);
    assert LastParen(s, 3) == '(';
  }

  /** No letter of `cycle` occurs in `existing`. */
  predicate Disjoint(existing: string, cycle: string)
  {
    forall k :: 0 <= k < |cycle| && IsLetter(cycle[k]) ==> cycle[k] !in existing
  }

  /** addCycle appends `cycle` exactly when this holds (corrected: the code
   *  checks neither stray letters nor disjointness; see Findings). */
  predicate Addable(alpha: seq<char>, existing: string, cycle: string)
    requires ValidatorsSafe(cycle)
  {
    ValidCycle(alpha, cycle) && !HasStray(cycle) && Disjoint(existing, cycle)
  }

  /** The one-letter cycle "(c)". */
  function Loop(c: char): string
  {
    ['(', c, ')']
  }

  lemma LoopSafe(c: char)
    ensures ValidatorsSafe(Loop(c))
  {
    var s := Loop(c);
    assert forall k :: 0 <= k < |s| ==> !CrashAt(s, k);
  }

  /** The text mapToSelf leaves: each character of `a`, in order, appended
   *  as " (c)" when addCycle accepts that cycle. */
  function SelfLoops(alpha: seq<char>, a: seq<char>, text: string): string
    decreases |a|
  {
    if a == [] then text
    else
      LoopSafe(a[0]);
      var t := if Addable(alpha, text, Loop(a[0])) then text + " " + Loop(a[0]) else text;
      SelfLoops(alpha, a[1..], t)
  }

  /** "(c)" is addable exactly when c is an alphabet character not yet in
   *  the text. */
  lemma LoopAddable(alpha: seq<char>, text: string, c: char)
    requires ValidAlphabet(alpha)
    ensures ValidatorsSafe(Loop(c))
    ensures Addable(alpha, text, Loop(c)) <==> c in alpha && c !in text
  {
    LoopSafe(c);
    var s := Loop(c);
    if c in alpha {
      assert IsLetter(c);
      assert !BadWhitespace(s) by {
        forall k | 0 <= k < 3 ensures !BadAt(s, k) { }
      }
      assert !Nested(s) by {
        assert LastParen(s, 1) == '(' && LastParen(s, 2) == '(';
      }
      assert !HasStray(s) by {
        forall k | 0 <= k < 3 ensures !StrayAt(s, k) { }
      }
      assert LettersIn(s, alpha);
      assert Disjoint(text, s) <==> c !in text by {
        assert s[0] == '(' && s[1] == c && s[2] == ')';
        assert !IsLetter(s[0]) && !IsLetter(s[2]);
      }
    } else {
      if IsLetter(c) {
        assert !LettersIn(s, alpha) by {
          assert s[1] == c && IsLetter(s[1]) && s[1] !in alpha;
        }
      } else if IsWhitespace(c) {
        assert BadAt(s, 1);
      } else {
        assert BadAt(s, 0) || BadAt(s, 1);
      }
    }
  }

  /** Appending the one-letter cycle of an absent letter changes no lookup. */
  lemma AppendLoopKeeps(text: string, x: char, c: char)
    requires WellFormed(text) && IsLetter(x) && x !in text && IsLetter(c)
    ensures WellFormed(text + " " + Loop(x))
    ensures Next(text + " " + Loop(x), c) == Next(text, c)
    ensures Prev(text + " " + Loop(x), c) == Prev(text, c)
  {
    var t := text + " " + Loop(x);
    AppendLoopWellFormed(text, x);
    if c in text {
      PrefixLookup(text, t, c);
    } else if c == x {
      LoopLookup(text, x);
    } else {
      assert c !in t;
    }
  }

  lemma AppendLoopWellFormed(text: string, x: char)
    requires WellFormed(text) && IsLetter(x)
    ensures WellFormed(text + " " + Loop(x))
  {
    var t := text + " " + Loop(x);
    forall k | 0 <= k < |t| ensures WellFormedAt(t, k) {
      if k < |text| {
        assert WellFormedAt(text, k);
      }
    }
  }

  /** The appended one-letter cycle maps its letter to itself. */
  lemma LoopLookup(text: string, x: char)
    requires x !in text && IsLetter(x)
    ensures Next(text + " " + Loop(x), x) == Some(x)
    ensures Prev(text + " " + Loop(x), x) == Some(x)
  {
    var t := text + " " + Loop(x);
    FindPrefix(text, t, x, 0);
    assert t[|text|] == ' ' && t[|text| + 1] == '(' && t[|text| + 2] == x;
    assert FindFrom(t, x, |text|) == |text| + 2;
    OpensAt(t, |text| + 1, |text| + 2);
    ClosesAt(t, |text| + 2, |text| + 3);
  }

  /** A letter of a well-formed prefix is looked up within that prefix. */
  lemma PrefixLookup(a: string, t: string, c: char)
    requires a <= t && WellFormed(a) && c in a && IsLetter(c)
    ensures Next(t, c) == Next(a, c) && Prev(t, c) == Prev(a, c)
  {
    var i := Find(a, c);
    FindPrefix(a, t, c, 0);
    assert WellFormedAt(a, i);
    assert t[i + 1] == a[i + 1] && t[i - 1] == a[i - 1];
    if a[i + 1] == ')' {
      WalkBack(a, i);
      var p := LastOpen(a, i);
      assert forall k :: p < k <= i ==> t[k] == a[k];
      OpensAt(t, p, i);
      assert t[p + 1] == a[p + 1];
    }
    if a[i - 1] == '(' {
      WalkForward(a, i);
      var q := FirstClose(a, i);
      assert forall k :: i <= k <= q ==> t[k] == a[k];
      ClosesAt(t, i, q);
      assert t[q - 1] == a[q - 1];
    }
  }

  /** A search that does not succeed in a prefix carries on past it. */
  lemma {:induction false} FindPrefix(a: string, t: string, c: char, k: nat)
    requires a <= t && k <= |a|
    ensures FindFrom(a, c, k) < |a| ==> FindFrom(t, c, k) == FindFrom(a, c, k)
    ensures FindFrom(a, c, k) == |a| ==> FindFrom(t, c, k) == FindFrom(t, c, |a|)
    decreases |a| - k
  {
    if k < |a| && a[k] != c {
      FindPrefix(a, t, c, k + 1);
    }
  }

  /** mapToSelf changes no lookup, keeps the text a permutation, and leaves
   *  every alphabet character of `a` visible in the text. */
  lemma {:induction false} SelfLoopsKeep(alpha: seq<char>, a: seq<char>, text: string)
    requires Canonical(alpha, text)
    ensures Canonical(alpha, SelfLoops(alpha, a, text))
    ensures forall c :: IsLetter(c) ==> Next(SelfLoops(alpha, a, text), c) == Next(text, c)
    ensures forall c :: IsLetter(c) ==> Prev(SelfLoops(alpha, a, text), c) == Prev(text, c)
    ensures forall c :: c in a && c in alpha ==> c in SelfLoops(alpha, a, text)
    ensures forall c :: c in text ==> c in SelfLoops(alpha, a, text)
    decreases |a|
  {
    if a != [] {
      var x := a[0];
      LoopAddable(alpha, text, x);
      if Addable(alpha, text, Loop(x)) {
        var t := text + " " + Loop(x);
        forall c | IsLetter(c)
          ensures Next(t, c) == Next(text, c) && Prev(t, c) == Prev(text, c)
        {
          AppendLoopKeeps(text, x, c);
        }
        AppendLoopKeeps(text, x, x);
        assert Canonical(alpha, t) by {
          forall i, j | 0 <= i < j < |t| && IsLetter(t[i]) ensures t[i] != t[j] {
            if j < |text| { assert t[i] == text[i] && t[j] == text[j]; }
            else if i < |text| { assert t[i] == text[i]; assert t[i] in text; }
          }
        }
        assert x in t;
        assert forall c :: c in text ==> c in t;
        SelfLoopsKeep(alpha, a[1..], t);
      } else {
        SelfLoopsKeep(alpha, a[1..], text);
      }
    }
  }

  class Permutation {
    const alphabet: seq<char>
    var cycles: string

    /** The stored text is a permutation over the alphabet. */
    ghost predicate Valid()
      reads this
    {
      Canonical(alphabet, cycles)
    }

    constructor Init(alphabet: seq<char>, cycles: string)
      ensures this.alphabet == alphabet && this.cycles == cycles
    {
      this.alphabet := alphabet;
      this.cycles := cycles;
    }

    /** The constructor: the empty text becomes the identity with every
     *  character written as a one-letter cycle; other text is kept when
     *  accepted and raises InvalidCycle otherwise. */
    static method New(text: string, alphabet: seq<char>) returns (r: Result<Permutation>)
      requires ValidAlphabet(alphabet) && ConstructorSafe(text)
      ensures r.Ok? <==> Accepted(alphabet, text)
      ensures r.Err? ==> r.error == InvalidCycle
      ensures r.Ok? ==> fresh(r.value) && r.value.Valid() && r.value.alphabet == alphabet
      ensures r.Ok? && text != [] ==> r.value.cycles == text
      ensures r.Ok? && text == [] ==> r.value.cycles == SelfLoops(alphabet, alphabet, [])
    {
      if text == [] {
        var p := new Permutation.Init(alphabet, []);
        p.MapToSelf(alphabet);
        return Ok(p);
      }
      var ok := CyclesPattern(text);
      if ok {
        var v := IsValidCycleIn(alphabet, text);
        ok := v && !HasStray(text);
      }
      if ok {
        ValidCycleCanonical(alphabet, text);
        var p := new Permutation.Init(alphabet, text);
        return Ok(p);
      }
      return Err(InvalidCycle);
    }

    /** addCycle: append " " and `cycle` when it is acceptable. */
    method AddCycle(cycle: string)
      requires Valid() && ValidatorsSafe(cycle)
      modifies this
      ensures Valid()
      ensures cycles == if Addable(alphabet, old(cycles), cycle) then old(cycles) + " " + cycle else old(cycles)
    {
      var v := IsValidCycle(cycle);
      if v && !HasStray(cycle) && Disjoint(cycles, cycle) {
        ValidCycleCanonical(alphabet, cycle);
        AppendCanonical(alphabet, cycles, cycle);
        cycles := cycles + " " + cycle;
      }
    }

    /** mapToSelf: add the one-letter cycle of every character of `a`. */
    method MapToSelf(a: seq<char>)
      requires Valid()
      modifies this
      ensures Valid()
      ensures cycles == SelfLoops(alphabet, a, old(cycles))
    {
      var i := 0;
      while i < |a|
        invariant 0 <= i <= |a|
        invariant Valid()
        invariant SelfLoops(alphabet, a, old(cycles)) == SelfLoops(alphabet, a[i..], cycles)
      {
        LoopSafe(a[i]);
        assert a[i..][1..] == a[i + 1..];
        AddCycle(Loop(a[i]));
        i := i + 1;
      }
    }

    /** permute(char): the successor of `p` in its cycle. */
    method PermuteChar(p: char) returns (r: char)
      requires Valid() && IsLetter(p)
      ensures Next(cycles, p) == Some(r)
    {
      var first := 'a';
      for i := 0 to |cycles|
        invariant forall k :: 0 <= k < i ==> cycles[k] != p
      {
        if cycles[i] == p {
          assert WellFormedAt(cycles, i);
          if cycles[i + 1] == ')' {
            WalkBack(cycles, i);
            var x := i;
            while cycles[x] != '('
              invariant LastOpen(cycles, i) <= x <= i
              invariant x < i ==> first == cycles[x + 1]
              decreases x
            {
              first := cycles[x];
              x := x - 1;
            }
            return first;
          } else {
            return cycles[i + 1];
          }
        }
      }
      return p;
    }

    /** invert(char): the predecessor of `c` in its cycle. */
    method InvertChar(c: char) returns (r: char)
      requires Valid() && IsLetter(c)
      ensures Prev(cycles, c) == Some(r)
    {
      var first := 'a';
      for i := 0 to |cycles|
        invariant forall k :: 0 <= k < i ==> cycles[k] != c
      {
        if cycles[i] == c {
          assert WellFormedAt(cycles, i);
          if cycles[i - 1] == '(' {
            WalkForward(cycles, i);
            var x := i;
            while cycles[x] != ')'
              invariant i <= x <= FirstClose(cycles, i)
              invariant x > i ==> first == cycles[x - 1]
              decreases |cycles| - x
            {
              first := cycles[x];
              x := x + 1;
            }
            return first;
          } else {
            return cycles[i - 1];
          }
        }
      }
      return c;
    }

    /** permute(int): the permutation applied to `p` modulo the alphabet
     *  size; an index out of range is wrapped and looked up again. The
     *  code repeats the character scan of permute(char) on toChar(p) and
     *  answers toInt of the result; here that scan is PermuteChar. */
    method Permute(p: int) returns (r: int)
      requires Valid()
      ensures r == PermuteIndex(alphabet, cycles, p)
      ensures 0 <= r < |alphabet|
      decreases if 0 <= p < |alphabet| then 0 else 1
    {
      if 0 <= p < |alphabet| {
        var c := PermuteChar(alphabet[p]);
        NextDefined(cycles, alphabet[p]);
        WrapInRange(p, |alphabet|);
        r := ToInt(alphabet, c);
      } else {
        r := Permute(Wrap(p, |alphabet|));
        WrapInRange(Wrap(p, |alphabet|), |alphabet|);
      }
    }

    /** invert(int): the inverse permutation applied to `c` modulo the
     *  alphabet size, through the character scan of InvertChar. */
    method Invert(c: int) returns (r: int)
      requires Valid()
      ensures r == InvertIndex(alphabet, cycles, c)
      ensures 0 <= r < |alphabet|
      decreases if 0 <= c < |alphabet| then 0 else 1
    {
      if 0 <= c < |alphabet| {
        var d := InvertChar(alphabet[c]);
        PrevDefined(cycles, alphabet[c]);
        WrapInRange(c, |alphabet|);
        r := ToInt(alphabet, d);
      } else {
        r := Invert(Wrap(c, |alphabet|));
        WrapInRange(Wrap(c, |alphabet|), |alphabet|);
      }
    }

    /** derangement: no index is its own image. */
    method Derangement() returns (r: bool)
      requires Valid()
      ensures r <==> forall i :: 0 <= i < |alphabet| ==> PermuteIndex(alphabet, cycles, i) != i
    {
      for i := 0 to |alphabet|
        invariant forall j :: 0 <= j < i ==> PermuteIndex(alphabet, cycles, j) != j
      {
        var q := Permute(i);
        if q == i {
          return false;
        }
      }
      return true;
    }

    /** isValidCycle, on this permutation's alphabet. */
    method IsValidCycle(cycle: string) returns (r: bool)
      requires ValidatorsSafe(cycle)
      ensures r == ValidCycle(alphabet, cycle)
    {
      r := IsValidCycleIn(alphabet, cycle);
    }

    /** isValidCycle: the four checks, in the code's order, each run only
     *  when the ones before it passed. */
    static method IsValidCycleIn(alphabet: seq<char>, cycle: string) returns (r: bool)
      requires ValidatorsSafe(cycle)
      ensures r == ValidCycle(alphabet, cycle)
    {
      var repeat := HasRepeat(cycle);
      if repeat {
        return false;
      }
      var badSpace := HasBadWhitespace(cycle);
      if badSpace {
        return false;
      }
      var invalid := HasInvalidChars(alphabet, cycle);
      if invalid {
        return false;
      }
      var nested := HasNestedCycle(cycle);
      return !nested;
    }

    /** hasRepeat: some letter occurs twice. Every position but the last is
     *  compared against every other position. */
    static method HasRepeat(cycle: string) returns (r: bool)
      requires |cycle| > 0
      ensures r == !NoRepeat(cycle)
    {
      var curr := cycle[0];
      var count := 0;
      while count < |cycle| - 1
        invariant 0 <= count <= |cycle| - 1
        invariant curr == cycle[count]
        invariant forall a, b :: 0 <= a < count && 0 <= b < |cycle| && a != b && IsLetter(cycle[a])
                    ==> cycle[a] != cycle[b]
      {
        if !(curr == '(' || curr == ')' || IsWhitespace(curr)) {
          for i := 0 to |cycle|
            invariant forall b :: 0 <= b < i && b != count ==> cycle[b] != curr
          {
            if i == count {
              continue;
            } else if curr == cycle[i] {
              return true;
            }
          }
        }
        count := count + 1;
        curr := cycle[count];
      }
      return false;
    }

    /** hasBadWhitespace: whitespace away from the gap between ')' and '(',
     *  or an empty cycle "()". */
    static method HasBadWhitespace(cycle: string) returns (r: bool)
      requires WhitespaceScanSafe(cycle)
      ensures r == BadWhitespace(cycle)
    {
      for i := 0 to |cycle|
        invariant forall k :: 0 <= k < i ==> !BadAt(cycle, k) && !CrashAt(cycle, k)
      {
        assert !CrashAt(cycle, i);
        if IsWhitespace(cycle[i]) {
          if cycle[i - 1] != ')' && cycle[i + 1] != '(' {
            assert BadAt(cycle, i);
            return true;
          }
        } else if cycle[i] == '(' && cycle[i + 1] == ')' {
          assert BadAt(cycle, i);
          return true;
        }
      }
      return false;
    }

    /** hasInvalidChars: some letter is not in the alphabet. */
    static method HasInvalidChars(alphabet: seq<char>, cycle: string) returns (r: bool)
      ensures r == !LettersIn(cycle, alphabet)
    {
      for i := 0 to |cycle|
        invariant forall k :: 0 <= k < i && IsLetter(cycle[k]) ==> cycle[k] in alphabet
      {
        if cycle[i] != '(' && cycle[i] != ')' && !IsWhitespace(cycle[i]) {
          if cycle[i] !in alphabet {
            return true;
          }
        }
      }
      return false;
    }

    /** hasNestedCycle: the text does not open with '(' or a parenthesis
     *  repeats the kind of the one before it. */
    static method HasNestedCycle(cycle: string) returns (r: bool)
      requires |cycle| > 0
      ensures r == Nested(cycle)
    {
      if cycle[0] != '(' {
        return true;
      }
      var mark := '(';
      for i := 1 to |cycle|
        invariant mark == LastParen(cycle, i)
        invariant forall j :: 1 <= j < i && IsParen(cycle[j]) ==> cycle[j] != LastParen(cycle, j)
      {
        if cycle[i] == '(' && mark != ')' {
          return true;
        } else if cycle[i] == ')' && mark != '(' {
          return true;
        } else if cycle[i] == ')' || cycle[i] == '(' {
          mark := cycle[i];
        }
      }
      return false;
    }
  }

  /** The constructor given whitespace alone raises InvalidCycle. */
  method NewFromWhitespace(text: string, alphabet: seq<char>) returns (r: Result<Permutation>)
    requires ValidAlphabet(alphabet)
    requires text != [] && forall i :: 0 <= i < |text| ==> IsRegexSpace(text[i])
    ensures r == Err(InvalidCycle)
  {
    WhitespaceRefused(alphabet, text);
    r := Permutation.New(text, alphabet);
  }
}
