/** What a cycle-notation text such as "(ABC) (DE)" means.
 *  A Permutation keeps its cycles as this text and answers every lookup by
 *  scanning it: the successor of a letter is the next character, or, before
 *  a ')', the first letter after the matching '('; the predecessor is the
 *  mirror image. `Next` and `Prev` give exactly what the scan returns, with
 *  `None` where the scan would run off either end of the text. */
module Cycles {
  import opened Chars

  /** The first index at or after `k` that holds `c`, or |s| if none does. */
  function FindFrom(s: string, c: char, k: nat): (i: nat)
    requires k <= |s|
    ensures k <= i <= |s|
    ensures i < |s| ==> s[i] == c
    ensures forall j :: k <= j < i ==> s[j] != c
    decreases |s| - k
  {
    if k == |s| then k else if s[k] == c then k else FindFrom(s, c, k + 1)
  }

  function Find(s: string, c: char): (i: nat)
    ensures i <= |s|
    ensures i < |s| <==> c in s
  {
    FindFrom(s, c, 0)
  }

  /** The greatest index p <= i with s[p] == '(', or -1. */
  function LastOpen(s: string, i: int): (p: int)
    requires -1 <= i < |s|
    ensures -1 <= p <= i
    ensures p >= 0 ==> s[p] == '('
    ensures forall k :: p < k <= i ==> s[k] != '('
    decreases i + 1
  {
    if i < 0 then -1 else if s[i] == '(' then i else LastOpen(s, i - 1)
  }

  /** The least index q >= i with s[q] == ')', or |s|. */
  function FirstClose(s: string, i: int): (q: int)
    requires 0 <= i <= |s|
    ensures i <= q <= |s|
    ensures q < |s| ==> s[q] == ')'
    ensures forall k :: i <= k < q ==> s[k] != ')'
    decreases |s| - i
  {
    if i == |s| then i else if s[i] == ')' then i else FirstClose(s, i + 1)
  }

  /** Permutation.permute(char) on the cycle text `s`. A character that does
   *  not occur in the text maps to itself. `None` stands for the index
   *  exception Java raises when the scan leaves the text. */
  function Next(s: string, c: char): (r: Option<char>)
    ensures c !in s ==> r == Some(c)
  {
    var i := Find(s, c);
    if i == |s| then Some(c)
    else if i + 1 == |s| then None
    else if s[i + 1] == ')' then
      var p := LastOpen(s, i);
      if p < 0 then None else if p == i then Some('a') else Some(s[p + 1])
    else Some(s[i + 1])
  }

  /** Permutation.invert(char) on the cycle text `s`, the mirror image of
   *  `Next`. */
  function Prev(s: string, c: char): (r: Option<char>)
    ensures c !in s ==> r == Some(c)
  {
    var i := Find(s, c);
    if i == |s| then Some(c)
    else if i == 0 then None
    else if s[i - 1] == '(' then
      var q := FirstClose(s, i);
      if q == |s| then None else if q == i then Some('a') else Some(s[q - 1])
    else Some(s[i - 1])
  }

  /** The neighbourhood of position k is that of a cycle text: a letter sits
   *  after '(' or a letter and before ')' or a letter; '(' opens with a
   *  letter; ')' closes after a letter. Whitespace is free elsewhere. */
  predicate WellFormedAt(s: string, k: int)
    requires 0 <= k < |s|
  {
    (IsLetter(s[k]) ==>
       0 < k && k + 1 < |s|
       && (s[k - 1] == '(' || IsLetter(s[k - 1]))
       && (s[k + 1] == ')' || IsLetter(s[k + 1])))
    && (s[k] == '(' ==> k + 1 < |s| && IsLetter(s[k + 1]))
    && (s[k] == ')' ==> 0 < k && IsLetter(s[k - 1]))
  }

  /** Every letter lies inside a non-empty parenthesised group without
   *  whitespace, and every parenthesis belongs to such a group. */
  predicate WellFormed(s: string)
  {
    forall k :: 0 <= k < |s| ==> WellFormedAt(s, k)
  }

  /** No letter occurs twice: the cycles are disjoint and repeat nothing. */
  predicate NoRepeat(s: string)
  {
    forall i, j :: 0 <= i < j < |s| && IsLetter(s[i]) ==> s[i] != s[j]
  }

  predicate LettersIn(s: string, alpha: seq<char>)
  {
    forall k :: 0 <= k < |s| && IsLetter(s[k]) ==> s[k] in alpha
  }

  /** A cycle text over `alpha` whose lookups never leave the text. */
  predicate Wiring(alpha: seq<char>, s: string)
  {
    ValidAlphabet(alpha) && WellFormed(s) && LettersIn(s, alpha)
  }

  /** A wiring that is a permutation: its cycles are disjoint. */
  predicate Canonical(alpha: seq<char>, s: string)
  {
    Wiring(alpha, s) && NoRepeat(s)
  }

  /** Every cycle has at most two letters: the plugboard and reflector shape. */
  predicate ShortCycles(s: string)
  {
    forall k :: 1 <= k < |s| - 1 && IsLetter(s[k]) ==> s[k - 1] == '(' || s[k + 1] == ')'
  }

  /** Every cycle is a single letter, as mapToSelf writes them. */
  predicate SelfCycles(s: string)
  {
    forall k :: 1 <= k < |s| - 1 && IsLetter(s[k]) ==> s[k - 1] == '(' && s[k + 1] == ')'
  }

  /** Scanning left from a letter reaches the '(' of its group across
   *  letters only. */
  lemma {:induction false} WalkBack(s: string, i: int)
    requires WellFormed(s) && 0 <= i < |s| && IsLetter(s[i])
    ensures 0 <= LastOpen(s, i) < i
    ensures forall k :: LastOpen(s, i) < k <= i ==> IsLetter(s[k])
    decreases i
  {
    assert WellFormedAt(s, i);
    if s[i - 1] != '(' {
      WalkBack(s, i - 1);
    }
  }

  /** Scanning right from a letter reaches the ')' of its group across
   *  letters only. */
  lemma {:induction false} WalkForward(s: string, i: int)
    requires WellFormed(s) && 0 <= i < |s| && IsLetter(s[i])
    ensures i < FirstClose(s, i) < |s|
    ensures forall k :: i <= k < FirstClose(s, i) ==> IsLetter(s[k])
    decreases |s| - i
  {
    assert WellFormedAt(s, i);
    if s[i + 1] != ')' {
      WalkForward(s, i + 1);
    }
  }

  /** In a well-formed text the successor of a letter is defined and is a
   *  letter, the letter itself or one of the text. */
  lemma NextDefined(s: string, c: char)
    requires WellFormed(s) && IsLetter(c)
    ensures Next(s, c).Some? && IsLetter(Next(s, c).value)
    ensures Next(s, c).value == c || Next(s, c).value in s
  {
    var i := Find(s, c);
    if i < |s| {
      assert WellFormedAt(s, i);
      if s[i + 1] == ')' {
        WalkBack(s, i);
      }
    }
  }

  /** In a well-formed text the predecessor of a letter is defined and is a
   *  letter, the letter itself or one of the text. */
  lemma PrevDefined(s: string, c: char)
    requires WellFormed(s) && IsLetter(c)
    ensures Prev(s, c).Some? && IsLetter(Prev(s, c).value)
    ensures Prev(s, c).value == c || Prev(s, c).value in s
  {
    var i := Find(s, c);
    if i < |s| {
      assert WellFormedAt(s, i);
      if s[i - 1] == '(' {
        WalkForward(s, i);
      }
    }
  }

  /** Without repeats, a letter is found where it stands. */
  lemma FindLetter(s: string, k: int)
    requires NoRepeat(s) && 0 <= k < |s| && IsLetter(s[k])
    ensures Find(s, s[k]) == k
  {
  }

  /** The predecessor undoes the successor. */
  lemma PrevOfNext(s: string, c: char)
    requires WellFormed(s) && NoRepeat(s) && IsLetter(c)
    ensures Next(s, c).Some? && Prev(s, Next(s, c).value) == Some(c)
  {
    NextDefined(s, c);
    var i := Find(s, c);
    if i < |s| {
      assert WellFormedAt(s, i);
      if s[i + 1] == ')' {
        WalkBack(s, i);
        var p := LastOpen(s, i);
        FindLetter(s, p + 1);
        assert FirstClose(s, p + 1) == i + 1 by {
          ClosesAt(s, p + 1, i + 1);
        }
      } else {
        FindLetter(s, i + 1);
      }
    }
  }

  /** The successor undoes the predecessor. */
  lemma NextOfPrev(s: string, c: char)
    requires WellFormed(s) && NoRepeat(s) && IsLetter(c)
    ensures Prev(s, c).Some? && Next(s, Prev(s, c).value) == Some(c)
  {
    PrevDefined(s, c);
    var i := Find(s, c);
    if i < |s| {
      assert WellFormedAt(s, i);
      if s[i - 1] == '(' {
        WalkForward(s, i);
        var q := FirstClose(s, i);
        FindLetter(s, q - 1);
        assert LastOpen(s, q - 1) == i - 1 by {
          OpensAt(s, i - 1, q - 1);
        }
      } else {
        FindLetter(s, i - 1);
      }
    }
  }

  /** A run of letters from j up to a ')' at q: that ')' is the first. */
  lemma {:induction false} ClosesAt(s: string, j: int, q: int)
    requires 0 <= j <= q < |s| && s[q] == ')'
    requires forall k :: j <= k < q ==> IsLetter(s[k])
    ensures FirstClose(s, j) == q
    decreases q - j
  {
    if j < q {
      ClosesAt(s, j + 1, q);
    }
  }

  /** A '(' at p followed by letters up to i: that '(' is the last. */
  lemma {:induction false} OpensAt(s: string, p: int, i: int)
    requires 0 <= p <= i < |s| && s[p] == '('
    requires forall k :: p < k <= i ==> IsLetter(s[k])
    ensures LastOpen(s, i) == p
    decreases i - p
  {
    if p < i {
      OpensAt(s, p, i - 1);
    }
  }

  /** In cycles of at most two letters the successor is the predecessor,
   *  so applying the successor twice gives the letter back. */
  lemma ShortCyclesInvolution(s: string, c: char)
    requires WellFormed(s) && NoRepeat(s) && ShortCycles(s) && IsLetter(c)
    ensures Next(s, c).Some? && Next(s, c) == Prev(s, c)
    ensures Next(s, Next(s, c).value) == Some(c)
  {
    NextDefined(s, c);
    PrevDefined(s, c);
    var i := Find(s, c);
    if i < |s| {
      assert WellFormedAt(s, i);
      if s[i - 1] == '(' {
        WalkForward(s, i);
        if s[i + 1] != ')' {
          assert WellFormedAt(s, i + 1);
          ClosesAt(s, i, i + 2);
        }
      } else {
        assert s[i + 1] == ')';
        assert WellFormedAt(s, i - 1);
        OpensAt(s, i - 2, i);
      }
    }
    PrevOfNext(s, c);
  }

  /** A text of one-letter cycles maps every letter to itself. */
  lemma SelfCyclesIdentity(s: string, c: char)
    requires WellFormed(s) && SelfCycles(s) && IsLetter(c)
    ensures Next(s, c) == Some(c) && Prev(s, c) == Some(c)
  {
    var i := Find(s, c);
    if i < |s| {
      assert WellFormedAt(s, i);
      OpensAt(s, i - 1, i);
      ClosesAt(s, i, i + 1);
    }
  }

  /** The letter at k forms a cycle of its own. */
  predicate Alone(s: string, k: int)
  {
    0 < k < |s| - 1 && s[k - 1] == '(' && s[k + 1] == ')'
  }

  /** A letter is a fixed point exactly when it is absent or forms a cycle
   *  of its own. */
  lemma FixedPointIff(s: string, c: char)
    requires WellFormed(s) && NoRepeat(s) && IsLetter(c)
    ensures Next(s, c) == Some(c) <==>
      (c !in s || Alone(s, Find(s, c)))
  {
    var i := Find(s, c);
    if i < |s| {
      assert WellFormedAt(s, i);
      if s[i + 1] == ')' {
        WalkBack(s, i);
        var p := LastOpen(s, i);
        if s[i - 1] == '(' {
          OpensAt(s, i - 1, i);
        } else {
          assert p + 1 < i;
          assert s[p + 1] != s[i];
        }
      } else {
        assert s[i] != s[i + 1];
      }
    }
  }

  /** Permutation.permute(int): the index of the successor of the letter at
   *  `p` wrapped into the alphabet. */
  function PermuteIndex(alpha: seq<char>, s: string, p: int): (r: int)
    requires Wiring(alpha, s)
    ensures 0 <= r < |alpha|
  {
    var c := alpha[Wrap(p, |alpha|)];
    NextDefined(s, c);
    ToInt(alpha, Next(s, c).value)
  }

  /** Permutation.invert(int): the index of the predecessor. */
  function InvertIndex(alpha: seq<char>, s: string, p: int): (r: int)
    requires Wiring(alpha, s)
    ensures 0 <= r < |alpha|
  {
    var c := alpha[Wrap(p, |alpha|)];
    PrevDefined(s, c);
    ToInt(alpha, Prev(s, c).value)
  }

  /** An index outside the alphabet is first wrapped: it permutes and
   *  inverts as its wrapped value does. */
  lemma IndexWrap(alpha: seq<char>, s: string, p: int)
    requires Wiring(alpha, s)
    ensures PermuteIndex(alpha, s, p) == PermuteIndex(alpha, s, Wrap(p, |alpha|))
    ensures InvertIndex(alpha, s, p) == InvertIndex(alpha, s, Wrap(p, |alpha|))
  {
    WrapInRange(Wrap(p, |alpha|), |alpha|);
  }

  /** The index and character versions agree: permuting index i is
   *  permuting its character and taking the index of the answer. */
  lemma OverloadsAgree(alpha: seq<char>, s: string, i: int)
    requires Wiring(alpha, s) && 0 <= i < |alpha|
    ensures Next(s, alpha[i]).Some? && Next(s, alpha[i]).value in alpha
    ensures Prev(s, alpha[i]).Some? && Prev(s, alpha[i]).value in alpha
    ensures PermuteIndex(alpha, s, i) == ToInt(alpha, Next(s, alpha[i]).value)
    ensures InvertIndex(alpha, s, i) == ToInt(alpha, Prev(s, alpha[i]).value)
  {
    WrapInRange(i, |alpha|);
    NextDefined(s, alpha[i]);
    PrevDefined(s, alpha[i]);
  }

  /** An alphabet character that the text does not mention is a fixed
   *  point of both directions. */
  lemma AbsentFixed(alpha: seq<char>, s: string, i: int)
    requires Wiring(alpha, s) && 0 <= i < |alpha| && alpha[i] !in s
    ensures PermuteIndex(alpha, s, i) == i && InvertIndex(alpha, s, i) == i
  {
    WrapInRange(i, |alpha|);
    ToIntToChar(alpha, i);
  }

  /** On indices, invert undoes permute and permute undoes invert, for every
   *  integer taken modulo the alphabet size. */
  lemma IndexInverse(alpha: seq<char>, s: string, p: int)
    requires Canonical(alpha, s)
    ensures InvertIndex(alpha, s, PermuteIndex(alpha, s, p)) == Wrap(p, |alpha|)
    ensures PermuteIndex(alpha, s, InvertIndex(alpha, s, p)) == Wrap(p, |alpha|)
  {
    var n := |alpha|;
    var c := alpha[Wrap(p, n)];
    PrevOfNext(s, c);
    NextOfPrev(s, c);
    NextDefined(s, c);
    PrevDefined(s, c);
    var d := Next(s, c).value;
    var e := Prev(s, c).value;
    WrapInRange(ToInt(alpha, d), n);
    WrapInRange(ToInt(alpha, e), n);
    ToIntToChar(alpha, Wrap(p, n));
  }

  /** On indices, a wiring of cycles of at most two letters is an
   *  involution and its inverse is itself. */
  lemma IndexInvolution(alpha: seq<char>, s: string, p: int)
    requires Canonical(alpha, s) && ShortCycles(s)
    ensures InvertIndex(alpha, s, p) == PermuteIndex(alpha, s, p)
    ensures PermuteIndex(alpha, s, PermuteIndex(alpha, s, p)) == Wrap(p, |alpha|)
  {
    var n := |alpha|;
    var c := alpha[Wrap(p, n)];
    ShortCyclesInvolution(s, c);
    NextDefined(s, c);
    WrapInRange(ToInt(alpha, Next(s, c).value), n);
    ToIntToChar(alpha, Wrap(p, n));
  }
}
