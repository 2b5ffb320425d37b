/** Characters, alphabets and index arithmetic shared by the cipher engine.
 *  The alphabet collaborator is a sequence of distinct characters: a
 *  character's index is its position (`toInt`), an index's character is the
 *  element (`toChar`). */
module Chars {

  /** Failure kinds of the engine; each stands for one EnigmaException. */
  datatype Error =
    | InvalidCycle       // "The cycle passed in is invalid"
    | InvalidPlugboard   // "Invalid input for plugboard cycles"
    | TooFewRotors       // "Machine requires more than 1 rotor"
    | BadPawls           // "Incorrect number of pawls"

  datatype Result<T> = Ok(value: T) | Err(error: Error)

  datatype Option<T> = None | Some(value: T)

  /** Java's Character.isWhitespace: the Unicode space, line and paragraph
   *  separators other than the three no-break spaces, plus the ASCII
   *  controls TAB, LF, VT, FF, CR and FS, GS, RS, US. */
  predicate IsWhitespace(c: char)
  {
    c == ' ' || ('\t' <= c <= '\r') || ('\U{1C}' <= c <= '\U{1F}')
    || c == '\U{1680}' || ('\U{2000}' <= c <= '\U{2006}') || ('\U{2008}' <= c <= '\U{200A}')
    || c == '\U{2028}' || c == '\U{2029}' || c == '\U{205F}' || c == '\U{3000}'
  }

  /** The regular-expression class `\s` of java.util.regex: [ \t\n\x0B\f\r]. */
  predicate IsRegexSpace(c: char)
  {
    c == ' ' || ('\t' <= c <= '\r')
  }

  /** Characters that the regular-expression `.` does not match by default. */
  predicate IsLineTerminator(c: char)
  {
    c == '\n' || c == '\r' || c == '\U{85}' || c == '\U{2028}' || c == '\U{2029}'
  }

  predicate IsParen(c: char)
  {
    c == '(' || c == ')'
  }

  /** A character the cycle text uses as a cycle member: neither a
   *  parenthesis nor whitespace. */
  predicate IsLetter(c: char)
  {
    !IsParen(c) && !IsWhitespace(c)
  }

  /** The alphabet collaborator: at least one character, no duplicates, and
   *  no character that the cycle notation reserves for its own structure. */
  predicate ValidAlphabet(a: seq<char>)
  {
    |a| > 0
    && (forall i, j :: 0 <= i < j < |a| ==> a[i] != a[j])
    && (forall i :: 0 <= i < |a| ==> IsLetter(a[i]))
  }

  /** Alphabet.toInt: the index of `c` in `a`. */
  function ToInt(a: seq<char>, c: char): (r: int)
    requires ValidAlphabet(a) && c in a
    ensures 0 <= r < |a| && a[r] == c
  {
    IndexFrom(a, c, 0)
  }

  function IndexFrom(a: seq<char>, c: char, k: nat): (r: int)
    requires k <= |a| && c in a[k..]
    ensures k <= r < |a| && a[r] == c
    decreases |a| - k
  {
    if a[k] == c then k else IndexFrom(a, c, k + 1)
  }

  /** toInt and toChar are inverse to each other. */
  lemma ToIntToChar(a: seq<char>, i: int)
    requires ValidAlphabet(a) && 0 <= i < |a|
    ensures ToInt(a, a[i]) == i
  {
  }

  /** Java's `%` on int: the remainder of the division truncated toward
   *  zero, so it takes the sign of the dividend; written as repeated
   *  subtraction of the divisor from the magnitude. */
  function JavaRem(p: int, n: int): (r: int)
    requires n > 0
    ensures -n < r < n
    ensures p >= 0 ==> 0 <= r
    ensures p < 0 ==> r <= 0
    decreases if p < 0 then 1 - p else p
  {
    if p < 0 then -JavaRem(-p, n)
    else if p < n then p
    else JavaRem(p - n, n)
  }

  /** The remainder is Dafny's Euclidean one for a non-negative dividend
   *  and its negation on the magnitude otherwise. */
  lemma {:induction false} JavaRemMod(p: int, n: int)
    requires n > 0
    ensures p >= 0 ==> JavaRem(p, n) == p % n
    ensures p < 0 ==> JavaRem(p, n) == -((-p) % n)
    decreases if p < 0 then 1 - p else p
  {
    if p < 0 {
      JavaRemMod(-p, n);
    } else if p < n {
      ModUnique(p, n, 0, p);
    } else {
      JavaRemMod(p - n, n);
      var q := (p - n) / n;
      assert p - n == q * n + (p - n) % n;
      ModUnique(p, n, q + 1, (p - n) % n);
    }
  }

  /** Permutation.wrap: Java's remainder, moved into range when negative. */
  function Wrap(p: int, n: int): (r: int)
    requires n > 0
    ensures 0 <= r < n
  {
    var r := JavaRem(p, n);
    if r < 0 then r + n else r
  }

  /** The wrapped value is the Euclidean residue of `p`, for negative `p`
   *  too: it is congruent to `p` and in range. */
  lemma WrapMod(p: int, n: int)
    requires n > 0
    ensures Wrap(p, n) == p % n
  {
    NegativeRemainder(p, n);
  }

  /** Java's remainder, moved into range, is the Euclidean residue. */
  lemma NegativeRemainder(p: int, n: int)
    requires n > 0
    ensures JavaRem(p, n) < 0 ==> JavaRem(p, n) + n == p % n
    ensures JavaRem(p, n) >= 0 ==> JavaRem(p, n) == p % n
  {
    JavaRemMod(p, n);
    if p < 0 {
      var q := (-p) / n;
      assert -p == q * n + (-p) % n;
      if (-p) % n == 0 {
        ModUnique(p, n, -q, 0);
      } else {
        ModUnique(p, n, -q - 1, JavaRem(p, n) + n);
      }
    }
  }

  /** Euclidean division is unique: a quotient and an in-range remainder
   *  that rebuild `x` are `x / n` and `x % n`. */
  lemma ModUnique(x: int, n: int, q: int, r: int)
    requires n > 0 && 0 <= r < n && x == q * n + r
    ensures x % n == r && x / n == q
  {
    var q', r' := x / n, x % n;
    assert x == q' * n + r';
    if q' > q {
      MulAtLeast(q' - q, n);
      assert false;
    } else if q' < q {
      MulAtLeast(q - q', n);
      assert false;
    }
  }

  lemma MulAtLeast(d: int, n: int)
    requires d >= 1 && n > 0
    ensures d * n >= n
  {
  }

  /** Adding a multiple of the modulus does not change the wrapped value. */
  lemma WrapShift(x: int, k: int, n: int)
    requires n > 0
    ensures Wrap(x + k * n, n) == Wrap(x, n)
  {
    var q, r := x / n, x % n;
    assert x == q * n + r;
    assert x + k * n == (q + k) * n + r;
    ModUnique(x + k * n, n, q + k, r);
    WrapMod(x, n);
    WrapMod(x + k * n, n);
  }

  /** Wrapping an operand first does not change a wrapped sum. */
  lemma WrapSum(a: int, b: int, n: int)
    requires n > 0
    ensures Wrap(Wrap(a, n) + b, n) == Wrap(a + b, n)
  {
    var q := a / n;
    WrapMod(a, n);
    assert a == q * n + Wrap(a, n);
    WrapShift(Wrap(a, n) + b, q, n);
    assert Wrap(a, n) + b + q * n == a + b;
  }

  /** An index already in range is its own wrap. */
  lemma WrapInRange(p: int, n: int)
    requires 0 <= p < n
    ensures Wrap(p, n) == p
  {
    WrapMod(p, n);
  }
}
