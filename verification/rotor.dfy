/** Rotor: a permutation turned by a rotational setting and offset by a ring
 *  setting. The base rotor neither rotates nor reflects; the moving rotor
 *  and the reflector are variants of one rotor record, selected by `Kind`. */
module Rotors {
  import opened Chars
  import opened Cycles
  import opened Permutations

  /** The rotor variants: a fixed rotor (the base behaviour), a moving rotor
   *  with the characters at which it lets its left neighbour advance, and a
   *  reflector. */
  datatype Kind = Fixed | Moving(notches: set<char>) | Reflector

  /** The state of a rotor as a value. `fwd[i]` and `bwd[i]` are what its
   *  permutation's permute and invert give for index i; `ring` is the index
   *  of the ring setting. */
  datatype Wheel = Wheel(fwd: seq<int>, bwd: seq<int>, kind: Kind, setting: int, ring: int)

  /** Every entry of the table is an index below n. */
  predicate InRange(t: seq<int>, n: int)
  {
    forall i :: 0 <= i < |t| ==> 0 <= t[i] < n
  }

  /** The index table of a cycle text: entry i is permute(i). */
  function PermuteTable(alpha: seq<char>, s: string): (t: seq<int>)
    requires Wiring(alpha, s)
    ensures |t| == |alpha| && InRange(t, |alpha|)
  {
    var f := Entries(alpha, s, true);
    EntriesAt(alpha, s, true);
    TabulateRange(f, 0, |alpha|, |alpha|);
    Tabulate(f, 0, |alpha|)
  }

  /** The index table of the inverse: entry i is invert(i). */
  function InvertTable(alpha: seq<char>, s: string): (t: seq<int>)
    requires Wiring(alpha, s)
    ensures |t| == |alpha| && InRange(t, |alpha|)
  {
    var f := Entries(alpha, s, false);
    EntriesAt(alpha, s, false);
    TabulateRange(f, 0, |alpha|, |alpha|);
    Tabulate(f, 0, |alpha|)
  }

  /** permute (or invert) on indices, as a function value. */
  function Entries(alpha: seq<char>, s: string, forward: bool): int -> int
    requires Wiring(alpha, s)
  {
    i => if forward then PermuteIndex(alpha, s, i) else InvertIndex(alpha, s, i)
  }

  /** Every value of the function value is a contact index. */
  lemma EntriesAt(alpha: seq<char>, s: string, forward: bool)
    requires Wiring(alpha, s)
    ensures forall i :: Entries(alpha, s, forward)(i) == if forward then PermuteIndex(alpha, s, i) else InvertIndex(alpha, s, i)
    ensures forall i :: 0 <= Entries(alpha, s, forward)(i) < |alpha|
  {
  }

  /** The entries f(lo) up to f(hi - 1), split at the last index. */
  function Tabulate(f: int -> int, lo: nat, hi: nat): (t: seq<int>)
    requires lo <= hi
    ensures |t| == hi - lo
    decreases hi - lo
  {
    if hi == lo then []
    else if hi == lo + 1 then [f(lo)]
    else Tabulate(f, lo, hi - 1) + Tabulate(f, hi - 1, hi)
  }

  lemma {:induction false} TabulateAt(f: int -> int, lo: nat, hi: nat, i: int)
    requires lo <= i < hi
    ensures Tabulate(f, lo, hi)[i - lo] == f(i)
    decreases hi - lo
  {
    if hi > lo + 1 {
      if i < hi - 1 {
        TabulateAt(f, lo, hi - 1, i);
      } else {
        TabulateAt(f, hi - 1, hi, i);
      }
    }
  }

  lemma TabulateRange(f: int -> int, lo: nat, hi: nat, n: int)
    requires lo <= hi && forall i :: lo <= i < hi ==> 0 <= f(i) < n
    ensures InRange(Tabulate(f, lo, hi), n)
  {
    forall k | 0 <= k < hi - lo
      ensures 0 <= Tabulate(f, lo, hi)[k] < n
    {
      TabulateAt(f, lo, hi, lo + k);
    }
  }

  /** Entry i of the tables is what permute and invert give for i. */
  lemma TableAt(alpha: seq<char>, s: string, i: int)
    requires Wiring(alpha, s) && 0 <= i < |alpha|
    ensures PermuteTable(alpha, s)[i] == PermuteIndex(alpha, s, i)
    ensures InvertTable(alpha, s)[i] == InvertIndex(alpha, s, i)
  {
    EntriesAt(alpha, s, true);
    EntriesAt(alpha, s, false);
    TabulateAt(Entries(alpha, s, true), 0, |alpha|, i);
    TabulateAt(Entries(alpha, s, false), 0, |alpha|, i);
  }

  /** Two tables of the same size that undo each other. */
  predicate Inverses(f: seq<int>, b: seq<int>)
  {
    |f| == |b|
    && (forall i :: 0 <= i < |f| ==> 0 <= f[i] < |b| && b[f[i]] == i)
    && (forall i :: 0 <= i < |b| ==> 0 <= b[i] < |f| && f[b[i]] == i)
  }

  /** A table that is its own inverse. */
  predicate SelfInverse(f: seq<int>)
  {
    Inverses(f, f)
  }

  /** The tables of a permutation undo each other. */
  lemma TablesInverse(alpha: seq<char>, s: string)
    requires Canonical(alpha, s)
    ensures Inverses(PermuteTable(alpha, s), InvertTable(alpha, s))
  {
    var f, b := PermuteTable(alpha, s), InvertTable(alpha, s);
    forall i | 0 <= i < |alpha|
      ensures f[i] == PermuteIndex(alpha, s, i) && b[i] == InvertIndex(alpha, s, i)
    {
      TableAt(alpha, s, i);
    }
    forall i | 0 <= i < |alpha|
      ensures b[f[i]] == i && f[b[i]] == i
    {
      IndexInverse(alpha, s, i);
      WrapInRange(i, |alpha|);
    }
  }

  /** A permutation whose cycles have at most two letters, such as a
   *  reflector's, has one table for both directions, its own inverse. */
  lemma TablesInvolution(alpha: seq<char>, s: string)
    requires Canonical(alpha, s) && ShortCycles(s)
    ensures InvertTable(alpha, s) == PermuteTable(alpha, s)
    ensures SelfInverse(PermuteTable(alpha, s))
  {
    var f, b := PermuteTable(alpha, s), InvertTable(alpha, s);
    forall i | 0 <= i < |alpha|
      ensures f[i] == PermuteIndex(alpha, s, i) && b[i] == InvertIndex(alpha, s, i)
    {
      TableAt(alpha, s, i);
    }
    forall i | 0 <= i < |alpha|
      ensures b[i] == f[i] && f[f[i]] == i
    {
      IndexInvolution(alpha, s, i);
      WrapInRange(i, |alpha|);
    }
  }

  /** The tables of `w` cover an alphabet of `n` characters. */
  predicate Wired(n: int, w: Wheel)
  {
    n > 0 && |w.fwd| == n && |w.bwd| == n
  }

  /** A wired wheel whose tables undo each other. */
  predicate WheelOk(n: int, w: Wheel)
  {
    Wired(n, w) && Inverses(w.fwd, w.bwd)
  }

  predicate Rotates(w: Wheel)
  {
    w.kind.Moving?
  }

  /** reflecting(): true only for the reflector. The machine does not ask
   *  it; which slot holds a reflector is left to the configuration. */
  predicate Reflecting(w: Wheel)
  {
    w.kind.Reflector?
  }

  /** A moving rotor is at a notch when the character of its setting is one
   *  of its notches. */
  predicate AtNotch(alpha: seq<char>, w: Wheel)
  {
    w.kind.Moving? && 0 <= w.setting < |alpha| && alpha[w.setting] in w.kind.notches
  }

  /** advance: a moving rotor goes one position on, modulo the alphabet
   *  size; the other variants keep their setting. */
  function Advanced(n: int, w: Wheel): (v: Wheel)
    requires n > 0
    ensures v.fwd == w.fwd && v.bwd == w.bwd && v.kind == w.kind && v.ring == w.ring
    ensures Rotates(w) ==> v.setting == (w.setting + 1) % n
    ensures !Rotates(w) ==> v == w
  {
    WrapMod(w.setting + 1, n);
    if w.kind.Moving? then w.(setting := Wrap(w.setting + 1, n)) else w
  }

  /** convertForward: the contact reached through the wiring, entered and
   *  left with the offset setting - ring. */
  function Forward(n: int, w: Wheel, p: int): (r: int)
    requires Wired(n, w)
    ensures 0 <= r < n
  {
    var o := w.setting - w.ring;
    Wrap(w.fwd[Wrap(p + o, n)] - o, n)
  }

  /** convertBackward: the same through the inverse wiring. */
  function Backward(n: int, w: Wheel, e: int): (r: int)
    requires Wired(n, w)
    ensures 0 <= r < n
  {
    var o := w.setting - w.ring;
    Wrap(w.bwd[Wrap(e + o, n)] - o, n)
  }

  /** Going back through a rotor undoes going forward through it, and the
   *  other way round, for every contact taken modulo the alphabet size. */
  lemma ForwardBackward(n: int, w: Wheel, p: int)
    requires WheelOk(n, w)
    ensures Backward(n, w, Forward(n, w, p)) == Wrap(p, n)
    ensures Forward(n, w, Backward(n, w, p)) == Wrap(p, n)
  {
    BackwardOfForward(n, w, p);
    ForwardOfBackward(n, w, p);
  }

  lemma BackwardOfForward(n: int, w: Wheel, p: int)
    requires WheelOk(n, w)
    ensures Backward(n, w, Forward(n, w, p)) == Wrap(p, n)
  {
    var o := w.setting - w.ring;
    var q := Wrap(p + o, n);
    var f := Forward(n, w, p);
    assert Wrap(f + o, n) == w.fwd[q] by {
      Reenter(n, w.fwd[q], o);
    }
    assert w.bwd[w.fwd[q]] == q;
    assert Backward(n, w, f) == Wrap(q - o, n);
    Unshift(n, o, p);
  }

  lemma ForwardOfBackward(n: int, w: Wheel, p: int)
    requires WheelOk(n, w)
    ensures Forward(n, w, Backward(n, w, p)) == Wrap(p, n)
  {
    var o := w.setting - w.ring;
    var q := Wrap(p + o, n);
    var b := Backward(n, w, p);
    assert Wrap(b + o, n) == w.bwd[q] by {
      Reenter(n, w.bwd[q], o);
    }
    assert w.fwd[w.bwd[q]] == q;
    assert Forward(n, w, b) == Wrap(q - o, n);
    Unshift(n, o, p);
  }

  /** A contact in range that leaves with the offset and re-enters with it
   *  comes back to itself. */
  lemma Reenter(n: int, x: int, o: int)
    requires 0 <= x < n
    ensures Wrap(Wrap(x - o, n) + o, n) == x
  {
    WrapSum(x - o, o, n);
    assert x - o + o == x;
    WrapInRange(x, n);
  }

  /** Leaving with the offset a wrapped contact of p + o gives back p. */
  lemma Unshift(n: int, o: int, p: int)
    requires n > 0
    ensures Wrap(Wrap(p + o, n) - o, n) == Wrap(p, n)
  {
    WrapSum(p + o, -o, n);
    assert p + o + -o == p;
  }

  /** A wheel whose tables are one self-inverse table converts the same way
   *  in both directions, and converting twice gives the contact back. */
  lemma ReflectorInvolution(n: int, w: Wheel, p: int)
    requires Wired(n, w) && w.bwd == w.fwd && SelfInverse(w.fwd)
    ensures Backward(n, w, p) == Forward(n, w, p)
    ensures Backward(n, w, Backward(n, w, p)) == Wrap(p, n)
  {
    ForwardBackward(n, w, p);
  }

  /** A self-inverse wheel without a fixed point never converts a contact
   *  to itself, whatever its setting. */
  lemma ReflectorNoFixedPoint(n: int, w: Wheel, p: int)
    requires Wired(n, w) && SelfInverse(w.fwd)
    requires forall i :: 0 <= i < n ==> w.fwd[i] != i
    requires 0 <= p < n
    ensures Forward(n, w, p) != p
  {
    var o := w.setting - w.ring;
    var q := Wrap(p + o, n);
    assert Wrap(Forward(n, w, p) + o, n) == w.fwd[q] by {
      Reenter(n, w.fwd[q], o);
    }
    assert w.fwd[q] != q;
  }

  class Rotor {
    const name: string
    const perm: Permutation
    const kind: Kind
    var setting: int
    var ringSetting: char

    ghost predicate Valid()
      reads this, perm
    {
      perm.Valid() && 0 <= setting < |perm.alphabet|
    }

    /** The rotor's state as a value; its ring setting must be a character
     *  of the alphabet. */
    function State(): (w: Wheel)
      requires Valid() && ringSetting in perm.alphabet
      reads this, perm
      ensures Wired(|perm.alphabet|, w)
    {
      Wheel(PermuteTable(perm.alphabet, perm.cycles), InvertTable(perm.alphabet, perm.cycles),
            kind, setting, ToInt(perm.alphabet, ringSetting))
    }

    /** A new rotor is at setting 0 with the first alphabet character as
     *  its ring setting. */
    constructor(name: string, perm: Permutation, kind: Kind)
      requires perm.Valid()
      ensures Valid()
      ensures this.name == name && this.perm == perm && this.kind == kind
      ensures setting == 0 && ringSetting == perm.alphabet[0]
    {
      this.name := name;
      this.perm := perm;
      this.kind := kind;
      this.setting := 0;
      this.ringSetting := perm.alphabet[0];
    }

    /** set(int): the setting becomes the position wrapped into range. */
    method Set(posn: int)
      requires Valid()
      modifies this
      ensures Valid()
      ensures setting == posn % |perm.alphabet| && ringSetting == old(ringSetting)
    {
      setting := Wrap(posn, |perm.alphabet|);
      WrapMod(posn, |perm.alphabet|);
    }

    /** set(char): a character of the alphabet sets its index; any other
     *  character is ignored. */
    method SetChar(cposn: char)
      requires Valid()
      modifies this
      ensures Valid() && ringSetting == old(ringSetting)
      ensures cposn in perm.alphabet ==> setting == ToInt(perm.alphabet, cposn)
      ensures cposn !in perm.alphabet ==> setting == old(setting)
    {
      if cposn in perm.alphabet {
        setting := ToInt(perm.alphabet, cposn);
      }
    }

    /** setRing: any character is stored, unchecked. */
    method SetRing(r: char)
      requires Valid()
      modifies this
      ensures Valid() && ringSetting == r && setting == old(setting)
    {
      ringSetting := r;
    }

    /** advance: a moving rotor steps on by one; the others do nothing. */
    method Advance()
      requires Valid()
      modifies this
      ensures Valid() && ringSetting == old(ringSetting)
      ensures setting == if kind.Moving? then (old(setting) + 1) % |perm.alphabet| else old(setting)
    {
      if kind.Moving? {
        WrapMod(setting + 1, |perm.alphabet|);
        setting := Wrap(setting + 1, |perm.alphabet|);
      }
    }

    /** convertForward(p). */
    method ConvertForward(p: int) returns (r: int)
      requires Valid() && ringSetting in perm.alphabet
      ensures r == Forward(|perm.alphabet|, State(), p)
    {
      var ring := ToInt(perm.alphabet, ringSetting);
      var contact := perm.Permute(p + setting - ring);
      r := Wrap(contact - setting + ring, |perm.alphabet|);
      WrapInRange(Wrap(p + setting - ring, |perm.alphabet|), |perm.alphabet|);
      TableAt(perm.alphabet, perm.cycles, Wrap(p + setting - ring, |perm.alphabet|));
    }

    /** convertBackward(e). */
    method ConvertBackward(e: int) returns (r: int)
      requires Valid() && ringSetting in perm.alphabet
      ensures r == Backward(|perm.alphabet|, State(), e)
    {
      var ring := ToInt(perm.alphabet, ringSetting);
      var contact := perm.Invert(e + setting - ring);
      r := Wrap(contact - setting + ring, |perm.alphabet|);
      WrapInRange(Wrap(e + setting - ring, |perm.alphabet|), |perm.alphabet|);
      TableAt(perm.alphabet, perm.cycles, Wrap(e + setting - ring, |perm.alphabet|));
    }
  }
}
