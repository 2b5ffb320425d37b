/** The machine: a row of rotor slots (slot 0 the reflector), an optional
 *  plugboard, the stepping decision of one keystroke and the signal path
 *  plugboard, rotors right to left, rotors left to right, plugboard back.
 *  The pure part works on the rotors' states as `Wheel` values; the class
 *  drives the rotor objects and is proved against it. */
module Machines {
  import opened Chars
  import opened Cycles
  import opened Validation
  import opened Permutations
  import opened Rotors

  // ----- stepping -----------------------------------------------------------

  /** Slot k is at its notch and the slot on its left rotates, so the left
   *  slot is pushed along. */
  predicate Pushes(alpha: seq<char>, ws: seq<Wheel>, k: int)
  {
    1 <= k < |ws| && Rotates(ws[k - 1]) && AtNotch(alpha, ws[k])
  }

  /** Slot j is advanced on a keystroke: the rightmost slot always, a slot
   *  pushed by its right neighbour, and a slot that pushes its left
   *  neighbour (the double step). A row of fewer than two slots never
   *  steps. */
  predicate Steps(alpha: seq<char>, ws: seq<Wheel>, j: int)
  {
    |ws| >= 2 && 0 <= j < |ws|
    && (j == |ws| - 1 || Pushes(alpha, ws, j + 1) || Pushes(alpha, ws, j))
  }

  /** Two rows of wheels with the same wiring, kinds and ring settings:
   *  only settings may differ. */
  predicate SameWiring(ws: seq<Wheel>, vs: seq<Wheel>)
  {
    |vs| == |ws|
    && forall j :: 0 <= j < |ws| ==>
      vs[j].fwd == ws[j].fwd && vs[j].bwd == ws[j].bwd && vs[j].kind == ws[j].kind && vs[j].ring == ws[j].ring
  }

  /** One keystroke's stepping: every slot in the advance set is advanced
   *  once, all decisions taken on the state before the keystroke. */
  function StepWheels(alpha: seq<char>, ws: seq<Wheel>): (vs: seq<Wheel>)
    requires |alpha| > 0
    ensures |vs| == |ws|
  {
    seq(|ws|, j requires 0 <= j < |ws| => if Steps(alpha, ws, j) then Advanced(|alpha|, ws[j]) else ws[j])
  }

  /** The row after k keystrokes. */
  function StepN(alpha: seq<char>, ws: seq<Wheel>, k: nat): (vs: seq<Wheel>)
    requires |alpha| > 0
    ensures |vs| == |ws|
    decreases k
  {
    if k == 0 then ws else StepWheels(alpha, StepN(alpha, ws, k - 1))
  }

  /** A keystroke changes no wiring, kind or ring, and leaves the slots
   *  that do not rotate as they were. */
  lemma StepKeeps(alpha: seq<char>, ws: seq<Wheel>)
    requires |alpha| > 0
    ensures SameWiring(ws, StepWheels(alpha, ws))
    ensures forall j :: 0 <= j < |ws| && !Rotates(ws[j]) ==> StepWheels(alpha, ws)[j] == ws[j]
  {
  }

  /** The same after any number of keystrokes. */
  lemma {:induction false} StepNKeeps(alpha: seq<char>, ws: seq<Wheel>, k: nat)
    requires |alpha| > 0
    ensures SameWiring(ws, StepN(alpha, ws, k))
    ensures forall j :: 0 <= j < |ws| && !Rotates(ws[j]) ==> StepN(alpha, ws, k)[j] == ws[j]
    decreases k
  {
    if k > 0 {
      StepNKeeps(alpha, ws, k - 1);
      StepKeeps(alpha, StepN(alpha, ws, k - 1));
    }
  }

  /** Keystrokes keep a row wired, its tables inverse to each other, and
   *  its reflector in slot 0. */
  lemma RowAfter(alpha: seq<char>, ws: seq<Wheel>, k: nat)
    requires |alpha| > 0 && AllWired(|alpha|, ws)
    ensures AllWired(|alpha|, StepN(alpha, ws, k))
    ensures AllOk(|alpha|, ws) ==> AllOk(|alpha|, StepN(alpha, ws, k))
    ensures ReflectorRow(|alpha|, ws) ==> ReflectorRow(|alpha|, StepN(alpha, ws, k))
  {
    StepNKeeps(alpha, ws, k);
  }

  /** A reflector and three moving rotors at the given settings; the middle
   *  rotor's notch is the second character, the right rotor's the first. */
  function Row(alpha: seq<char>, f: seq<int>, b: seq<int>, s: seq<int>): seq<Wheel>
    requires |alpha| >= 2 && |s| == 4
  {
    [Wheel(f, b, Reflector, s[0], 0), Wheel(f, b, Moving({}), s[1], 0),
     Wheel(f, b, Moving({alpha[1]}), s[2], 0), Wheel(f, b, Moving({alpha[0]}), s[3], 0)]
  }

  /** The double step: the right rotor leaves its notch and pushes the
   *  middle one onto its own notch; on the next keystroke the middle rotor
   *  moves again, together with the left one; after that only the right
   *  rotor moves. The reflector never moves. */
  lemma DoubleStep(alpha: seq<char>, f: seq<int>, b: seq<int>)
    requires ValidAlphabet(alpha) && |alpha| >= 4
    ensures StepWheels(alpha, Row(alpha, f, b, [0, 0, 0, 0])) == Row(alpha, f, b, [0, 0, 1, 1])
    ensures StepWheels(alpha, Row(alpha, f, b, [0, 0, 1, 1])) == Row(alpha, f, b, [0, 1, 2, 2])
    ensures StepWheels(alpha, Row(alpha, f, b, [0, 1, 2, 2])) == Row(alpha, f, b, [0, 1, 2, 3])
  {
    FirstStep(alpha, f, b);
    SecondStep(alpha, f, b);
    ThirdStep(alpha, f, b);
  }

  lemma FirstStep(alpha: seq<char>, f: seq<int>, b: seq<int>)
    requires ValidAlphabet(alpha) && |alpha| >= 4
    ensures StepWheels(alpha, Row(alpha, f, b, [0, 0, 0, 0])) == Row(alpha, f, b, [0, 0, 1, 1])
  {
    var ws := Row(alpha, f, b, [0, 0, 0, 0]);
    var vs := StepWheels(alpha, ws);
    assert Pushes(alpha, ws, 3) && !Pushes(alpha, ws, 2) && !Pushes(alpha, ws, 1);
    assert vs[2] == Advanced(|alpha|, ws[2]) && vs[3] == Advanced(|alpha|, ws[3]);
    assert vs[1] == ws[1];
  }

  lemma SecondStep(alpha: seq<char>, f: seq<int>, b: seq<int>)
    requires ValidAlphabet(alpha) && |alpha| >= 4
    ensures StepWheels(alpha, Row(alpha, f, b, [0, 0, 1, 1])) == Row(alpha, f, b, [0, 1, 2, 2])
  {
    var ws := Row(alpha, f, b, [0, 0, 1, 1]);
    var vs := StepWheels(alpha, ws);
    assert alpha[1] != alpha[0];
    assert Pushes(alpha, ws, 2) && !Pushes(alpha, ws, 3) && !Pushes(alpha, ws, 1);
    assert vs[1] == Advanced(|alpha|, ws[1]) && vs[2] == Advanced(|alpha|, ws[2]);
    assert vs[3] == Advanced(|alpha|, ws[3]);
  }

  lemma ThirdStep(alpha: seq<char>, f: seq<int>, b: seq<int>)
    requires ValidAlphabet(alpha) && |alpha| >= 4
    ensures StepWheels(alpha, Row(alpha, f, b, [0, 1, 2, 2])) == Row(alpha, f, b, [0, 1, 2, 3])
  {
    var ws := Row(alpha, f, b, [0, 1, 2, 2]);
    var vs := StepWheels(alpha, ws);
    assert alpha[2] != alpha[0] && alpha[2] != alpha[1];
    assert !Pushes(alpha, ws, 3) && !Pushes(alpha, ws, 2) && !Pushes(alpha, ws, 1);
    assert vs[1] == ws[1] && vs[2] == ws[2];
    assert vs[3] == Advanced(|alpha|, ws[3]);
  }

  // ----- the signal path ----------------------------------------------------

  /** The plugboard as index tables; none is the identity. */
  datatype Board = NoBoard | Plugs(fwd: seq<int>, bwd: seq<int>)

  predicate BoardWired(n: int, b: Board)
  {
    b.Plugs? ==> |b.fwd| == n && |b.bwd| == n && InRange(b.fwd, n) && InRange(b.bwd, n)
  }

  predicate BoardOk(n: int, b: Board)
  {
    b.Plugs? ==> |b.fwd| == n && Inverses(b.fwd, b.bwd)
  }

  predicate AllWired(n: int, ws: seq<Wheel>)
  {
    forall j :: 0 <= j < |ws| ==> Wired(n, ws[j])
  }

  predicate AllOk(n: int, ws: seq<Wheel>)
  {
    forall j :: 0 <= j < |ws| ==> WheelOk(n, ws[j])
  }

  /** The plugboard on the way in: its permute table, or the index itself
   *  when there is no plugboard. */
  function Plug(n: int, b: Board, c: int): (r: int)
    requires BoardWired(n, b) && 0 <= c < n
    ensures 0 <= r < n
    ensures b.NoBoard? ==> r == c
    ensures b.Plugs? ==> r == b.fwd[c]
  {
    if b.NoBoard? then c else b.fwd[c]
  }

  /** The plugboard on the way out: its invert table, or the index itself
   *  when there is no plugboard. */
  function Unplug(n: int, b: Board, c: int): (r: int)
    requires BoardWired(n, b) && 0 <= c < n
    ensures 0 <= r < n
    ensures b.NoBoard? ==> r == c
    ensures b.Plugs? ==> r == b.bwd[c]
  {
    if b.NoBoard? then c else b.bwd[c]
  }

  /** Through slots k and up, right to left: the last slot converts
   *  first. */
  function Fwd(n: int, ws: seq<Wheel>, k: int, p: int): (r: int)
    requires n > 0 && AllWired(n, ws) && 0 <= k <= |ws|
    ensures (k < |ws| || 0 <= p < n) ==> 0 <= r < n
    decreases |ws| - k
  {
    if k == |ws| then p else Forward(n, ws[k], Fwd(n, ws, k + 1, p))
  }

  /** Through slots k and up, left to right, backwards through each. */
  function Bwd(n: int, ws: seq<Wheel>, k: int, p: int): (r: int)
    requires n > 0 && AllWired(n, ws) && 0 <= k <= |ws|
    ensures (k < |ws| || 0 <= p < n) ==> 0 <= r < n
    decreases |ws| - k
  {
    if k == |ws| then p else Bwd(n, ws, k + 1, Backward(n, ws[k], p))
  }

  /** The first slot of the forward pass: slot 1, or none in an empty
   *  row. */
  function Tail(ws: seq<Wheel>): (k: int)
    ensures 0 <= k <= |ws| && (ws != [] ==> k == 1)
  {
    if ws == [] then 0 else 1
  }

  /** convert(c) after stepping: plugboard, every slot but the reflector
   *  forward, every slot backward, plugboard inverse. */
  function Encipher(n: int, b: Board, ws: seq<Wheel>, c: int): (r: int)
    requires n > 0 && AllWired(n, ws) && BoardWired(n, b) && 0 <= c < n
    ensures 0 <= r < n
  {
    var x := Plug(n, b, c);
    var y := Bwd(n, ws, 0, Fwd(n, ws, Tail(ws), x));
    Unplug(n, b, y)
  }

  /** The backward pass undoes the forward pass through slots k and up,
   *  and the other way round. */
  lemma {:induction false} RowInverse(n: int, ws: seq<Wheel>, k: int, p: int)
    requires n > 0 && AllOk(n, ws) && 0 <= k <= |ws| && 0 <= p < n
    ensures Bwd(n, ws, k, Fwd(n, ws, k, p)) == p
    ensures Fwd(n, ws, k, Bwd(n, ws, k, p)) == p
    decreases |ws| - k
  {
    if k < |ws| {
      var y := Fwd(n, ws, k + 1, p);
      RowInverse(n, ws, k + 1, p);
      ForwardBackward(n, ws[k], y);
      WrapInRange(y, n);
      var z := Backward(n, ws[k], p);
      RowInverse(n, ws, k + 1, z);
      ForwardBackward(n, ws[k], p);
      WrapInRange(p, n);
    }
  }

  /** The reflector condition: slot 0 converts with one self-inverse table
   *  in both directions. */
  predicate ReflectorRow(n: int, ws: seq<Wheel>)
  {
    |ws| >= 1 && ws[0].bwd == ws[0].fwd && SelfInverse(ws[0].fwd)
  }

  /** The machine is its own inverse: with a reflector in slot 0 and a
   *  plugboard that undoes itself, enciphering the output of a keystroke
   *  on the same rotor positions gives the input back. */
  lemma Reciprocal(n: int, b: Board, ws: seq<Wheel>, c: int)
    requires n > 0 && AllOk(n, ws) && ReflectorRow(n, ws) && BoardOk(n, b) && 0 <= c < n
    ensures Encipher(n, b, ws, Encipher(n, b, ws, c)) == c
  {
    var x := Plug(n, b, c);
    var u := Fwd(n, ws, 1, x);
    var v := Backward(n, ws[0], u);
    var w := Bwd(n, ws, 1, v);
    assert Encipher(n, b, ws, c) == Unplug(n, b, w);
    var d := Unplug(n, b, w);
    assert Plug(n, b, d) == w;
    RowInverse(n, ws, 1, v);
    ReflectorInvolution(n, ws[0], u);
    WrapInRange(u, n);
    assert Backward(n, ws[0], v) == u;
    RowInverse(n, ws, 1, x);
  }

  /** A reflector without a fixed point makes every keystroke change its
   *  letter. */
  lemma NoSelfEncipher(n: int, b: Board, ws: seq<Wheel>, c: int)
    requires n > 0 && AllOk(n, ws) && ReflectorRow(n, ws) && BoardOk(n, b) && 0 <= c < n
    requires forall i :: 0 <= i < n ==> ws[0].fwd[i] != i
    ensures Encipher(n, b, ws, c) != c
  {
    var x := Plug(n, b, c);
    var u := Fwd(n, ws, 1, x);
    var v := Backward(n, ws[0], u);
    var w := Bwd(n, ws, 1, v);
    ReflectorInvolution(n, ws[0], u);
    ReflectorNoFixedPoint(n, ws[0], u);
    assert v != u;
    RowInverse(n, ws, 1, x);
    RowInverse(n, ws, 1, v);
    assert w != x by {
      assert Fwd(n, ws, 1, w) == v && Fwd(n, ws, 1, x) == u;
    }
    assert Unplug(n, b, w) != c by {
      assert Plug(n, b, Unplug(n, b, w)) == w;
    }
  }

  // ----- messages -----------------------------------------------------------

  /** The message without its whitespace. */
  function Strip(msg: string): (r: string)
    ensures forall k :: 0 <= k < |r| ==> !IsWhitespace(r[k])
    ensures |r| <= |msg|
    decreases |msg|
  {
    if msg == [] then []
    else Strip(msg[..|msg| - 1]) + (if IsWhitespace(msg[|msg| - 1]) then [] else [msg[|msg| - 1]])
  }

  /** Every character of the message is whitespace or in the alphabet. */
  predicate Typeable(alpha: seq<char>, msg: string)
  {
    forall k :: 0 <= k < |msg| && !IsWhitespace(msg[k]) ==> msg[k] in alpha
  }

  /** The letter that typing `x` gives as the k-th keystroke from the row
   *  `ws`. */
  function Key(alpha: seq<char>, b: Board, ws: seq<Wheel>, k: nat, x: char): (y: char)
    requires ValidAlphabet(alpha) && AllWired(|alpha|, ws) && BoardWired(|alpha|, b) && x in alpha
    ensures y in alpha && !IsWhitespace(y)
  {
    var vs := StepN(alpha, ws, k);
    RowAfter(alpha, ws, k);
    alpha[Encipher(|alpha|, b, vs, ToInt(alpha, x))]
  }

  /** convert(msg) from the row `ws`: the j-th letter of the message is
   *  enciphered after j + 1 keystrokes. */
  function Encode(alpha: seq<char>, b: Board, ws: seq<Wheel>, msg: string): (out: string)
    requires ValidAlphabet(alpha) && AllWired(|alpha|, ws) && BoardWired(|alpha|, b) && Typeable(alpha, msg)
    ensures |out| == |Strip(msg)|
    ensures forall k :: 0 <= k < |out| ==> out[k] in alpha
    decreases |msg|
  {
    if msg == [] then []
    else
      var pre := msg[..|msg| - 1];
      var x := msg[|msg| - 1];
      assert Typeable(alpha, pre) by {
        forall k | 0 <= k < |pre| ensures pre[k] == msg[k] { }
      }
      if IsWhitespace(x) then Encode(alpha, b, ws, pre)
      else Encode(alpha, b, ws, pre) + [Key(alpha, b, ws, |Strip(pre)| + 1, x)]
  }

  /** One more character of the message: whitespace changes nothing,
   *  anything else is stripped into the text and enciphered after one more
   *  keystroke. */
  lemma EncodeNext(alpha: seq<char>, b: Board, ws: seq<Wheel>, msg: string, i: int)
    requires ValidAlphabet(alpha) && AllWired(|alpha|, ws) && BoardWired(|alpha|, b) && Typeable(alpha, msg)
    requires 0 <= i < |msg|
    ensures Typeable(alpha, msg[..i]) && Typeable(alpha, msg[..i + 1])
    ensures IsWhitespace(msg[i]) ==> Strip(msg[..i + 1]) == Strip(msg[..i])
    ensures IsWhitespace(msg[i]) ==> Encode(alpha, b, ws, msg[..i + 1]) == Encode(alpha, b, ws, msg[..i])
    ensures !IsWhitespace(msg[i]) ==> msg[i] in alpha && |Strip(msg[..i + 1])| == |Strip(msg[..i])| + 1
    ensures !IsWhitespace(msg[i]) ==>
      Encode(alpha, b, ws, msg[..i + 1])
      == Encode(alpha, b, ws, msg[..i])
         + [Key(alpha, b, ws, |Strip(msg[..i])| + 1, msg[i])]
  {
    assert msg[..i + 1][..i] == msg[..i];
    assert Typeable(alpha, msg[..i + 1]) by {
      forall k | 0 <= k < i + 1 ensures msg[..i + 1][k] == msg[k] { }
    }
  }

  /** Text made of alphabet characters only is its own stripped form. */
  lemma {:induction false} StripLetters(alpha: seq<char>, s: string)
    requires ValidAlphabet(alpha) && forall k :: 0 <= k < |s| ==> s[k] in alpha
    ensures Strip(s) == s
    decreases |s|
  {
    if s != [] {
      var pre := s[..|s| - 1];
      StripLetters(alpha, pre);
      assert pre + [s[|s| - 1]] == s;
    }
  }

  /** A letter typed after the text `s`: it is kept by stripping and
   *  enciphered after one more keystroke than the letters of `s`. */
  lemma EncodeAppend(alpha: seq<char>, b: Board, ws: seq<Wheel>, s: string, x: char)
    requires ValidAlphabet(alpha) && AllWired(|alpha|, ws) && BoardWired(|alpha|, b)
    requires Typeable(alpha, s) && x in alpha
    ensures Typeable(alpha, s + [x])
    ensures Strip(s + [x]) == Strip(s) + [x]
    ensures Encode(alpha, b, ws, s + [x])
      == Encode(alpha, b, ws, s) + [Key(alpha, b, ws, |Strip(s)| + 1, x)]
  {
    var m := s + [x];
    assert m[..|m| - 1] == s;
    assert !IsWhitespace(x);
  }

  /** The step of MessageReciprocal: if deciphering the enciphered `s`
   *  gives `s` back, it still does after one more letter. */
  lemma ReciprocalAppend(alpha: seq<char>, b: Board, ws: seq<Wheel>, s: string, x: char)
    requires ValidAlphabet(alpha) && AllOk(|alpha|, ws) && ReflectorRow(|alpha|, ws) && BoardOk(|alpha|, b)
    requires Typeable(alpha, s) && x in alpha
    requires Typeable(alpha, Encode(alpha, b, ws, s))
    requires Encode(alpha, b, ws, Encode(alpha, b, ws, s)) == Strip(s)
    ensures Typeable(alpha, s + [x])
    ensures Typeable(alpha, Encode(alpha, b, ws, s + [x]))
    ensures Encode(alpha, b, ws, Encode(alpha, b, ws, s + [x])) == Strip(s + [x])
  {
    EncodeAppend(alpha, b, ws, s, x);
    var es := Encode(alpha, b, ws, s);
    StripLetters(alpha, es);
    EncodeAppend(alpha, b, ws, es, Key(alpha, b, ws, |Strip(s)| + 1, x));
    KeyReciprocal(alpha, b, ws, |Strip(s)| + 1, x);
  }

  /** Typing the letter that the k-th keystroke produced, again as the k-th
   *  keystroke, gives the original letter. */
  lemma KeyReciprocal(alpha: seq<char>, b: Board, ws: seq<Wheel>, k: nat, x: char)
    requires ValidAlphabet(alpha) && AllOk(|alpha|, ws) && ReflectorRow(|alpha|, ws) && BoardOk(|alpha|, b)
    requires x in alpha
    ensures Key(alpha, b, ws, k, Key(alpha, b, ws, k, x)) == x
  {
    var n := |alpha|;
    var vs := StepN(alpha, ws, k);
    RowAfter(alpha, ws, k);
    var c := ToInt(alpha, x);
    var d := Encipher(n, b, vs, c);
    ToIntToChar(alpha, d);
    Reciprocal(n, b, vs, c);
  }

  /** With a reflector without a fixed point, no keystroke gives back the
   *  letter typed. */
  lemma KeyNoSelf(alpha: seq<char>, b: Board, ws: seq<Wheel>, k: nat, x: char)
    requires ValidAlphabet(alpha) && AllOk(|alpha|, ws) && ReflectorRow(|alpha|, ws) && BoardOk(|alpha|, b)
    requires forall i :: 0 <= i < |alpha| ==> ws[0].fwd[i] != i
    requires x in alpha
    ensures Key(alpha, b, ws, k, x) != x
  {
    var n := |alpha|;
    var vs := StepN(alpha, ws, k);
    RowAfter(alpha, ws, k);
    StepNKeeps(alpha, ws, k);
    var c := ToInt(alpha, x);
    NoSelfEncipher(n, b, vs, c);
    ToIntToChar(alpha, Encipher(n, b, vs, c));
  }

  /** A non-empty text is its prefix followed by its last character. */
  lemma LastSplit(msg: string)
    requires msg != []
    ensures msg == msg[..|msg| - 1] + [msg[|msg| - 1]]
  {
  }

  /** Deciphering a message with the machine set as it was for enciphering
   *  gives the message back, without its whitespace. */
  lemma {:induction false} MessageReciprocal(alpha: seq<char>, b: Board, ws: seq<Wheel>, msg: string)
    requires ValidAlphabet(alpha) && AllOk(|alpha|, ws) && ReflectorRow(|alpha|, ws) && BoardOk(|alpha|, b)
    requires Typeable(alpha, msg)
    ensures Typeable(alpha, Encode(alpha, b, ws, msg))
    ensures Encode(alpha, b, ws, Encode(alpha, b, ws, msg)) == Strip(msg)
    decreases |msg|
  {
    if msg != [] {
      var pre := msg[..|msg| - 1];
      var x := msg[|msg| - 1];
      EncodeNext(alpha, b, ws, msg, |msg| - 1);
      MessageReciprocal(alpha, b, ws, pre);
      if IsWhitespace(x) {
        assert msg[..|msg|] == msg;
      } else {
        ReciprocalAppend(alpha, b, ws, pre, x);
        LastSplit(msg);
      }
    }
  }

  /** No letter of a message enciphers to itself when the reflector has no
   *  fixed point. */
  lemma {:induction false} MessageNoSelf(alpha: seq<char>, b: Board, ws: seq<Wheel>, msg: string)
    requires ValidAlphabet(alpha) && AllOk(|alpha|, ws) && ReflectorRow(|alpha|, ws) && BoardOk(|alpha|, b)
    requires forall i :: 0 <= i < |alpha| ==> ws[0].fwd[i] != i
    requires Typeable(alpha, msg)
    ensures forall k :: 0 <= k < |Strip(msg)| ==> Encode(alpha, b, ws, msg)[k] != Strip(msg)[k]
    decreases |msg|
  {
    if msg != [] {
      var pre := msg[..|msg| - 1];
      var x := msg[|msg| - 1];
      assert Typeable(alpha, pre) by {
        forall k | 0 <= k < |pre| ensures pre[k] == msg[k] { }
      }
      MessageNoSelf(alpha, b, ws, pre);
      if !IsWhitespace(x) {
        KeyNoSelf(alpha, b, ws, |Strip(pre)| + 1, x);
      }
    }
  }

  // ----- the objects --------------------------------------------------------

  /** The slot at which each name first appears in the catalog, or the
   *  catalog's size when no rotor has that name. */
  function FirstNamed(catalog: seq<Rotor>, name: string): (k: int)
    ensures 0 <= k <= |catalog|
    ensures k < |catalog| ==> catalog[k].name == name
    ensures forall m :: 0 <= m < k ==> catalog[m].name != name
    decreases |catalog|
  {
    if catalog == [] then 0
    else if catalog[0].name == name then 0
    else 1 + FirstNamed(catalog[1..], name)
  }

  /** insertRotors: for each name in order, the first catalog rotor with
   *  that name; names without one are skipped. */
  function Select(catalog: seq<Rotor>, names: seq<string>): (rs: seq<Rotor>)
    ensures |rs| <= |names|
    ensures forall r :: r in rs ==> r in catalog
    decreases |names|
  {
    if names == [] then []
    else
      var k := FirstNamed(catalog, names[|names| - 1]);
      Select(catalog, names[..|names| - 1]) + (if k < |catalog| then [catalog[k]] else [])
  }

  predicate Named(catalog: seq<Rotor>, name: string)
  {
    exists r :: r in catalog && r.name == name
  }

  /** Every requested name found: one slot per name, each rotor carrying
   *  the name asked for. */
  lemma {:induction false} SelectNamed(catalog: seq<Rotor>, names: seq<string>)
    requires forall i :: 0 <= i < |names| ==> Named(catalog, names[i])
    ensures |Select(catalog, names)| == |names|
    ensures forall i :: 0 <= i < |names| ==> Select(catalog, names)[i].name == names[i]
    decreases |names|
  {
    if names != [] {
      var pre := names[..|names| - 1];
      assert forall i :: 0 <= i < |pre| ==> pre[i] == names[i];
      SelectNamed(catalog, pre);
      var last := names[|names| - 1];
      var r :| r in catalog && r.name == last;
      var k := FirstNamed(catalog, last);
      var j :| 0 <= j < |catalog| && catalog[j] == r;
      assert k < |catalog|;
    }
  }

  predicate DistinctRotors(rs: seq<Rotor>)
  {
    forall i, j :: 0 <= i < j < |rs| ==> rs[i] != rs[j]
  }

  /** The states of a row of rotors. */
  function WheelsOf(rs: seq<Rotor>): (ws: seq<Wheel>)
    requires forall j :: 0 <= j < |rs| ==> rs[j].Valid() && rs[j].ringSetting in rs[j].perm.alphabet
    reads set j | 0 <= j < |rs| :: rs[j], set j | 0 <= j < |rs| :: rs[j].perm
    ensures |ws| == |rs|
    ensures forall j :: 0 <= j < |rs| ==> ws[j] == rs[j].State()
  {
    seq(|rs|, j requires 0 <= j < |rs| && rs[j].Valid() && rs[j].ringSetting in rs[j].perm.alphabet
                reads if 0 <= j < |rs| then {rs[j], rs[j].perm} else {} => rs[j].State())
  }

  /** setRotors: the setting slot i receives, from a string of the right
   *  length whose (i-1)-th character is in the alphabet. */
  function SettingAfter(alpha: seq<char>, numRotors: int, s: string, i: int, current: int): (r: int)
    requires ValidAlphabet(alpha)
    ensures 1 <= i <= |s| && |s| == numRotors - 1 && s[i - 1] in alpha ==> 0 <= r < |alpha| && alpha[r] == s[i - 1]
    ensures 1 <= i <= |s| && |s| == numRotors - 1 && s[i - 1] !in alpha ==> r == current
    ensures !(1 <= i <= |s| && |s| == numRotors - 1) ==> r == current
  {
    if |s| == numRotors - 1 && 1 <= i <= |s| && s[i - 1] in alpha then ToInt(alpha, s[i - 1]) else current
  }

  /** The plugboard tables: a valid plugboard undoes itself. */
  lemma PlugboardInvolution(alpha: seq<char>, s: string)
    requires Canonical(alpha, s) && PairCycles(s)
    ensures InvertTable(alpha, s) == PermuteTable(alpha, s)
    ensures BoardOk(|alpha|, Plugs(PermuteTable(alpha, s), InvertTable(alpha, s)))
  {
    PairCyclesShort(s);
    TablesInvolution(alpha, s);
  }

  /** The stepping loop's progress: what the advance list holds once slots
   *  |ws|-1 down to i + 1 have been examined. */
  ghost predicate Planned(alpha: seq<char>, ws: seq<Wheel>, i: int, j: int)
  {
    0 <= j < |ws|
    && ((j == |ws| - 1 && i < j) || (i < j + 1 && Pushes(alpha, ws, j + 1)) || (i < j && Pushes(alpha, ws, j)))
  }

  /** Advancing exactly the planned slots of a row is one keystroke's
   *  stepping of that row. */
  lemma StepFromPlan(alpha: seq<char>, ws0: seq<Wheel>, ws: seq<Wheel>, plan: seq<int>)
    requires |alpha| > 0 && SameWiring(ws0, ws)
    requires forall j :: j in plan <==> Steps(alpha, ws0, j)
    requires forall i :: 0 <= i < |ws| ==>
      ws[i].setting == if i in plan && ws0[i].kind.Moving? then (ws0[i].setting + 1) % |alpha| else ws0[i].setting
    ensures ws == StepWheels(alpha, ws0)
  {
    var vs := StepWheels(alpha, ws0);
    forall i | 0 <= i < |ws|
      ensures ws[i] == vs[i]
    {
      if Steps(alpha, ws0, i) {
        assert vs[i] == Advanced(|alpha|, ws0[i]);
      } else {
        assert vs[i] == ws0[i];
      }
    }
  }

  /** The rotor `r` is the wheel `w`, advanced once when `moved` and it
   *  is a moving rotor: same wiring, kind and ring. */
  ghost predicate Slot(alpha: seq<char>, r: Rotor, w: Wheel, moved: bool)
    reads r, r.perm
  {
    |alpha| > 0 && r.Valid() && r.perm.alphabet == alpha && r.ringSetting in alpha
    && w.fwd == PermuteTable(alpha, r.perm.cycles)
    && w.bwd == InvertTable(alpha, r.perm.cycles)
    && w.kind == r.kind
    && w.ring == ToInt(alpha, r.ringSetting)
    && r.setting == if moved && w.kind.Moving? then (w.setting + 1) % |alpha| else w.setting
  }

  /** A rotor matching a wheel has that wheel's wiring, kind and ring, and
   *  its setting, advanced or not. */
  lemma SlotState(alpha: seq<char>, r: Rotor, w: Wheel, moved: bool)
    requires Slot(alpha, r, w, moved)
    ensures r.State().fwd == w.fwd && r.State().bwd == w.bwd
    ensures r.State().ring == w.ring && r.State().kind == w.kind
    ensures r.State().setting == if moved && w.kind.Moving? then (w.setting + 1) % |alpha| else w.setting
  {
  }

  /** The row `rs` is the row `ws0` with the slots of `plan` advanced. */
  ghost predicate Moved(alpha: seq<char>, rs: seq<Rotor>, ws0: seq<Wheel>, plan: seq<int>)
    reads set j | 0 <= j < |rs| :: rs[j], set j | 0 <= j < |rs| :: rs[j].perm
  {
    |ws0| == |rs| && forall i :: 0 <= i < |rs| ==> Slot(alpha, rs[i], ws0[i], i in plan)
  }

  /** A row advanced by a plan that follows the stepping rules is the row
   *  one keystroke later. */
  lemma Restep(alpha: seq<char>, rs: seq<Rotor>, ws0: seq<Wheel>, plan: seq<int>)
    requires |alpha| > 0 && Moved(alpha, rs, ws0, plan)
    requires forall j :: j in plan <==> Steps(alpha, ws0, j)
    ensures WheelsOf(rs) == StepWheels(alpha, ws0)
  {
    var ws := WheelsOf(rs);
    forall i | 0 <= i < |rs|
      ensures ws[i].fwd == ws0[i].fwd && ws[i].bwd == ws0[i].bwd
      ensures ws[i].ring == ws0[i].ring && ws[i].kind == ws0[i].kind
      ensures ws[i].setting == if i in plan && ws0[i].kind.Moving? then (ws0[i].setting + 1) % |alpha|
                               else ws0[i].setting
    {
      SlotState(alpha, rs[i], ws0[i], i in plan);
    }
    StepFromPlan(alpha, ws0, ws, plan);
  }

  /** Advances every slot of the plan once; the plan names each slot at
   *  most once. */
  method AdvanceAll(alpha: seq<char>, rs: seq<Rotor>, ghost ws0: seq<Wheel>, plan: seq<int>)
    requires |alpha| > 0 && DistinctRotors(rs) && RowReady(alpha, rs) && ws0 == WheelsOf(rs)
    requires forall j :: j in plan ==> 0 <= j < |rs|
    requires forall a, b :: 0 <= a < b < |plan| ==> plan[a] != plan[b]
    modifies rs
    ensures RowReady(alpha, rs) && Moved(alpha, rs, ws0, plan)
  {
    for k := 0 to |plan|
      invariant Moved(alpha, rs, ws0, plan[..k])
    {
      var p := plan[k];
      assert plan[..k + 1] == plan[..k] + [p];
      assert p in plan && p !in plan[..k];
      assert Slot(alpha, rs[p], ws0[p], false);
      rs[p].Advance();
      assert Slot(alpha, rs[p], ws0[p], true);
      forall i | 0 <= i < |rs| && i != p
        ensures Slot(alpha, rs[i], ws0[i], i in plan[..k + 1])
      {
        assert rs[i] != rs[p];
      }
    }
    assert plan[..|plan|] == plan;
  }

  ghost predicate RowReady(alpha: seq<char>, rs: seq<Rotor>)
    reads set j | 0 <= j < |rs| :: rs[j], set j | 0 <= j < |rs| :: rs[j].perm
  {
    forall j :: 0 <= j < |rs| ==> rs[j].Valid() && rs[j].perm.alphabet == alpha && rs[j].ringSetting in alpha
  }

  /** The first loop of the signal path: the slots from the rightmost down
   *  to slot 1 convert forward. */
  method ForwardPass(alpha: seq<char>, rs: seq<Rotor>, ghost ws: seq<Wheel>, x: int) returns (y: int)
    requires |alpha| > 0 && RowReady(alpha, rs) && ws == WheelsOf(rs) && 0 <= x < |alpha|
    ensures y == Fwd(|alpha|, ws, Tail(ws), x)
  {
    var n := |alpha|;
    y := x;
    var i := |rs| - 1;
    while i > 0
      invariant -1 <= i < |rs| && (rs != [] ==> 0 <= i)
      invariant y == Fwd(n, ws, i + 1, x)
    {
      y := rs[i].ConvertForward(y);
      i := i - 1;
    }
  }

  /** The second loop of the signal path: every slot, left to right,
   *  converts backward. */
  method BackwardPass(alpha: seq<char>, rs: seq<Rotor>, ghost ws: seq<Wheel>, x: int) returns (y: int)
    requires |alpha| > 0 && RowReady(alpha, rs) && ws == WheelsOf(rs) && 0 <= x < |alpha|
    ensures y == Bwd(|alpha|, ws, 0, x)
  {
    var n := |alpha|;
    y := x;
    for j := 0 to |rs|
      invariant Bwd(n, ws, 0, x) == Bwd(n, ws, j, y)
    {
      y := rs[j].ConvertBackward(y);
    }
  }

  /** Both loops of the signal path. */
  method Through(alpha: seq<char>, rs: seq<Rotor>, ghost ws: seq<Wheel>, x: int) returns (z: int)
    requires |alpha| > 0 && RowReady(alpha, rs) && ws == WheelsOf(rs) && 0 <= x < |alpha|
    ensures AllWired(|alpha|, ws) && z == Bwd(|alpha|, ws, 0, Fwd(|alpha|, ws, Tail(ws), x))
  {
    var y := ForwardPass(alpha, rs, ws, x);
    z := BackwardPass(alpha, rs, ws, y);
  }

  /** An absent plugboard, or a valid permutation of `alpha`. */
  ghost predicate PlugReady(alpha: seq<char>, pb: Option<Permutation>)
    reads if pb.Some? then {pb.value} else {}
  {
    pb.Some? ==> pb.value.Valid() && pb.value.alphabet == alpha
  }

  /** The plugboard's tables, or no board. */
  function BoardOf(alpha: seq<char>, pb: Option<Permutation>): (b: Board)
    requires PlugReady(alpha, pb)
    reads if pb.Some? then {pb.value} else {}
    ensures BoardWired(|alpha|, b)
  {
    if pb.None? then NoBoard
    else Plugs(PermuteTable(alpha, pb.value.cycles), InvertTable(alpha, pb.value.cycles))
  }

  /** The plugboard on the way in; no plugboard leaves the index alone. */
  method PlugIn(alpha: seq<char>, pb: Option<Permutation>, ghost b: Board, c: int) returns (x: int)
    requires PlugReady(alpha, pb) && b == BoardOf(alpha, pb) && 0 <= c < |alpha|
    ensures x == Plug(|alpha|, b, c)
  {
    x := c;
    if pb.Some? {
      x := pb.value.Permute(c);
      TableAt(alpha, pb.value.cycles, c);
    }
  }

  /** The plugboard inverse on the way out. */
  method PlugOut(alpha: seq<char>, pb: Option<Permutation>, ghost b: Board, z: int) returns (r: int)
    requires PlugReady(alpha, pb) && b == BoardOf(alpha, pb) && 0 <= z < |alpha|
    ensures r == Unplug(|alpha|, b, z)
  {
    r := z;
    if pb.Some? {
      r := pb.value.Invert(z);
      TableAt(alpha, pb.value.cycles, z);
    }
  }

  /** convert(c) after stepping, on the plugboard `pb` and the row `rs`. */
  method SignalPath(alpha: seq<char>, pb: Option<Permutation>, rs: seq<Rotor>, ghost b: Board, ghost ws: seq<Wheel>, c: int) returns (r: int)
    requires |alpha| > 0 && PlugReady(alpha, pb) && RowReady(alpha, rs) && 0 <= c < |alpha|
    requires b == BoardOf(alpha, pb) && ws == WheelsOf(rs)
    ensures AllWired(|alpha|, ws) && BoardWired(|alpha|, b) && r == Encipher(|alpha|, b, ws, c)
  {
    var x := PlugIn(alpha, pb, b, c);
    var z := Through(alpha, rs, ws, x);
    r := PlugOut(alpha, pb, b, z);
  }

  class Machine {
    const alphabet: seq<char>
    const numRotors: int
    const pawls: int
    const allRotors: seq<Rotor>
    var slots: seq<Rotor>
    var plugboard: Option<Permutation>

    /** The catalog's rotors and their permutations. */
    ghost function Catalog(): set<object>
    {
      (set r | r in allRotors :: r as object) + (set r | r in allRotors :: r.perm as object)
    }

    ghost function Plugboard(): set<object>
      reads this
    {
      if plugboard.Some? then {plugboard.value as object} else {}
    }

    /** The configuration checks of the constructor hold, every catalog
     *  rotor is valid on the machine's alphabet, the slots hold catalog
     *  rotors and a plugboard is a valid permutation of two-letter cycles. */
    ghost predicate Valid()
      reads this, Catalog(), Plugboard()
    {
      ValidAlphabet(alphabet) && numRotors > 1 && 0 <= pawls < numRotors
      && (forall r :: r in allRotors ==> r.Valid() && r.perm.alphabet == alphabet)
      && (forall r :: r in slots ==> r in allRotors)
      && PlugReady(alphabet, plugboard)
      && (plugboard.Some? ==> PairCycles(plugboard.value.cycles))
    }

    /** Ready to convert: no rotor in two slots, every ring setting in the
     *  alphabet. */
    ghost predicate Ready()
      reads this, set j | 0 <= j < |slots| :: slots[j], set j | 0 <= j < |slots| :: slots[j].perm
    {
      DistinctRotors(slots) && RowReady(alphabet, slots)
    }

    function Wheels(): (ws: seq<Wheel>)
      requires Valid() && Ready()
      reads this, Catalog(), Plugboard()
      ensures |ws| == |slots| && AllWired(|alphabet|, ws)
    {
      WheelsOf(slots)
    }

    function Board(): (b: Board)
      requires Valid()
      reads this, Catalog(), Plugboard()
      ensures BoardWired(|alphabet|, b)
    {
      BoardOf(alphabet, plugboard)
    }

    /** The plugboard's tables undo each other. */
    lemma PlugboardOk()
      requires Valid()
      ensures BoardOk(|alphabet|, Board())
    {
      if plugboard.Some? {
        PlugboardInvolution(alphabet, plugboard.value.cycles);
      }
    }

    /** Every slot's tables undo each other. */
    lemma WheelsOk()
      requires Valid() && Ready()
      ensures AllOk(|alphabet|, Wheels())
    {
      var ws := Wheels();
      forall j | 0 <= j < |ws|
        ensures WheelOk(|alphabet|, ws[j])
      {
        TablesInverse(alphabet, slots[j].perm.cycles);
      }
    }

    /** A reflector in slot 0, whose cycles have at most two letters, makes
     *  a message deciphered from the same starting positions come back
     *  without its whitespace. */
    lemma MessageRoundTrip(msg: string)
      requires Valid() && Ready() && |slots| >= 1 && ShortCycles(slots[0].perm.cycles)
      requires Typeable(alphabet, msg)
      ensures Typeable(alphabet, Encode(alphabet, Board(), Wheels(), msg))
      ensures Encode(alphabet, Board(), Wheels(), Encode(alphabet, Board(), Wheels(), msg)) == Strip(msg)
    {
      WheelsOk();
      PlugboardOk();
      TablesInvolution(alphabet, slots[0].perm.cycles);
      MessageReciprocal(alphabet, Board(), Wheels(), msg);
    }

    constructor Init(alphabet: seq<char>, numRotors: int, pawls: int, allRotors: seq<Rotor>)
      ensures this.alphabet == alphabet && this.numRotors == numRotors && this.pawls == pawls
      ensures this.allRotors == allRotors && slots == [] && plugboard == None
    {
      this.alphabet := alphabet;
      this.numRotors := numRotors;
      this.pawls := pawls;
      this.allRotors := allRotors;
      this.slots := [];
      this.plugboard := None;
    }

    /** Machine(alpha, numRotors, pawls, allRotors): more than one slot and
     *  fewer pawls than slots, or the matching failure. */
    static method New(alphabet: seq<char>, numRotors: int, pawls: int, allRotors: seq<Rotor>)
      returns (r: Result<Machine>)
      requires ValidAlphabet(alphabet)
      requires forall rr :: rr in allRotors ==> rr.Valid() && rr.perm.alphabet == alphabet
      ensures r.Ok? <==> numRotors > 1 && 0 <= pawls < numRotors
      ensures r.Err? ==> r.error == (if numRotors <= 1 then TooFewRotors else BadPawls)
      ensures r.Ok? ==> fresh(r.value) && r.value.Valid() && r.value.slots == [] && r.value.plugboard == None
      ensures r.Ok? ==> r.value.alphabet == alphabet && r.value.numRotors == numRotors
                        && r.value.pawls == pawls && r.value.allRotors == allRotors
    {
      if numRotors <= 1 {
        return Err(TooFewRotors);
      }
      if pawls < 0 || pawls >= numRotors {
        return Err(BadPawls);
      }
      var m := new Machine.Init(alphabet, numRotors, pawls, allRotors);
      r := Ok(m);
    }

    /** insertRotors(names). */
    method InsertRotors(names: seq<string>)
      requires Valid()
      modifies this
      ensures Valid() && plugboard == old(plugboard)
      ensures slots == Select(allRotors, names)
    {
      slots := [];
      for i := 0 to |names|
        invariant Valid() && plugboard == old(plugboard)
        invariant slots == Select(allRotors, names[..i])
      {
        assert names[..i + 1][..i] == names[..i];
        var k := 0;
        while k < |allRotors|
          invariant 0 <= k <= |allRotors|
          invariant forall m :: 0 <= m < k ==> allRotors[m].name != names[i]
          invariant slots == Select(allRotors, names[..i])
        {
          if allRotors[k].name == names[i] {
            slots := slots + [allRotors[k]];
            break;
          }
          k := k + 1;
        }
      }
      assert names[..|names|] == names;
    }

    /** setRotors(setting): with numRotors - 1 characters, slot i + 1 is
     *  set to the i-th; slot 0 and every slot on any other length keep
     *  their settings. */
    method SetRotors(setting: string)
      requires Valid() && DistinctRotors(slots)
      requires |setting| == numRotors - 1 ==> |slots| >= numRotors
      modifies slots
      ensures Valid() && slots == old(slots) && plugboard == old(plugboard)
      ensures forall i :: 0 <= i < |slots| ==> slots[i].ringSetting == old(slots[i].ringSetting)
      ensures forall i :: 0 <= i < |slots| ==>
        slots[i].setting == SettingAfter(alphabet, numRotors, setting, i, old(slots[i].setting))
    {
      if |setting| == numRotors - 1 {
        for i := 0 to |setting|
          invariant Valid() && slots == old(slots) && plugboard == old(plugboard)
          invariant forall k :: 0 <= k < |slots| ==> slots[k].ringSetting == old(slots[k].ringSetting)
          invariant forall k :: 0 <= k < |slots| ==>
            slots[k].setting == (if 1 <= k <= i then SettingAfter(alphabet, numRotors, setting, k, old(slots[k].setting))
                                 else old(slots[k].setting))
        {
          slots[i + 1].SetChar(setting[i]);
        }
      }
    }

    /** setPlugboard(p): accepted exactly when its cycles text is adjacent
     *  two-letter cycles; otherwise the old plugboard stays. */
    method SetPlugboard(p: Permutation) returns (err: Option<Error>)
      requires Valid() && p.Valid() && p.alphabet == alphabet
      modifies this
      ensures Valid() && slots == old(slots)
      ensures err.None? <==> PairCycles(p.cycles)
      ensures err.None? ==> plugboard == Some(p)
      ensures err.Some? ==> err.value == InvalidPlugboard && plugboard == old(plugboard)
    {
      if PairCycles(p.cycles) {
        plugboard := Some(p);
        err := None;
      } else {
        err := Some(InvalidPlugboard);
      }
    }

    /** The toAdvance list of convert(c): exactly the slots that step, each
     *  once. */
    method PlanAdvance() returns (plan: seq<int>)
      requires Valid() && Ready()
      ensures forall j :: j in plan <==> Steps(alphabet, Wheels(), j)
      ensures forall a, b :: 0 <= a < b < |plan| ==> plan[a] != plan[b]
    {
      ghost var ws := Wheels();
      plan := [];
      var i := |slots| - 1;
      while i > 0
        invariant -1 <= i < |slots| && (|slots| > 0 ==> 0 <= i)
        invariant forall j :: j in plan <==> Planned(alphabet, ws, i, j)
        invariant forall j :: j in plan ==> i <= j
        invariant i == |slots| - 1 ==> plan == []
        invariant forall a, b :: 0 <= a < b < |plan| ==> plan[a] != plan[b]
      {
        var r := slots[i];
        var neighbor := slots[i - 1];
        var notched := r.kind.Moving? && alphabet[r.setting] in r.kind.notches;
        var rotates := neighbor.kind.Moving?;
        assert notched && rotates <==> Pushes(alphabet, ws, i);
        assert i - 1 !in plan;
        if i == |slots| - 1 {
          if notched && rotates {
            plan := plan + [i - 1, i];
          } else {
            plan := plan + [i];
          }
        } else if notched && rotates {
          plan := plan + [i - 1];
          if i !in plan {
            plan := plan + [i];
          }
        }
        i := i - 1;
      }
    }

    /** convert(c): the rotors step, then the index goes through the
     *  plugboard and the rotors in their new positions. */
    method Convert(c: int) returns (r: int)
      requires Valid() && Ready() && 0 <= c < |alphabet|
      modifies slots
      ensures Valid() && Ready() && slots == old(slots) && plugboard == old(plugboard)
      ensures Wheels() == StepWheels(alphabet, old(Wheels()))
      ensures r == Encipher(|alphabet|, Board(), Wheels(), c)
    {
      StepRotors();
      r := Signal(c);
    }

    /** The first half of convert(c): every slot of the toAdvance list is
     *  advanced once. */
    method StepRotors()
      requires Valid() && Ready()
      modifies slots
      ensures Valid() && Ready() && slots == old(slots) && plugboard == old(plugboard)
      ensures Wheels() == StepWheels(alphabet, old(Wheels()))
    {
      ghost var ws0 := Wheels();
      var plan := PlanAdvance();
      AdvanceAll(alphabet, slots, ws0, plan);
      Restep(alphabet, slots, ws0, plan);
    }

    /** The second half of convert(c): plugboard, the slots right to left
     *  except the reflector, all slots left to right, plugboard inverse. */
    method Signal(c: int) returns (r: int)
      requires Valid() && Ready() && 0 <= c < |alphabet|
      ensures r == Encipher(|alphabet|, Board(), Wheels(), c)
    {
      r := SignalPath(alphabet, plugboard, slots, Board(), Wheels(), c);
    }

    /** One non-whitespace character of convert(msg): a keystroke, then the
     *  character's image, which is the key stroke's value on the starting
     *  wheels `ws0` after `k0` earlier keystrokes. */
    method Keystroke(x: char, ghost b: Board, ghost ws0: seq<Wheel>, ghost k0: nat) returns (y: char)
      requires Valid() && Ready() && x in alphabet && AllWired(|alphabet|, ws0)
      requires Board() == b && Wheels() == StepN(alphabet, ws0, k0)
      modifies slots
      ensures Valid() && Ready() && slots == old(slots) && plugboard == old(plugboard)
      ensures Board() == b && Wheels() == StepN(alphabet, ws0, k0 + 1)
      ensures y == Key(alphabet, b, ws0, k0 + 1, x)
    {
      var change := Convert(ToInt(alphabet, x));
      y := alphabet[change];
    }

    /** One character of convert(msg): whitespace is passed over, any other
     *  character is typed and its image appended. */
    method TypeChar(msg: string, i: nat, out0: string, ghost b: Board, ghost ws0: seq<Wheel>, ghost k0: nat)
      returns (out: string, ghost k: nat)
      requires Valid() && Ready() && Typeable(alphabet, msg) && i < |msg| && AllWired(|alphabet|, ws0)
      requires Board() == b && k0 == |Strip(msg[..i])| && Wheels() == StepN(alphabet, ws0, k0)
      requires out0 == Encode(alphabet, b, ws0, msg[..i])
      modifies slots
      ensures Valid() && Ready() && slots == old(slots) && plugboard == old(plugboard)
      ensures Board() == b && k == |Strip(msg[..i + 1])| && Wheels() == StepN(alphabet, ws0, k)
      ensures out == Encode(alphabet, b, ws0, msg[..i + 1])
    {
      EncodeNext(alphabet, b, ws0, msg, i);
      out, k := out0, k0;
      if !IsWhitespace(msg[i]) {
        var y := Keystroke(msg[i], b, ws0, k0);
        k := k0 + 1;
        out := out0 + [y];
      }
    }

    /** convert(msg): whitespace is dropped, every other character is
     *  enciphered after its own keystroke. */
    method ConvertMessage(msg: string) returns (out: string)
      requires Valid() && Ready() && Typeable(alphabet, msg)
      modifies slots
      ensures Valid() && Ready() && slots == old(slots) && plugboard == old(plugboard)
      ensures Wheels() == StepN(alphabet, old(Wheels()), |Strip(msg)|)
      ensures out == Encode(alphabet, Board(), old(Wheels()), msg)
    {
      ghost var ws0 := Wheels();
      ghost var b := Board();
      ghost var k := 0;
      out := [];
      for i := 0 to |msg|
        invariant Valid() && Ready() && slots == old(slots) && plugboard == old(plugboard)
        invariant Board() == b && k == |Strip(msg[..i])| && Wheels() == StepN(alphabet, ws0, k)
        invariant out == Encode(alphabet, b, ws0, msg[..i])
      {
        out, k := TypeChar(msg, i, out, b, ws0, k);
      }
      assert msg[..|msg|] == msg;
    }
  }
}
