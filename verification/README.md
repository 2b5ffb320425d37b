# Enigma cipher engine

A model of the cipher engine of an Enigma machine simulator: the
`Permutation` class, which keeps a permutation of an alphabet as text in
cycle notation such as `(ABC) (DE)` and validates that text; the `Rotor`
class, a permutation turned by a setting and offset by a ring setting; and
the `Machine` class, which chooses rotors from a catalog, sets them, checks
the plugboard, and, for each keystroke, steps the rotors (with the double
step of the middle rotor) and sends the signal through plugboard, rotors,
reflector, rotors and plugboard again.

The model keeps the form of the code. The cycles text is a field of a
`Permutation` class that `AddCycle` and `MapToSelf` extend by appending.
The validators, `permute`/`invert` on characters and `derangement` are
methods with the code's loops, each proved against a function on the text
(`Next`, `Prev`, `PermuteIndex`, `InvertIndex`, `ValidCycle`). The code's
`permute(int)` and `invert(int)` repeat the character scan on `toChar(p)`
and return `toInt` of its answer. The model's `Permute` and `Invert` call
`PermuteChar` and `InvertChar` for that scan instead of repeating its loop. `Rotor` is a class whose
`Set`, `SetChar`, `SetRing` and `Advance` update its fields. Its conversions
are proved equal to the pure `Forward`/`Backward` on a `Wheel` value, the
rotor's state. `Machine` is a class whose slots are a sequence of rotor
objects. `Convert` builds the advance list, advances each rotor on it once,
and runs the two passes, and it is proved equal to `StepWheels` followed by
`Encipher`. `ConvertMessage` is proved equal to `Encode`, the whole message
on the wheel values.

On that pure side the model proves:

- `wrap` gives the Euclidean residue for negative operands, where Java's
  `%` truncates.
- `invert` undoes `permute` on every canonical cycles text, and a text of
  two-letter cycles is its own inverse.
- `convertBackward` undoes `convertForward`.
- Stepping follows the odometer rule with the double step.
- Each keystroke is its own inverse when a reflector is in slot 0.
- No letter enciphers to itself when that reflector has no fixed point.
- Deciphering a message from the same starting positions gives it back
  without its whitespace.

The alphabet is a sequence of distinct characters. `toInt` is a position in
it and `toChar` is an element of it. Java's `%` is modelled as the
truncating remainder, by `JavaRem`.

## Model

| member | source | states |
|---|---|---|
| Chars.ToInt | proj1/enigma/Machine.java:146 | the index given to an alphabet character is in range and holds that character |
| Chars.ToIntToChar | proj1/enigma/Machine.java:146-147 | toInt of toChar(i) is i: the two conversions are inverse |
| Chars.JavaRem | proj1/enigma/Permutation.java:42 | Java's remainder is strictly between -n and n and has the sign of the dividend |
| Chars.JavaRemMod | proj1/enigma/Permutation.java:42 | Java's remainder is Euclidean `%` for a non-negative dividend and minus the residue of the magnitude for a negative one |
| Chars.Wrap | proj1/enigma/Permutation.java:41-47 | wrap(p) lies in [0, n) |
| Chars.WrapMod | proj1/enigma/Permutation.java:41-47 | wrap(p) is the Euclidean residue of p, so it is congruent to p, negative p included |
| Chars.NegativeRemainder | proj1/enigma/Permutation.java:42-45 | adding n to a negative Java remainder gives the residue; a non-negative one is already the residue |
| Cycles.Find | proj1/enigma/Permutation.java:108-109 | the scan's first match is inside the text exactly when the character occurs in it |
| Cycles.FindFrom | proj1/enigma/Permutation.java:108-109 | the scan stops at the first position from k that holds the character, or at the end |
| Cycles.LastOpen | proj1/enigma/Permutation.java:111-113 | the leftward scan stops at the nearest '(' at or before i, and no '(' lies between |
| Cycles.FirstClose | proj1/enigma/Permutation.java:129-131 | the rightward scan stops at the nearest ')' from i on, and no ')' lies between |
| Cycles.Next | proj1/enigma/Permutation.java:106-121 | permute(char) of a character absent from the text is that character |
| Cycles.Prev | proj1/enigma/Permutation.java:124-139 | invert(char) of a character absent from the text is that character |
| Cycles.WalkBack | proj1/enigma/Permutation.java:111-113 | on well-formed text the leftward scan from a letter finds its '(' and passes only letters |
| Cycles.WalkForward | proj1/enigma/Permutation.java:129-131 | on well-formed text the rightward scan from a letter finds its ')' and passes only letters |
| Cycles.NextDefined | proj1/enigma/Permutation.java:106-121 | on well-formed text permute(char) of a letter raises no index error and answers a letter of the text or the letter itself |
| Cycles.PrevDefined | proj1/enigma/Permutation.java:124-139 | on well-formed text invert(char) of a letter raises no index error and answers a letter of the text or the letter itself |
| Cycles.PrevOfNext | proj1/enigma/Permutation.java:106-139 | without repeated letters invert(permute(c)) == c: the last letter of a cycle goes to its first and back |
| Cycles.NextOfPrev | proj1/enigma/Permutation.java:106-139 | without repeated letters permute(invert(c)) == c |
| Cycles.ShortCyclesInvolution | proj1/enigma/Permutation.java:106-139 | when every cycle has at most two letters, permute and invert agree and permuting twice gives the letter back |
| Cycles.SelfCyclesIdentity | proj1/enigma/Permutation.java:142-147 | when every cycle has one letter, as mapToSelf writes them, every letter maps to itself both ways |
| Cycles.FixedPointIff | proj1/enigma/Permutation.java:106-121 | a letter is a fixed point of permute exactly when it is absent or alone in its cycle |
| Cycles.PermuteIndex | proj1/enigma/Permutation.java:56-77 | permute(int) answers an index in range for every integer |
| Cycles.InvertIndex | proj1/enigma/Permutation.java:81-102 | invert(int) answers an index in range for every integer |
| Cycles.IndexWrap | proj1/enigma/Permutation.java:74-76 | permute(p) == permute(wrap(p)) and invert(c) == invert(wrap(c)) |
| Cycles.OverloadsAgree | proj1/enigma/Permutation.java:56-139 | for i in range, permute(i) == toInt(permute(toChar(i))), and likewise for invert |
| Cycles.AbsentFixed | proj1/enigma/Permutation.java:73 | an alphabet index whose character the text does not mention maps to itself both ways |
| Cycles.IndexInverse | proj1/enigma/Permutation.java:56-102 | on a canonical text invert(permute(p)) and permute(invert(p)) are wrap(p) |
| Cycles.IndexInvolution | proj1/enigma/Permutation.java:56-102 | with cycles of at most two letters, invert(p) == permute(p) and permute(permute(p)) == wrap(p) |
| Validation.LastParen | proj1/enigma/Permutation.java:243-251 | the mark that hasNestedCycle keeps is always a parenthesis |
| Validation.PairCyclesLayout | proj1/enigma/Machine.java:84 | text matching the plugboard pattern has '(' at every fourth position, ')' three later, and a length divisible by 4 |
| Validation.PairCyclesShort | proj1/enigma/Machine.java:81-91 | an accepted plugboard text has cycles of at most two letters |
| Validation.ValidCycleCanonical | proj1/enigma/Permutation.java:172-254 | text that passes isValidCycle and has no letter outside a cycle is a permutation of the alphabet |
| Validation.ValidCycle | proj1/enigma/Permutation.java:172-175 | isValidCycle: no repeated letter, no misplaced whitespace or "()", every letter in the alphabet, parentheses alternating from a leading '(' |
| Validation.BadWhitespace | proj1/enigma/Permutation.java:221-233 | some whitespace has neither ')' before it nor '(' after it, or "()" occurs |
| Validation.Nested | proj1/enigma/Permutation.java:238-254 | the text does not start with '(', or a parenthesis repeats the kind of the one before it |
| Validation.CyclesPattern | proj1/enigma/Permutation.java:21-22 | the whole text matches the constructor's pattern: it is empty, or a recogniser whose states are the sets of pattern places reachable so far ends after a closed block; leading whitespace alone is not accepted |
| Validation.SpacesRefused | proj1/enigma/Permutation.java:21-22 | text made only of whitespace matches the pattern exactly when it is empty |
| Validation.PairCycles | proj1/enigma/Machine.java:83-86 | the whole text is one or more adjacent "(xy)" groups with x and y neither '*' nor a parenthesis |
| Validation.AppendCanonical | proj1/enigma/Permutation.java:34-38 | joining two permutations over disjoint letters with a space, as addCycle does, gives a permutation |
| Permutations.Accepted | proj1/enigma/Permutation.java:19-30 | the constructor keeps text that is empty, or matches the pattern, passes isValidCycle and leaves no letter outside a cycle (the last condition is the correction under Findings) |
| Permutations.Addable | proj1/enigma/Permutation.java:34-38 | addCycle appends a cycle that passes isValidCycle, has no letter outside a cycle and shares no letter with the text (the last two are the correction under Findings) |
| Permutations.SelfLoops | proj1/enigma/Permutation.java:142-147 | mapToSelf appends " (c)" for each character in order, when addCycle accepts it |
| Permutations.WhitespaceRefused | proj1/enigma/Permutation.java:21-28 | non-empty whitespace-only text may be given to the constructor and is refused, without reaching isValidCycle |
| Permutations.NewFromWhitespace | proj1/enigma/Permutation.java:21-28 | the constructor given non-empty whitespace-only text raises InvalidCycle |
| Permutations.TrailingSpaceAccepted | proj1/enigma/Permutation.java:21-25 | space after the last cycle and a line break between cycles match the pattern, and "(AB) " is accepted |
| Permutations.LoopAddable | proj1/enigma/Permutation.java:34-38 | the cycle "(c)" is accepted exactly when c is in the alphabet and not yet in the text |
| Permutations.AppendLoopKeeps | proj1/enigma/Permutation.java:142-147 | appending the one-letter cycle of an absent letter keeps the text well formed and changes no other lookup |
| Permutations.LoopLookup | proj1/enigma/Permutation.java:142-147 | after " (x)" is appended, x maps to itself both ways |
| Permutations.PrefixLookup | proj1/enigma/Permutation.java:108-119 | appending text does not change the lookup of a letter already present |
| Permutations.SelfLoopsKeep | proj1/enigma/Permutation.java:142-147 | mapToSelf keeps a permutation, changes no existing lookup and adds every alphabet character it is given |
| Permutations.Permutation.New | proj1/enigma/Permutation.java:19-30 | the constructor succeeds exactly on accepted text and fails with InvalidCycle otherwise; an accepted text is stored as given; the empty text gives the identity |
| Permutations.Permutation.AddCycle | proj1/enigma/Permutation.java:34-38 | an addable cycle is appended after a space, anything else leaves the text unchanged, and the text stays a permutation |
| Permutations.Permutation.MapToSelf | proj1/enigma/Permutation.java:142-147 | the text becomes the one-letter cycles of the characters, appended in order |
| Permutations.Permutation.PermuteChar | proj1/enigma/Permutation.java:106-121 | permute(char) answers the successor of the character in its cycle |
| Permutations.Permutation.InvertChar | proj1/enigma/Permutation.java:124-139 | invert(char) answers the predecessor of the character in its cycle |
| Permutations.Permutation.Permute | proj1/enigma/Permutation.java:56-77 | permute(int), wrapping first when out of range, answers the index of the successor, in range |
| Permutations.Permutation.Invert | proj1/enigma/Permutation.java:81-102 | invert(int), wrapping first when out of range, answers the index of the predecessor, in range |
| Permutations.Permutation.Derangement | proj1/enigma/Permutation.java:160-167 | true exactly when no index in range maps to itself |
| Permutations.Permutation.IsValidCycle | proj1/enigma/Permutation.java:172-175 | isValidCycle is the conjunction of the four checks |
| Permutations.Permutation.IsValidCycleIn | proj1/enigma/Permutation.java:172-175 | the same checks against a given alphabet, as the constructor runs them before the text is stored |
| Permutations.Permutation.HasRepeat | proj1/enigma/Permutation.java:180-200 | true exactly when a letter occurs twice |
| Permutations.Permutation.HasBadWhitespace | proj1/enigma/Permutation.java:221-233 | true exactly when some whitespace has neither ')' before nor '(' after it, or "()" occurs |
| Permutations.Permutation.HasInvalidChars | proj1/enigma/Permutation.java:205-216 | true exactly when some letter is outside the alphabet |
| Permutations.Permutation.HasNestedCycle | proj1/enigma/Permutation.java:238-254 | true exactly when the text does not start with '(' or two parentheses of the same kind follow each other |
| Rotors.PermuteTable | proj1/enigma/Rotor.java:109 | the table of a wiring has one in-range entry per alphabet character |
| Rotors.InvertTable | proj1/enigma/Rotor.java:109 | the table of the inverse has one in-range entry per alphabet character |
| Rotors.TableAt | proj1/enigma/Permutation.java:56-102 | entry i of the tables is permute(i) and invert(i) |
| Rotors.TablesInverse | proj1/enigma/Permutation.java:79-102 | the two tables of a permutation undo each other |
| Rotors.TablesInvolution | proj1/enigma/Permutation.java:56-102 | a permutation with cycles of at most two letters has one self-inverse table |
| Rotors.Rotates | proj1/enigma/Rotor.java:38-40 | only a moving rotor rotates; the base rotor and the reflector do not |
| Rotors.Reflecting | proj1/enigma/Rotor.java:43-45 | only the reflector reflects |
| Rotors.AtNotch | proj1/enigma/Rotor.java:92-94 | a moving rotor is at its notch when the character of its setting is a notch; the base rotor and the reflector never are |
| Rotors.Advanced | proj1/enigma/Rotor.java:96-98 | advance moves a moving rotor one position on, modulo the alphabet size, and leaves any other rotor as it was |
| Rotors.Forward | proj1/enigma/Rotor.java:76-80 | convertForward answers an index in range |
| Rotors.Backward | proj1/enigma/Rotor.java:84-88 | convertBackward answers an index in range |
| Rotors.ForwardBackward | proj1/enigma/Rotor.java:76-88 | convertBackward(convertForward(p)) and convertForward(convertBackward(p)) are wrap(p), whatever the setting and ring |
| Rotors.BackwardOfForward | proj1/enigma/Rotor.java:76-88 | convertBackward undoes convertForward |
| Rotors.ForwardOfBackward | proj1/enigma/Rotor.java:76-88 | convertForward undoes convertBackward |
| Rotors.ReflectorInvolution | proj1/enigma/Rotor.java:76-88 | a rotor with a self-inverse wiring converts the same way in both directions, and converting twice gives the contact back |
| Rotors.ReflectorNoFixedPoint | proj1/enigma/Rotor.java:76-80 | a self-inverse wiring without a fixed point never converts a contact to itself, whatever the setting |
| Rotors.Rotor.constructor | proj1/enigma/Rotor.java:11-15 | a new rotor is at setting 0 with the first alphabet character as ring setting |
| Rotors.Rotor.Set | proj1/enigma/Rotor.java:57-59 | set(posn) makes the setting wrap(posn) and keeps the ring setting |
| Rotors.Rotor.SetChar | proj1/enigma/Rotor.java:68-72 | set(c) makes the setting toInt(c) for an alphabet character and changes nothing otherwise |
| Rotors.Rotor.SetRing | proj1/enigma/Rotor.java:63-65 | setRing stores any character unchecked and keeps the setting |
| Rotors.Rotor.Advance | proj1/enigma/Rotor.java:96-98 | advance steps a moving rotor by one and leaves the others unchanged |
| Rotors.Rotor.ConvertForward | proj1/enigma/Rotor.java:76-80 | convertForward(p) is wrap(permute(p + setting - ring) - setting + ring) |
| Rotors.Rotor.ConvertBackward | proj1/enigma/Rotor.java:84-88 | convertBackward(e) is the same formula through invert |
| Machines.Pushes | proj1/enigma/Machine.java:104-110 | slot k is at its notch and the slot on its left rotates |
| Machines.Steps | proj1/enigma/Machine.java:99-116 | a slot is on the advance list when it is the rightmost, when it is pushed by its right neighbour, or when it pushes its left neighbour; a row of fewer than two slots never steps |
| Machines.StepWheels | proj1/enigma/Machine.java:99-119 | one keystroke's stepping keeps the number of slots |
| Machines.StepN | proj1/enigma/Machine.java:139-151 | k keystrokes keep the number of slots |
| Machines.StepKeeps | proj1/enigma/Machine.java:117-119 | a keystroke changes no wiring, kind or ring, and no rotor that does not rotate |
| Machines.StepNKeeps | proj1/enigma/Machine.java:117-119 | the same after any number of keystrokes |
| Machines.RowAfter | proj1/enigma/Machine.java:117-119 | keystrokes keep a row wired, its tables inverse, and its reflector in slot 0 |
| Machines.DoubleStep | proj1/enigma/Machine.java:99-116 | with three moving rotors the right one pushes the middle one onto its notch; the middle one then steps again with the left one; then only the right one moves; the reflector never moves |
| Machines.Plug | proj1/enigma/Machine.java:120-122 | the index goes through the plugboard's permute table; with no plugboard it stays as it is |
| Machines.Unplug | proj1/enigma/Machine.java:131-133 | the index goes through the plugboard's invert table; with no plugboard it stays as it is |
| Machines.Fwd | proj1/enigma/Machine.java:123-126 | the forward pass answers an index in range |
| Machines.Bwd | proj1/enigma/Machine.java:127-130 | the backward pass answers an index in range |
| Machines.Encipher | proj1/enigma/Machine.java:120-134 | the signal path answers an index in range |
| Machines.RowInverse | proj1/enigma/Machine.java:123-130 | the backward pass through a row undoes the forward pass, and the other way round |
| Machines.Reciprocal | proj1/enigma/Machine.java:120-134 | when slot 0's wiring is its own inverse and the plugboard, if any, has mutually inverse permute and invert tables, enciphering twice on the same positions gives the input back |
| Machines.NoSelfEncipher | proj1/enigma/Machine.java:120-134 | when slot 0's wiring is its own inverse and has no fixed point, no index enciphers to itself |
| Machines.Strip | proj1/enigma/Machine.java:142-143 | the stripped message has no whitespace and is no longer than the message |
| Machines.Key | proj1/enigma/Machine.java:146-147 | a keystroke answers an alphabet character |
| Machines.Encode | proj1/enigma/Machine.java:139-151 | convert(msg) has one alphabet character per non-whitespace character of the message |
| Machines.EncodeNext | proj1/enigma/Machine.java:142-148 | whitespace adds nothing; any other character is enciphered after one more keystroke and appended |
| Machines.EncodeAppend | proj1/enigma/Machine.java:142-148 | a letter typed after a text is kept by stripping and enciphered after one more keystroke |
| Machines.KeyReciprocal | proj1/enigma/Machine.java:146-147 | typing the output of a keystroke as the same keystroke gives the input back |
| Machines.KeyNoSelf | proj1/enigma/Machine.java:146-147 | with a reflector without a fixed point no keystroke gives back its letter |
| Machines.MessageReciprocal | proj1/enigma/Machine.java:139-151 | deciphering the enciphered message from the same positions gives the message back without whitespace |
| Machines.MessageNoSelf | proj1/enigma/Machine.java:139-151 | with a reflector without a fixed point no letter of a message enciphers to itself |
| Machines.FirstNamed | proj1/enigma/Machine.java:59-64 | the catalog scan stops at the first rotor with the name, or at the end when none has it |
| Machines.Select | proj1/enigma/Machine.java:56-66 | insertRotors chooses catalog rotors, at most one per name |
| Machines.SelectNamed | proj1/enigma/Machine.java:56-66 | when every name is in the catalog, slot i holds a rotor named names[i] |
| Machines.SettingAfter | proj1/enigma/Machine.java:71-78 | with numRotors - 1 characters, slot i takes the index of character i - 1. The setting stays when that character is not in the alphabet, on any other length, and for slot 0 |
| Machines.PlugboardInvolution | proj1/enigma/Machine.java:81-91 | an accepted plugboard is its own inverse |
| Machines.StepFromPlan | proj1/enigma/Machine.java:99-119 | advancing exactly the slots that step is one keystroke's stepping |
| Machines.Restep | proj1/enigma/Machine.java:117-119 | rotors advanced by a plan that follows the stepping rule are the row one keystroke later |
| Machines.AdvanceAll | proj1/enigma/Machine.java:117-119 | each slot of the advance list is advanced once and nothing else changes |
| Machines.ForwardPass | proj1/enigma/Machine.java:123-126 | the loop from the rightmost slot down to slot 1 is the forward pass |
| Machines.BackwardPass | proj1/enigma/Machine.java:127-130 | the loop from slot 0 to the rightmost slot is the backward pass |
| Machines.Through | proj1/enigma/Machine.java:123-130 | both loops compose as backward after forward |
| Machines.PlugIn | proj1/enigma/Machine.java:120-122 | the plugboard is applied only when one is set |
| Machines.PlugOut | proj1/enigma/Machine.java:131-133 | the plugboard inverse is applied only when one is set |
| Machines.SignalPath | proj1/enigma/Machine.java:120-134 | the code's signal path is Encipher on the current rotor states |
| Machines.Machine.PlugboardOk | proj1/enigma/Machine.java:81-91 | the plugboard of a valid machine undoes itself |
| Machines.Machine.MessageRoundTrip | proj1/enigma/Machine.java:139-151 | with two-letter cycles in slot 0, a message deciphered from the same starting positions comes back without its whitespace |
| Machines.Machine.New | proj1/enigma/Machine.java:18-32 | the machine is built exactly when numRotors > 1 and 0 <= pawls < numRotors, failing with the matching error otherwise |
| Machines.Machine.InsertRotors | proj1/enigma/Machine.java:56-66 | the slots become the first catalog rotor with each name, in order; the plugboard stays |
| Machines.Machine.SetRotors | proj1/enigma/Machine.java:71-78 | each slot's setting becomes SettingAfter; ring settings, slots and plugboard stay |
| Machines.Machine.SetPlugboard | proj1/enigma/Machine.java:81-91 | the plugboard is accepted exactly when its text is adjacent two-letter cycles; otherwise InvalidPlugboard and the old plugboard stays |
| Machines.Machine.PlanAdvance | proj1/enigma/Machine.java:99-116 | the advance list holds exactly the slots that step, each once |
| Machines.Machine.Convert | proj1/enigma/Machine.java:97-135 | convert(c) steps the row once and answers Encipher on the new positions |
| Machines.Machine.StepRotors | proj1/enigma/Machine.java:99-119 | the advancing half of convert(c) is one keystroke's stepping |
| Machines.Machine.Signal | proj1/enigma/Machine.java:120-134 | the signal half of convert(c) is Encipher |
| Machines.Machine.Keystroke | proj1/enigma/Machine.java:146-147 | a letter of the message is one more keystroke and its image |
| Machines.Machine.TypeChar | proj1/enigma/Machine.java:142-148 | one loop step of convert(msg) extends the output as Encode does |
| Machines.Machine.ConvertMessage | proj1/enigma/Machine.java:139-151 | convert(msg) is Encode from the starting positions and leaves the row stepped once per letter |
| Findings.AcceptedAsWritten | proj1/enigma/Permutation.java:23-29 | the constructor's test as written: empty, or the pattern and isValidCycle |
| Findings.AcceptedCorrection | proj1/enigma/Permutation.java:19-30 | the corrected acceptance test is the written one plus "no letter outside a cycle" |
| Findings.StrayLetterAccepted | proj1/enigma/Permutation.java:21-25 | the written test accepts "(A)B(C)", whose permute('B') answers '(' |
| Findings.AcceptedIsPermutation | proj1/enigma/Permutation.java:19-30 | text the corrected test accepts is a permutation whose invert undoes permute |
| Findings.AddCycleAsWritten | proj1/enigma/Permutation.java:34-38 | addCycle as written: append after a space whenever isValidCycle passes |
| Findings.AddCycleCorrection | proj1/enigma/Permutation.java:34-38 | the corrected addCycle appends only where the written one does, and then the same text |
| Findings.OverlapAccepted | proj1/enigma/Permutation.java:34-38 | the written addCycle appends "(CA)" to "(AB)", after which 'B' and 'C' both map to 'A' |
| Findings.AddablePreservesPermutation | proj1/enigma/Permutation.java:34-38 | appending an addable cycle keeps a permutation whose invert undoes permute |
| Findings.MapToSelfAsWritten | proj1/enigma/Permutation.java:142-147 | mapToSelf as written, on the written addCycle |
| Findings.NullPrefix | proj1/enigma/Permutation.java:142-147 | the written mapToSelf on the null text over "lnu" leaves "null (l) (n) (u)", where 'n' maps to 'u' |
| Findings.EmptyIsIdentity | proj1/enigma/Permutation.java:23-24 | the corrected empty-text constructor gives a permutation that maps every letter to itself |

## Left out

- The `Alphabet` class is not part of this model. It is modelled as a sequence of distinct characters that are neither parentheses nor whitespace, with `toInt` as the position and `toChar` as the element.
- The rotor subclasses (the moving rotor, the reflector and the fixed rotor) are not part of this model. A rotor's `Kind` supplies `rotates`, `atNotch` and `advance`:
  - `Fixed` keeps the base class behaviour.
  - `Moving(notches)` rotates, is at a notch when its setting's character is a notch, and advances by one modulo the alphabet size.
  - `Reflector` reflects.
- `EnigmaException` becomes an `Error` value in a `Result`, or an `Option<Error>` return for `SetPlugboard`.
- 32-bit `int` overflow is not modelled. Integers are unbounded, which matches Java for every index and offset within the alphabet's size.
- `char` is a Dafny `char` and has no UTF-16 surrogates. `Character.isWhitespace` is written out as a fixed set of characters.
- The two regular expressions are hand-written recognisers, not a regex engine: `CyclesPattern` for the constructor and `PairCycles` for the plugboard. `CyclesPattern` is a deterministic automaton built by hand from the pattern's places. Its equivalence with java.util.regex is argued state by state in its comments, not proved; `Permutations.TrailingSpaceAccepted` and `Permutations.WhitespaceRefused` pin down its behaviour on trailing, separating and whitespace-only text.
- The plugboard pattern admits no separators, so a spaced text such as "(AB) (CD)" is refused. The model follows the code.
- Where the code's doc comments ask for more than the code checks, the model follows the code:
  - `setRotors` (proj1/enigma/Machine.java:68-78) says the setting must have numRotors()-1 alphabet characters. It ignores a string of another length and skips characters outside the alphabet.
  - `insertRotors` (proj1/enigma/Machine.java:53-66) says ROTORS[0] names the reflector. It checks no kind and skips names without a catalog rotor.
- Index errors inside the validators become preconditions (`ValidatorsSafe`, `WhitespaceScanSafe`, `ConstructorSafe`). An index error inside `permute`/`invert` becomes `None` in `Next`/`Prev`, which well-formed text never yields.
- `Permutations.Permutation.New`, `Permutations.Permutation.AddCycle` and `Permutations.Permutation.MapToSelf` follow the corrected definitions under Findings, not the code as written.
- `Rotors.Rotor.ConvertForward` and `Rotors.Rotor.ConvertBackward` require the ring setting to be an alphabet character. Otherwise `toInt`'s answer depends on the `Alphabet` class, which is not modelled.
- `Machines.Machine.SetRotors` requires a distinct rotor object in each slot. When the setting has numRotors - 1 characters it also requires enough slots. The code would raise an index error there.
- `Machines.Machine.Convert` and `Machines.Machine.ConvertMessage` require a distinct rotor object in each slot and ring settings in the alphabet. The advance list holds rotor objects, one entry per slot that steps. A rotor in two slots would therefore be advanced twice if both slots step. Besides the rightmost slot, a slot steps only when it is pushed by a neighbour at its notch or pushes one (proj1/enigma/Machine.java:103-115).
- `Machines.Machine.ConvertMessage` requires every non-whitespace character of the message to be in the alphabet. Otherwise `toInt`'s answer depends on the `Alphabet` class, which is not modelled.
- `Machines.Machine.SetPlugboard` requires its argument to be a valid permutation over the machine's alphabet.
- The `pawls` count is checked and stored but never used afterwards, as in the code.
- `convert(msg)` is split into `ConvertMessage`, `TypeChar` and `Keystroke`. `convert(c)` is split into `PlanAdvance`, `StepRotors` and `Signal`, and the passes into `ForwardPass`, `BackwardPass`, `PlugIn` and `PlugOut`.
- The rotor list is a sequence field that `InsertRotors` reassigns, not an `ArrayList` cleared and appended to in place.
- Getters (`name`, `alphabet`, `size`, `setting`, `ringSetting`, `cycles`, `numRotors`, `numPawls`, `getRotors`) and `toString` are field reads. They are not modelled separately.

## Findings

| source | as written | input that shows it | evidently intended | confidence | as-written member | corrected member |
|---|---|---|---|---|---|---|
| proj1/enigma/Permutation.java:21-25 | the pattern `(\s*\(.+\)\s*)*` lets `.+` run across several cycles, so a letter between two cycles passes it and isValidCycle | "(A)B(C)" over "ABC": accepted, and permute('B') answers '(' | every letter of accepted text lies inside a cycle | not executed | Findings.StrayLetterAccepted | Findings.AcceptedIsPermutation |
| proj1/enigma/Permutation.java:34-38 | addCycle checks only isValidCycle on the new cycle, not whether its letters already occur | "(CA)" added to "(AB)" over "ABC": 'B' and 'C' both map to 'A' | the new cycle's letters are not yet in the permutation | not executed | Findings.OverlapAccepted | Findings.AddablePreservesPermutation |
| proj1/enigma/Permutation.java:23-24 | for the empty text mapToSelf runs before the cycles field is set, so the first append concatenates onto null | "" over "lnu": the text becomes "null (l) (n) (u)" and 'n' maps to 'u' | the empty text gives the identity permutation | not executed | Findings.NullPrefix | Findings.EmptyIsIdentity |
