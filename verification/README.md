# Roman numeral calculator — verified model

This project models the core of a small Roman numeral calculator. The
calculator reads two numerals and an operation (add, subtract, multiply,
divide). It validates both numerals against the pattern
`M{0,4}(CM|CD|D?C{0,3})(XC|XL|L?X{0,3})(IX|IV|V?I{0,3})` and decodes each one to
an integer. It applies the operation, using floor division for divide, and
refuses division by zero. It refuses a result outside `[MIN_ROMAN, MAX_ROMAN]
= [1, 4999]`, encodes the result back into a numeral, and appends it to a
history (`memoria`). The history can be viewed, and its last entry can be
erased.

Modules:

- `Results`: the `Result` and `Outcome` values and the calculator's errors. These are an
  invalid numeral (naming the input), division by zero, a result out of
  range (carrying the computed value, which the program itself does not
  report), and an empty history.
- `Symbols`: the seven letters and their values (the decoder's dictionary),
  the bounds `MinRoman`/`MaxRoman`, and runs of one letter.
- `Validator`: the pattern is stated twice.
  - `MatchesPattern` gives the language it denotes: a split of the string into a
    thousands run and three place groups.
  - `IsRomanNumeral` is a deterministic left-to-right matcher.
  - `ValidateRoman` (the `validate_roman` check) passes exactly on the
    pattern's language.
- `Converter`:
  - Decoding is the function `Decode` plus `RomanToInt`, the right-to-left scan
    of `romanos_para_inteiros` with its running total and previous value.
  - Encoding is the greedy walk of `inteiros_para_romanos` over its thirteen-entry
    table (`IntToRoman`, with the inner `while` in `TakeWhileFits`). It is
    proved equal to the positional spelling `ToRoman`: a run of M, then one
    spelled digit per decimal place.
- `NumeralLaws` proves what the validator, the decoder and the encoder promise
  about each other:
  - the pattern's language is exactly the set of encoder outputs for `0..4999`;
  - decoding an accepted numeral gives a value in `0..4999`;
  - encoding and decoding are inverse on both sides;
  - accepted and rejected examples.
- `Calculator`:
  - one step of `realizar_operacao` as the function `Compute` and the methods
    `Calculate` and `EvaluateDecoded`;
  - the window's state as the class `RomanCalculator`, whose `memory : seq<string>`
    is appended to by `PerformOperation` and shortened by `EraseLast`;
  - its invariant `Valid()`: every entry is a non-empty numeral the validator accepts.

The empty string is a valid operand of the code:

- Every part of the pattern may be empty, so `re.fullmatch` succeeds on `""`
  (`EmptyAccepted`), and `romanos_para_inteiros("")` is `0`.
- So an empty second operand reaches the divide-by-zero guard at
  interface.py:143 (`EmptyDivisorExample`).
- Two empty operands reach the range check at interface.py:149 with `0`
  (`EmptySumExample`).

## Model

| member | source | states |
|---|---|---|
| `Validator.ValidateRoman` | interface.py:14-18 | passes exactly when the whole string matches the pattern; otherwise fails naming the input |
| `Validator.MatcherCorrect` | interface.py:16 | the left-to-right matcher accepts exactly the strings in the pattern's language |
| `Validator.SplitAccepted` | interface.py:16 | for a split the pattern accepts, the matcher's thousands, hundreds and tens parts end exactly at its cut points, so the matcher accepts the string |
| `Validator.MatchedSplit` | interface.py:16 | the parts the matcher takes form a split the pattern accepts |
| `Converter.RomanToInt` | interface.py:20-32 | the right-to-left scan succeeds exactly when every character is in the dictionary, and then returns `Decode(s)`; otherwise it reports an unknown character with only known ones to its right |
| `Converter.DecodeAppend` | interface.py:25-31 | decoding a concatenation: the left part's letters are signed only by the first letter of the right part |
| `Converter.DecodeSpell` | interface.py:20-32 | a run of M followed by spelled hundreds, tens and units decodes to 1000·th + 100·h + 10·t + u |
| `Converter.RoundTrip` | interface.py:20-46 | for every n ≥ 0, the encoding of n contains only dictionary letters and decodes back to n |
| `Converter.IntToRoman` | interface.py:34-46 | the greedy table walk returns the positional spelling `ToRoman(n)`: "" for n ≤ 0 |
| `Converter.TakeWhileFits` | interface.py:43-45 | the inner loop leaves less than the entry's value and appends exactly what the greedy walk appends at that entry |
| `Converter.GreedyIsPositional` | interface.py:36-46 | the greedy walk over the table spells every integer as a run of M plus one canonical digit per place |
| `Converter.GreedyPlace` | interface.py:36-45 | the four entries of one decimal place (9, 5, 4, 1 units) emit exactly that place's digit and pass the remainder on |
| `NumeralLaws.SpellMatches` | interface.py:16 | every positional spelling with at most four thousands matches the pattern |
| `NumeralLaws.SpellingOf` | interface.py:16 | every string the pattern matches is such a spelling |
| `NumeralLaws.DecodeValidRange` | interface.py:14-32 | an accepted numeral holds only dictionary letters, decodes into 0..MAX_ROMAN, and decodes to 0 exactly when it is empty |
| `NumeralLaws.CanonicalRoundTrip` | interface.py:14-46 | encoding the value of an accepted numeral gives the same numeral back |
| `NumeralLaws.SpellRoundTrip` | interface.py:20-46 | a positional spelling survives decoding then encoding |
| `NumeralLaws.ToRomanValid` | interface.py:34-46 | the encoder gives "" exactly for n ≤ 0, and for n ≥ 0 its output is accepted exactly when n ≤ MAX_ROMAN |
| `NumeralLaws.PatternIsCanonical` | interface.py:16 | a string matches the pattern exactly when it is the encoding of some value in 0..MAX_ROMAN |
| `NumeralLaws.NotCanonical` | interface.py:16 | a string with a letter outside the dictionary, or one that does not encode back to itself, is refused |
| `NumeralLaws.AboveMaximum` | interface.py:10-18 | a string of dictionary letters that decodes above MAX_ROMAN is refused |
| `NumeralLaws.PlaceGroupIsDigit` | interface.py:16 | each alternative of a place group is the spelling of one decimal digit |
| `NumeralLaws.DigitIsPlaceGroup` | interface.py:16 | the spelling of each decimal digit is an alternative of the place group |
| `NumeralLaws.EmptyAccepted` | interface.py:16 | the empty string matches the pattern |
| `NumeralLaws.LargestAccepted` | interface.py:16 | MMMMCMXCIX (4999) matches |
| `NumeralLaws.FourOnesRejected` | interface.py:16 | IIII is refused |
| `NumeralLaws.TwoFivesRejected` | interface.py:16 | VV is refused |
| `NumeralLaws.WrongSubtractionRejected` | interface.py:16 | IC is refused |
| `NumeralLaws.LowerCaseRejected` | interface.py:16 | iv is refused |
| `NumeralLaws.FifthThousandRejected` | interface.py:16 | MMMMM is refused |
| `NumeralLaws.ValidatorExamples` | interface.py:14-18 | ValidateRoman passes on "" and MMMMCMXCIX and fails, naming the input, on IIII, VV, IC, iv, MMMMM |
| `Calculator.FloorDiv` | interface.py:145 | Python's `//`: the quotient is rounded toward negative infinity for both signs of the divisor |
| `Calculator.FloorDivNonNegative` | interface.py:145 | for a non-negative dividend and a positive divisor the quotient lies between 0 and the dividend |
| `Calculator.ApplyOperation` | interface.py:136-147 | the if/elif dispatch gives a+b, a−b, a·b, or the floor quotient for a non-zero divisor, and fails with division by zero exactly on a zero divisor |
| `Calculator.EncodedResult` | interface.py:149-154 | a result inside [MIN_ROMAN, MAX_ROMAN] is encoded as a non-empty accepted numeral that decodes back to it |
| `Calculator.Evaluate` | interface.py:136-154 | on decoded operands: an accepted, non-empty numeral whose value is the operation's result; division by zero exactly for a zero divisor; out of range with the computed value; no other error |
| `Calculator.Compute` | interface.py:128-154 | the first operand is validated first, then the second; on two accepted numerals the step evaluates their decoded values; dividing by an accepted numeral fails with division by zero exactly when it is "" |
| `Calculator.EvaluateDecoded` | interface.py:136-154 | the dispatch, range check and greedy encoding compute `Evaluate` |
| `Calculator.Calculate` | interface.py:129-154 | validation, decoding and evaluation compute `Compute` |
| `Calculator.ComputeEncoded` | interface.py:131-154 | on operands that are encodings of values in 0..MAX_ROMAN, the step evaluates those values |
| `Calculator.AddExample` | interface.py:136-137 | II + III gives V |
| `Calculator.NegativeExample` | interface.py:149-152 | III − V fails as out of range with −2 |
| `Calculator.DivideExample` | interface.py:142-145 | X // III gives III |
| `Calculator.LargeProductExample` | interface.py:149-152 | MMM · II fails as out of range with 6000 |
| `Calculator.EmptyDivisorExample` | interface.py:143-144 | X divided by "" fails with division by zero |
| `Calculator.EmptySumExample` | interface.py:149-152 | "" + "" fails as out of range with 0 |
| `Calculator.InvalidOperandExample` | interface.py:131-132 | an invalid first operand is reported before the second; an invalid second operand is reported when the first passes |
| `Calculator.RomanCalculator.constructor` | interface.py:54 | the history starts empty |
| `Calculator.RomanCalculator.PerformOperation` | interface.py:126-158 | returns `Compute`; on success the result is appended at the end of the history, on any error the history is unchanged; every entry stays an accepted non-empty numeral |
| `Calculator.RomanCalculator.ViewMemory` | interface.py:161-166 | returns the history, oldest first, without changing it; every entry passes the validator |
| `Calculator.RomanCalculator.EraseLast` | interface.py:168-174 | on an empty history reports it and changes nothing; otherwise removes exactly the most recent entry |
| `Calculator.OperationThenErase` | interface.py:155-174 | a successful operation followed by erasing the last entry leaves the history as it was |

## Left out

- The Qt window, its input fields, buttons, labels and message boxes are not modelled. The model returns results and errors instead of showing them.
- The `.strip()` of the input text is not modelled. Operands are the strings after stripping.
- The message texts are not modelled. This covers the messages of `ValueError`, `ZeroDivisionError` and the memory dialogs, the range message's formatting, and `ver_memoria`'s comma-joined display and empty-history message. `ViewMemory` returns the entries themselves.
- The "unknown operation" branch (interface.py:146-147) cannot be reached: the operation is the datatype `Operation` with four values, as the four buttons call it.
- `romanos_para_inteiros` raises `KeyError` on an unknown letter. `RomanToInt` models this as an error carrying that letter. Validation always runs first, so the calculator never reaches this path.
- Python's regular-expression engine is not modelled. It is replaced by the pattern's language (`MatchesPattern`) and a hand-written matcher proved equal to it.
- The computed value carried by `OutOfRange` is the model's own addition: the range error at interface.py:149-152 names only the bounds MIN_ROMAN and MAX_ROMAN and never reports the value.
- Python integers are unbounded, like Dafny's, so there is no overflow to model.
- Application start-up and the event loop (`__main__`) are not modelled.
