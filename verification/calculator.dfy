/**
 * The calculator: one arithmetic step on two numerals (validate both, decode
 * both, apply the operation, check the range, encode the result) and the
 * history of results it keeps, which grows at its end and loses its last entry
 * on request.
 */
module Calculator {
  import opened Results
  import opened Symbols
  import opened Validator
  import opened Converter
  import opened NumeralLaws

  /** The four operations of the calculator's buttons. */
  datatype Operation = Add | Subtract | Multiply | Divide

  /** Integer division rounding toward negative infinity, as Python's `//` does. */
  function FloorDiv(a: int, b: int): (q: int)
    requires b != 0
    ensures b > 0 ==> b * q <= a < b * q + b
    ensures b < 0 ==> b * q + b < a <= b * q
  {
    if b > 0 then a / b else (-a) / (-b)
  }

  /** For a non-negative dividend and a positive divisor the quotient is non-negative and at most the dividend. */
  lemma FloorDivNonNegative(a: int, b: int)
    requires a >= 0 && b > 0
    ensures 0 <= FloorDiv(a, b) <= a
  {
    var q := FloorDiv(a, b);
    assert b * (q + 1) == b * q + b > a;
    NonPositiveProduct(b, q + 1);
    ScaleMonotone(1, b, q);
  }

  /** A positive number times a non-positive one is not positive. */
  lemma NonPositiveProduct(b: int, c: int)
    requires b > 0
    ensures c <= 0 ==> b * c <= 0
  {
    if c <= 0 {
      ScaleMonotone(0, -c, b);
      assert b * c == -((-c) * b);
    }
  }

  /** The integer an operation gives on two decoded operands; division by zero is an error. */
  function Apply(op: Operation, a: int, b: int): Result<int, Error> {
    match op
    case Add => Ok(a + b)
    case Subtract => Ok(a - b)
    case Multiply => Ok(a * b)
    case Divide => if b == 0 then Err(DivisionByZero) else Ok(FloorDiv(a, b))
  }

  /** The if/elif dispatch of one step over the four operations. */
  method ApplyOperation(op: Operation, a: int, b: int) returns (r: Result<int, Error>)
    ensures op == Add ==> r == Ok(a + b)
    ensures op == Subtract ==> r == Ok(a - b)
    ensures op == Multiply ==> r == Ok(a * b)
    ensures op == Divide && b != 0 ==> r == Ok(FloorDiv(a, b))
    ensures r.Err? <==> op == Divide && b == 0
    ensures r.Err? ==> r.error == DivisionByZero
  {
    match op {
      case Add =>
        r := Ok(a + b);
      case Subtract =>
        r := Ok(a - b);
      case Multiply =>
        r := Ok(a * b);
      case Divide =>
        if b == 0 {
          return Err(DivisionByZero);
        }
        r := Ok(FloorDiv(a, b));
    }
  }

  /** An integer in [MinRoman, MaxRoman] is encoded as a non-empty numeral that the validator accepts and that decodes back to it. */
  lemma EncodedResult(v: int)
    requires MinRoman <= v <= MaxRoman
    ensures MatchesPattern(ToRoman(v)) && ToRoman(v) != ""
    ensures AllSymbols(ToRoman(v)) && Decode(ToRoman(v)) == v
  {
    RoundTrip(v);
    ToRomanValid(v);
  }

  /**
   * The part of the step after decoding: apply the operation, refuse a result
   * outside [MinRoman, MaxRoman], encode the rest.
   */
  function Evaluate(op: Operation, a: int, b: int): (r: Result<string, Error>)
    ensures r.Ok? ==> MatchesPattern(r.value) && r.value != ""
    ensures r.Ok? ==> AllSymbols(r.value) && Apply(op, a, b) == Ok(Decode(r.value))
    ensures r == Err(DivisionByZero) <==> op == Divide && b == 0
    ensures r.Err? && r.error.OutOfRange? ==>
      Apply(op, a, b) == Ok(r.error.value) && !(MinRoman <= r.error.value <= MaxRoman)
    ensures r.Err? ==> r.error.DivisionByZero? || r.error.OutOfRange?
  {
    match Apply(op, a, b)
    case Err(e) => Err(e)
    case Ok(v) =>
      if !(MinRoman <= v <= MaxRoman) then Err(OutOfRange(v))
      else
        EncodedResult(v);
        Ok(ToRoman(v))
  }

  /**
   * One arithmetic step: the first operand is validated, then the second, both
   * are decoded, and the rest is Evaluate's.
   */
  function Compute(op: Operation, n1: string, n2: string): (r: Result<string, Error>)
    ensures !MatchesPattern(n1) ==> r == Err(InvalidNumeral(n1))
    ensures MatchesPattern(n1) && !MatchesPattern(n2) ==> r == Err(InvalidNumeral(n2))
    ensures MatchesPattern(n1) && MatchesPattern(n2) ==>
      AllSymbols(n1) && AllSymbols(n2) && r == Evaluate(op, Decode(n1), Decode(n2))
    ensures MatchesPattern(n1) && MatchesPattern(n2) && op == Divide ==>
      (r == Err(DivisionByZero) <==> n2 == "")
  {
    if ValidateRoman(n1).Fail? then Err(InvalidNumeral(n1))
    else if ValidateRoman(n2).Fail? then Err(InvalidNumeral(n2))
    else
      DecodeValidRange(n1);
      DecodeValidRange(n2);
      Evaluate(op, Decode(n1), Decode(n2))
  }

  /** The step's arithmetic on decoded operands: dispatch, range check, encoding. */
  method EvaluateDecoded(op: Operation, a: int, b: int) returns (r: Result<string, Error>)
    ensures r == Evaluate(op, a, b)
  {
    var outcome := ApplyOperation(op, a, b);
    if outcome.Err? {
      return Err(outcome.error);
    }
    var value := outcome.value;
    if !(MinRoman <= value <= MaxRoman) {
      return Err(OutOfRange(value));
    }
    var numeral := IntToRoman(value);
    return Ok(numeral);
  }

  /** The whole step without the history: validate, decode, evaluate. */
  method Calculate(op: Operation, n1: string, n2: string) returns (r: Result<string, Error>)
    ensures r == Compute(op, n1, n2)
  {
    var check := ValidateRoman(n1);
    if check.Fail? {
      return Err(check.error);
    }
    check := ValidateRoman(n2);
    if check.Fail? {
      return Err(check.error);
    }
    DecodeValidRange(n1);
    DecodeValidRange(n2);
    var decoded1 := RomanToInt(n1);
    var decoded2 := RomanToInt(n2);
    r := EvaluateDecoded(op, decoded1.value, decoded2.value);
  }

  // ---------------------------------------------------------------- examples

  /** On operands that are encodings of values in [0, MaxRoman], the step evaluates those values. */
  lemma ComputeEncoded(op: Operation, x: int, y: int)
    requires 0 <= x <= MaxRoman && 0 <= y <= MaxRoman
    ensures Compute(op, ToRoman(x), ToRoman(y)) == Evaluate(op, x, y)
  {
    RoundTrip(x);
    RoundTrip(y);
    ToRomanValid(x);
    ToRomanValid(y);
  }

  // The numerals the examples below use, each spelled out.
  lemma NumeralI() ensures ToRoman(1) == "I" {}
  lemma NumeralII() ensures ToRoman(2) == "II" {}
  lemma NumeralIII() ensures ToRoman(3) == "III" {}
  lemma NumeralV() ensures ToRoman(5) == "V" {}
  lemma NumeralX() ensures ToRoman(10) == "X" {}
  lemma NumeralMMM() ensures ToRoman(3000) == "MMM" {}

  /** II + III is V. */
  lemma AddExample()
    ensures Compute(Add, "II", "III") == Ok("V")
  {
    NumeralII();
    NumeralIII();
    NumeralV();
    ComputeEncoded(Add, 2, 3);
  }

  /** III - V is -2, below MinRoman. */
  lemma NegativeExample()
    ensures Compute(Subtract, "III", "V") == Err(OutOfRange(-2))
  {
    NumeralIII();
    NumeralV();
    ComputeEncoded(Subtract, 3, 5);
  }

  /** X // III is III: the quotient is rounded down. */
  lemma DivideExample()
    ensures Compute(Divide, "X", "III") == Ok("III")
  {
    NumeralX();
    NumeralIII();
    ComputeEncoded(Divide, 10, 3);
  }

  /** MMM * II is 6000, above MaxRoman. */
  lemma LargeProductExample()
    ensures Compute(Multiply, "MMM", "II") == Err(OutOfRange(6000))
  {
    NumeralMMM();
    NumeralII();
    ComputeEncoded(Multiply, 3000, 2);
  }

  /** The empty string is accepted as zero, so dividing by it is a division by zero. */
  lemma EmptyDivisorExample()
    ensures Compute(Divide, "X", "") == Err(DivisionByZero)
  {
    NumeralX();
    ComputeEncoded(Divide, 10, 0);
  }

  /** Two empty operands add up to 0, below MinRoman. */
  lemma EmptySumExample()
    ensures Compute(Add, "", "") == Err(OutOfRange(0))
  {
    ComputeEncoded(Add, 0, 0);
  }

  /** The first operand is checked first; an invalid second one is named when the first passes. */
  lemma InvalidOperandExample()
    ensures Compute(Add, "IIII", "VV") == Err(InvalidNumeral("IIII"))
    ensures Compute(Add, "I", "VV") == Err(InvalidNumeral("VV"))
  {
    FourOnesRejected();
    TwoFivesRejected();
    NumeralI();
    EncodedResult(1);
  }

  /**
   * The calculator window's state: the history of results, oldest first. Every
   * entry is a non-empty numeral the validator accepts.
   */
  class RomanCalculator {
    var memory: seq<string>

    ghost predicate Valid()
      reads this
    {
      forall i | 0 <= i < |memory| :: MatchesPattern(memory[i]) && memory[i] != ""
    }

    /** The history starts empty. */
    constructor()
      ensures Valid()
      ensures memory == []
    {
      memory := [];
    }

    /**
     * realizar_operacao without its dialogs: on success the encoded result is
     * appended to the history; on any error the history is left as it was.
     */
    method PerformOperation(op: Operation, n1: string, n2: string) returns (r: Result<string, Error>)
      requires Valid()
      modifies this
      ensures Valid()
      ensures r == Compute(op, n1, n2)
      ensures r.Ok? ==> memory == old(memory) + [r.value]
      ensures r.Err? ==> memory == old(memory)
    {
      r := Calculate(op, n1, n2);
      if r.Ok? {
        memory := memory + [r.value];
      }
    }

    /** ver_memoria without its dialog: the history, oldest first, with nothing changed. */
    method ViewMemory() returns (entries: seq<string>)
      requires Valid()
      ensures entries == memory
      ensures forall i | 0 <= i < |entries| :: ValidateRoman(entries[i]).Pass? && entries[i] != ""
    {
      entries := memory;
    }

    /**
     * apagar_memoria without its dialogs: an empty history is reported and left
     * empty; otherwise only the most recent entry is removed.
     */
    method EraseLast() returns (r: Outcome<Error>)
      requires Valid()
      modifies this
      ensures Valid()
      ensures old(memory) == [] ==> r == Fail(EmptyMemory) && memory == old(memory)
      ensures old(memory) != [] ==> r == Pass && memory == old(memory)[..|old(memory)| - 1]
    {
      if memory == [] {
        return Fail(EmptyMemory);
      }
      memory := memory[..|memory| - 1];
      return Pass;
    }
  }

  /**
   * A successful operation followed by erasing the last result leaves the
   * history as it was before the operation.
   */
  method OperationThenErase(window: RomanCalculator, op: Operation, n1: string, n2: string)
    returns (r: Result<string, Error>, erased: Outcome<Error>)
    requires window.Valid()
    modifies window
    ensures window.Valid()
    ensures r == Compute(op, n1, n2)
    ensures r.Ok? ==> erased == Pass && window.memory == old(window.memory)
    ensures r.Err? && old(window.memory) != [] ==> erased == Pass && window.memory == old(window.memory)[..|old(window.memory)| - 1]
  {
    r := window.PerformOperation(op, n1, n2);
    erased := window.EraseLast();
  }
}
