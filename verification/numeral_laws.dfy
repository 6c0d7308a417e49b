/**
 * What the validator, the decoder and the encoder promise about each other:
 * the pattern's language is exactly the set of positional spellings with at
 * most four thousands, encoding and decoding are inverse on it, and the value
 * of an accepted numeral lies between 0 and MaxRoman.
 */
module NumeralLaws {
  import opened Results
  import opened Symbols
  import opened Validator
  import opened Converter

  // ---------------------------------------------------------------- groups and digits

  /** Every alternative of a place group is the spelling of one decimal digit. */
  lemma PlaceGroupIsDigit(g: string, one: char, five: char, ten: char) returns (d: nat)
    requires PlaceGroup(g, one, five, ten)
    ensures d <= 9 && g == Digit(d, one, five, ten)
  {
    if g == [one, ten] {
      d := 9;
    } else if g == [one, five] {
      d := 4;
    } else {
      var k :| 0 <= k <= 3 && (g == Repeat(one, k) || g == [five] + Repeat(one, k));
      d := if g == Repeat(one, k) then k else 5 + k;
    }
  }

  /** The spelling of every decimal digit is one alternative of the place group. */
  lemma DigitIsPlaceGroup(d: nat, one: char, five: char, ten: char)
    requires d <= 9
    ensures PlaceGroup(Digit(d, one, five, ten), one, five, ten)
  {
    var g := Digit(d, one, five, ten);
    if 5 <= d <= 8 {
      assert g == [five] + Repeat(one, d - 5);
    } else if d <= 3 {
      assert g == Repeat(one, d);
    }
  }

  /** A digit is spelled with no letters exactly when it is zero. */
  lemma DigitEmpty(d: nat, one: char, five: char, ten: char)
    requires d <= 9
    ensures Digit(d, one, five, ten) == [] <==> d == 0
  {
    if d > 0 {
      assert |Digit(d, one, five, ten)| > 0;
    }
  }

  // ---------------------------------------------------------------- the pattern's language

  /** A positional spelling with at most four thousands matches the pattern. */
  lemma SpellMatches(th: nat, h: nat, t: nat, u: nat)
    requires th <= 4 && h <= 9 && t <= 9 && u <= 9
    ensures MatchesPattern(Spell(th, h, t, u))
  {
    var dh, dt, du := Digit(h, 'C', 'D', 'M'), Digit(t, 'X', 'L', 'C'), Digit(u, 'I', 'V', 'X');
    var s := Spell(th, h, t, u);
    var i := th;
    var j := i + |dh|;
    var k := j + |dt|;
    assert s == Repeat('M', th) + dh + dt + du;
    assert s[..i] == Repeat('M', th);
    assert s[i..j] == dh;
    assert s[j..k] == dt;
    assert s[k..] == du;
    DigitIsPlaceGroup(h, 'C', 'D', 'M');
    DigitIsPlaceGroup(t, 'X', 'L', 'C');
    DigitIsPlaceGroup(u, 'I', 'V', 'X');
    assert ThousandsRun(s[..i]);
    assert SplitMatches(s, i, j, k);
  }

  /** Every string the pattern matches is a positional spelling with at most four thousands. */
  lemma SpellingOf(s: string) returns (th: nat, h: nat, t: nat, u: nat)
    requires MatchesPattern(s)
    ensures th <= 4 && h <= 9 && t <= 9 && u <= 9
    ensures s == Spell(th, h, t, u)
  {
    var i: nat, j: nat, k: nat :| i <= j <= k <= |s| && SplitMatches(s, i, j, k);
    th := i;
    h := PlaceGroupIsDigit(s[i..j], 'C', 'D', 'M');
    t := PlaceGroupIsDigit(s[j..k], 'X', 'L', 'C');
    u := PlaceGroupIsDigit(s[k..], 'I', 'V', 'X');
    SplitJoin(s, i, j, k);
    assert s[..i] == Repeat('M', i);
  }

  /** Cutting a string at three points and joining the four parts gives it back. */
  lemma SplitJoin(s: string, i: nat, j: nat, k: nat)
    requires i <= j <= k <= |s|
    ensures s == s[..i] + s[i..j] + s[j..k] + s[k..]
  {
    assert s[..j] == s[..i] + s[i..j];
    assert s[..k] == s[..j] + s[j..k];
    assert s == s[..k] + s[k..];
  }

  // ---------------------------------------------------------------- values

  /** The place values of a spelling are recovered by dividing its value by 1000, 100 and 10. */
  lemma PlacesOfValue(th: nat, h: nat, t: nat, u: nat)
    requires h <= 9 && t <= 9 && u <= 9
    ensures var v := 1000 * th + 100 * h + 10 * t + u;
      && v / 1000 == th
      && v % 1000 / 100 == h
      && v % 1000 % 100 / 10 == t
      && v % 1000 % 100 % 10 == u
  {
    var below := 100 * h + 10 * t + u;
    var v := 1000 * th + below;
    assert v / 1000 == th && v % 1000 == below;
    assert below / 100 == h && below % 100 == 10 * t + u;
    assert (10 * t + u) / 10 == t && (10 * t + u) % 10 == u;
  }

  /** A spelling is empty exactly when all four of its places are zero. */
  lemma SpellEmpty(th: nat, h: nat, t: nat, u: nat)
    requires h <= 9 && t <= 9 && u <= 9
    ensures Spell(th, h, t, u) == [] <==> th == 0 && h == 0 && t == 0 && u == 0
  {
    DigitEmpty(h, 'C', 'D', 'M');
    DigitEmpty(t, 'X', 'L', 'C');
    DigitEmpty(u, 'I', 'V', 'X');
    assert |Spell(th, h, t, u)| == th + |Digit(h, 'C', 'D', 'M')| + |Digit(t, 'X', 'L', 'C')| + |Digit(u, 'I', 'V', 'X')|;
  }

  /**
   * A numeral the validator accepts only holds dictionary symbols, decodes to a
   * value between 0 and MaxRoman, and decodes to 0 exactly when it is empty.
   */
  lemma DecodeValidRange(s: string)
    requires MatchesPattern(s)
    ensures AllSymbols(s)
    ensures 0 <= Decode(s) <= MaxRoman
    ensures Decode(s) == 0 <==> s == ""
  {
    var th, h, t, u := SpellingOf(s);
    DecodeSpell(th, h, t, u);
    SpellEmpty(th, h, t, u);
  }

  /** Encoding the value of a spelling gives back that spelling. */
  lemma ToRomanOfSpell(v: int, th: nat, h: nat, t: nat, u: nat)
    requires h <= 9 && t <= 9 && u <= 9
    requires v == 1000 * th + 100 * h + 10 * t + u
    ensures ToRoman(v) == Spell(th, h, t, u)
  {
    SpellEmpty(th, h, t, u);
    if v > 0 {
      PlacesOfValue(th, h, t, u);
      var below := v % 1000;
      assert ToRoman(v) == Spell(v / 1000, below / 100, below % 100 / 10, below % 100 % 10);
    }
  }

  /** Decoding then encoding gives back every positional spelling. */
  lemma SpellRoundTrip(th: nat, h: nat, t: nat, u: nat)
    requires h <= 9 && t <= 9 && u <= 9
    ensures AllSymbols(Spell(th, h, t, u))
    ensures ToRoman(Decode(Spell(th, h, t, u))) == Spell(th, h, t, u)
  {
    DecodeSpell(th, h, t, u);
    ToRomanOfSpell(Decode(Spell(th, h, t, u)), th, h, t, u);
  }

  /** Decoding then encoding gives back every numeral the validator accepts. */
  lemma CanonicalRoundTrip(s: string)
    requires MatchesPattern(s)
    ensures AllSymbols(s)
    ensures ToRoman(Decode(s)) == s
  {
    var th, h, t, u := SpellingOf(s);
    SpellRoundTrip(th, h, t, u);
  }

  /**
   * The encoding of a non-negative integer passes the validator exactly when the
   * integer is at most MaxRoman; it is empty exactly when the integer is not positive.
   */
  lemma ToRomanValid(v: int)
    ensures ToRoman(v) == "" <==> v <= 0
    ensures v >= 0 ==> (MatchesPattern(ToRoman(v)) <==> v <= MaxRoman)
  {
    if v > 0 {
      var below := v % 1000;
      var th, h, t, u := v / 1000, below / 100, below % 100 / 10, below % 100 % 10;
      PlaceValues(v);
      SpellEmpty(th, h, t, u);
      if v <= MaxRoman {
        SpellMatches(th, h, t, u);
      } else if MatchesPattern(ToRoman(v)) {
        RoundTrip(v);
        DecodeValidRange(ToRoman(v));
      }
    } else {
      SpellMatches(0, 0, 0, 0);
    }
  }

  /** The pattern's language is exactly the encodings of 0 through MaxRoman. */
  lemma PatternIsCanonical(s: string)
    ensures MatchesPattern(s) <==> exists v | 0 <= v <= MaxRoman :: ToRoman(v) == s
  {
    if MatchesPattern(s) {
      DecodeValidRange(s);
      CanonicalRoundTrip(s);
      var v := Decode(s);
      assert 0 <= v <= MaxRoman && ToRoman(v) == s;
    }
    if exists v | 0 <= v <= MaxRoman :: ToRoman(v) == s {
      var v :| 0 <= v <= MaxRoman && ToRoman(v) == s;
      ToRomanValid(v);
    }
  }

  /**
   * A string that is not the encoding of its own value is outside the
   * pattern's language.
   */
  lemma NotCanonical(s: string)
    requires !AllSymbols(s) || ToRoman(Decode(s)) != s
    ensures !MatchesPattern(s)
  {
    if MatchesPattern(s) {
      CanonicalRoundTrip(s);
      assert false;
    }
  }

  /** A string whose value exceeds MaxRoman is outside the pattern's language. */
  lemma AboveMaximum(s: string)
    requires AllSymbols(s) && Decode(s) > MaxRoman
    ensures !MatchesPattern(s)
  {
    if MatchesPattern(s) {
      DecodeValidRange(s);
      assert false;
    }
  }

  /** The empty string matches: every part of the pattern may be empty. */
  lemma EmptyAccepted()
    ensures MatchesPattern("")
  {
    SpellMatches(0, 0, 0, 0);
    assert Spell(0, 0, 0, 0) == "";
  }

  /** The numeral of MaxRoman matches. */
  lemma LargestAccepted()
    ensures MatchesPattern("MMMMCMXCIX")
  {
    SpellMatches(4, 9, 9, 9);
    SpellParts(4, 9, 9, 9);
    assert Repeat('M', 4) == "MMMM";
    assert "MMMM" + ("CM" + ("XC" + "IX")) == "MMMMCMXCIX";
  }

  /** Four I in a row do not match: four is spelled IV. */
  lemma FourOnesRejected()
    ensures !MatchesPattern("IIII")
  {
    assert "IIII"[1..] == "III" && "III"[1..] == "II" && "II"[1..] == "I" && "I"[1..] == "";
    ToRomanOfSpell(4, 0, 0, 0, 4);
    assert Spell(0, 0, 0, 4) == "IV";
    NotCanonical("IIII");
  }

  /** A repeated V does not match: ten is spelled X. */
  lemma TwoFivesRejected()
    ensures !MatchesPattern("VV")
  {
    assert "VV"[1..] == "V" && "V"[1..] == "";
    ToRomanOfSpell(10, 0, 0, 1, 0);
    assert Spell(0, 0, 1, 0) == "X";
    NotCanonical("VV");
  }

  /** I before C does not match: ninety-nine is spelled XCIX. */
  lemma WrongSubtractionRejected()
    ensures !MatchesPattern("IC")
  {
    assert "IC"[1..] == "C" && "C"[1..] == "";
    ToRomanOfSpell(99, 0, 0, 9, 9);
    assert Spell(0, 0, 9, 9) == "XCIX";
    NotCanonical("IC");
  }

  /** Lower-case letters do not match: the dictionary only knows capitals. */
  lemma LowerCaseRejected()
    ensures !MatchesPattern("iv")
  {
    assert !IsSymbol("iv"[0]);
    NotCanonical("iv");
  }

  /** A fifth M does not match: its value is above MaxRoman. */
  lemma FifthThousandRejected()
    ensures !MatchesPattern("MMMMM")
  {
    assert "MMMMM"[1..] == "MMMM" && "MMMM"[1..] == "MMM" && "MMM"[1..] == "MM" && "MM"[1..] == "M" && "M"[1..] == "";
    AboveMaximum("MMMMM");
  }

  /**
   * The validator accepts the empty string and the numeral of MaxRoman, and
   * refuses a fourth repeated I, a repeated V, a wrong subtraction, lower case
   * and a fifth M.
   */
  lemma ValidatorExamples()
    ensures ValidateRoman("").Pass? && ValidateRoman("MMMMCMXCIX").Pass?
    ensures ValidateRoman("IIII") == Fail(InvalidNumeral("IIII"))
    ensures ValidateRoman("VV").Fail? && ValidateRoman("IC").Fail?
    ensures ValidateRoman("iv").Fail? && ValidateRoman("MMMMM").Fail?
  {
    EmptyAccepted();
    LargestAccepted();
    FourOnesRejected();
    TwoFivesRejected();
    WrongSubtractionRejected();
    LowerCaseRejected();
    FifthThousandRejected();
  }
}
