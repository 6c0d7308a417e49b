/**
 * The two converters. Decoding reads a numeral from right to left and subtracts
 * a symbol worth less than the one read just before it (the one to its right).
 * Encoding is greedy over a table of thirteen values; ToRoman states its result
 * positionally (a run of M, then one spelled digit per decimal place), and
 * GreedyIsPositional proves the greedy table walk produces exactly that.
 */
module Converter {
  import opened Results
  import opened Symbols

  // ---------------------------------------------------------------- decoding

  /** The value romanos_para_inteiros gives `s`: a symbol counts negatively exactly when its right neighbour is worth more. */
  function Decode(s: string): int
    requires AllSymbols(s)
  {
    if s == [] then 0
    else
      var v := SymbolValue(s[0]);
      if |s| > 1 && v < SymbolValue(s[1]) then Decode(s[1..]) - v else Decode(s[1..]) + v
  }

  /**
   * romanos_para_inteiros: the right-to-left scan with a running total and the
   * value of the previously scanned symbol. A character outside the dictionary
   * fails the lookup; the scan stops at the rightmost such character.
   */
  method RomanToInt(s: string) returns (r: Result<int, char>)
    ensures r.Ok? <==> AllSymbols(s)
    ensures r.Ok? ==> AllSymbols(s) && r.value == Decode(s)
    ensures r.Err? ==> exists i | 0 <= i < |s| :: s[i] == r.error && !IsSymbol(s[i]) && AllSymbols(s[i + 1..])
  {
    var total: int := 0;
    var previous := 0;
    var i := |s|;
    while i > 0
      invariant 0 <= i <= |s|
      invariant AllSymbols(s[i..])
      invariant total == Decode(s[i..])
      invariant previous == if i < |s| then SymbolValue(s[i..][0]) else 0
    {
      i := i - 1;
      if !IsSymbol(s[i]) {
        return Err(s[i]);
      }
      var current := SymbolValue(s[i]);
      assert s[i..][1..] == s[i + 1..];
      if current < previous {
        total := total - current;
      } else {
        total := total + current;
      }
      previous := current;
    }
    assert s[i..] == s;
    return Ok(total);
  }

  /** The value of the first symbol of `s`, or 0 when there is none. */
  function Lead(s: string): nat
    requires AllSymbols(s)
  {
    if s == [] then 0 else SymbolValue(s[0])
  }

  /** What the symbols of `s` contribute to a decoding when the symbol after them is worth `next` (0: none). */
  function SignedSum(s: string, next: nat): int
    requires AllSymbols(s)
  {
    if s == [] then 0
    else
      var v: int := SymbolValue(s[0]);
      var right := if |s| > 1 then SymbolValue(s[1]) else next;
      (if v < right then -v else v) + SignedSum(s[1..], next)
  }

  /** Decoding a concatenation: the left part only depends on the first symbol of the right part. */
  lemma {:induction false} DecodeAppend(a: string, b: string)
    requires AllSymbols(a) && AllSymbols(b)
    ensures AllSymbols(a + b)
    ensures Decode(a + b) == SignedSum(a, Lead(b)) + Decode(b)
  {
    if a == [] {
      assert a + b == b;
    } else {
      assert (a + b)[1..] == a[1..] + b;
      DecodeAppend(a[1..], b);
    }
  }

  /** A run of one symbol followed by nothing worth more counts every copy positively. */
  lemma {:induction false} SignedRun(c: char, k: nat, next: nat)
    requires IsSymbol(c) && next <= SymbolValue(c)
    ensures AllSymbols(Repeat(c, k))
    ensures SignedSum(Repeat(c, k), next) == k * SymbolValue(c)
  {
    if k > 0 {
      SignedRun(c, k - 1, next);
      assert Repeat(c, k)[1..] == Repeat(c, k - 1);
    }
  }

  // ---------------------------------------------------------------- positional spelling

  /**
   * The canonical spelling of the decimal digit `d` in one place, whose letters
   * `one`, `five` and `ten` are worth 1, 5 and 10 units of that place.
   */
  function Digit(d: nat, one: char, five: char, ten: char): string
    requires d <= 9
  {
    if d == 9 then [one, ten]
    else if d >= 5 then [five] + Repeat(one, d - 5)
    else if d == 4 then [one, five]
    else Repeat(one, d)
  }

  /** A run of M for the thousands, then the hundreds, tens and units digits. */
  function Spell(thousands: nat, hundreds: nat, tens: nat, units: nat): string
    requires hundreds <= 9 && tens <= 9 && units <= 9
  {
    Repeat('M', thousands) + Digit(hundreds, 'C', 'D', 'M') + Digit(tens, 'X', 'L', 'C') + Digit(units, 'I', 'V', 'X')
  }

  /** The numeral inteiros_para_romanos produces for `n`: nothing for n <= 0, its positional spelling otherwise. */
  function ToRoman(n: int): string {
    if n <= 0 then ""
    else
      var below := n % 1000;
      Spell(n / 1000, below / 100, below % 100 / 10, below % 100 % 10)
  }

  /** A spelled digit decodes to `d` units and starts with a symbol worth at most five units. */
  lemma DigitDecode(d: nat, one: char, five: char, ten: char, rest: string)
    requires d <= 9
    requires IsSymbol(one) && IsSymbol(five) && IsSymbol(ten) && AllSymbols(rest)
    requires SymbolValue(five) == 5 * SymbolValue(one) && SymbolValue(ten) == 10 * SymbolValue(one)
    requires Lead(rest) < SymbolValue(one)
    ensures AllSymbols(Digit(d, one, five, ten) + rest)
    ensures Decode(Digit(d, one, five, ten) + rest) == d * SymbolValue(one) + Decode(rest)
    ensures Lead(Digit(d, one, five, ten) + rest) < 10 * SymbolValue(one)
  {
    var g := Digit(d, one, five, ten);
    DigitSignedSum(d, one, five, ten, Lead(rest));
    DecodeAppend(g, rest);
    if g != [] {
      assert (g + rest)[0] == g[0];
    }
  }

  /** The symbols of a spelled digit contribute `d` units when the symbol after them is worth less than one unit. */
  lemma DigitSignedSum(d: nat, one: char, five: char, ten: char, next: nat)
    requires d <= 9
    requires IsSymbol(one) && IsSymbol(five) && IsSymbol(ten)
    requires SymbolValue(five) == 5 * SymbolValue(one) && SymbolValue(ten) == 10 * SymbolValue(one)
    requires next < SymbolValue(one)
    ensures AllSymbols(Digit(d, one, five, ten))
    ensures SignedSum(Digit(d, one, five, ten), next) == d * SymbolValue(one)
    ensures Digit(d, one, five, ten) == [] || Digit(d, one, five, ten)[0] in {one, five}
  {
    var g := Digit(d, one, five, ten);
    if d == 9 || d == 4 {
      assert SignedSum(g[1..], next) == SymbolValue(g[1]);
    } else if d >= 5 {
      FiveRunSum(d - 5, one, five, next);
    } else {
      SignedRun(one, d, next);
    }
  }

  /** A `five` followed by a run of `one`s counts every symbol positively. */
  lemma FiveRunSum(k: nat, one: char, five: char, next: nat)
    requires IsSymbol(one) && IsSymbol(five)
    requires SymbolValue(five) == 5 * SymbolValue(one)
    requires next < SymbolValue(one)
    ensures AllSymbols([five] + Repeat(one, k))
    ensures SignedSum([five] + Repeat(one, k), next) == (5 + k) * SymbolValue(one)
  {
    var g := [five] + Repeat(one, k);
    SignedRun(one, k, next);
    assert g[1..] == Repeat(one, k);
  }

  /** The hundreds, tens and units digits decode to their value, led by a symbol worth less than M. */
  lemma DecodeLower(hundreds: nat, tens: nat, units: nat)
    requires hundreds <= 9 && tens <= 9 && units <= 9
    ensures var lower := Digit(hundreds, 'C', 'D', 'M') + (Digit(tens, 'X', 'L', 'C') + Digit(units, 'I', 'V', 'X'));
      && AllSymbols(lower)
      && Decode(lower) == 100 * hundreds + 10 * tens + units
      && Lead(lower) < 1000
  {
    var t := Digit(tens, 'X', 'L', 'C');
    var u := Digit(units, 'I', 'V', 'X');
    DigitDecode(units, 'I', 'V', 'X', "");
    assert u + "" == u;
    DigitDecode(tens, 'X', 'L', 'C', u);
    DigitDecode(hundreds, 'C', 'D', 'M', t + u);
  }

  /** The positional spelling decodes to the number it spells. */
  lemma DecodeSpell(thousands: nat, hundreds: nat, tens: nat, units: nat)
    requires hundreds <= 9 && tens <= 9 && units <= 9
    ensures AllSymbols(Spell(thousands, hundreds, tens, units))
    ensures Decode(Spell(thousands, hundreds, tens, units)) == 1000 * thousands + 100 * hundreds + 10 * tens + units
  {
    var m := Repeat('M', thousands);
    var lower := Digit(hundreds, 'C', 'D', 'M') + (Digit(tens, 'X', 'L', 'C') + Digit(units, 'I', 'V', 'X'));
    DecodeLower(hundreds, tens, units);
    SignedRun('M', thousands, Lead(lower));
    DecodeAppend(m, lower);
    SpellParts(thousands, hundreds, tens, units);
  }

  /** A spelling is its run of M followed by its three lower digits. */
  lemma SpellParts(thousands: nat, hundreds: nat, tens: nat, units: nat)
    requires hundreds <= 9 && tens <= 9 && units <= 9
    ensures Spell(thousands, hundreds, tens, units)
      == Repeat('M', thousands) + (Digit(hundreds, 'C', 'D', 'M') + (Digit(tens, 'X', 'L', 'C') + Digit(units, 'I', 'V', 'X')))
  {
  }

  /** Decoding undoes encoding, for every non-negative integer. */
  lemma RoundTrip(n: int)
    requires n >= 0
    ensures AllSymbols(ToRoman(n))
    ensures Decode(ToRoman(n)) == n
  {
    if n > 0 {
      var below := n % 1000;
      DecodeSpell(n / 1000, below / 100, below % 100 / 10, below % 100 % 10);
      PlaceValues(n);
    }
  }

  /** A non-negative integer is the sum of its thousands and its three lower decimal digits. */
  lemma PlaceValues(n: int)
    requires n >= 0
    ensures var below := n % 1000;
      n == 1000 * (n / 1000) + 100 * (below / 100) + 10 * (below % 100 / 10) + below % 100 % 10
  {
    var below := n % 1000;
    assert n == 1000 * (n / 1000) + below;
    assert below == 100 * (below / 100) + below % 100;
    assert below % 100 == 10 * (below % 100 / 10) + below % 100 % 10;
  }

  // ---------------------------------------------------------------- greedy encoding

  type Positive = n: int | n >= 1 witness 1

  /** The (value, symbol) table of inteiros_para_romanos, in descending order of value. */
  const Table: seq<(Positive, string)> := [
    (1000, "M"), (900, "CM"), (500, "D"), (400, "CD"),
    (100, "C"), (90, "XC"), (50, "L"), (40, "XL"),
    (10, "X"), (9, "IX"), (5, "V"), (4, "IV"), (1, "I")
  ]

  /** ''.join(parts) */
  function Concat(parts: seq<string>): string {
    if parts == [] then "" else Concat(parts[..|parts| - 1]) + parts[|parts| - 1]
  }

  /**
   * What the greedy walk still appends when `m` remains and `entries` are the
   * table entries not yet passed: the first entry's symbol while its value fits,
   * then the next entry.
   */
  ghost function Greedy(m: int, entries: seq<(Positive, string)>): string
    decreases |entries|, m
  {
    if entries == [] then ""
    else if m >= entries[0].0 then entries[0].1 + Greedy(m - entries[0].0, entries)
    else Greedy(m, entries[1..])
  }

  /**
   * inteiros_para_romanos: for each table entry in turn, append its symbol and
   * take its value off `n` for as long as the value fits.
   */
  method IntToRoman(n: int) returns (s: string)
    ensures s == ToRoman(n)
  {
    var parts: seq<string> := [];
    var m := n;
    ghost var target := Greedy(n, Table);
    var entries := Table;
    while entries != []
      invariant Concat(parts) + Greedy(m, entries) == target
    {
      parts, m := TakeWhileFits(parts, m, entries);
      entries := entries[1..];
    }
    s := Concat(parts);
    GreedyIsPositional(n);
  }

  /** The inner loop for one table entry: append its symbol and take its value off `m` while the value fits. */
  method TakeWhileFits(parts: seq<string>, m: int, entries: seq<(Positive, string)>) returns (parts': seq<string>, m': int)
    requires entries != []
    ensures m' < entries[0].0
    ensures Concat(parts') + Greedy(m', entries[1..]) == Concat(parts) + Greedy(m, entries)
  {
    var (value, symbol) := entries[0];
    parts', m' := parts, m;
    while m' >= value
      invariant Concat(parts') + Greedy(m', entries) == Concat(parts) + Greedy(m, entries)
      decreases m'
    {
      ConcatAppend(parts', symbol);
      GreedyTake(Concat(parts'), m', entries);
      parts' := parts' + [symbol];
      m' := m' - value;
    }
    GreedySkip(m', entries);
  }

  /** Appending one more part appends its text. */
  lemma ConcatAppend(parts: seq<string>, part: string)
    ensures Concat(parts + [part]) == Concat(parts) + part
  {
    assert (parts + [part])[..|parts|] == parts;
  }

  /** While the first entry's value fits, the walk appends its symbol and stays at that entry. */
  lemma GreedyTake(done: string, m: int, entries: seq<(Positive, string)>)
    requires entries != [] && m >= entries[0].0
    ensures done + Greedy(m, entries) == (done + entries[0].1) + Greedy(m - entries[0].0, entries)
  {
  }

  /** When the first entry's value fits, the walk appends its symbol and goes on with the value taken off. */
  lemma GreedyStep(m: int, entries: seq<(Positive, string)>)
    requires entries != [] && m >= entries[0].0
    ensures Greedy(m, entries) == entries[0].1 + Greedy(m - entries[0].0, entries)
  {
  }

  /** Once the first entry's value no longer fits, the walk moves to the next entry. */
  lemma GreedySkip(m: int, entries: seq<(Positive, string)>)
    requires entries != [] && m < entries[0].0
    ensures Greedy(m, entries) == Greedy(m, entries[1..])
  {
  }

  /** Nothing is appended once the remainder is not positive. */
  lemma {:induction false} GreedyNothing(m: int, entries: seq<(Positive, string)>)
    requires m <= 0
    ensures Greedy(m, entries) == ""
    decreases |entries|
  {
    if entries != [] {
      GreedyNothing(m, entries[1..]);
    }
  }

  /** At an entry holding the single letter `one`, the walk appends one copy per whole `unit` and moves on with the rest. */
  lemma {:induction false} GreedyRun(c: nat, r: int, unit: Positive, one: char, lower: seq<(Positive, string)>)
    requires 0 <= r < unit
    ensures c * unit >= 0
    ensures Greedy(c * unit + r, [(unit, [one])] + lower) == Repeat(one, c) + Greedy(r, lower)
  {
    var entries := [(unit, [one])] + lower;
    assert entries[1..] == lower;
    if c > 0 {
      var rest := (c - 1) * unit + r;
      assert c * unit == (c - 1) * unit + unit;
      GreedyRun(c - 1, r, unit, one, lower);
      assert Greedy(rest + unit, entries) == [one] + Greedy(rest, entries);
    }
  }

  /** Multiplying by a non-negative unit keeps the order of the factors. */
  lemma ScaleMonotone(a: int, b: int, unit: int)
    requires 0 <= a <= b && unit >= 0
    ensures 0 <= a * unit <= b * unit
  {
    assert b * unit == a * unit + (b - a) * unit;
  }

  /** The four table entries of one decimal place, worth 9, 5, 4 and 1 units, in front of the lower places' entries. */
  function PlaceEntries(unit: Positive, one: char, five: char, ten: char, lower: seq<(Positive, string)>): seq<(Positive, string)>
  {
    [(9 * unit, [one, ten]), (5 * unit, [five]), (4 * unit, [one, five]), (unit, [one])] + lower
  }

  /**
   * The four entries of one decimal place append the place's digit `d` spelled
   * as Digit does, and pass the lower places on.
   */
  lemma GreedyPlace(d: nat, r: int, unit: Positive, one: char, five: char, ten: char, lower: seq<(Positive, string)>)
    requires d <= 9 && 0 <= r < unit
    ensures Greedy(d * unit + r, PlaceEntries(unit, one, five, ten, lower)) == Digit(d, one, five, ten) + Greedy(r, lower)
  {
    var e := PlaceEntries(unit, one, five, ten, lower);
    assert e[1..][1..][1..] == [(unit, [one])] + lower;
    if d == 9 {
      GreedyNine(r, unit, one, five, ten, lower);
    } else if d >= 5 {
      assert d * unit == (d - 5) * unit + 5 * unit;
      GreedyFiveToEight(d - 5, r, unit, one, five, ten, lower);
    } else if d == 4 {
      GreedyFour(r, unit, one, five, ten, lower);
    } else {
      GreedyBelowFour(d, r, unit, one, five, ten, lower);
    }
  }

  /** The entries of one place, one at a time. */
  lemma PlaceEntriesParts(unit: Positive, one: char, five: char, ten: char, lower: seq<(Positive, string)>)
    ensures var e := PlaceEntries(unit, one, five, ten, lower);
      && e[0] == (9 * unit, [one, ten])
      && e[1..][0] == (5 * unit, [five])
      && e[1..][1..][0] == (4 * unit, [one, five])
      && e[1..][1..][1..] == [(unit, [one])] + lower
  {
  }

  /** Nine units: the 9 entry is taken once, the rest of the place is passed by. */
  lemma GreedyNine(r: int, unit: Positive, one: char, five: char, ten: char, lower: seq<(Positive, string)>)
    requires 0 <= r < unit
    ensures Greedy(9 * unit + r, PlaceEntries(unit, one, five, ten, lower)) == [one, ten] + Greedy(r, lower)
  {
    var e := PlaceEntries(unit, one, five, ten, lower);
    PlaceEntriesParts(unit, one, five, ten, lower);
    GreedyStep(9 * unit + r, e);
    GreedySkip(r, e);
    GreedySkip(r, e[1..]);
    GreedySkip(r, e[1..][1..]);
    GreedyRun(0, r, unit, one, lower);
  }

  /** Five to eight units: the 5 entry is taken once, then the 1 entry up to three times. */
  lemma GreedyFiveToEight(c: nat, r: int, unit: Positive, one: char, five: char, ten: char, lower: seq<(Positive, string)>)
    requires c <= 3 && 0 <= r < unit
    ensures Greedy(c * unit + 5 * unit + r, PlaceEntries(unit, one, five, ten, lower)) == [five] + Repeat(one, c) + Greedy(r, lower)
  {
    var e := PlaceEntries(unit, one, five, ten, lower);
    PlaceEntriesParts(unit, one, five, ten, lower);
    var m := c * unit + r;
    ScaleMonotone(c, 3, unit);
    GreedySkip(m + 5 * unit, e);
    GreedyStep(m + 5 * unit, e[1..]);
    GreedySkip(m, e[1..]);
    GreedySkip(m, e[1..][1..]);
    GreedyRun(c, r, unit, one, lower);
  }

  /** Four units: the 4 entry is taken once, the 1 entry is passed by. */
  lemma GreedyFour(r: int, unit: Positive, one: char, five: char, ten: char, lower: seq<(Positive, string)>)
    requires 0 <= r < unit
    ensures Greedy(4 * unit + r, PlaceEntries(unit, one, five, ten, lower)) == [one, five] + Greedy(r, lower)
  {
    var e := PlaceEntries(unit, one, five, ten, lower);
    PlaceEntriesParts(unit, one, five, ten, lower);
    GreedySkip(4 * unit + r, e);
    GreedySkip(4 * unit + r, e[1..]);
    GreedyStep(4 * unit + r, e[1..][1..]);
    GreedySkip(r, e[1..][1..]);
    GreedyRun(0, r, unit, one, lower);
  }

  /** Up to three units: only the 1 entry is taken, once per unit. */
  lemma GreedyBelowFour(d: nat, r: int, unit: Positive, one: char, five: char, ten: char, lower: seq<(Positive, string)>)
    requires d <= 3 && 0 <= r < unit
    ensures Greedy(d * unit + r, PlaceEntries(unit, one, five, ten, lower)) == Repeat(one, d) + Greedy(r, lower)
  {
    var e := PlaceEntries(unit, one, five, ten, lower);
    PlaceEntriesParts(unit, one, five, ten, lower);
    var m := d * unit + r;
    ScaleMonotone(d, 3, unit);
    GreedySkip(m, e);
    GreedySkip(m, e[1..]);
    GreedySkip(m, e[1..][1..]);
    GreedyRun(d, r, unit, one, lower);
  }

  /** Below a thousand, the walk from the 900 entry on spells the hundreds, tens and units digits. */
  lemma GreedyBelowThousand(m: int)
    requires 0 <= m < 1000
    ensures Greedy(m, Table[1..]) == Digit(m / 100, 'C', 'D', 'M') + (Digit(m % 100 / 10, 'X', 'L', 'C') + Digit(m % 100 % 10, 'I', 'V', 'X'))
  {
    var tens := PlaceEntries(10, 'X', 'L', 'C', PlaceEntries(1, 'I', 'V', 'X', []));
    var h, m2 := m / 100, m % 100;
    GreedyBelowHundred(m2);
    GreedyPlace(h, m2, 100, 'C', 'D', 'M', tens);
    assert m == h * 100 + m2;
    LowerTable();
  }

  /** The table after its 1000 entry is the hundreds', the tens' and the units' entries. */
  lemma LowerTable()
    ensures Table[1..] == PlaceEntries(100, 'C', 'D', 'M', PlaceEntries(10, 'X', 'L', 'C', PlaceEntries(1, 'I', 'V', 'X', [])))
  {
  }

  /** Below a hundred, the walk from the 90 entry on spells the tens and units digits. */
  lemma GreedyBelowHundred(m: int)
    requires 0 <= m < 100
    ensures Greedy(m, PlaceEntries(10, 'X', 'L', 'C', PlaceEntries(1, 'I', 'V', 'X', [])))
      == Digit(m / 10, 'X', 'L', 'C') + Digit(m % 10, 'I', 'V', 'X')
  {
    var units := PlaceEntries(1, 'I', 'V', 'X', []);
    var t, u := m / 10, m % 10;
    GreedyPlace(u, 0, 1, 'I', 'V', 'X', []);
    assert Greedy(u, units) == Digit(u, 'I', 'V', 'X');
    GreedyPlace(t, u, 10, 'X', 'L', 'C', units);
    assert m == t * 10 + u;
  }

  /** From the top of the table, the walk spells the thousands as a run of M and then the lower digits. */
  lemma GreedyThousands(n: int)
    requires n > 0
    ensures var below := n % 1000;
      Greedy(n, Table) == Spell(n / 1000, below / 100, below % 100 / 10, below % 100 % 10)
  {
    var th, m := n / 1000, n % 1000;
    assert n == th * 1000 + m;
    assert Table == [(1000, "M")] + Table[1..];
    GreedyRun(th, m, 1000, 'M', Table[1..]);
    GreedyBelowThousand(m);
    SpellParts(th, m / 100, m % 100 / 10, m % 100 % 10);
  }

  /** The greedy walk over the table spells every integer positionally. */
  lemma GreedyIsPositional(n: int)
    ensures Greedy(n, Table) == ToRoman(n)
  {
    if n <= 0 {
      GreedyNothing(n, Table);
    } else {
      GreedyThousands(n);
    }
  }
}
