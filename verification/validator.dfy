/**
 * The numeral validator. A numeral is accepted when the whole string matches
 * M{0,4}(CM|CD|D?C{0,3})(XC|XL|L?X{0,3})(IX|IV|V?I{0,3}). The pattern is given
 * twice: as the language it denotes (MatchesPattern, a split of the string into
 * four parts) and as a hand-written left-to-right matcher (IsRomanNumeral);
 * MatcherCorrect proves the two agree on every string.
 */
module Validator {
  import opened Results
  import opened Symbols

  /** M{0,4} */
  ghost predicate ThousandsRun(s: string) {
    |s| <= 4 && s == Repeat('M', |s|)
  }

  /**
   * One decimal place of the pattern: (CM|CD|D?C{0,3}) for the hundreds, with
   * `one`, `five` and `ten` the letters worth 1, 5 and 10 units of the place;
   * (XC|XL|L?X{0,3}) and (IX|IV|V?I{0,3}) are the tens and units instances.
   */
  ghost predicate PlaceGroup(s: string, one: char, five: char, ten: char) {
    || s == [one, ten]
    || s == [one, five]
    || exists k | 0 <= k <= 3 :: s == Repeat(one, k) || s == [five] + Repeat(one, k)
  }

  /** Cutting `s` at `i`, `j` and `k` gives a thousands run and a hundreds, a tens and a units group. */
  ghost predicate SplitMatches(s: string, i: nat, j: nat, k: nat)
    requires i <= j <= k <= |s|
  {
    && ThousandsRun(s[..i])
    && PlaceGroup(s[i..j], 'C', 'D', 'M')
    && PlaceGroup(s[j..k], 'X', 'L', 'C')
    && PlaceGroup(s[k..], 'I', 'V', 'X')
  }

  /** `s` as a whole is a thousands run followed by a hundreds, a tens and a units group. */
  ghost predicate MatchesPattern(s: string) {
    exists i: nat, j: nat, k: nat | i <= j <= k <= |s| :: SplitMatches(s, i, j, k)
  }

  /** The number of leading copies of `c` in `s`, taking at most `max` of them. */
  function LeadingRun(s: string, c: char, max: nat): (n: nat)
    ensures n <= max && n <= |s|
    ensures forall i | 0 <= i < n :: s[i] == c
    ensures n < max && n < |s| ==> s[n] != c
  {
    if max == 0 || |s| == 0 || s[0] != c then 0 else 1 + LeadingRun(s[1..], c, max - 1)
  }

  /** The length of the prefix of `s` that one place group takes, trying its alternatives in order. */
  function GroupLength(s: string, one: char, five: char, ten: char): (n: nat)
    ensures n <= |s|
  {
    if |s| >= 2 && s[0] == one && s[1] == ten then 2
    else if |s| >= 2 && s[0] == one && s[1] == five then 2
    else if |s| >= 1 && s[0] == five then 1 + LeadingRun(s[1..], one, 3)
    else LeadingRun(s, one, 3)
  }

  /** The hand-written matcher: the units group, the last part taken, must end where `s` ends. */
  predicate IsRomanNumeral(s: string) {
    UnitsEnd(s) == |s|
  }

  /** Where the matcher's thousands run ends. */
  function ThousandsEnd(s: string): (i: nat)
    ensures i <= |s|
  {
    LeadingRun(s, 'M', 4)
  }

  /** Where the matcher's hundreds group, taken after the thousands run, ends. */
  function HundredsEnd(s: string): (j: nat)
    ensures ThousandsEnd(s) <= j <= |s|
  {
    var i := ThousandsEnd(s);
    i + GroupLength(s[i..], 'C', 'D', 'M')
  }

  /** Where the matcher's tens group, taken after the hundreds group, ends. */
  function TensEnd(s: string): (k: nat)
    ensures HundredsEnd(s) <= k <= |s|
  {
    var j := HundredsEnd(s);
    j + GroupLength(s[j..], 'X', 'L', 'C')
  }

  /** Where the matcher's units group, taken after the tens group, ends. */
  function UnitsEnd(s: string): (n: nat)
    ensures TensEnd(s) <= n <= |s|
  {
    var k := TensEnd(s);
    k + GroupLength(s[k..], 'I', 'V', 'X')
  }

  /** validate_roman: passes exactly on the strings the pattern matches, and names the input otherwise. */
  function ValidateRoman(s: string): (r: Outcome<Error>)
    ensures r.Pass? <==> MatchesPattern(s)
    ensures r.Fail? ==> r.error == InvalidNumeral(s)
  {
    MatcherCorrect(s);
    if IsRomanNumeral(s) then Pass else Fail(InvalidNumeral(s))
  }

  /** Whatever prefix GroupLength takes is one of the group's alternatives. */
  lemma GroupLengthMatches(s: string, one: char, five: char, ten: char)
    ensures PlaceGroup(s[..GroupLength(s, one, five, ten)], one, five, ten)
  {
    var n := GroupLength(s, one, five, ten);
    if |s| >= 2 && s[0] == one && s[1] == ten {
      assert s[..n] == [one, ten];
    } else if |s| >= 2 && s[0] == one && s[1] == five {
      assert s[..n] == [one, five];
    } else if |s| >= 1 && s[0] == five {
      var k := LeadingRun(s[1..], one, 3);
      assert s[..n] == [five] + Repeat(one, k);
    } else {
      var k := LeadingRun(s, one, 3);
      assert s[..n] == Repeat(one, k);
    }
  }

  /** A run of `c` followed by something that does not start with `c` is taken whole. */
  lemma LeadingRunOf(t: string, rest: string, c: char, max: nat)
    requires t == Repeat(c, |t|) && |t| <= max
    requires rest == [] || rest[0] != c
    ensures LeadingRun(t + rest, c, max) == |t|
  {
    var s := t + rest;
    assert s[|t|..] == rest;
  }

  /** A non-empty group starts with its `one` or its `five` letter. */
  lemma GroupHead(g: string, one: char, five: char, ten: char)
    requires PlaceGroup(g, one, five, ten)
    ensures g != [] ==> g[0] == one || g[0] == five
  {
    if g != [one, ten] && g != [one, five] {
      var k :| 0 <= k <= 3 && (g == Repeat(one, k) || g == [five] + Repeat(one, k));
    }
  }

  /**
   * When a group is followed by text that starts with none of its three letters,
   * GroupLength takes exactly that group.
   */
  lemma GroupLengthOf(g: string, rest: string, one: char, five: char, ten: char)
    requires PlaceGroup(g, one, five, ten)
    requires one != five && one != ten && five != ten
    requires rest == [] || (rest[0] != one && rest[0] != five && rest[0] != ten)
    ensures GroupLength(g + rest, one, five, ten) == |g|
  {
    if g != [one, ten] && g != [one, five] {
      var k :| 0 <= k <= 3 && (g == Repeat(one, k) || g == [five] + Repeat(one, k));
      if g == Repeat(one, k) {
        RunLength(k, rest, one, five, ten);
      } else {
        FiveRunLength(k, rest, one, five, ten);
      }
    }
  }

  /** GroupLength takes a run of at most three `one`s and stops where the run does. */
  lemma RunLength(k: nat, rest: string, one: char, five: char, ten: char)
    requires k <= 3
    requires one != five && one != ten
    requires rest == [] || (rest[0] != one && rest[0] != five && rest[0] != ten)
    ensures GroupLength(Repeat(one, k) + rest, one, five, ten) == k
  {
    var s := Repeat(one, k) + rest;
    assert k >= 2 ==> s[1] == one;
    assert k == 1 && rest != [] ==> s[1] == rest[0];
    LeadingRunOf(Repeat(one, k), rest, one, 3);
  }

  /** GroupLength takes a `five` and the run of at most three `one`s after it. */
  lemma FiveRunLength(k: nat, rest: string, one: char, five: char, ten: char)
    requires k <= 3
    requires one != five
    requires rest == [] || rest[0] != one
    ensures GroupLength([five] + Repeat(one, k) + rest, one, five, ten) == 1 + k
  {
    var s := [five] + Repeat(one, k) + rest;
    assert s[1..] == Repeat(one, k) + rest;
    LeadingRunOf(Repeat(one, k), rest, one, 3);
  }

  /** The tens and units groups of an accepted split are what the matcher takes for them. */
  lemma TailAccepted(s: string, j: nat, k: nat)
    requires j <= k <= |s|
    requires PlaceGroup(s[j..k], 'X', 'L', 'C')
    requires PlaceGroup(s[k..], 'I', 'V', 'X')
    ensures GroupLength(s[j..], 'X', 'L', 'C') == k - j
    ensures GroupLength(s[k..], 'I', 'V', 'X') == |s| - k
    ensures s[j..] == [] || s[j..][0] in {'X', 'L', 'I', 'V'}
  {
    var t, u := s[j..k], s[k..];
    GroupHead(t, 'X', 'L', 'C');
    GroupHead(u, 'I', 'V', 'X');
    assert u + [] == u;
    GroupLengthOf(u, [], 'I', 'V', 'X');
    assert s[j..] == t + u;
    GroupLengthOf(t, u, 'X', 'L', 'C');
  }

  /** A split that the pattern accepts is the one the matcher finds. */
  lemma SplitAccepted(s: string, i: nat, j: nat, k: nat)
    requires i <= j <= k <= |s|
    requires SplitMatches(s, i, j, k)
    ensures ThousandsEnd(s) == i && HundredsEnd(s) == j && TensEnd(s) == k
    ensures IsRomanNumeral(s)
  {
    TailAccepted(s, j, k);
    HundredsAccepted(s, i, j);
    ThousandsAccepted(s, i);
    MatcherSteps(s, i, j, k);
  }

  /** The hundreds group of an accepted split is what the matcher takes for it. */
  lemma HundredsAccepted(s: string, i: nat, j: nat)
    requires i <= j <= |s|
    requires PlaceGroup(s[i..j], 'C', 'D', 'M')
    requires s[j..] == [] || s[j..][0] in {'X', 'L', 'I', 'V'}
    ensures GroupLength(s[i..], 'C', 'D', 'M') == j - i
    ensures s[i..] == [] || s[i..][0] in {'C', 'D', 'X', 'L', 'I', 'V'}
  {
    var h := s[i..j];
    GroupHead(h, 'C', 'D', 'M');
    assert s[i..] == h + s[j..];
    GroupLengthOf(h, s[j..], 'C', 'D', 'M');
  }

  /** The thousands run of an accepted split is what the matcher takes for it. */
  lemma ThousandsAccepted(s: string, i: nat)
    requires i <= |s|
    requires ThousandsRun(s[..i])
    requires s[i..] == [] || s[i..][0] in {'C', 'D', 'X', 'L', 'I', 'V'}
    ensures LeadingRun(s, 'M', 4) == i
  {
    assert s == s[..i] + s[i..];
    LeadingRunOf(s[..i], s[i..], 'M', 4);
  }

  /** The matcher succeeds when each of its steps ends where the next part begins. */
  lemma MatcherSteps(s: string, i: nat, j: nat, k: nat)
    requires i <= j <= k <= |s|
    requires LeadingRun(s, 'M', 4) == i
    requires GroupLength(s[i..], 'C', 'D', 'M') == j - i
    requires GroupLength(s[j..], 'X', 'L', 'C') == k - j
    requires GroupLength(s[k..], 'I', 'V', 'X') == |s| - k
    ensures ThousandsEnd(s) == i && HundredsEnd(s) == j && TensEnd(s) == k
    ensures IsRomanNumeral(s)
  {
    assert ThousandsEnd(s) == i;
    assert HundredsEnd(s) == j;
    assert TensEnd(s) == k;
  }

  /** The split the matcher finds is one the pattern accepts. */
  lemma MatchedSplit(s: string)
    requires IsRomanNumeral(s)
    ensures MatchesPattern(s)
  {
    GroupsMatched(s, ThousandsEnd(s), HundredsEnd(s), TensEnd(s));
  }

  /** The parts the matcher takes form a split the pattern accepts. */
  lemma GroupsMatched(s: string, i: nat, j: nat, k: nat)
    requires i <= j <= k <= |s|
    requires LeadingRun(s, 'M', 4) == i
    requires GroupLength(s[i..], 'C', 'D', 'M') == j - i
    requires GroupLength(s[j..], 'X', 'L', 'C') == k - j
    requires GroupLength(s[k..], 'I', 'V', 'X') == |s| - k
    ensures SplitMatches(s, i, j, k)
  {
    assert s[..i] == Repeat('M', i);
    GroupAt(s, i, j, 'C', 'D', 'M');
    GroupAt(s, j, k, 'X', 'L', 'C');
    GroupAtEnd(s[k..], 'I', 'V', 'X');
  }

  /** When GroupLength takes all of `t`, `t` is a place group. */
  lemma GroupAtEnd(t: string, one: char, five: char, ten: char)
    requires GroupLength(t, one, five, ten) == |t|
    ensures PlaceGroup(t, one, five, ten)
  {
    GroupLengthMatches(t, one, five, ten);
    assert t[..|t|] == t;
  }

  /** The part GroupLength takes at `a` is a place group. */
  lemma GroupAt(s: string, a: nat, b: nat, one: char, five: char, ten: char)
    requires a <= b <= |s|
    requires GroupLength(s[a..], one, five, ten) == b - a
    ensures PlaceGroup(s[a..b], one, five, ten)
  {
    GroupLengthMatches(s[a..], one, five, ten);
    assert s[a..][..b - a] == s[a..b];
  }

  /** The matcher accepts exactly the strings the pattern matches. */
  lemma MatcherCorrect(s: string)
    ensures IsRomanNumeral(s) <==> MatchesPattern(s)
  {
    if IsRomanNumeral(s) {
      MatchedSplit(s);
    }
    if MatchesPattern(s) {
      var i: nat, j: nat, k: nat :| i <= j <= k <= |s| && SplitMatches(s, i, j, k);
      SplitAccepted(s, i, j, k);
    }
  }
}
