/** The seven Roman symbols, their values, and runs of one symbol. */
module Symbols {

  /** Smallest and largest integer the calculator accepts as a result. */
  const MinRoman := 1
  const MaxRoman := 4999

  /** The letters the symbol dictionary knows. */
  predicate IsSymbol(c: char) {
    c == 'I' || c == 'V' || c == 'X' || c == 'L' || c == 'C' || c == 'D' || c == 'M'
  }

  /** The dictionary I=1, V=5, X=10, L=50, C=100, D=500, M=1000. */
  function SymbolValue(c: char): nat
    requires IsSymbol(c)
  {
    if c == 'I' then 1
    else if c == 'V' then 5
    else if c == 'X' then 10
    else if c == 'L' then 50
    else if c == 'C' then 100
    else if c == 'D' then 500
    else 1000
  }

  /** Every character of `s` is a symbol, so looking each one up succeeds. */
  predicate AllSymbols(s: string) {
    forall i | 0 <= i < |s| :: IsSymbol(s[i])
  }

  /** The string made of `k` copies of `c`. */
  function Repeat(c: char, k: nat): (s: string)
    ensures |s| == k
    ensures forall i | 0 <= i < k :: s[i] == c
  {
    if k == 0 then "" else [c] + Repeat(c, k - 1)
  }
}
