/** Decimal numerals: strings of digits with at most one dot, and what they denote. */
module Numerals {
  import opened Arith
  import opened Words
  import opened Sequences

  predicate IsDigit(c: char) {
    '0' <= c <= '9'
  }

  function DigitValue(c: char): (d: nat)
    requires IsDigit(c)
    ensures d < 10
  {
    c as int - '0' as int
  }

  function DigitChar(d: nat): (c: char)
    requires d < 10
    ensures IsDigit(c) && DigitValue(c) == d
  {
    '0' + d as char
  }

  predicate AllDigits(s: string) {
    forall i :: 0 <= i < |s| ==> IsDigit(s[i])
  }

  /** The digits of a string read as one number, the dot skipped. */
  function Number(s: string): nat {
    if s == [] then 0
    else
      var init, c := s[..|s| - 1], s[|s| - 1];
      if IsDigit(c) then 10 * Number(init) + DigitValue(c) else Number(init)
  }

  /** How many characters follow the dot, if there is one. */
  function Places(s: string): Option<nat> {
    if s == [] then None
    else if s[|s| - 1] == '.' then Some(0)
    else match Places(s[..|s| - 1])
      case None => None
      case Some(f) => Some(f + 1)
  }

  predicate Numeral(s: string) {
    s == [] ||
    var init, c := s[..|s| - 1], s[|s| - 1];
    Numeral(init) && (IsDigit(c) || (c == '.' && Places(init).None?))
  }

  function Decimals(s: string): nat {
    match Places(s)
    case None => 0
    case Some(f) => f
  }

  /**
   A numeral, in a unit 10^-precision times the base unit (a positive precision means a smaller
   unit), denotes exactly v base units.
   */
  ghost predicate Denotes(s: string, precision: int, v: nat) {
    && Numeral(s)
    && var up, down := if precision < 0 then -precision else 0, if precision > 0 then precision else 0;
       Number(s) * Pow(10, up) == v * Pow(10, Decimals(s) + down)
  }

  // ----- appending -----

  lemma Snoc(s: string, c: char)
    ensures Number(s + [c]) == if IsDigit(c) then 10 * Number(s) + DigitValue(c) else Number(s)
    ensures Places(s + [c]) == if c == '.' then Some(0) else if Places(s).None? then None else Some(Places(s).value + 1)
    ensures Numeral(s + [c]) <==> Numeral(s) && (IsDigit(c) || (c == '.' && Places(s).None?))
  {
    assert (s + [c])[..|s|] == s;
  }

  lemma {:induction false} Append(s: string, t: string)
    requires AllDigits(t)
    ensures Number(s + t) == Number(s) * Pow(10, |t|) + Number(t)
    ensures Places(s + t) == if Places(s).None? then None else Some(Places(s).value + |t|)
    ensures Numeral(s + t) <==> Numeral(s)
    decreases |t|
  {
    if t == [] {
      assert s + t == s;
    } else {
      var n := |t| - 1;
      Append(s, t[..n]);
      assert s + t == s + t[..n] + [t[n]];
      Snoc(s + t[..n], t[n]);
      Shift(Number(s), Pow(10, n), Number(t[..n]), DigitValue(t[n]));
    }
  }

  lemma Shift(v: int, p: int, w: int, d: int)
    ensures 10 * (v * p + w) + d == v * (10 * p) + (10 * w + d)
  {
  }

  lemma DigitsNumeral(s: string)
    requires AllDigits(s)
    ensures Numeral(s) && Places(s).None? && Decimals(s) == 0
  {
    Append([], s);
    assert [] + s == s;
  }

  /** A numeral without a dot is all digits. */
  lemma {:induction false} NoDot(s: string)
    requires '.' !in s
    ensures Places(s).None? && (Numeral(s) <==> AllDigits(s))
    decreases |s|
  {
    if s != [] {
      NoDot(s[..|s| - 1]);
    }
  }

  /** n digits denote less than 10^n. */
  lemma {:induction false} NumberBound(s: string)
    ensures Number(s) < Pow(10, |s|)
    decreases |s|
  {
    if s != [] {
      NumberBound(s[..|s| - 1]);
    }
  }

  // ----- zeros -----

  lemma {:induction false} ZerosAreZero(s: string)
    requires forall i :: 0 <= i < |s| ==> s[i] == '0'
    ensures Number(s) == 0
    decreases |s|
  {
    if s != [] {
      ZerosAreZero(s[..|s| - 1]);
    }
  }

  /** A string of digits that denotes zero is all zeros. */
  lemma {:induction false} ZeroIsZeros(s: string)
    requires AllDigits(s) && Number(s) == 0
    ensures forall i :: 0 <= i < |s| ==> s[i] == '0'
    decreases |s|
  {
    if s != [] {
      ZeroIsZeros(s[..|s| - 1]);
    }
  }

  /** Zeros in front of a text are not read. */
  lemma {:induction false} ReadAfterZeros(n: nat, s: string)
    ensures Number(Repeat('0', n) + s) == Number(s) && Places(Repeat('0', n) + s) == Places(s)
    ensures Numeral(Repeat('0', n) + s) <==> Numeral(s)
    decreases |s|
  {
    var z := Repeat('0', n);
    if s == [] {
      assert z + s == z;
      ZerosAreZero(z);
      DigitsNumeral(z);
    } else {
      var init, c := s[..|s| - 1], s[|s| - 1];
      ReadAfterZeros(n, init);
      assert z + s == (z + init) + [c] && s == init + [c];
      Snoc(z + init, c);
      Snoc(init, c);
    }
  }

  // ----- printing -----

  /** The decimal text of a number, without leading zeros. */
  function Dec(v: nat): (s: string)
    ensures |s| >= 1 && AllDigits(s) && Number(s) == v
    ensures s[0] == '0' ==> v == 0
  {
    if v < 10 then
      Snoc([], DigitChar(v));
      assert [] + [DigitChar(v)] == [DigitChar(v)];
      [DigitChar(v)]
    else
      Snoc(Dec(v / 10), DigitChar(v % 10));
      Dec(v / 10) + [DigitChar(v % 10)]
  }

  lemma {:induction false} DecLength(v: nat, n: nat)
    requires n >= 1 && v < Pow(10, n)
    ensures |Dec(v)| <= n
    decreases n
  {
    if v >= 10 {
      DecLength(v / 10, n - 1);
    }
  }

  /** A 64-bit number has at most twenty digits. */
  lemma TwentyDigits(n: nat)
    requires n == 20
    ensures MAX64 <= Pow(10, n)
  {
    var k := 10;
    assert Pow(10, k) == 10_000_000_000;
    PowAdd(10, k, k);
  }

  /** The last n decimal digits of a number. */
  function Fixed(v: nat, n: nat): (s: string)
    ensures |s| == n && AllDigits(s)
  {
    if n == 0 then [] else Fixed(v / 10, n - 1) + [DigitChar(v % 10)]
  }

  lemma {:induction false} FixedNumber(v: nat, n: nat)
    requires v < Pow(10, n)
    ensures Number(Fixed(v, n)) == v
    decreases n
  {
    if n > 0 {
      FixedNumber(v / 10, n - 1);
      Snoc(Fixed(v / 10, n - 1), DigitChar(v % 10));
    }
  }

  /** Zero-padded to a width it fits in, a number's text is its last digits. */
  lemma {:induction false} PaddedIsFixed(v: nat, n: nat)
    requires n >= 1 && v < Pow(10, n)
    ensures |Dec(v)| <= n && Repeat('0', n - |Dec(v)|) + Dec(v) == Fixed(v, n)
    decreases n
  {
    DecLength(v, n);
    if v < 10 {
      FixedOfZero(n - 1);
      assert v / 10 == 0 && v % 10 == v;
    } else {
      PaddedIsFixed(v / 10, n - 1);
      assert Repeat('0', n - |Dec(v)|) + Dec(v)
          == Repeat('0', n - 1 - |Dec(v / 10)|) + Dec(v / 10) + [DigitChar(v % 10)];
    }
  }

  lemma {:induction false} FixedOfZero(n: nat)
    ensures Fixed(0, n) == Repeat('0', n)
    decreases n
  {
    if n > 0 {
      FixedOfZero(n - 1);
    }
  }

  /** A string without its trailing zeros. */
  function Stripped(s: string): (t: string)
    ensures |t| <= |s| && s == t + Repeat('0', |s| - |t|)
    ensures t != [] ==> t[|t| - 1] != '0'
  {
    if s != [] && s[|s| - 1] == '0' then Stripped(s[..|s| - 1]) else s
  }
}
