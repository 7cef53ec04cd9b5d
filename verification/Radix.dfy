/** Big-endian positional notation in any base, and its canonical (no leading zero) form. */
module Radix {
  import opened Arith

  function Value(b: nat, s: seq<nat>): nat {
    if s == [] then 0 else Value(b, s[..|s| - 1]) * b + s[|s| - 1]
  }

  predicate Digits(b: nat, s: seq<nat>) {
    forall i :: 0 <= i < |s| ==> s[i] < b
  }

  predicate Canonical(b: nat, s: seq<nat>) {
    Digits(b, s) && (s != [] ==> s[0] != 0)
  }

  /** The canonical digits of v; zero has none. */
  function ToDigits(b: nat, v: nat): (s: seq<nat>)
    requires b >= 2
    ensures Canonical(b, s) && Value(b, s) == v
    decreases v
  {
    if v == 0 then []
    else
      DivModOf(v, b);
      DivShrinks(v, b);
      var hi := ToDigits(b, v / b);
      assert hi == [] ==> v / b == 0;
      var s := hi + [v % b];
      assert s[..|s| - 1] == hi;
      s
  }

  function Zeros(n: nat): (s: seq<nat>)
    ensures |s| == n && forall i :: 0 <= i < n ==> s[i] == 0
  {
    seq(n, _ => 0)
  }

  /** How many zeros a string starts with. */
  function LeadingZeros(s: seq<nat>): (n: nat)
    ensures n <= |s| && (forall i :: 0 <= i < n ==> s[i] == 0) && (n < |s| ==> s[n] != 0)
  {
    if s != [] && s[0] == 0 then 1 + LeadingZeros(s[1..]) else 0
  }

  lemma DivShrinks(v: nat, b: nat)
    requires b >= 2 && v > 0
    ensures 0 <= v / b < v
  {
    DivNonNeg(v, b);
    DivModOf(v, b);
    if v / b > 0 {
      MulMono(2, b, v / b);
    }
  }

  lemma {:induction false} ValueConcat(b: nat, s: seq<nat>, t: seq<nat>)
    ensures Value(b, s + t) == Value(b, s) * Pow(b, |t|) + Value(b, t)
    decreases |t|
  {
    if t == [] {
      assert s + t == s;
    } else {
      var t' := t[..|t| - 1];
      assert (s + t)[..|s + t| - 1] == s + t';
      ValueConcat(b, s, t');
      var v, p, w, d := Value(b, s), Pow(b, |t'|), Value(b, t'), t[|t| - 1];
      HornerShift(v, p, w, d, b);
    }
  }

  lemma HornerShift(v: int, p: int, w: int, d: int, b: int)
    ensures (v * p + w) * b + d == v * (b * p) + (w * b + d)
  {
    assert v * p * b == v * (b * p);
  }

  lemma {:induction false} ValueBound(b: nat, s: seq<nat>)
    requires Digits(b, s)
    ensures Value(b, s) < Pow(b, |s|)
    decreases |s|
  {
    if s != [] {
      var t := s[..|s| - 1];
      ValueBound(b, t);
      HornerBound(Value(b, t), Pow(b, |t|), s[|s| - 1], b);
    }
  }

  lemma HornerBound(v: int, p: int, d: int, b: int)
    requires v < p && d < b && 0 <= b
    ensures v * b + d < b * p
  {
    MulMono(v + 1, p, b);
  }

  /** A leading non-zero digit bounds the value from below. */
  lemma ValueFloor(b: nat, s: seq<nat>)
    requires b > 0 && s != [] && s[0] != 0
    ensures Value(b, s) >= Pow(b, |s| - 1)
  {
    var h := [s[0]];
    assert s == h + s[1..];
    ValueConcat(b, h, s[1..]);
    assert h[..0] == [];
    assert Value(b, h) == s[0];
    MulMono(1, s[0], Pow(b, |s| - 1));
  }

  lemma {:induction false} ZerosValue(b: nat, n: nat)
    ensures Value(b, Zeros(n)) == 0
    decreases n
  {
    if n > 0 {
      assert Zeros(n)[..n - 1] == Zeros(n - 1);
      ZerosValue(b, n - 1);
    }
  }

  lemma ValueOfZeroPadded(b: nat, n: nat, s: seq<nat>)
    ensures Value(b, Zeros(n) + s) == Value(b, s)
  {
    ValueConcat(b, Zeros(n), s);
    ZerosValue(b, n);
  }

  /** Same length, same value, same digits. */
  lemma {:induction false} ValueInjective(b: nat, s: seq<nat>, t: seq<nat>)
    requires b > 0 && |s| == |t| && Digits(b, s) && Digits(b, t) && Value(b, s) == Value(b, t)
    ensures s == t
    decreases |s|
  {
    if s != [] {
      var n := |s| - 1;
      DivModUnique(Value(b, s), b, Value(b, s[..n]), s[n]);
      DivModUnique(Value(b, t), b, Value(b, t[..n]), t[n]);
      ValueInjective(b, s[..n], t[..n]);
      assert s == s[..n] + [s[n]] && t == t[..n] + [t[n]];
    }
  }

  /** A number has one canonical representation. */
  lemma CanonicalUnique(b: nat, s: seq<nat>, t: seq<nat>)
    requires b >= 2 && Canonical(b, s) && Canonical(b, t) && Value(b, s) == Value(b, t)
    ensures s == t
  {
    CanonicalLength(b, s, t);
    CanonicalLength(b, t, s);
    ValueInjective(b, s, t);
  }

  lemma CanonicalLength(b: nat, s: seq<nat>, t: seq<nat>)
    requires b >= 2 && Canonical(b, s) && Canonical(b, t) && Value(b, s) == Value(b, t)
    ensures |s| <= |t|
  {
    if |s| > |t| {
      ValueFloor(b, s);
      ValueBound(b, t);
      PowMono(b, |t|, |s| - 1);
    }
  }

  /** Dropping the leading zeros gives the canonical digits of the same number. */
  lemma StripIsCanonical(b: nat, s: seq<nat>)
    requires b >= 2 && Digits(b, s)
    ensures s[LeadingZeros(s)..] == ToDigits(b, Value(b, s))
    ensures s == Zeros(LeadingZeros(s)) + ToDigits(b, Value(b, s))
  {
    var n := LeadingZeros(s);
    var rest := s[n..];
    assert s == Zeros(n) + rest;
    ValueOfZeroPadded(b, n, rest);
    CanonicalUnique(b, rest, ToDigits(b, Value(b, s)));
  }

  lemma LeadingZerosOfPadded(n: nat, s: seq<nat>)
    requires s != [] ==> s[0] != 0
    ensures LeadingZeros(Zeros(n) + s) == n
  {
    var t := Zeros(n) + s;
    assert n < |t| ==> t[n] == s[0];
    assert forall i :: 0 <= i < n ==> t[i] == 0;
  }

  // ----- little-endian strings -----

  function Rev(s: seq<nat>): (r: seq<nat>)
    ensures |r| == |s| && forall i :: 0 <= i < |s| ==> r[i] == s[|s| - 1 - i]
  {
    if s == [] then [] else Rev(s[1..]) + [s[0]]
  }

  /** The value of a string whose least significant digit comes first. */
  function ValueLe(b: nat, s: seq<nat>): nat {
    Value(b, Rev(s))
  }

  lemma ValueLeSnoc(b: nat, s: seq<nat>, x: nat)
    ensures ValueLe(b, s + [x]) == ValueLe(b, s) + x * Pow(b, |s|)
  {
    hide Value, Pow;
    assert Rev(s + [x]) == [x] + Rev(s);
    ValueCons(b, x, Rev(s));
  }

  lemma RevConcat(s: seq<nat>, t: seq<nat>)
    ensures Rev(s + t) == Rev(t) + Rev(s)
  {
    hide Rev;
  }

  lemma ValueLeConcat(b: nat, s: seq<nat>, t: seq<nat>)
    ensures ValueLe(b, s + t) == ValueLe(b, t) * Pow(b, |s|) + ValueLe(b, s)
  {
    hide Value, Pow, Rev;
    RevConcat(s, t);
    ValueConcat(b, Rev(t), Rev(s));
  }

  lemma ValueCons(b: nat, x: nat, s: seq<nat>)
    ensures Value(b, [x] + s) == x * Pow(b, |s|) + Value(b, s)
  {
    ValueConcat(b, [x], s);
    assert [x][..0] == [];
    assert Value(b, [x]) == x;
  }

  lemma ValueLeBound(b: nat, s: seq<nat>)
    requires Digits(b, s)
    ensures ValueLe(b, s) < Pow(b, |s|)
  {
    ValueBound(b, Rev(s));
  }

  /**
   One step of multiplying a digit string by `mul` and adding `add` in place: the digit x of
   weight p becomes n % b, and n / b is carried on.
   */
  lemma CarryStep(b: nat, p: nat, done: nat, todo: nat, carry: nat, x: nat, mul: nat, add: nat, n: nat)
    requires b > 0 && done + carry * p == mul * todo + add && n == carry + mul * x
    ensures (done + n % b * p) + n / b * (b * p) == mul * (todo + x * p) + add
  {
    DivModOf(n, b);
    calc {
      n % b * p + n / b * (b * p);
      { MulAssoc(n / b, b, p); }
      n % b * p + n / b * b * p;
      { DistributeRight(n % b, n / b * b, p); }
      n * p;
      { DistributeRight(carry, mul * x, p); MulAssoc(mul, x, p); }
      carry * p + mul * (x * p);
    }
    DistributeRight(todo, x * p, mul);
  }

  lemma DistributeRight(a: int, c: int, p: int)
    ensures (a + c) * p == a * p + c * p
    ensures p * (a + c) == p * a + p * c
  {
  }

  /**
   A little-endian string being multiplied by `mul` and increased by `add` in place: the first
   i digits are done, and with the carry they hold the result for the digits they replaced.
   */
  ghost predicate MulAdded(b: nat, ws: seq<nat>, orig: seq<nat>, i: nat, carry: nat, mul: nat, add: nat) {
    && i <= |ws| == |orig|
    && ws[i..] == orig[i..]
    && ValueLe(b, ws[..i]) + carry * Pow(b, i) == mul * ValueLe(b, orig[..i]) + add
  }

  lemma MulAddedStart(b: nat, ws: seq<nat>, mul: nat, add: nat)
    ensures MulAdded(b, ws, ws, 0, add, mul, add)
  {
    assert ws[..0] == [] && ValueLe(b, []) == 0;
  }

  lemma MulAddedStep(b: nat, ws: seq<nat>, orig: seq<nat>, i: nat, carry: nat, mul: nat, add: nat, n: nat, w: nat)
    requires b > 0 && i < |ws| && MulAdded(b, ws, orig, i, carry, mul, add)
    requires n == carry + mul * ws[i] && w == n % b && 0 <= n / b
    ensures MulAdded(b, ws[i := w], orig, i + 1, n / b, mul, add)
  {
    hide ValueLe, Pow;
    var ws' := ws[i := w];
    assert ws[i] == ws[i..][0] == orig[i];
    assert ws'[..i + 1] == ws[..i] + [w] && orig[..i + 1] == orig[..i] + [orig[i]];
    assert ws'[i + 1..] == ws[i..][1..] == orig[i..][1..] == orig[i + 1..];
    ValueLeSnoc(b, ws[..i], w);
    ValueLeSnoc(b, orig[..i], orig[i]);
    PowSucc(b, i);
    CarryStep(b, Pow(b, i), ValueLe(b, ws[..i]), ValueLe(b, orig[..i]), carry, ws[i], mul, add, n);
  }

  lemma MulAddedDone(b: nat, ws: seq<nat>, orig: seq<nat>, carry: nat, mul: nat, add: nat)
    requires MulAdded(b, ws, orig, |orig|, carry, mul, add)
    ensures |ws| == |orig| && ValueLe(b, ws) + carry * Pow(b, |ws|) == mul * ValueLe(b, orig) + add
  {
    assert ws[..|ws|] == ws && orig[..|ws|] == orig;
  }

  lemma PowSucc(b: nat, i: nat)
    ensures Pow(b, i + 1) == b * Pow(b, i)
  {
  }
}
