/** Decimal printing of 256-bit integers. */
module DecimalFormat {
  import opened Arith
  import opened Sequences
  import opened Numerals
  import opened Padding
  import opened Uint256
  import opened Division

  lemma TenToThe13(k: nat)
    requires k == 13
    ensures Pow(10, k) == 10_000_000_000_000
  {
  }

  /** 78 decimal digits are enough. */
  lemma DigitsSuffice(n: nat)
    requires n == 78
    ensures MODULUS <= Pow(10, n)
  {
    hide Pow;
    var k := 13;
    TenToThe13(k);
    PowAdd(10, k, k);
    PowAdd(10, 2 * k, k);
    PowAdd(10, 3 * k, 3 * k);
  }

  lemma LowByte(u: U256)
    ensures Val(u) < 256 ==> u.lo % 256 == Val(u)
  {
    if u.hi > 0 {
      MulMono(1, u.hi, B);
    }
  }

  /** The last decimal digit of a number and what is left of it. */
  method LastDigit(cur: U256) returns (digit: nat, rest: U256)
    ensures digit == Val(cur) % 10
    ensures Val(rest) == Val(cur) / 10
    ensures rest == ZERO <==> Val(cur) / 10 == 0
  {
    var ten := U256(0, 10);
    assert Val(ten) == 10;
    hide Val, Quot, Rem;
    var _, rem := DivRem(cur, ten);
    LowByte(rem);
    digit := rem.lo % 256;
    rest, rem := DivRem(cur, ten);
    NonZero(rest);
  }

  /** With i + 1 slots left, v is still to be printed in front of what the buffer holds behind them. */
  ghost predicate Printing(x: nat, v: nat, i: int, buf: string) {
    -1 <= i < |buf| && |Dec(v)| <= i + 1 && Dec(x) == Dec(v) + buf[i + 1..]
  }

  /** One digit more in the buffer: either the text is complete or there is room for the next one. */
  lemma PrintDigit(x: nat, v: nat, i: nat, buf: string, buf': string)
    requires i < |buf| && Printing(x, v, i, buf) && buf' == buf[i := DigitChar(v % 10)]
    ensures v / 10 == 0 ==> buf'[i..] == Dec(x)
    ensures v / 10 != 0 ==> i > 0 && Printing(x, v / 10, i - 1, buf')
  {
    var tail := buf[i + 1..];
    assert buf'[i..] == [DigitChar(v % 10)] + tail;
    if v >= 10 {
      assert Dec(v) + tail == Dec(v / 10) + ([DigitChar(v % 10)] + tail);
    }
  }

  lemma StartPrinting(u: U256, buf: string)
    requires |buf| == 78
    ensures Printing(Val(u), Val(u), 77, buf)
  {
    DigitsSuffice(78);
    DecLength(Val(u), 78);
    assert buf[78..] == [] && Dec(Val(u)) + [] == Dec(Val(u));
  }

  /** `fmt_decimal` up to the padding: a 78-byte buffer filled from its end. */
  method FmtDecimal(u: U256) returns (s: string)
    requires u != ZERO
    ensures s == Dec(Val(u))
  {
    hide Dec, Val;
    var buf := new char[78](_ => '0');
    var i := 77;
    var cur := u;
    ghost var x := Val(u);
    StartPrinting(u, buf[..]);
    while true
      invariant 0 <= i <= 77 && Printing(x, Val(cur), i, buf[..])
      decreases i
    {
      ghost var v, before := Val(cur), buf[..];
      var digit;
      digit, cur := LastDigit(cur);
      buf[i] := DigitChar(digit);
      PrintDigit(x, v, i, before, buf[..]);
      if cur == ZERO {
        break;
      }
      i := i - 1;
    }
    s := buf[i..];
  }

  /** The integer padding of the standard formatter, for a number that is not negative. */
  method PadIntegral(digits: string, o: FormatOptions) returns (text: string)
    ensures text == Join(LayOut(SignText(false, o), digits, "", o))
  {
    hide Pads, LayOut;
    var sign := SignText(false, o);
    var (left, right) := Pads(|sign| + |digits| + |""|, o);
    PadsOfLayout(sign, digits, "", o);
    ghost var l := LayOut(sign, digits, "", o);
    text := "";
    if !o.signAwareZeroPad {
      text := RepeatChar(text, o.fill, left);
    }
    assert text == l.left;
    text := text + sign;
    if o.signAwareZeroPad {
      text := RepeatChar(text, '0', left);
    }
    assert text == l.left + l.sign + l.zeros;
    text := text + digits;
    text := RepeatChar(text, o.fill, right);
  }

  /** `Display`: zero is printed as one digit, everything else by `fmt_decimal`. */
  method Display(u: U256, o: FormatOptions) returns (text: string)
    ensures text == Join(LayOut(SignText(false, o), Dec(Val(u)), "", o))
  {
    NonZero(u);
    if u == ZERO {
      text := PadIntegral("0", o);
      ZeroText();
    } else {
      var digits := FmtDecimal(u);
      text := PadIntegral(digits, o);
    }
  }

  /** Whatever the options, the width is exact and the digits read back as the number. */
  lemma DisplaySound(u: U256, o: FormatOptions)
    ensures var l := LayOut(SignText(false, o), Dec(Val(u)), "", o);
            && |Join(l)| == Max(OrZero(o.width), |l.sign| + |l.number|)
            && AllDigits(l.zeros + l.number) && Number(l.zeros + l.number) == Val(u)
            && (l.number[0] == '0' ==> Val(u) == 0 && |l.number| == 1)
  {
    hide Val, Number, Dec, Join, SignText;
    var l := LayOut(SignText(false, o), Dec(Val(u)), "", o);
    WidthExact(l.sign, l.number, "", o);
    ReadAfterZeros(|l.zeros|, l.number);
    assert l.zeros == Repeat('0', |l.zeros|);
    ZeroText();
  }

  lemma ZeroText()
    ensures Dec(0) == "0"
  {
  }
}
