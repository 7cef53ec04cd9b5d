/** Parsing decimal amounts in a denomination (`parse_signed_to_satoshi`). */
module AmountParse {
  import opened Arith
  import opened Words
  import opened Sequences
  import opened Numerals

  datatype Denomination =
    Dash | CentiDash | MilliDash | MicroDash | NanoDash | PicoDash | Bit | Satoshi | MilliSatoshi
  {
    /** The power of ten of these units that make a satoshi; negative for units above it. */
    function Precision(): (p: int)
      ensures -8 <= p <= 4
    {
      match this
      case Dash => -8
      case CentiDash => -6
      case MilliDash => -5
      case MicroDash => -2
      case NanoDash => 1
      case PicoDash => 4
      case Bit => -2
      case Satoshi => 0
      case MilliSatoshi => 3
    }
  }

  datatype ParseError =
    | Negative | TooBig | TooPrecise | InvalidFormat | InputTooLarge
    | InvalidCharacter(c: char)
    | UnknownDenomination(name: string)
    | PossiblyConfusingDenomination(name: string)

  /** An absolute value in satoshis and whether a minus sign was read. */
  datatype Signed = Signed(negative: bool, sats: u64)

  // ----- lengths in bytes -----

  /** The UTF-8 length of a string. */
  function ByteLen(s: string): (n: nat)
    ensures n >= |s| && (s != [] ==> n > 0)
  {
    if s == [] then 0
    else
      var c := s[|s| - 1] as int;
      ByteLen(s[..|s| - 1]) + if c < 0x80 then 1 else if c < 0x800 then 2 else if c < 0x1_0000 then 3 else 4
  }

  /** The bytes a character takes in UTF-8: one per 7, 11, 16 and 21 bits. */
  lemma ByteLenSnoc(s: string, c: char)
    ensures var n := ByteLen(s + [c]) - ByteLen(s);
            && 1 <= n <= 4
            && (n <= 1 <==> c as int < 128) && (n <= 2 <==> c as int < 2048) && (n <= 3 <==> c as int < 65536)
  {
    assert (s + [c])[..|s|] == s;
  }

  lemma {:induction false} AsciiLength(s: string)
    requires forall i :: 0 <= i < |s| ==> s[i] as int < 0x80
    ensures ByteLen(s) == |s|
    decreases |s|
  {
    if s != [] {
      AsciiLength(s[..|s| - 1]);
    }
  }

  // ----- reading digits -----

  /** No character of t is refused when max decimals are allowed. */
  ghost predicate Readable(t: string, max: nat) {
    Numeral(t) && Decimals(t) <= max && Number(t) < MAX64
  }

  lemma ReadableInit(t: string, max: nat)
    requires t != [] && Readable(t, max)
    ensures Readable(t[..|t| - 1], max)
  {
  }

  lemma {:induction false} ReadablePrefix(t: string, i: nat, max: nat)
    requires i <= |t| && Readable(t, max)
    ensures Readable(t[..i], max)
    decreases |t|
  {
    if i == |t| {
      assert t[..i] == t;
    } else {
      ReadableInit(t, max);
      ReadablePrefix(t[..|t| - 1], i, max);
      assert t[..|t| - 1][..i] == t[..i];
    }
  }

  /** The error for the first character at which a text stops being readable. */
  ghost function Fault(t: string, max: nat): ParseError
    requires !Readable(t, max)
  {
    var init, c := t[..|t| - 1], t[|t| - 1];
    if !Readable(init, max) then Fault(init, max)
    else if c == '.' then InvalidFormat
    else if !IsDigit(c) then InvalidCharacter(c)
    else if Number(t) >= MAX64 then TooBig
    else TooPrecise
  }

  lemma {:induction false} FaultStays(t: string, i: nat, max: nat)
    requires i <= |t| && !Readable(t[..i], max)
    ensures !Readable(t, max) && Fault(t, max) == Fault(t[..i], max)
    decreases |t|
  {
    if i == |t| {
      assert t[..i] == t;
    } else {
      assert t[..|t| - 1][..i] == t[..i];
      FaultStays(t[..|t| - 1], i, max);
      if Readable(t, max) {
        ReadableInit(t, max);
      }
    }
  }

  /** Character i is the first one refused, for reason e. */
  ghost predicate FirstRefused(t: string, max: nat, i: nat, e: ParseError) {
    && i < |t| && Readable(t[..i], max) && !Readable(t[..i + 1], max)
    && e == (if t[i] == '.' then InvalidFormat
             else if !IsDigit(t[i]) then InvalidCharacter(t[i])
             else if Number(t[..i + 1]) >= MAX64 then TooBig
             else TooPrecise)
  }

  ghost predicate Refused(t: string, max: nat, e: ParseError) {
    exists i: nat :: FirstRefused(t, max, i, e)
  }

  /** The error is that of the first refused character. */
  lemma {:induction false} FaultIsFirst(t: string, max: nat)
    requires !Readable(t, max)
    ensures Refused(t, max, Fault(t, max))
    decreases |t|
  {
    hide Numeral, Number, Places;
    NothingRead([], max);
    var n := |t| - 1;
    if Readable(t[..n], max) {
      assert t[..n + 1] == t;
      assert FirstRefused(t, max, n, Fault(t, max));
    } else {
      FaultIsFirst(t[..n], max);
      var i: nat :| FirstRefused(t[..n], max, i, Fault(t[..n], max));
      assert t[..n][..i] == t[..i] && t[..n][..i + 1] == t[..i + 1];
      assert FirstRefused(t, max, i, Fault(t, max));
    }
  }

  /** The loop over the characters of the number. */
  method ReadDigits(t: string, max: nat) returns (r: Result<u64, ParseError>, decimals: Option<nat>)
    ensures Readable(t, max) ==> r == Ok(Number(t)) && decimals == Places(t)
    ensures !Readable(t, max) ==> r == Err(Fault(t, max))
  {
    hide Numeral, Number, Places;
    decimals := None;
    var value: u64 := 0;
    NothingRead(t[..0], max);
    for i := 0 to |t|
      invariant Readable(t[..i], max)
      invariant value == Number(t[..i]) && decimals == Places(t[..i])
    {
      var c := t[i];
      Snoc(t[..i], c);
      assert t[..i + 1] == t[..i] + [c];
      assert t[..i + 1][..i] == t[..i];
      if Readable(t[..i + 1], max) {
      } else {
        FaultStays(t, i + 1, max);
      }
      if IsDigit(c) {
        if 10 * value >= MAX64 {
          return Err(TooBig), decimals;
        }
        if 10 * value + DigitValue(c) >= MAX64 {
          return Err(TooBig), decimals;
        }
        value := 10 * value + DigitValue(c);
        match decimals {
          case None =>
          case Some(d) =>
            if d >= max {
              return Err(TooPrecise), decimals;
            }
            decimals := Some(d + 1);
        }
      } else if c == '.' {
        if decimals.Some? {
          return Err(InvalidFormat), decimals;
        }
        decimals := Some(0);
      } else {
        return Err(InvalidCharacter(c)), decimals;
      }
    }
    assert t[..|t|] == t;
    r := Ok(value);
  }

  lemma NothingRead(t: string, max: nat)
    requires t == []
    ensures Readable(t, max) && Number(t) == 0 && Places(t).None?
  {
  }

  /** The scaling loop. */
  method Scale(value: u64, factor: nat) returns (r: Result<u64, ParseError>)
    ensures r == if value * Pow(10, factor) < MAX64 then Ok(value * Pow(10, factor)) else Err(TooBig)
  {
    hide Pow;
    var v := value;
    ScaleZero(value);
    for i := 0 to factor
      invariant v == value * Pow(10, i) < MAX64
    {
      ScaleStep(value, i, factor);
      if 10 * v >= MAX64 {
        return Err(TooBig);
      }
      v := 10 * v;
    }
    r := Ok(v);
  }

  lemma ScaleZero(value: nat)
    ensures value * Pow(10, 0) == value
  {
  }

  lemma ScaleStep(value: nat, i: nat, n: nat)
    requires i < n
    ensures value * Pow(10, i + 1) == 10 * (value * Pow(10, i))
    ensures 10 * (value * Pow(10, i)) <= value * Pow(10, n)
  {
    PowMono(10, i + 1, n);
    var p, q, r := Pow(10, i), Pow(10, i + 1), Pow(10, n);
    assert q == 10 * p;
    assert value * (10 * p) == 10 * (value * p);
    MulMono(q, r, value);
  }

  /** The value of a text with max decimals allowed, or why it has none. */
  ghost function Scaled(t: string, max: nat): Result<u64, ParseError> {
    if !Readable(t, max) then Err(Fault(t, max))
    else
      var v := Number(t) * Pow(10, max - Decimals(t));
      if v < MAX64 then Ok(v) else Err(TooBig)
  }

  // ----- units smaller than a satoshi -----

  predicate IsTooPrecise(s: string, precision: nat) {
    || '.' in s
    || precision >= ByteLen(s)
    || exists i :: |s| - precision <= i < |s| && 0 <= i && s[i] != '0'
  }

  function WithoutSign(s: string): string {
    if s != [] && (s[0] == '+' || s[0] == '-') then s[1..] else s
  }

  predicate AllZeros(s: string) {
    forall i :: 0 <= i < |s| ==> s[i] == '0'
  }

  /** Whether the standard library reads the string as the signed integer zero. */
  predicate SignedZero(s: string) {
    WithoutSign(s) != [] && AllZeros(WithoutSign(s))
  }

  /** One or more zeros behind at most one sign. */
  lemma SignedZeroMeans(s: string)
    ensures SignedZero(s) <==> exists n: nat :: n >= 1 && IsZeros(s, n)
  {
    if SignedZero(s) {
      var n := |WithoutSign(s)|;
      assert WithoutSign(s) == Repeat('0', n);
      assert s == WithoutSign(s) || s == [s[0]] + WithoutSign(s);
      assert IsZeros(s, n);
    }
    if n: nat :| n >= 1 && IsZeros(s, n) {
      assert s[0] == '0' ==> s == Repeat('0', n);
      assert s[0] != '0' ==> s[1..] == Repeat('0', n);
    }
  }

  ghost predicate IsZeros(s: string, n: nat) {
    s == Repeat('0', n) || s == "+" + Repeat('0', n) || s == "-" + Repeat('0', n)
  }

  lemma EnoughCharacters(s: string, precision: nat)
    requires !IsTooPrecise(s, precision)
    ensures |s| > precision && forall i :: |s| - precision <= i < |s| ==> s[i] == '0'
  {
    if |s| <= precision {
      AsciiLength(s);
    }
  }

  // ----- the parser -----

  function Up(denom: Denomination): nat {
    if denom.Precision() < 0 then -denom.Precision() else 0
  }

  function Down(denom: Denomination): nat {
    if denom.Precision() > 0 then denom.Precision() else 0
  }

  /** A text after its minus sign. */
  ghost function Unsigned(b: string, denom: Denomination): Result<u64, ParseError> {
    var n := Down(denom);
    if n == 0 then Scaled(b, Up(denom))
    else if IsTooPrecise(b, n) then if SignedZero(b) then Ok(0) else Err(TooPrecise)
    else
      EnoughCharacters(b, n);
      Scaled(b[..|b| - n], 0)
  }

  ghost function Parsed(s: string, denom: Denomination): Result<Signed, ParseError> {
    var negative := s != [] && s[0] == '-';
    var b := if negative then s[1..] else s;
    if s == [] then Err(InvalidFormat)
    else if ByteLen(s) > 50 then Err(InputTooLarge)
    else if b == [] then Err(InvalidFormat)
    else match Unsigned(b, denom)
      case Err(e) => Err(e)
      case Ok(v) => Ok(Signed(negative, v))
  }

  /** `parse_signed_to_satoshi` after the sign. */
  method ParseUnsigned(text: string, denom: Denomination) returns (r: Result<u64, ParseError>)
    ensures r == Unsigned(text, denom)
  {
    hide Readable, Fault, Numeral, Number, Places, SignedZero, IsTooPrecise;
    var s := text;
    var precisionDiff := -denom.Precision();
    var maxDecimals: nat := 0;
    if precisionDiff < 0 {
      var lastN := -precisionDiff;
      if IsTooPrecise(s, lastN) {
        return if SignedZero(s) then Ok(0) else Err(TooPrecise);
      }
      EnoughCharacters(s, lastN);
      s := s[..|s| - lastN];
    } else {
      maxDecimals := precisionDiff;
    }
    r := ParseScaled(s, maxDecimals);
  }

  method ParseScaled(s: string, maxDecimals: nat) returns (r: Result<u64, ParseError>)
    ensures r == Scaled(s, maxDecimals)
  {
    hide Readable, Fault, Numeral, Number, Places, Pow;
    var value, decimals := ReadDigits(s, maxDecimals);
    if value.Err? {
      return value;
    }
    DecimalsFit(s, maxDecimals);
    var scaleFactor := maxDecimals - match decimals { case None => 0 case Some(d) => d };
    r := Scale(value.value, scaleFactor);
  }

  lemma DecimalsFit(t: string, max: nat)
    ensures Readable(t, max) ==> Decimals(t) <= max
  {
  }

  /** `parse_signed_to_satoshi`. */
  method ParseSignedToSatoshi(text: string, denom: Denomination) returns (r: Result<Signed, ParseError>)
    ensures r == Parsed(text, denom)
  {
    hide Unsigned;
    if ByteLen(text) == 0 {
      return Err(InvalidFormat);
    }
    if ByteLen(text) > 50 {
      return Err(InputTooLarge);
    }
    var s := text;
    var isNegative := s[0] == '-';
    if isNegative {
      if ByteLen(s) == 1 {
        AsciiTail(s);
        return Err(InvalidFormat);
      }
      AsciiTail(s);
      s := s[1..];
    }
    var value := ParseUnsigned(s, denom);
    r := match value { case Err(e) => Err(e) case Ok(v) => Ok(Signed(isNegative, v)) };
  }

  lemma AsciiTail(s: string)
    requires s != [] && s[0] == '-'
    ensures ByteLen(s) == 1 <==> |s| == 1
  {
    if |s| == 1 {
      AsciiLength(s);
    }
  }

  // ----- exactness -----

  /** What the parser takes for v satoshis, after the minus sign. */
  ghost predicate Accepted(b: string, denom: Denomination, v: nat) {
    var p := denom.Precision();
    && v < MAX64
    && (if p <= 0 then Denotes(b, p, v) && Decimals(b) <= -p
        else (AllDigits(b) && Denotes(b, p, v)) || (SignedZero(b) && |b| <= p && v == 0))
  }

  /** Multiplying by the missing decimals is exact scaling. */
  lemma ScalingExact(x: nat, v: nat, f: nat, up: nat)
    requires f <= up
    ensures x * Pow(10, up) == v * Pow(10, f) <==> x * Pow(10, up - f) == v
    ensures x <= x * Pow(10, up - f)
  {
    hide Pow;
    PowAdd(10, up - f, f);
    var a, c := Pow(10, up - f), Pow(10, f);
    Cancel(x, a, c, v);
    MulMono(1, a, x);
  }

  lemma Cancel(x: nat, a: nat, c: nat, v: nat)
    requires c > 0
    ensures x * (a * c) == v * c <==> x * a == v
  {
    assert x * (a * c) == (x * a) * c;
    if x * a < v {
      MulStrict(x * a, v, c);
    } else if x * a > v {
      MulStrict(v, x * a, c);
    }
  }

  lemma ScaledExactly(t: string, max: nat, v: nat)
    ensures Scaled(t, max) == Ok(v) <==>
              v < MAX64 && Numeral(t) && Decimals(t) <= max && Number(t) * Pow(10, max) == v * Pow(10, Decimals(t))
  {
    hide Numeral, Number, Decimals, Pow;
    if Decimals(t) <= max {
      ScalingExact(Number(t), v, Decimals(t), max);
      ScalingExact(Number(t), Number(t) * Pow(10, max - Decimals(t)), Decimals(t), max);
    }
  }

  /** Cutting off n zeros divides by 10^n. */
  lemma CutZeros(b: string, n: nat)
    requires n <= |b| && forall i :: |b| - n <= i < |b| ==> b[i] == '0'
    ensures Number(b) == Number(b[..|b| - n]) * Pow(10, n)
    ensures Places(b).None? <==> Places(b[..|b| - n]).None?
    ensures Numeral(b) <==> Numeral(b[..|b| - n])
  {
    var t, u := b[..|b| - n], b[|b| - n..];
    assert b == t + u;
    Append(t, u);
    ZerosAreZero(u);
  }

  /** A multiple of 10^n that does not end in n zeros, or is not longer, is zero. */
  lemma MultipleEndsInZeros(b: string, n: nat, v: nat)
    requires AllDigits(b) && b != [] && Number(b) == v * Pow(10, n) && IsTooPrecise(b, n)
    ensures v == 0 && SignedZero(b)
  {
    hide Pow, Number;
    AsciiLength(b);
    if |b| <= n {
      NumberBound(b);
      PowMono(10, |b|, n);
      SmallMultiple(v, Pow(10, n));
      SmallZero(b);
    } else {
      var i :| |b| - n <= i < |b| && b[i] != '0';
      var t, u := b[..|b| - n], b[|b| - n..];
      assert b == t + u && u[i - (|b| - n)] == b[i];
      Append(t, u);
      NumberBound(u);
      DivModUnique(Number(b), Pow(10, n), Number(t), Number(u));
      DivModUnique(Number(b), Pow(10, n), v, 0);
      ZeroIsZeros(u);
    }
  }

  lemma SmallZero(b: string)
    requires AllDigits(b) && b != [] && Number(b) == 0
    ensures SignedZero(b)
  {
    ZeroIsZeros(b);
    assert IsDigit(b[0]);
  }

  /** Below a satoshi, the cut text is read as a number exactly when the whole is digits. */
  lemma CutExactly(b: string, n: nat, v: nat)
    requires !IsTooPrecise(b, n) && n < |b|
    ensures Scaled(b[..|b| - n], 0) == Ok(v) <==> v < MAX64 && AllDigits(b) && Number(b) == v * Pow(10, n)
  {
    hide Number, Pow, Numeral, Scaled;
    EnoughCharacters(b, n);
    var t := b[..|b| - n];
    CutZeros(b, n);
    NoDot(b);
    NoDot(t);
    ScaledExactly(t, 0, v);
    ScaleZero(Number(t));
    ScaleZero(v);
    Cancel(Number(t), 1, Pow(10, n), v);
  }

  lemma TooPreciseZero(b: string, n: nat)
    requires SignedZero(b)
    ensures |b| <= n ==> IsTooPrecise(b, n)
    ensures IsTooPrecise(b, n) ==> |b| <= n || AllDigits(b)
  {
    AsciiLength(b);
  }

  lemma FineExactly(b: string, denom: Denomination, v: nat)
    requires b != [] && denom.Precision() > 0
    ensures Unsigned(b, denom) == Ok(v) <==> Accepted(b, denom, v)
  {
    hide Number, Pow, SignedZero, IsTooPrecise, Numeral, Scaled;
    var n := Down(denom);
    if AllDigits(b) {
      DigitsNumeral(b);
    }
    ScaleZero(Number(b));
    if SignedZero(b) {
      TooPreciseZero(b, n);
      ZeroDenoted(b, n);
    }
    if IsTooPrecise(b, n) {
      if AllDigits(b) && Number(b) == v * Pow(10, n) {
        MultipleEndsInZeros(b, n, v);
      }
    } else {
      EnoughCharacters(b, n);
      CutExactly(b, n, v);
    }
  }

  lemma ZeroDenoted(b: string, n: nat)
    requires SignedZero(b)
    ensures AllDigits(b) ==> Number(b) == 0 * Pow(10, n)
  {
    if AllDigits(b) {
      assert IsDigit(b[0]);
      ZerosAreZero(b);
    }
  }

  lemma CoarseExactly(b: string, denom: Denomination, v: nat)
    requires denom.Precision() <= 0
    ensures Unsigned(b, denom) == Ok(v) <==> Accepted(b, denom, v)
  {
    ScaledExactly(b, Up(denom), v);
  }

  /** The parser returns v exactly on the texts that stand for v satoshis in the denomination. */
  lemma ParsedExactly(s: string, denom: Denomination, negative: bool, v: u64)
    ensures Parsed(s, denom) == Ok(Signed(negative, v)) <==>
              && s != [] && ByteLen(s) <= 50
              && negative == (s[0] == '-')
              && var b := if negative then s[1..] else s;
                 b != [] && Accepted(b, denom, v)
  {
    hide Unsigned, Accepted, ByteLen;
    if s != [] {
      var b := if s[0] == '-' then s[1..] else s;
      if b != [] {
        if denom.Precision() <= 0 {
          CoarseExactly(b, denom, v);
        } else {
          FineExactly(b, denom, v);
        }
      }
    }
  }

  // ----- refusals -----

  /** Refusals before a digit is read, and those that come from reading. */
  lemma Refusals(s: string, denom: Denomination, e: ParseError)
    ensures s == "" || s == "-" ==> Parsed(s, denom) == Err(InvalidFormat)
    ensures ByteLen(s) > 50 ==> Parsed(s, denom) == Err(InputTooLarge)
    ensures var b := if s != [] && s[0] == '-' then s[1..] else s;
            b != [] && ByteLen(s) <= 50 ==> (Parsed(s, denom) == Err(e) <==> Unsigned(b, denom) == Err(e))
  {
    hide Unsigned;
    AsciiLength("-");
  }

  /** From a satoshi up: the first refused character, or a scaled value beyond 64 bits. */
  lemma CoarseRefusal(b: string, denom: Denomination, e: ParseError)
    requires denom.Precision() <= 0 && Unsigned(b, denom) == Err(e)
    ensures Refused(b, -denom.Precision(), e) || (Readable(b, -denom.Precision()) && e == TooBig)
  {
    hide Readable, Fault, Refused, Pow;
    if !Readable(b, -denom.Precision()) {
      FaultIsFirst(b, -denom.Precision());
    }
  }

  lemma UnscaledRefusal(t: string)
    ensures Scaled(t, 0).Err? ==> Refused(t, 0, Scaled(t, 0).error)
  {
    hide Fault, Refused, Numeral;
    if Readable(t, 0) {
      ScaleZero(Number(t));
    } else {
      FaultIsFirst(t, 0);
    }
  }

  /** Below a satoshi: too precise, or the first refused character of what is left. */
  lemma FineRefusal(b: string, denom: Denomination, e: ParseError)
    requires denom.Precision() > 0 && Unsigned(b, denom) == Err(e)
    ensures var p := denom.Precision();
            if IsTooPrecise(b, p) then e == TooPrecise
            else |b| > p && Refused(b[..|b| - p], 0, e)
  {
    hide Fault, Refused, SignedZero, IsTooPrecise, Scaled;
    var p := denom.Precision();
    if !IsTooPrecise(b, p) {
      EnoughCharacters(b, p);
      UnscaledRefusal(b[..|b| - p]);
    }
  }
}
