/** Amounts: text with and without a denomination, printed and parsed back. */
module Amount {
  import opened Arith
  import opened Words
  import opened Numerals
  import opened Padding
  import opened AmountParse
  import opened AmountFormat
  import Denominations

  const MAX_SIGNED := 0x7FFF_FFFF_FFFF_FFFF
  const MIN_SIGNED := -0x8000_0000_0000_0000

  type i64 = x: int | MIN_SIGNED <= x <= MAX_SIGNED

  // ----- splitting off the denomination -----

  /** The first character of a kind. */
  function Find(s: string, kind: char -> bool): (r: Option<nat>)
    ensures r.None? ==> forall i :: 0 <= i < |s| ==> !kind(s[i])
    ensures r.Some? ==> r.value < |s| && kind(s[r.value]) && forall i :: 0 <= i < r.value ==> !kind(s[i])
  {
    if s == [] then None
    else if kind(s[0]) then Some(0)
    else match Find(s[1..], kind)
      case None => None
      case Some(i) => Some(i + 1)
  }

  /** Text split at its first space or, without one, before its first letter. */
  function SplitAmountAndDenomination(alphabetic: char -> bool, s: string): Result<(string, Denomination), ParseError> {
    var space := Find(s, c => c == ' ');
    if space.Some? then Split(s[..space.value], s[space.value + 1..])
    else
      var letter := Find(s, alphabetic);
      if letter.None? then Err(InvalidFormat) else Split(s[..letter.value], s[letter.value..])
  }

  function Split(amount: string, name: string): Result<(string, Denomination), ParseError> {
    match Denominations.FromStr(name)
    case Err(e) => Err(e)
    case Ok(d) => Ok((amount, d))
  }

  // ----- amounts and signed amounts -----

  function AsUnsigned(r: Result<Signed, ParseError>): Result<u64, ParseError> {
    match r
    case Err(e) => Err(e)
    case Ok(s) =>
      if s.negative then Err(Negative)
      else if s.sats > MAX_SIGNED then Err(TooBig)
      else Ok(s.sats)
  }

  function WithSign(r: Result<Signed, ParseError>): Result<i64, ParseError> {
    match r
    case Err(e) => Err(e)
    case Ok(s) =>
      if s.sats > MAX_SIGNED then Err(TooBig)
      else if s.negative then Ok(0 - s.sats as int)
      else Ok(s.sats)
  }

  /** The absolute value; that of the smallest integer wraps round to 2^63. */
  function Abs(v: i64): u64 {
    if v < 0 then 0 - v as int else v
  }

  ghost function ParsedWithName(alphabetic: char -> bool, s: string): Result<Signed, ParseError> {
    match SplitAmountAndDenomination(alphabetic, s)
    case Err(e) => Err(e)
    case Ok((amount, denom)) => Parsed(amount, denom)
  }

  /** `Amount::from_str_in`. */
  method AmountFromStrIn(s: string, denom: Denomination) returns (r: Result<u64, ParseError>)
    ensures r == AsUnsigned(Parsed(s, denom))
  {
    var parsed := ParseSignedToSatoshi(s, denom);
    r := AsUnsigned(parsed);
  }

  /** `SignedAmount::from_str_in`. */
  method SignedFromStrIn(s: string, denom: Denomination) returns (r: Result<i64, ParseError>)
    ensures r == WithSign(Parsed(s, denom))
  {
    var parsed := ParseSignedToSatoshi(s, denom);
    r := WithSign(parsed);
  }

  /** Values that are read and then refused: a sign before a size. */
  lemma AmountRefusals(s: string, denom: Denomination, negative: bool, v: u64)
    requires Parsed(s, denom) == Ok(Signed(negative, v))
    ensures negative ==> AsUnsigned(Parsed(s, denom)) == Err(Negative)
    ensures !negative && v > 0x7FFF_FFFF_FFFF_FFFF ==> AsUnsigned(Parsed(s, denom)) == Err(TooBig)
    ensures v > 0x7FFF_FFFF_FFFF_FFFF ==> WithSign(Parsed(s, denom)) == Err(TooBig)
  {
  }

  /** An amount is returned exactly for unsigned texts that stand for it, up to 63 bits. */
  lemma AmountReadsExactly(s: string, denom: Denomination, v: u64)
    ensures AsUnsigned(Parsed(s, denom)) == Ok(v) <==>
              v <= 0x7FFF_FFFF_FFFF_FFFF && s != [] && ByteLen(s) <= 50 && s[0] != '-' && Accepted(s, denom, v)
  {
    hide Parsed, Accepted, ByteLen;
    ParsedExactly(s, denom, false, v);
  }

  /** A signed amount is returned exactly for texts whose magnitude stands for it, with its sign. */
  lemma SignedReadsExactly(s: string, denom: Denomination, v: i64)
    ensures WithSign(Parsed(s, denom)) == Ok(v) <==>
              && s != [] && ByteLen(s) <= 50
              && var b, x := if s[0] == '-' then s[1..] else s, if s[0] == '-' then 0 - v as int else v;
                 b != [] && 0 <= x <= MAX_SIGNED && Accepted(b, denom, x)
  {
    hide Parsed, Accepted, ByteLen;
    if Parsed(s, denom).Ok? {
      var p := Parsed(s, denom).value;
      ParsedExactly(s, denom, p.negative, p.sats);
    }
    if s != [] {
      var x := if s[0] == '-' then 0 - v as int else v;
      if 0 <= x <= MAX_SIGNED {
        ParsedExactly(s, denom, s[0] == '-', x);
      }
    }
  }

  /** `Amount::from_str_with_denomination`. */
  method AmountFromStr(alphabetic: char -> bool, s: string) returns (r: Result<u64, ParseError>)
    ensures r == AsUnsigned(ParsedWithName(alphabetic, s))
  {
    var split := SplitAmountAndDenomination(alphabetic, s);
    if split.Err? {
      return Err(split.error);
    }
    r := AmountFromStrIn(split.value.0, split.value.1);
  }

  /** `SignedAmount::from_str_with_denomination`. */
  method SignedFromStr(alphabetic: char -> bool, s: string) returns (r: Result<i64, ParseError>)
    ensures r == WithSign(ParsedWithName(alphabetic, s))
  {
    var split := SplitAmountAndDenomination(alphabetic, s);
    if split.Err? {
      return Err(split.error);
    }
    r := SignedFromStrIn(split.value.0, split.value.1);
  }

  /** Printing without options, with or without the denomination. */
  function Text(sats: u64, negative: bool, denom: Denomination, showDenom: bool): string {
    Join(LayoutOf(sats, negative, denom, showDenom, DEFAULT))
  }

  lemma PlainText(sats: u64, negative: bool, denom: Denomination, showDenom: bool)
    ensures Text(sats, negative, denom, showDenom)
         == (if negative then "-" else "") + NumberText(sats, denom.Precision(), 0) + SuffixText(denom, showDenom)
  {
    hide NumberText, Name;
  }

  // ----- round trips -----

  ghost predicate PlainCharacters(s: string) {
    forall i :: 0 <= i < |s| ==> IsDigit(s[i]) || s[i] == '.'
  }

  /** The shape of a printed number. */
  lemma NumberShape(sats: u64, p: int)
    requires -8 <= p <= 4
    ensures var t := NumberText(sats, p, 0);
            && 0 < |t| <= 29 && IsDigit(t[0])
            && PlainCharacters(t)
            && (p >= 0 ==> AllDigits(t))
  {
    hide Pow, Dec, Stripped, Fixed;
    TwentyDigits(20);
    if p < 0 {
      QuotientFits(sats, Pow(10, -p));
      DecLength(sats / Pow(10, -p), 20);
      CoarseDenotes(sats, p, |Fraction(sats, p)|);
    } else {
      DecLength(sats, 20);
    }
  }

  lemma NumberAccepted(sats: u64, denom: Denomination)
    ensures Accepted(NumberText(sats, denom.Precision(), 0), denom, sats)
  {
    hide NumberText, Denotes, SignedZero, Decimals;
    NumberShape(sats, denom.Precision());
    NumberDenotes(sats, denom.Precision(), 0);
  }

  /** A sign in front of accepted text. */
  lemma SignedText(t: string, negative: bool, denom: Denomination, v: u64)
    requires 0 < |t| <= 29 && IsDigit(t[0]) && PlainCharacters(t) && Accepted(t, denom, v)
    ensures Parsed((if negative then "-" else "") + t, denom) == Ok(Signed(negative, v))
  {
    hide Parsed, Accepted, ByteLen;
    var s := (if negative then "-" else "") + t;
    assert s[0] == '-' <==> negative;
    assert if negative then s[1..] == t else s == t;
    AsciiLength(s);
    ParsedExactly(s, denom, negative, v);
  }

  /** Every printed value is read back, sign included. */
  lemma PrintedIsParsed(sats: u64, negative: bool, denom: Denomination)
    ensures Parsed(Text(sats, negative, denom, false), denom) == Ok(Signed(negative, sats))
  {
    hide NumberText, Parsed, Accepted, Text, PlainCharacters;
    var t := NumberText(sats, denom.Precision(), 0);
    PlainText(sats, negative, denom, false);
    assert Text(sats, negative, denom, false) == (if negative then "-" else "") + t;
    NumberShape(sats, denom.Precision());
    NumberAccepted(sats, denom);
    SignedText(t, negative, denom, sats);
  }

  /** The first space ends the amount and is dropped. */
  lemma SplitAtSpace(alphabetic: char -> bool, amount: string, name: string)
    requires ' ' !in amount
    ensures SplitAmountAndDenomination(alphabetic, amount + " " + name) == Split(amount, name)
  {
    hide Split;
    var s := amount + " " + name;
    assert s[|amount|] == ' ';
    assert forall i :: 0 <= i < |amount| ==> s[i] == amount[i];
    assert s[..|amount|] == amount && s[|amount| + 1..] == name;
  }

  /** Without a space, the first letter starts the denomination. */
  lemma SplitAtLetter(alphabetic: char -> bool, amount: string, name: string)
    requires ' ' !in amount + name && name != [] && alphabetic(name[0])
    requires forall i :: 0 <= i < |amount| ==> !alphabetic(amount[i])
    ensures SplitAmountAndDenomination(alphabetic, amount + name) == Split(amount, name)
  {
    hide Split;
    var s := amount + name;
    assert s[|amount|] == name[0];
    assert forall i :: 0 <= i < |amount| ==> s[i] == amount[i];
    assert s[..|amount|] == amount && s[|amount|..] == name;
  }

  /** With neither there is no denomination. */
  lemma NothingToSplit(alphabetic: char -> bool, s: string)
    requires ' ' !in s && forall i :: 0 <= i < |s| ==> !alphabetic(s[i])
    ensures SplitAmountAndDenomination(alphabetic, s) == Err(InvalidFormat)
  {
    var space := Find(s, c => c == ' ');
    var letter := Find(s, alphabetic);
    assert space.None? && letter.None?;
  }

  /** Text with a denomination splits back into the printed value and that denomination. */
  lemma DenominationRoundTrip(alphabetic: char -> bool, sats: u64, negative: bool, denom: Denomination)
    ensures SplitAmountAndDenomination(alphabetic, Text(sats, negative, denom, true))
         == Ok((Text(sats, negative, denom, false), denom))
  {
    hide NumberText, Name, Denominations.FromStr, SplitAmountAndDenomination, Text;
    Denominations.NamesReadBack(denom);
    PlainText(sats, negative, denom, true);
    PlainText(sats, negative, denom, false);
    NumberShape(sats, denom.Precision());
    var a := Text(sats, negative, denom, false);
    assert Text(sats, negative, denom, true) == a + " " + Name(denom);
    SplitAtSpace(alphabetic, a, Name(denom));
  }

  /** Characters as the standard library sorts them, as far as printed amounts need it. */
  ghost predicate LettersAreLetters(alphabetic: char -> bool) {
    && (forall c :: 'a' <= c <= 'z' || 'A' <= c <= 'Z' ==> alphabetic(c))
    && (forall c :: '0' <= c <= '9' || c == '.' || c == '-' ==> !alphabetic(c))
  }

  lemma NameStartsWithLetter(denom: Denomination)
    ensures var n := Name(denom); n != [] && ' ' !in n && ('a' <= n[0] <= 'z' || 'A' <= n[0] <= 'Z')
  {
  }

  /** A denomination right behind the number, without a space, is read back too. */
  lemma UnspacedRoundTrip(alphabetic: char -> bool, sats: u64, negative: bool, denom: Denomination)
    requires LettersAreLetters(alphabetic)
    ensures ParsedWithName(alphabetic, Text(sats, negative, denom, false) + Name(denom)) == Ok(Signed(negative, sats))
  {
    hide NumberText, Name, Denominations.FromStr, SplitAmountAndDenomination, Text, Parsed;
    Denominations.NamesReadBack(denom);
    NameStartsWithLetter(denom);
    PlainText(sats, negative, denom, false);
    NumberShape(sats, denom.Precision());
    SplitAtLetter(alphabetic, Text(sats, negative, denom, false), Name(denom));
    PrintedIsParsed(sats, negative, denom);
  }

  /** An amount is read back, with or without its denomination, exactly when it fits in 63 bits. */
  lemma AmountRoundTrip(alphabetic: char -> bool, sats: u64, denom: Denomination)
    ensures var back := if sats <= 0x7FFF_FFFF_FFFF_FFFF then Ok(sats) else Err(TooBig);
            && AsUnsigned(Parsed(Text(sats, false, denom, false), denom)) == back
            && AsUnsigned(ParsedWithName(alphabetic, Text(sats, false, denom, true))) == back
  {
    hide Parsed, Text, SplitAmountAndDenomination;
    PrintedIsParsed(sats, false, denom);
    DenominationRoundTrip(alphabetic, sats, false, denom);
  }

  /** A signed amount is read back exactly when it is not the smallest. */
  lemma SignedRoundTrip(alphabetic: char -> bool, v: i64, denom: Denomination)
    ensures var back := if v != -0x8000_0000_0000_0000 then Ok(v) else Err(TooBig);
            && WithSign(Parsed(Text(Abs(v), v < 0, denom, false), denom)) == back
            && WithSign(ParsedWithName(alphabetic, Text(Abs(v), v < 0, denom, true))) == back
  {
    hide Parsed, Text, SplitAmountAndDenomination;
    PrintedIsParsed(Abs(v), v < 0, denom);
    DenominationRoundTrip(alphabetic, Abs(v), v < 0, denom);
  }

  /**
   A plus sign is refused everywhere but in a zero too short for its unit, where the whole text
   goes through the integer parser of the standard library.
   */
  lemma PlusSign()
    ensures Parsed("+0", PicoDash) == Ok(Signed(false, 0))
    ensures Parsed("+0", NanoDash).Err? && Parsed("+0", Satoshi).Err?
  {
    hide Parsed;
    var s := "+0";
    AsciiLength(s);
    assert !IsDigit(s[0]);
    ParsedExactly(s, PicoDash, false, 0);
    NoDot(s);
    if Parsed(s, NanoDash).Ok? {
      ParsedExactly(s, NanoDash, Parsed(s, NanoDash).value.negative, Parsed(s, NanoDash).value.sats);
    }
    if Parsed(s, Satoshi).Ok? {
      ParsedExactly(s, Satoshi, Parsed(s, Satoshi).value.negative, Parsed(s, Satoshi).value.sats);
    }
  }

  /** A lone dot is a numeral without digits, and is read as zero. */
  lemma LoneDot()
    ensures Parsed(".", Dash) == Ok(Signed(false, 0)) && Parsed("-.", Dash) == Ok(Signed(true, 0))
  {
    hide Parsed;
    AsciiLength(".");
    AsciiLength("-.");
    Snoc([], '.');
    assert [] + ['.'] == "." && "-."[1..] == ".";
    ParsedExactly(".", Dash, false, 0);
    ParsedExactly("-.", Dash, true, 0);
  }
}
