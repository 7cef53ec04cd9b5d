/** Base58: what encoding and decoding mean, and that they undo each other. */
module Base58 {
  import opened Words
  import opened Radix

  datatype Error = BadByte(byte: u8) | BadChecksum(expected: u32, actual: u32) | TooShort(length: nat)

  type Bytes = seq<u8>

  /** The alphabet: digits and letters without 0, O, I and l, as ASCII codes. */
  function CharOf(d: nat): u8
    requires d < 58
  {
    if d < 9 then 49 + d            // 1-9
    else if d < 17 then 65 + d - 9   // A-H
    else if d < 22 then 74 + d - 17  // J-N
    else if d < 33 then 80 + d - 22  // P-Z
    else if d < 44 then 97 + d - 33  // a-k
    else 109 + d - 44                // m-z
  }

  /** The digit of a byte, the decoding table. */
  function DigitOf(c: u8): Option<nat> {
    if 49 <= c <= 57 then Some(c - 49)
    else if 65 <= c <= 72 then Some(c - 65 + 9)
    else if 74 <= c <= 78 then Some(c - 74 + 17)
    else if 80 <= c <= 90 then Some(c - 80 + 22)
    else if 97 <= c <= 107 then Some(c - 97 + 33)
    else if 109 <= c <= 122 then Some(c - 109 + 44)
    else None
  }

  lemma TablesAgree(d: nat, c: u8)
    ensures d < 58 ==> DigitOf(CharOf(d)) == Some(d)
    ensures DigitOf(c).Some? ==> DigitOf(c).value < 58 && CharOf(DigitOf(c).value) == c
  {
  }

  /** The digits and letters of ASCII without 0, I, O and l. */
  ghost predicate InAlphabet(c: u8) {
    && (48 <= c <= 57 || 65 <= c <= 90 || 97 <= c <= 122)
    && c != 48 && c != 73 && c != 79 && c != 108
  }

  /** The alphabet is listed in ASCII order, which fixes it. */
  lemma AlphabetInOrder(c: u8)
    ensures forall d, e :: 0 <= d < e < 58 ==> CharOf(d) < CharOf(e)
    ensures InAlphabet(c) <==> exists d :: 0 <= d < 58 && CharOf(d) == c
    ensures InAlphabet(c) <==> DigitOf(c).Some?
  {
    if InAlphabet(c) {
      TablesAgree(0, c);
      assert CharOf(DigitOf(c).value) == c;
    }
  }

  function ToText(digits: seq<nat>): (t: Bytes)
    requires Digits(58, digits)
    ensures |t| == |digits| && forall i :: 0 <= i < |t| ==> t[i] == CharOf(digits[i])
  {
    seq(|digits|, i requires 0 <= i < |digits| => CharOf(digits[i]))
  }

  ghost predicate ValidText(t: Bytes) {
    forall i :: 0 <= i < |t| ==> DigitOf(t[i]).Some?
  }

  function FromText(t: Bytes): (digits: seq<nat>)
    requires ValidText(t)
    ensures |digits| == |t| && Digits(58, digits)
    ensures forall i :: 0 <= i < |t| ==> DigitOf(t[i]) == Some(digits[i])
  {
    seq(|t|, i requires 0 <= i < |t| => DigitOf(t[i]).value)
  }

  /** Every leading zero byte becomes a leading digit 0; the rest is the number in base 58. */
  function EncodedDigits(data: Bytes): (digits: seq<nat>)
    ensures Digits(58, digits)
  {
    Zeros(LeadingZeros(data)) + ToDigits(58, Value(256, data))
  }

  function Encoded(data: Bytes): Bytes {
    ToText(EncodedDigits(data))
  }

  /** The mirror image in base 256. */
  function DecodedBytes(digits: seq<nat>): (data: seq<nat>)
    ensures Digits(256, data)
  {
    Zeros(LeadingZeros(digits)) + ToDigits(256, Value(58, digits))
  }

  function AsBytes(data: seq<nat>): (b: Bytes)
    requires Digits(256, data)
    ensures b == data
  {
    seq(|data|, i requires 0 <= i < |data| => data[i] as u8)
  }

  /** The first byte outside the alphabet. */
  function FirstBad(t: Bytes): (c: Option<u8>)
    ensures c.None? <==> ValidText(t)
  {
    if t == [] then None
    else if DigitOf(t[0]).None? then Some(t[0])
    else FirstBad(t[1..])
  }

  lemma {:induction false} FirstBadAt(t: Bytes, i: nat)
    requires i < |t| && ValidText(t[..i]) && DigitOf(t[i]).None?
    ensures FirstBad(t) == Some(t[i])
    decreases |t|
  {
    if i > 0 {
      assert t[..i][0] == t[0];
      forall k | 0 <= k < i - 1
        ensures DigitOf(t[1..][k]).Some?
      {
        assert t[..i][k + 1] == t[1..][k];
      }
      FirstBadAt(t[1..], i - 1);
    }
  }

  function Decoded(t: Bytes): Result<Bytes, Error> {
    match FirstBad(t)
    case Some(c) => Err(BadByte(c))
    case None => Ok(AsBytes(DecodedBytes(FromText(t))))
  }

  /** Same number, same count of leading zeros. */
  lemma EncodedMeans(data: Bytes)
    ensures Value(58, EncodedDigits(data)) == Value(256, data)
    ensures LeadingZeros(EncodedDigits(data)) == LeadingZeros(data)
  {
    var n, t := LeadingZeros(data), ToDigits(58, Value(256, data));
    ValueOfZeroPadded(58, n, t);
    LeadingZerosOfPadded(n, t);
  }

  // ----- bijection -----

  /** The two digit conversions undo each other, leading zeros included. */
  lemma ConversionsInverse(b: nat, c: nat, s: seq<nat>)
    requires b >= 2 && c >= 2 && Digits(b, s)
    ensures var t := Zeros(LeadingZeros(s)) + ToDigits(c, Value(b, s));
            Zeros(LeadingZeros(t)) + ToDigits(b, Value(c, t)) == s
  {
    var n, v := LeadingZeros(s), Value(b, s);
    LeadingZerosOfPadded(n, ToDigits(c, v));
    ValueOfZeroPadded(c, n, ToDigits(c, v));
    StripIsCanonical(b, s);
  }

  /** Decoding what was encoded gives back every byte string. */
  lemma DecodeEncoded(data: Bytes)
    ensures Decoded(Encoded(data)) == Ok(data)
  {
    var digits := EncodedDigits(data);
    var t := Encoded(data);
    forall i | 0 <= i < |t|
      ensures DigitOf(t[i]) == Some(digits[i])
    {
      TablesAgree(digits[i], t[i]);
    }
    assert FromText(t) == digits;
    ConversionsInverse(256, 58, data);
  }

  /** Encoding what was decoded gives back every valid text. */
  lemma EncodeDecoded(t: Bytes)
    requires Decoded(t).Ok?
    ensures Encoded(Decoded(t).value) == t
  {
    var digits := FromText(t);
    ConversionsInverse(58, 256, digits);
    assert EncodedDigits(Decoded(t).value) == digits;
    forall i | 0 <= i < |t|
      ensures CharOf(digits[i]) == t[i]
    {
      TablesAgree(0, t[i]);
    }
  }
}
