/** The variable-length integer of the consensus encoding (`VarInt`). */
module CompactSize {
  import opened Arith
  import opened Words
  import opened Radix

  /** v as n little-endian bytes. */
  function LeBytes(v: nat, n: nat): (s: seq<u8>)
    ensures |s| == n
  {
    if n == 0 then [] else [v % 256] + LeBytes(v / 256, n - 1)
  }

  /** The number n little-endian bytes stand for. */
  function LeValue(s: seq<u8>): (v: nat)
    ensures v < Pow(256, |s|)
  {
    ValueLeBound(256, s);
    ValueLe(256, s)
  }

  lemma {:induction false} LeValueOfBytes(v: nat, n: nat)
    requires v < Pow(256, n)
    ensures LeValue(LeBytes(v, n)) == v
    decreases n
  {
    if n > 0 {
      LeValueOfBytes(v / 256, n - 1);
    }
  }

  lemma LeValueConcat(a: seq<u8>, b: seq<u8>)
    ensures LeValue(a + b) == LeValue(b) * Pow(256, |a|) + LeValue(a)
  {
    hide ValueLe, Pow;
    ValueLeConcat(256, a, b);
  }

  lemma OneByte(x: u8)
    ensures LeValue([x]) == x && Pow(256, 1) == 256
  {
    assert Rev([x]) == [x] && [x][..0] == [];
  }

  lemma FirstByte(s: seq<u8>)
    requires s != []
    ensures LeValue(s) % 256 == s[0] && LeValue(s) / 256 == LeValue(s[1..])
  {
    hide LeValue, Pow;
    assert s == [s[0]] + s[1..];
    LeValueConcat([s[0]], s[1..]);
    OneByte(s[0]);
    DivModUnique(LeValue(s), 256, LeValue(s[1..]), s[0]);
  }

  lemma {:induction false} LeBytesOfValue(s: seq<u8>)
    ensures LeBytes(LeValue(s), |s|) == s
    decreases |s|
  {
    hide LeValue;
    if s != [] {
      LeBytesOfValue(s[1..]);
      FirstByte(s);
    }
  }

  lemma Sizes()
    ensures Pow(256, 2) == 0x1_0000 && Pow(256, 4) == 0x1_0000_0000 && Pow(256, 8) == MAX64
  {
    var k := 2;
    assert Pow(256, k) == 0x1_0000;
    PowAdd(256, k, k);
    PowAdd(256, 2 * k, 2 * k);
  }

  /** `consensus_encode` of a VarInt. */
  function Encode(v: u64): seq<u8> {
    if v <= 0xFC then [v]
    else if v <= 0xFFFF then [0xFD] + LeBytes(v, 2)
    else if v <= 0xFFFF_FFFF then [0xFE] + LeBytes(v, 4)
    else [0xFF] + LeBytes(v, 8)
  }

  /** A decoded number and the input after it. */
  datatype Parsed<+T> = Parsed(value: T, rest: seq<u8>)

  /** `consensus_decode` of a VarInt: only the shortest form is accepted. */
  function Decode(s: seq<u8>): Result<Parsed<u64>, IoError> {
    if s == [] then Err(UnexpectedEof)
    else if s[0] == 0xFF then DecodeWide(s[1..], 8, 0x1_0000_0000)
    else if s[0] == 0xFE then DecodeWide(s[1..], 4, 0x1_0000)
    else if s[0] == 0xFD then DecodeWide(s[1..], 2, 0xFD)
    else Ok(Parsed(s[0], s[1..]))
  }

  function DecodeWide(s: seq<u8>, n: nat, least: nat): Result<Parsed<u64>, IoError>
    requires n <= 8
  {
    if |s| < n then Err(UnexpectedEof)
    else
      var x := LeValue(s[..n]);
      Sizes();
      PowMono(256, n, 8);
      if x < least then Err(NonMinimalVarInt) else Ok(Parsed(x, s[n..]))
  }

  lemma WideEncoded(v: nat, n: nat, least: nat, rest: seq<u8>)
    requires n <= 8 && least <= v < Pow(256, n)
    ensures DecodeWide(LeBytes(v, n) + rest, n, least) == Ok(Parsed(v, rest))
  {
    LeValueOfBytes(v, n);
    var s := LeBytes(v, n) + rest;
    assert s[..n] == LeBytes(v, n) && s[n..] == rest;
  }

  /** What was encoded is decoded, and the rest of the input is left alone. */
  lemma DecodeEncoded(v: u64, rest: seq<u8>)
    ensures Decode(Encode(v) + rest) == Ok(Parsed(v, rest))
  {
    hide LeBytes, LeValue, Pow;
    Sizes();
    var s := Encode(v) + rest;
    if v <= 0xFC {
      assert s[1..] == rest;
    } else {
      hide DecodeWide;
      var n, least := if v <= 0xFFFF then 2 else if v <= 0xFFFF_FFFF then 4 else 8,
                      if v <= 0xFFFF then 0xFD else if v <= 0xFFFF_FFFF then 0x1_0000 else 0x1_0000_0000;
      WideEncoded(v, n, least, rest);
      assert s[1..] == LeBytes(v, n) + rest;
    }
  }

  /** Nothing else decodes to v: a decoded prefix is the encoding of its value. */
  lemma EncodeDecoded(s: seq<u8>)
    requires Decode(s).Ok?
    ensures s == Encode(Decode(s).value.value) + Decode(s).value.rest
  {
    Sizes();
    if s[0] >= 0xFD {
      var n := if s[0] == 0xFD then 2 else if s[0] == 0xFE then 4 else 8;
      var body := s[1..];
      LeBytesOfValue(body[..n]);
      assert body == body[..n] + body[n..];
      assert s == [s[0]] + body;
    }
  }

  /** One byte up to 252; otherwise a marker and two, four or eight little-endian bytes, the fewest that hold v. */
  lemma EncodedShape(v: u64)
    ensures v <= 252 ==> Encode(v) == [v]
    ensures v > 252 ==>
              var s := Encode(v);
              && |s| == (if v < 0x1_0000 then 3 else if v < 0x1_0000_0000 then 5 else 9)
              && s[0] == (if v < 0x1_0000 then 253 else if v < 0x1_0000_0000 then 254 else 255)
              && LeValue(s[1..]) == v
  {
    Sizes();
    if v > 252 {
      var n := if v < 0x1_0000 then 2 else if v < 0x1_0000_0000 then 4 else 8;
      LeValueOfBytes(v, n);
      assert Encode(v)[1..] == LeBytes(v, n);
    }
  }
}
