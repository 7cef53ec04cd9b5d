/** Base58 with a checksum: the first four bytes of a digest of the data, at its end. */
module Base58Check {
  import opened Words
  import opened Base58
  import Base58Encode
  import Base58Decode
  import CompactSize

  /** A 32-byte digest; double SHA-256 in the source, any function here. */
  type Digest = d: Bytes | |d| == 32 witness seq(32, _ => 0)
  type Hash = Bytes -> Digest

  ghost function CheckEncoded(hash: Hash, data: Bytes): Bytes {
    Encoded(data + hash(data)[..4])
  }

  /** `decode_check`: succeeds on exactly the encodings, with the data they encode. */
  method DecodeCheck(hash: Hash, text: Bytes) returns (r: Result<Bytes, Error>)
    ensures Decoded(text).Err? ==> r == Err(Decoded(text).error)
    ensures Decoded(text).Ok? && |Decoded(text).value| < 4 ==> r == Err(TooShort(|Decoded(text).value|))
    ensures forall data :: r == Ok(data) <==> text == CheckEncoded(hash, data)
    ensures Decoded(text).Ok? && |Decoded(text).value| >= 4 && r.Err? ==>
              var bytes := Decoded(text).value;
              var n := |bytes| - 4;
              && r.error.BadChecksum? && r.error.expected != r.error.actual
              && r.error.expected == CompactSize.LeValue(hash(bytes[..n])[..4])
              && r.error.actual == CompactSize.LeValue(bytes[n..])
  {
    hide Decoded, CheckEncoded, CompactSize.LeValue;
    var ret := Base58Decode.Decode(text);
    if ret.Err? {
      NotEncoded(hash, text);
      return ret;
    }
    var bytes := ret.value;
    if |bytes| < 4 {
      NotEncoded(hash, text);
      return Err(TooShort(|bytes|));
    }
    var checkStart := |bytes| - 4;
    var data := bytes[..checkStart];
    CompactSize.Sizes();
    var expected: u32 := CompactSize.LeValue(hash(data)[..4]);
    var actual: u32 := CompactSize.LeValue(bytes[checkStart..]);
    SumsAgree(hash(data)[..4], bytes[checkStart..]);
    forall d
      ensures text == CheckEncoded(hash, d) <==> d == data && bytes[checkStart..] == hash(d)[..4]
    {
      SplitChecked(hash, text, checkStart, d);
    }
    if expected != actual {
      return Err(BadChecksum(expected, actual));
    }
    return Ok(data);
  }

  /** `encode_check`. */
  method EncodeCheck(hash: Hash, data: Bytes) returns (text: Bytes)
    ensures text == CheckEncoded(hash, data)
  {
    text := Base58Encode.FormatIter(data + hash(data)[..4]);
  }

  /** The encoded bytes are the data and the first four bytes of its digest. */
  lemma CheckedBytes(hash: Hash, data: Bytes)
    ensures Decoded(CheckEncoded(hash, data)).Ok?
    ensures var bytes := Decoded(CheckEncoded(hash, data)).value;
            && |bytes| == |data| + 4 && bytes[..|data|] == data
            && forall i :: 0 <= i < 4 ==> bytes[|data| + i] == hash(data)[i]
  {
    hide Decoded, Encoded;
    DecodeEncoded(data + hash(data)[..4]);
  }

  /** Comparing the two sums as little-endian numbers is comparing the bytes. */
  lemma SumsAgree(a: Bytes, b: Bytes)
    requires |a| == |b|
    ensures CompactSize.LeValue(a) == CompactSize.LeValue(b) <==> a == b
  {
    CompactSize.LeBytesOfValue(a);
    CompactSize.LeBytesOfValue(b);
  }

  /** What does not decode, or decodes to less than a checksum, is no encoding. */
  lemma NotEncoded(hash: Hash, text: Bytes)
    requires Decoded(text).Err? || |Decoded(text).value| < 4
    ensures forall data :: text != CheckEncoded(hash, data)
  {
    forall data
      ensures text != CheckEncoded(hash, data)
    {
      DecodeEncoded(data + hash(data)[..4]);
    }
  }

  /** A text is the encoding of data exactly when its bytes are data and data's own checksum. */
  lemma SplitChecked(hash: Hash, text: Bytes, n: nat, data: Bytes)
    requires Decoded(text).Ok? && |Decoded(text).value| == n + 4
    ensures text == CheckEncoded(hash, data) <==>
              && data == Decoded(text).value[..n]
              && Decoded(text).value[n..] == hash(data)[..4]
  {
    hide Decoded, Encoded;
    var bytes := Decoded(text).value;
    var sum: Bytes := hash(data)[..4];
    DecodeEncoded(data + sum);
    EncodeDecoded(text);
    if text == CheckEncoded(hash, data) {
      assert bytes == data + sum;
      assert bytes[..n] == data && bytes[n..] == sum;
    }
    if data == bytes[..n] && bytes[n..] == sum {
      assert bytes[..n] + bytes[n..] == bytes;
    }
  }
}
