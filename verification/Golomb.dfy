/** Golomb-Rice coding of 64-bit numbers on a bit stream (section "Golomb-Rice Coding" of BIP 158). */
module Golomb {
  import opened Arith
  import opened Words
  import opened Sequences
  import opened BitSeq
  import opened BitStream

  /** n with parameter 2^p: the quotient in unary, a zero, the p low bits. */
  ghost function CodeBits(p: nat, n: nat): seq<bool> {
    Repeat(true, High(n, p)) + [false] + ToBits(n, p)
  }

  /** The code of n: n / 2^p ones, a zero, and n % 2^p in p bits, the highest first. */
  lemma CodeMeaning(p: nat, n: nat)
    ensures var s, q := CodeBits(p, n), n / Pow2(p);
            && 0 <= q && |s| == q + 1 + p
            && (forall i :: 0 <= i < q ==> s[i]) && !s[q]
            && FromBits(s[q + 1..]) == n % Pow2(p)
  {
    var s, q := CodeBits(p, n), High(n, p);
    FromToBits(n, p);
    hide ToBits, FromBits;
    assert s[q + 1..] == ToBits(n, p);
  }

  /** The number of ones a bit string starts with. */
  ghost function Ones(s: seq<bool>): (q: nat)
    ensures q <= |s| && s[..q] == Repeat(true, q) && (q < |s| ==> !s[q])
  {
    if s != [] && s[0] then
      var q := 1 + Ones(s[1..]);
      assert s[..q] == [true] + s[1..][..q - 1];
      q
    else 0
  }

  /** A decoded number and the bits after it. */
  datatype Decoded = Decoded(value: nat, rest: seq<bool>)

  /**
   What `golomb_rice_decode` makes of any bit string: the ones must fit a 64-bit counter, and
   the parameter is the width of a read and then a shift distance.
   */
  ghost function Decode(p: nat, s: seq<bool>): (r: Result<Decoded, IoError>)
    ensures r.Ok? ==> r.value.value < MAX64 && |r.value.rest| < |s|
  {
    var q := Ones(s);
    if q >= MAX64 then Err(Overflow)
    else if q == |s| then Err(UnexpectedEof)
    else
      var tail := s[q + 1..];
      if p > 64 then Err(TooManyBits)
      else if |tail| < p then Err(UnexpectedEof)
      else if p == 64 then Err(Overflow)
      else
        WrappedSum(q, p, FromBits(tail[..p]));
        Ok(Decoded(q * Pow2(p) % MAX64 + FromBits(tail[..p]), tail[p..]))
  }

  /** The shifted quotient has room for the remainder: the sum never overflows. */
  lemma WrappedSum(q: nat, p: nat, r: nat)
    requires p < 64 && r < Pow2(p)
    ensures 0 <= q * Pow2(p) % MAX64 && q * Pow2(p) % MAX64 + r < MAX64
  {
    WordSizes();
    Pow2Split(p, 64);
    ScaleMod(q, Pow2(p), Pow2(64 - p));
    RoomBelow(q % Pow2(64 - p), Pow2(64 - p), Pow2(p), r);
  }

  lemma RoomBelow(a: int, m: int, d: int, r: int)
    requires 0 <= a < m && 0 <= r < d
    ensures 0 <= a * d && a * d + r < m * d
  {
    MulMono(0, a, d);
    MulMono(a + 1, m, d);
  }

  lemma {:induction false} OnesOf(q: nat, s: seq<bool>)
    requires s == [] || !s[0]
    ensures Ones(Repeat(true, q) + s) == q
    decreases q
  {
    if q > 0 {
      OnesOf(q - 1, s);
      assert (Repeat(true, q) + s)[1..] == Repeat(true, q - 1) + s;
    }
  }

  /** Decoding by the number of ones, the low bits and the rest. */
  lemma DecodeParts(p: nat, q: nat, low: seq<bool>, rest: seq<bool>)
    requires p == |low| < 64 && q < MAX64
    ensures var s := Repeat(true, q) + ([false] + (low + rest));
            && 0 <= q * Pow2(p) % MAX64
            && Decode(p, s) == Ok(Decoded(q * Pow2(p) % MAX64 + FromBits(low), rest))
  {
    var s := Repeat(true, q) + ([false] + (low + rest));
    OnesOf(q, [false] + (low + rest));
    assert s[q + 1..] == low + rest;
    SplitAt(low + rest, low, rest);
    WrappedSum(q, p, FromBits(low));
  }

  /** Decoding undoes encoding and stops exactly behind it. */
  lemma DecodeCode(p: nat, n: u64, rest: seq<bool>)
    requires p < 64
    ensures Decode(p, CodeBits(p, n) + rest) == Ok(Decoded(n, rest))
  {
    var q, low := High(n, p), ToBits(n, p);
    HighLow(n, p);
    MulMono(1, Pow2(p), q);
    DecodeParts(p, q, low, rest);
    CodeShape(Repeat(true, q), low, rest);
    CodeValue(p, n);
  }

  lemma CodeShape(ones: seq<bool>, low: seq<bool>, rest: seq<bool>)
    ensures ones + [false] + low + rest == ones + ([false] + (low + rest))
  {
  }

  lemma CodeValue(p: nat, n: u64)
    ensures High(n, p) * Pow2(p) % MAX64 + FromBits(ToBits(n, p)) == n
  {
    FromToBits(n, p);
    HighLow(n, p);
    SmallMod(High(n, p) * Pow2(p), MAX64);
  }

  /** The unary part: ones in portions of at most 64. */
  method WriteOnes(w: BitStreamWriter, count: nat) returns (wrote: nat)
    requires w.Valid()
    modifies w
    ensures w.Valid() && w.Bits() == old(w.Bits()) + Repeat(true, count)
    ensures old(w.out) <= w.out && |w.out| == |old(w.out)| + wrote
  {
    wrote := 0;
    var q := count;
    while q > 0
      invariant w.Valid() && 0 <= q <= count
      invariant w.Bits() == old(w.Bits()) + Repeat(true, count - q)
      invariant old(w.out) <= w.out && |w.out| == |old(w.out)| + wrote
    {
      var nbits := Min(q, 64);
      OnesBits(nbits);
      var r := w.Write(MAX64 - 1, nbits);
      assert Repeat(true, count - q) + Repeat(true, nbits) == Repeat(true, count - q + nbits);
      wrote := wrote + r.value;
      q := q - nbits;
    }
  }

  /** `golomb_rice_encode`: a shift by 64 or more panics before anything is written. */
  method Encode(w: BitStreamWriter, p: nat, n: u64) returns (res: Result<nat, IoError>)
    requires w.Valid()
    modifies w
    ensures w.Valid()
    ensures p < 64 ==> w.Bits() == old(w.Bits()) + CodeBits(p, n)
    ensures p < 64 ==> old(w.out) <= w.out && res == Ok(|w.out| - |old(w.out)|)
    ensures p >= 64 ==> res == Err(Overflow) && w.Bits() == old(w.Bits()) && w.out == old(w.out)
  {
    if p >= 64 {
      return Err(Overflow);
    }
    var wrote := WriteOnes(w, High(n, p));
    var r := w.Write(0, 1);
    wrote := wrote + r.value;
    assert ToBits(0, 1) == [false];
    r := w.Write(n, p);
    wrote := wrote + r.value;
    CodeOf(old(w.Bits()), p, n);
    res := Ok(wrote);
  }

  lemma CodeOf(s: seq<bool>, p: nat, n: nat)
    ensures s + Repeat(true, High(n, p)) + [false] + ToBits(n, p) == s + CodeBits(p, n)
  {
  }

  /** The unary part read back: the number of ones before the first zero. */
  method ReadOnes(r: BitStreamReader) returns (res: Result<u64, IoError>)
    requires r.Valid()
    modifies r
    ensures r.Valid()
    ensures var s := old(r.Remaining());
            if Ones(s) >= MAX64 then res == Err(Overflow)
            else if Ones(s) == |s| then res == Err(UnexpectedEof) && r.Remaining() == []
            else res == Ok(Ones(s)) && r.Remaining() == s[Ones(s) + 1..]
  {
    ghost var s := r.Remaining();
    var q: u64 := 0;
    while true
      invariant r.Valid() && q <= Ones(s) && r.Remaining() == s[q..]
      decreases |s| - q
    {
      OneBit(s, q);
      var bit := r.Read(1);
      if bit.Err? {
        return bit;
      }
      if bit.value != 1 {
        return Ok(q);
      }
      if q == MAX64 - 1 {
        return Err(Overflow);
      }
      q := q + 1;
    }
  }

  /** `golomb_rice_decode`; after an error the stream is where the failing read left it. */
  method DecodeFrom(r: BitStreamReader, p: nat) returns (res: Result<u64, IoError>)
    requires r.Valid()
    modifies r
    ensures r.Valid()
    ensures var s := old(r.Remaining());
            match Decode(p, s)
            case Ok(d) => res == Ok(d.value) && r.Remaining() == d.rest
            case Err(e) =>
              && res == Err(e)
              && (e == UnexpectedEof ==> r.Remaining() == [])
              && (e == TooManyBits ==> r.Remaining() == s[Ones(s) + 1..])
  {
    hide Decode, Ones, FromBits, Pow2, BitStreamReader.Remaining, BitStreamReader.Valid;
    ghost var s := r.Remaining();
    DecodeCases(p, s);
    var ones := ReadOnes(r);
    if ones.Err? {
      return ones;
    }
    var low := r.Read(p);
    if low.Err? {
      return low;
    }
    if p >= 64 {
      return Err(Overflow);
    }
    var v := Combine(ones.value, p, low.value);
    res := Ok(v);
  }

  /** The cases of decoding, one by one. */
  lemma DecodeCases(p: nat, s: seq<bool>)
    ensures Ones(s) >= MAX64 ==> Decode(p, s) == Err(Overflow)
    ensures Ones(s) < MAX64 && Ones(s) == |s| ==> Decode(p, s) == Err(UnexpectedEof)
    ensures Ones(s) < MAX64 && Ones(s) < |s| ==>
              var tail := s[Ones(s) + 1..];
              && (p > 64 ==> Decode(p, s) == Err(TooManyBits))
              && (|tail| < p <= 64 ==> Decode(p, s) == Err(UnexpectedEof))
              && (p == 64 <= |tail| ==> Decode(p, s) == Err(Overflow))
              && (p < 64 && p <= |tail| ==>
                    && Decode(p, s).Ok? && Decode(p, s).value.rest == tail[p..]
                    && Decode(p, s).value.value == Ones(s) * Pow2(p) % MAX64 + FromBits(tail[..p]))
  {
    hide Ones, FromBits, Pow2;
  }

  method Combine(q: nat, p: nat, low: u64) returns (v: u64)
    requires p < 64 && low < Pow2(p)
    ensures v == q * Pow2(p) % MAX64 + low
  {
    WrappedSum(q, p, low);
    v := q * Pow2(p) % MAX64 + low;
  }

  lemma OneBit(s: seq<bool>, q: nat)
    requires q <= Ones(s)
    ensures |s[q..]| >= 1 ==> FromBits(s[q..][..1]) == if q < Ones(s) then 1 else 0
    ensures |s[q..]| >= 1 ==> s[q..][1..] == s[q + 1..]
    ensures |s[q..]| < 1 ==> q == Ones(s) == |s|
  {
    if q < |s| {
      assert s[q..][..1] == [s[q]];
      assert [s[q]][..0] == [];
      assert q < Ones(s) ==> s[q] == s[..Ones(s)][q];
    }
  }

  // ----- lists of numbers -----

  /** Codes one after the other. */
  ghost function ListBits(p: nat, ns: seq<u64>): seq<bool> {
    if ns == [] then [] else CodeBits(p, ns[0]) + ListBits(p, ns[1..])
  }

  lemma {:induction false} ListBitsSnoc(p: nat, ns: seq<u64>, n: u64)
    ensures ListBits(p, ns + [n]) == ListBits(p, ns) + CodeBits(p, n)
    decreases |ns|
  {
    hide CodeBits;
    if ns == [] {
      assert [n][1..] == [];
    } else {
      ListBitsSnoc(p, ns[1..], n);
      assert (ns + [n])[1..] == ns[1..] + [n];
      Assoc(CodeBits(p, ns[0]), ListBits(p, ns[1..]), CodeBits(p, n));
    }
  }

  /** Encodes any list of numbers and flushes. */
  method EncodeList(p: nat, ns: seq<u64>) returns (bytes: seq<u8>)
    requires p < 64
    ensures exists pad: nat :: pad < 8 && BytesBits(bytes) == ListBits(p, ns) + Repeat(false, pad)
  {
    hide CodeBits;
    var w := new BitStreamWriter([]);
    for i := 0 to |ns|
      invariant fresh(w) && w.Valid() && w.Bits() == ListBits(p, ns[..i])
    {
      ListBitsSnoc(p, ns[..i], ns[i]);
      assert ns[..i + 1] == ns[..i] + [ns[i]];
      var _ := Encode(w, p, ns[i]);
    }
    assert ns[..|ns|] == ns;
    ghost var pad := if w.offset > 0 then 8 - w.offset else 0;
    var _ := w.Flush();
    bytes := w.out;
    assert BytesBits(bytes) == ListBits(p, ns) + Repeat(false, pad);
  }

  /** Decodes as many numbers as a list has from bytes that hold its codes. */
  method DecodeList(p: nat, bytes: seq<u8>, count: nat, ghost ns: seq<u64>, ghost tail: seq<bool>)
    returns (values: seq<u64>)
    requires p < 64 && count == |ns| && BytesBits(bytes) == ListBits(p, ns) + tail
    ensures values == ns
  {
    hide CodeBits, Decode;
    var r := new BitStreamReader(bytes);
    values := [];
    for i := 0 to count
      invariant fresh(r) && r.Valid() && r.Remaining() == ListBits(p, ns[i..]) + tail
      invariant values == ns[..i]
    {
      assert ns[i..][0] == ns[i] && ns[i..][1..] == ns[i + 1..];
      Assoc(CodeBits(p, ns[i]), ListBits(p, ns[i + 1..]), tail);
      DecodeCode(p, ns[i], ListBits(p, ns[i + 1..]) + tail);
      var res := DecodeFrom(r, p);
      values := values + [res.value];
    }
  }

  /** Any list of 64-bit numbers comes back, whatever their order and sum. */
  method ListRoundTrip(p: nat, ns: seq<u64>) returns (values: seq<u64>)
    requires p < 64
    ensures values == ns
  {
    var bytes := EncodeList(p, ns);
    ghost var pad: nat :| pad < 8 && BytesBits(bytes) == ListBits(p, ns) + Repeat(false, pad);
    values := DecodeList(p, bytes, |ns|, ns, Repeat(false, pad));
  }
}
