/**
 Golomb-coded sets (sections "Hashing Data Objects", "Set Construction" and "Set
 Querying/Decompression" of BIP 158): what a filter holds, as bytes and as a list.
 */
module Gcs {
  import opened Arith
  import opened Words
  import opened Sequences
  import opened BitSeq
  import opened Sorting
  import CompactSize
  import Golomb

  /** Filter parameters: a keyed hash, its keys and the Golomb-Rice parameter. */
  datatype GcsFilter = GcsFilter(siphash: (u64, u64, seq<u8>) -> u64, k0: u64, k1: u64, p: nat) {
    function Hash(element: seq<u8>): u64 {
      siphash(k0, k1, element)
    }
  }

  /** `map_to_range`: a 64-bit hash scaled down to [0, nm), keeping its place in the range. */
  function MapToRange(hash: u64, nm: u64): (v: u64)
    ensures nm > 0 ==> v < nm
    ensures v * MAX64 <= hash * nm < (v + 1) * MAX64
  {
    DivModOf(hash * nm, MAX64);
    MulMono(hash, MAX64 - 1, nm);
    MulMono(0, hash, nm);
    DivLess(hash * nm, MAX64, nm + 1);
    DivLess(hash * nm, MAX64, nm);
    DivNonNeg(hash * nm, MAX64);
    hash * nm / MAX64
  }

  function MapAll(f: GcsFilter, nm: u64, es: seq<seq<u8>>): (vs: seq<nat>)
    ensures |vs| == |es|
    ensures forall i :: 0 <= i < |es| ==> vs[i] == MapToRange(f.Hash(es[i]), nm)
  {
    seq(|es|, i requires 0 <= i < |es| => MapToRange(f.Hash(es[i]), nm))
  }

  /** A query is scaled by the keyed hash, its keys in order. */
  lemma MappedQuery(f: GcsFilter, nm: u64, es: seq<seq<u8>>, i: nat)
    requires i < |es|
    ensures var v := MapAll(f, nm, es)[i];
            v * MAX64 <= f.siphash(f.k0, f.k1, es[i]) * nm < (v + 1) * MAX64
  {
  }

  /** The range hashes are mapped to, unless size or product exceed 64 bits. */
  function Range(n: nat, m: u64): Option<u64> {
    MulMono(0, n, m);
    if n < MAX64 && n * m < MAX64 then Some(n * m) else None
  }

  // ----- the bit stream of a sorted list -----

  ghost predicate Ascending(last: nat, vs: seq<nat>) {
    Sorted(vs) && forall v :: v in vs ==> last <= v < MAX64
  }

  /** The differences of a sorted list, coded one after the other. */
  ghost function DeltaBits(p: nat, last: nat, vs: seq<nat>): seq<bool>
    requires Ascending(last, vs)
    decreases |vs|
  {
    if vs == [] then []
    else
      AscendingTail(last, vs);
      Golomb.CodeBits(p, vs[0] - last) + DeltaBits(p, vs[0], vs[1..])
  }

  lemma AscendingTail(last: nat, vs: seq<nat>)
    requires vs != [] && Ascending(last, vs)
    ensures last <= vs[0] < MAX64 && Ascending(vs[0], vs[1..])
  {
    assert vs[0] in vs;
    forall v | v in vs[1..]
      ensures vs[0] <= v < MAX64
    {
      assert v in vs;
    }
  }

  /** What can be read from a bit stream as n numbers coded by differences, and why it ends early. */
  datatype Listing = Listing(values: seq<nat>, failure: Option<IoError>)

  ghost function List(p: nat, last: nat, n: nat, bits: seq<bool>): (l: Listing)
    ensures |l.values| <= n && (l.failure.None? <==> |l.values| == n)
    decreases n
  {
    if n == 0 then Listing([], None)
    else
      var d := Golomb.Decode(p, bits);
      if d.Err? then Listing([], Some(d.error))
      else if last + d.value.value >= MAX64 then Listing([], Some(Overflow))
      else
        var v := last + d.value.value;
        var rest := List(p, v, n - 1, d.value.rest);
        Listing([v] + rest.values, rest.failure)
  }

  lemma AscendingCons(last: nat, v: nat, vs: seq<nat>)
    requires last <= v < MAX64 && Ascending(v, vs)
    ensures Ascending(last, [v] + vs)
  {
    HeadSorted(v, vs);
  }

  /** One number taken off the stream. */
  lemma ListStep(p: nat, last: nat, n: nat, bits: seq<bool>, d: nat, rest: seq<bool>)
    requires n > 0 && Golomb.Decode(p, bits) == Ok(Golomb.Decoded(d, rest)) && last + d < MAX64
    ensures List(p, last, n, bits).values == [last + d] + List(p, last + d, n - 1, rest).values
    ensures List(p, last, n, bits).failure == List(p, last + d, n - 1, rest).failure
  {
    hide Golomb.Decode;
  }

  /** Whatever the bits are, the list read from them ascends. */
  lemma {:induction false} ListAscends(p: nat, last: nat, n: nat, bits: seq<bool>)
    ensures Ascending(last, List(p, last, n, bits).values)
    decreases n
  {
    hide Golomb.Decode;
    if n > 0 {
      var d := Golomb.Decode(p, bits);
      if d.Ok? && last + d.value.value < MAX64 {
        var v := last + d.value.value;
        ListAscends(p, v, n - 1, d.value.rest);
        ListStep(p, last, n, bits, d.value.value, d.value.rest);
        AscendingCons(last, v, List(p, v, n - 1, d.value.rest).values);
      }
    }
  }

  /** Reading back a coded list gives the list, and nothing overflows. */
  lemma {:induction false} ListOfDeltas(p: nat, last: nat, vs: seq<nat>, tail: seq<bool>)
    requires (p < 64 || vs == []) && Ascending(last, vs)
    ensures List(p, last, |vs|, DeltaBits(p, last, vs) + tail) == Listing(vs, None)
    decreases |vs|
  {
    hide Golomb.Decode, Golomb.CodeBits, List, DeltaBits, Ascending;
    if vs == [] {
      ListNothing(p, last, DeltaBits(p, last, vs) + tail);
    } else {
      AscendingTail(last, vs);
      DeltaBitsHead(p, last, vs);
      var d, rest := vs[0] - last, DeltaBits(p, vs[0], vs[1..]) + tail;
      Assoc(Golomb.CodeBits(p, d), DeltaBits(p, vs[0], vs[1..]), tail);
      Golomb.DecodeCode(p, d, rest);
      ListStep(p, last, |vs|, Golomb.CodeBits(p, d) + rest, d, rest);
      ListOfDeltas(p, vs[0], vs[1..], tail);
      assert vs == [vs[0]] + vs[1..];
    }
  }

  lemma ListNothing(p: nat, last: nat, bits: seq<bool>)
    ensures List(p, last, 0, bits) == Listing([], None)
  {
  }

  lemma DeltaBitsHead(p: nat, last: nat, vs: seq<nat>)
    requires vs != [] && Ascending(last, vs)
    ensures last <= vs[0] && Ascending(vs[0], vs[1..])
    ensures DeltaBits(p, last, vs) == Golomb.CodeBits(p, vs[0] - last) + DeltaBits(p, vs[0], vs[1..])
  {
    hide Golomb.CodeBits;
    AscendingTail(last, vs);
  }

  // ----- the bytes of a filter -----

  /** `body` is the coded list, padded with fewer than eight zero bits. */
  ghost predicate IsBody(body: seq<u8>, p: nat, vs: seq<nat>, pad: nat)
    requires Ascending(0, vs)
  {
    pad < 8 && BytesBits(body) == DeltaBits(p, 0, vs) + Repeat(false, pad)
  }

  /** The bytes of the filter holding vs: the number of values, then the body. */
  ghost predicate IsFilter(bytes: seq<u8>, p: nat, vs: seq<nat>) {
    && Ascending(0, vs) && |vs| < MAX64
    && exists body: seq<u8>, pad: nat :: IsBody(body, p, vs, pad) && bytes == CompactSize.Encode(|vs|) + body
  }

  /** Two byte strings of the same length with the same bits are the same. */
  lemma {:induction false} BytesBitsInjective(a: seq<u8>, b: seq<u8>)
    requires BytesBits(a) == BytesBits(b)
    ensures a == b
    decreases |a|
  {
    assert |a| == |b|;
    if a != [] {
      var n := |a| - 1;
      LastByte(a);
      LastByte(b);
      BytesBitsInjective(a[..n], b[..n]);
      assert a == a[..n] + [a[n]] && b == b[..n] + [b[n]];
    }
  }

  lemma LastByte(a: seq<u8>)
    requires a != []
    ensures var n := |a| - 1;
            && BytesBits(a)[..8 * n] == BytesBits(a[..n])
            && FromBits(BytesBits(a)[8 * n..]) == a[n]
  {
    var n := |a| - 1;
    SplitAt(BytesBits(a), BytesBits(a[..n]), ToBits(a[n], 8));
    ByteBits(a[n]);
  }

  lemma LowOfByte(b: u8)
    ensures Low(b, 8) == b
  {
    var k := 8;
    assert Pow2(k) == 256;
  }

  lemma ByteBits(b: u8)
    ensures FromBits(ToBits(b, 8)) == b
  {
    hide FromBits, ToBits;
    FromToBits(b, 8);
    LowOfByte(b);
  }

  lemma PadUnique(x: nat, y: nat, l: nat, i: nat, j: nat)
    requires i < 8 && j < 8 && 8 * x == l + i && 8 * y == l + j
    ensures i == j
  {
  }

  /** A list has one filter. */
  lemma FilterUnique(a: seq<u8>, b: seq<u8>, p: nat, vs: seq<nat>)
    requires IsFilter(a, p, vs) && IsFilter(b, p, vs)
    ensures a == b
  {
    var x: seq<u8>, i: nat :| IsBody(x, p, vs, i) && a == CompactSize.Encode(|vs|) + x;
    var y: seq<u8>, j: nat :| IsBody(y, p, vs, j) && b == CompactSize.Encode(|vs|) + y;
    PadUnique(|x|, |y|, |DeltaBits(p, 0, vs)|, i, j);
    BytesBitsInjective(x, y);
  }
}
