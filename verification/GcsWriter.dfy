/** Building a Golomb-coded set filter. */
module GcsWriter {
  import opened Arith
  import opened Words
  import opened Sequences
  import opened BitSeq
  import opened BitStream
  import opened Sorting
  import opened Gcs
  import CompactSize
  import Golomb

  /** Some listing of a finite set. */
  ghost function Enumerate(es: set<seq<u8>>): (s: seq<seq<u8>>)
    ensures multiset(s) == multiset(es)
    decreases es
  {
    if es == {} then []
    else
      var e :| e in es;
      var rest := Enumerate(es - {e});
      assert es == (es - {e}) + {e};
      rest + [e]
  }

  /** The values a set of elements is mapped to, in order. */
  ghost function MappedValues(f: GcsFilter, nm: u64, es: set<seq<u8>>): (vs: seq<nat>)
    ensures Sorted(vs) && |vs| == |es|
  {
    var s := Enumerate(es);
    var vs := Sort(MapAll(f, nm, s));
    SameLength(vs, MapAll(f, nm, s));
    assert |s| == |multiset(s)| == |es|;
    vs
  }

  lemma MapAllSnoc(f: GcsFilter, nm: u64, es: seq<seq<u8>>, e: seq<u8>)
    ensures MapAll(f, nm, es + [e]) == MapAll(f, nm, es) + [MapToRange(f.Hash(e), nm)]
  {
  }

  /** Dropping one element drops one value. */
  lemma MapAllWithout(f: GcsFilter, nm: u64, s: seq<seq<u8>>, i: nat)
    requires i < |s|
    ensures multiset(s[..i] + s[i + 1..]) == multiset(s) - multiset{s[i]}
    ensures multiset(MapAll(f, nm, s[..i] + s[i + 1..]))
         == multiset(MapAll(f, nm, s)) - multiset{MapToRange(f.Hash(s[i]), nm)}
    ensures MapToRange(f.Hash(s[i]), nm) in multiset(MapAll(f, nm, s))
  {
    assert s == s[..i] + [s[i]] + s[i + 1..];
    var v := MapAll(f, nm, s);
    assert v == v[..i] + [v[i]] + v[i + 1..];
    assert MapAll(f, nm, s[..i] + s[i + 1..]) == v[..i] + v[i + 1..];
  }

  /** The bag of values does not depend on the order in which the elements come. */
  lemma {:induction false} MapAllBag(f: GcsFilter, nm: u64, s: seq<seq<u8>>, t: seq<seq<u8>>)
    requires multiset(s) == multiset(t)
    ensures multiset(MapAll(f, nm, s)) == multiset(MapAll(f, nm, t))
    decreases |s|
  {
    hide MapAll, MapToRange;
    if s == [] {
      assert |multiset(t)| == 0;
    } else {
      var n := |s| - 1;
      assert s[n] in multiset(t);
      var i :| 0 <= i < |t| && t[i] == s[n];
      MapAllWithout(f, nm, t, i);
      MapAllWithout(f, nm, s, n);
      assert s[..n] + s[n + 1..] == s[..n];
      MapAllBag(f, nm, s[..n], t[..i] + t[i + 1..]);
      PutBack(multiset(MapAll(f, nm, s)), multiset(MapAll(f, nm, t)), MapToRange(f.Hash(s[n]), nm));
    }
  }

  lemma PutBack(a: multiset<nat>, b: multiset<nat>, x: nat)
    requires x in a && x in b && a - multiset{x} == b - multiset{x}
    ensures a == b
  {
    assert a == (a - multiset{x}) + multiset{x};
    assert b == (b - multiset{x}) + multiset{x};
  }

  /** Whichever way the set is listed, sorting the mapped list gives the same values. */
  lemma AnyListing(f: GcsFilter, nm: u64, es: set<seq<u8>>, s: seq<seq<u8>>)
    requires multiset(s) == multiset(es)
    ensures Sort(MapAll(f, nm, s)) == MappedValues(f, nm, es)
  {
    var t := Enumerate(es);
    MapAllBag(f, nm, s, t);
    SortedUnique(Sort(MapAll(f, nm, s)), Sort(MapAll(f, nm, t)));
  }

  /** A value is among the mapped ones exactly when some element maps to it. */
  lemma MappedMember(f: GcsFilter, nm: u64, es: set<seq<u8>>, v: nat)
    ensures v in MappedValues(f, nm, es) <==> exists e :: e in es && MapToRange(f.Hash(e), nm) == v
  {
    var s := Enumerate(es);
    var vs := MapAll(f, nm, s);
    SameElements(Sort(vs), vs);
    if v in vs {
      var i :| 0 <= i < |vs| && vs[i] == v;
      assert s[i] in multiset(s);
      assert s[i] in es && MapToRange(f.Hash(s[i]), nm) == v;
    }
    if e :| e in es && MapToRange(f.Hash(e), nm) == v {
      assert e in multiset(s);
      var i :| 0 <= i < |s| && s[i] == e;
      assert vs[i] == v;
    }
  }

  /** The values written are the keyed hashes of the elements scaled by nm / 2^64, rounded down. */
  lemma MappedExactly(f: GcsFilter, nm: u64, es: set<seq<u8>>, v: nat)
    ensures v in MappedValues(f, nm, es) <==> exists e :: e in es && ScalesTo(f.siphash(f.k0, f.k1, e), nm, v)
  {
    hide MappedValues;
    MappedMember(f, nm, es, v);
    forall e
      ensures MapToRange(f.Hash(e), nm) == v <==> ScalesTo(f.siphash(f.k0, f.k1, e), nm, v)
    {
      ScaleUnique(f.Hash(e), nm, v);
    }
  }

  ghost predicate ScalesTo(hash: u64, nm: u64, v: nat) {
    v * MAX64 <= hash * nm < (v + 1) * MAX64
  }

  lemma ScaleUnique(hash: u64, nm: u64, v: nat)
    ensures MapToRange(hash, nm) == v <==> ScalesTo(hash, nm, v)
  {
    if ScalesTo(hash, nm, v) {
      DivModUnique(hash * nm, MAX64, v, hash * nm - v * MAX64);
      DivModUnique(hash * nm, MAX64, MapToRange(hash, nm), hash * nm - MapToRange(hash, nm) * MAX64);
    }
  }

  /** Every value of a set lies below its size times m. */
  lemma MappedBelowRange(f: GcsFilter, m: u64, es: set<seq<u8>>, v: nat)
    requires Range(|es|, m).Some? && m > 0 && v in MappedValues(f, Range(|es|, m).value, es)
    ensures v < |es| * m
  {
    var nm := Range(|es|, m).value;
    MappedMember(f, nm, es, v);
    var e :| e in es && MapToRange(f.Hash(e), nm) == v;
    assert |es| > 0;
    MulStrict(0, |es|, m);
  }

  lemma MappedAscend(f: GcsFilter, nm: u64, es: set<seq<u8>>)
    ensures Ascending(0, MappedValues(f, nm, es))
  {
    forall v | v in MappedValues(f, nm, es)
      ensures v < MAX64
    {
      MappedMember(f, nm, es, v);
    }
  }

  /** Codes are written for every shift distance, and nothing at all otherwise. */
  ghost predicate Writable(p: nat, vs: seq<nat>) {
    p < 64 || vs == []
  }

  /** The delta loop of `finish`: the list coded behind what is already written. */
  method WriteDeltas(w: BitStreamWriter, p: nat, vs: seq<nat>) returns (r: Result<nat, IoError>)
    requires w.Valid() && Ascending(0, vs)
    modifies w
    ensures w.Valid() && old(w.out) <= w.out
    ensures Writable(p, vs) ==> r == Ok(|w.out| - |old(w.out)|) && w.Bits() == old(w.Bits()) + DeltaBits(p, 0, vs)
    ensures !Writable(p, vs) ==> r == Err(Overflow) && w.out == old(w.out) && w.Bits() == old(w.Bits())
  {
    hide Golomb.CodeBits, DeltaBits, Ascending, BitStreamWriter.Bits, BitStreamWriter.Valid;
    var wrote := 0;
    var last := 0;
    ghost var goal := w.Bits() + DeltaBits(p, 0, vs);
    assert vs[0..] == vs;
    for i := 0 to |vs|
      invariant w.Valid() && 0 <= last && Ascending(last, vs[i..])
      invariant w.Bits() + DeltaBits(p, last, vs[i..]) == goal
      invariant i == 0 ==> w.Bits() == old(w.Bits()) && w.out == old(w.out)
      invariant i > 0 ==> p < 64
      invariant old(w.out) <= w.out && |w.out| == |old(w.out)| + wrote
    {
      AscendingTail(last, vs[i..]);
      DeltaBitsHead(p, last, vs[i..]);
      var data := vs[i];
      assert vs[i..][0] == data && vs[i..][1..] == vs[i + 1..];
      Assoc(w.Bits(), Golomb.CodeBits(p, data - last), DeltaBits(p, data, vs[i + 1..]));
      var more := Golomb.Encode(w, p, data - last);
      if more.Err? {
        return more;
      }
      wrote := wrote + more.value;
      last := data;
    }
    NoDeltas(p, last);
    assert vs[|vs|..] == [];
    r := Ok(wrote);
  }

  lemma NoDeltas(p: nat, last: nat)
    ensures Ascending(last, []) && DeltaBits(p, last, []) == []
  {
  }

  /** The bytes behind a prefix, from the bits behind its bits. */
  lemma BodyBits(prefix: seq<u8>, out: seq<u8>, bits: seq<bool>)
    requires prefix <= out && BytesBits(out) == BytesBits(prefix) + bits
    ensures BytesBits(out[|prefix|..]) == bits
  {
    var body := out[|prefix|..];
    assert out == prefix + body;
    BytesBitsConcat(prefix, body);
    SplitAt(BytesBits(out), BytesBits(prefix), BytesBits(body));
    SplitAt(BytesBits(out), BytesBits(prefix), bits);
  }

  class GcsFilterWriter {
    const filter: GcsFilter
    const m: u64
    var out: seq<u8>
    var elements: set<seq<u8>>

    constructor (sink: seq<u8>, f: GcsFilter, m: u64)
      ensures out == sink && elements == {} && this.filter == f && this.m == m
    {
      filter, this.m, out, elements := f, m, sink, {};
    }

    /** `add_element`: empty data is ignored. */
    method AddElement(element: seq<u8>)
      modifies this`elements
      ensures elements == if element == [] then old(elements) else old(elements) + {element}
    {
      if element != [] {
        elements := elements + {element};
      }
    }

    /** The elements mapped to [0, nm), in whatever order the set yields them. */
    method MapElements(nm: u64) returns (mapped: seq<nat>)
      ensures Sort(mapped) == MappedValues(filter, nm, elements)
    {
      var rest := elements;
      ghost var done: seq<seq<u8>> := [];
      mapped := [];
      while rest != {}
        invariant multiset(done) + multiset(rest) == multiset(elements)
        invariant mapped == MapAll(filter, nm, done)
        decreases rest
      {
        var e :| e in rest;
        MapAllSnoc(filter, nm, done, e);
        mapped := mapped + [MapToRange(filter.Hash(e), nm)];
        done := done + [e];
        assert rest == (rest - {e}) + {e};
        rest := rest - {e};
      }
      AnyListing(filter, nm, elements, done);
    }

    /**
     `finish`: appends the filter of the mapped set and returns the number of bytes written. It
     fails exactly on a set whose size, or whose size times m, exceeds 64 bits, and, after
     the count is written, on a parameter that is no shift distance.
     */
    method Finish() returns (r: Result<nat, IoError>)
      modifies this`out
      ensures match Range(|elements|, m)
              case None =>
                (|elements| >= MAX64 || |elements| * m >= MAX64) && r == Err(Overflow) && out == old(out)
              case Some(nm) =>
                && nm == |elements| * m
                && if filter.p < 64 || elements == {} then
                  && old(out) <= out && r == Ok(|out| - |old(out)|)
                  && IsFilter(out[|old(out)|..], filter.p, MappedValues(filter, nm, elements))
                else
                  |elements| < MAX64 && r == Err(Overflow) && out == old(out) + CompactSize.Encode(|elements|)
    {
      hide MappedValues, IsFilter, IsBody, Ascending, CompactSize.Encode, Sort;
      var range := Range(|elements|, m);
      if range.None? {
        return Err(Overflow);
      }
      var nm := range.value;
      var mapped := MapElements(nm);
      mapped := Sort(mapped);
      MappedAscend(filter, nm, elements);
      var header := CompactSize.Encode(|mapped|);
      var bytes, wrote := WriteBody(out + header, filter.p, mapped);
      if wrote.Err? {
        out := bytes;
        return wrote;
      }
      FilterBehind(out, header, bytes, filter.p, mapped);
      r := Ok(|header| + wrote.value);
      out := bytes;
    }
  }

  lemma BodyWritten(prefix: seq<u8>, bytes: seq<u8>, p: nat, vs: seq<nat>, pad: nat)
    requires Ascending(0, vs) && pad < 8 && prefix <= bytes
    requires BytesBits(bytes) == BytesBits(prefix) + DeltaBits(p, 0, vs) + Repeat(false, pad)
    ensures IsBody(bytes[|prefix|..], p, vs, pad)
  {
    hide BytesBits, DeltaBits;
    Assoc(BytesBits(prefix), DeltaBits(p, 0, vs), Repeat(false, pad));
    BodyBits(prefix, bytes, DeltaBits(p, 0, vs) + Repeat(false, pad));
  }

  /** The bit stream part of `finish`, appended to a prefix. */
  method WriteBody(prefix: seq<u8>, p: nat, vs: seq<nat>) returns (bytes: seq<u8>, r: Result<nat, IoError>)
    requires Ascending(0, vs)
    ensures prefix <= bytes
    ensures Writable(p, vs) ==> r == Ok(|bytes| - |prefix|) && exists pad: nat :: IsBody(bytes[|prefix|..], p, vs, pad)
    ensures !Writable(p, vs) ==> r == Err(Overflow) && bytes == prefix
  {
    hide BytesBits, DeltaBits, IsBody, Ascending;
    var w := new BitStreamWriter(prefix);
    var wrote := WriteDeltas(w, p, vs);
    if wrote.Err? {
      return w.out, wrote;
    }
    ghost var pad := if w.offset > 0 then 8 - w.offset else 0;
    var more := w.Flush();
    bytes, r := w.out, Ok(wrote.value + more);
    BodyWritten(prefix, bytes, p, vs, pad);
  }

  lemma FilterBehind(sink: seq<u8>, header: seq<u8>, bytes: seq<u8>, p: nat, vs: seq<nat>)
    requires Ascending(0, vs) && |vs| < MAX64 && header == CompactSize.Encode(|vs|)
    requires sink + header <= bytes && exists pad: nat :: IsBody(bytes[|sink + header|..], p, vs, pad)
    ensures sink <= bytes && IsFilter(bytes[|sink|..], p, vs)
  {
    var body := bytes[|sink + header|..];
    var pad: nat :| IsBody(body, p, vs, pad);
    assert bytes == sink + header + body;
    assert bytes[|sink|..] == header + body;
  }
}
