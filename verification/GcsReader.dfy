/** Querying a Golomb-coded set filter in one pass over its bit stream. */
module GcsReader {
  import opened Words
  import opened BitSeq
  import opened BitStream
  import opened Sorting
  import opened Gcs
  import CompactSize
  import Golomb

  /** The announced number of elements, zero when it cannot be read, and the bytes after it. */
  function Header(bytes: seq<u8>): (h: CompactSize.Parsed<u64>) {
    var d := CompactSize.Decode(bytes);
    if d.Ok? then d.value else CompactSize.Parsed(0, [])
  }

  /** q lies beyond everything that could be read. */
  ghost predicate Beyond(q: nat, vs: seq<nat>) {
    forall v :: v in vs ==> v < q
  }

  ghost predicate SomeIn(qs: seq<nat>, vs: seq<nat>) {
    exists q :: q in qs && q in vs
  }

  ghost predicate AllIn(qs: seq<nat>, vs: seq<nat>) {
    forall q :: q in qs ==> q in vs
  }

  /**
   What a non-empty query against a listing answers, whatever the order: true if something
   listed is asked for; a broken stream only matters if no answer was found and something
   beyond its readable part is asked for.
   */
  ghost predicate AnyAnswer(l: Listing, qs: seq<nat>, r: Result<bool, IoError>) {
    if SomeIn(qs, l.values) then r == Ok(true)
    else if l.failure.Some? && exists q :: q in qs && Beyond(q, l.values) then r == Err(l.failure.value)
    else r == Ok(false)
  }

  /** The same for asking for all. */
  ghost predicate AllAnswer(l: Listing, qs: seq<nat>, r: Result<bool, IoError>) {
    if AllIn(qs, l.values) then r == Ok(true)
    else if l.failure.Some? && forall q :: q in qs ==> q in l.values || Beyond(q, l.values) then
      r == Err(l.failure.value)
    else r == Ok(false)
  }

  /**
   The state of the pass: `seen` was read, `data` is its last value, and the stream goes on
   with what is left of the listing.
   */
  ghost predicate Reading(l: Listing, p: nat, seen: seq<nat>, data: nat, remaining: nat, bits: seq<bool>)
  {
    && seen != [] && seen[|seen| - 1] == data < MAX64
    && l.values == seen + List(p, data, remaining, bits).values
    && l.failure == List(p, data, remaining, bits).failure
    && Sorted(l.values)
  }

  lemma StartReading(l: Listing, p: nat, n: nat, bits: seq<bool>, d: nat, rest: seq<bool>)
    requires n > 0 && l == List(p, 0, n, bits)
    requires Golomb.Decode(p, bits) == Ok(Golomb.Decoded(d, rest))
    ensures d < MAX64 && Reading(l, p, [d], d, n - 1, rest)
  {
    ListAscends(p, 0, n, bits);
    ListStep(p, 0, n, bits, d, rest);
  }

  lemma KeepReading(l: Listing, p: nat, seen: seq<nat>, data: nat, remaining: nat, bits: seq<bool>,
                    d: nat, rest: seq<bool>)
    requires remaining > 0 && Reading(l, p, seen, data, remaining, bits)
    requires Golomb.Decode(p, bits) == Ok(Golomb.Decoded(d, rest)) && data + d < MAX64
    ensures Reading(l, p, seen + [data + d], data + d, remaining - 1, rest)
  {
    hide Golomb.Decode;
    ListStep(p, data, remaining, bits, d, rest);
    var more := List(p, data + d, remaining - 1, rest).values;
    assert l.values == (seen + [data + d]) + more;
  }

  /** The pass cannot go on: everything listed was seen. */
  lemma StopReading(l: Listing, p: nat, seen: seq<nat>, data: nat, remaining: nat, bits: seq<bool>)
    requires Reading(l, p, seen, data, remaining, bits)
    ensures remaining == 0 ==> l.values == seen && l.failure == None
    ensures remaining > 0 && Golomb.Decode(p, bits).Err? ==>
              l.values == seen && l.failure == Some(Golomb.Decode(p, bits).error)
    ensures remaining > 0 && Golomb.Decode(p, bits).Ok? && data + Golomb.Decode(p, bits).value.value >= MAX64 ==>
              l.values == seen && l.failure == Some(Overflow)
  {
    hide Golomb.Decode;
  }

  /** Before `data` everything is at most `data`, after it at least. */
  lemma Around(l: Listing, p: nat, seen: seq<nat>, data: nat, remaining: nat, bits: seq<bool>)
    requires Reading(l, p, seen, data, remaining, bits)
    ensures data in l.values
    ensures forall v :: v in seen ==> v <= data
    ensures forall v :: v in l.values ==> v in seen || data <= v
  {
    hide Golomb.Decode, List;
    var k := |seen| - 1;
    assert l.values[k] == data;
    forall v | v in seen
      ensures v <= data
    {
      var i :| 0 <= i < |seen| && seen[i] == v;
      assert l.values[i] == v;
    }
    forall v | v in l.values
      ensures v in seen || data <= v
    {
      var i :| 0 <= i < |l.values| && l.values[i] == v;
      if i <= k {
        assert v == seen[i];
      }
    }
  }

  /** The next value of the stream, with the checked addition of its difference. */
  method Advance(r: BitStreamReader, p: nat, data: u64, remaining: nat, ghost l: Listing, ghost seen: seq<nat>)
    returns (res: Result<u64, IoError>)
    requires r.Valid() && remaining > 0 && Reading(l, p, seen, data, remaining, r.Remaining())
    modifies r
    ensures r.Valid()
    ensures res.Ok? ==> Reading(l, p, seen + [res.value], res.value, remaining - 1, r.Remaining())
    ensures res.Err? ==> l.values == seen && l.failure == Some(res.error)
  {
    hide Reading, Golomb.Decode;
    ghost var bits := r.Remaining();
    StopReading(l, p, seen, data, remaining, bits);
    var d := Golomb.DecodeFrom(r, p);
    if d.Err? {
      return d;
    }
    if data + d.value >= MAX64 {
      return Err(Overflow);
    }
    KeepReading(l, p, seen, data, remaining, bits, d.value, r.Remaining());
    res := Ok(data + d.value);
  }

  /** The first value of the stream. */
  method First(r: BitStreamReader, p: nat, n: nat, ghost l: Listing) returns (res: Result<u64, IoError>)
    requires r.Valid() && n > 0 && l == List(p, 0, n, r.Remaining())
    modifies r
    ensures r.Valid()
    ensures res.Ok? ==> Reading(l, p, [res.value], res.value, n - 1, r.Remaining())
    ensures res.Err? ==> l.values == [] && l.failure == Some(res.error)
  {
    hide Reading, Golomb.Decode;
    ghost var bits := r.Remaining();
    res := Golomb.DecodeFrom(r, p);
    if res.Ok? {
      StartReading(l, p, n, bits, res.value, r.Remaining());
    }
  }

  /** Everything seen before the current value is below q. */
  ghost predicate Passed(seen: seq<nat>, q: nat) {
    forall i :: 0 <= i < |seen| - 1 ==> seen[i] < q
  }

  /** Once the stream has reached q, q is listed exactly when it is the current value. */
  lemma Reached(l: Listing, p: nat, seen: seq<nat>, data: nat, remaining: nat, bits: seq<bool>, q: nat)
    requires Reading(l, p, seen, data, remaining, bits) && Passed(seen, q) && q <= data
    ensures q in l.values <==> q == data
    ensures !Beyond(q, l.values)
  {
    hide Golomb.Decode, List;
    Around(l, p, seen, data, remaining, bits);
    if q in seen {
      var i :| 0 <= i < |seen| && seen[i] == q;
      assert i == |seen| - 1;
    }
  }

  /** The stream ended before q. */
  lemma NeverReached(l: Listing, p: nat, seen: seq<nat>, data: nat, remaining: nat, bits: seq<bool>, q: nat)
    requires Reading(l, p, seen, data, remaining, bits) && data < q && l.values == seen
    ensures Beyond(q, l.values)
  {
    hide Golomb.Decode, List;
    Around(l, p, seen, data, remaining, bits);
  }

  /** The inner loop of a pass: reads on while the stream is below q. */
  method Seek(r: BitStreamReader, p: nat, q: nat, data0: u64, remaining0: nat, ghost l: Listing, ghost seen0: seq<nat>)
    returns (stop: Option<Result<bool, IoError>>, data: u64, remaining: nat, ghost seen: seq<nat>)
    requires r.Valid() && Reading(l, p, seen0, data0, remaining0, r.Remaining()) && Passed(seen0, q)
    modifies r
    ensures r.Valid()
    ensures stop.None? ==> q <= data && Reading(l, p, seen, data, remaining, r.Remaining()) && Passed(seen, q)
    ensures stop.Some? ==> Beyond(q, l.values)
    ensures stop.Some? ==> stop.value == match l.failure case None => Ok(false) case Some(e) => Err(e)
  {
    hide Reading, List, Golomb.Decode, Beyond;
    stop, data, remaining, seen := None, data0, remaining0, seen0;
    while data < q
      invariant r.Valid() && Reading(l, p, seen, data, remaining, r.Remaining()) && Passed(seen, q)
      invariant stop == None
      decreases remaining
    {
      LastSeen(l, p, seen, data, remaining, r.Remaining());
      StopReading(l, p, seen, data, remaining, r.Remaining());
      ghost var bits := r.Remaining();
      if remaining > 0 {
        var next := Advance(r, p, data, remaining, l, seen);
        if next.Err? {
          NeverReached(l, p, seen, data, remaining, bits, q);
          stop := Some(Err(next.error));
          return;
        }
        data, remaining, seen := next.value, remaining - 1, seen + [next.value];
      } else {
        NeverReached(l, p, seen, data, remaining, bits, q);
        stop := Some(Ok(false));
        return;
      }
    }
  }

  lemma LastSeen(l: Listing, p: nat, seen: seq<nat>, data: nat, remaining: nat, bits: seq<bool>)
    requires Reading(l, p, seen, data, remaining, bits)
    ensures seen != [] && seen[|seen| - 1] == data
  {
  }

  // ----- any -----

  /** The pass ends at query i: everything from there on lies beyond the stream. */
  lemma AnyStops(l: Listing, qs: seq<nat>, i: nat, r: Result<bool, IoError>)
    requires Sorted(qs) && i < |qs| && Beyond(qs[i], l.values)
    requires forall j :: 0 <= j < i ==> qs[j] !in l.values
    requires r == match l.failure case None => Ok(false) case Some(e) => Err(e)
    ensures AnyAnswer(l, qs, r)
  {
    forall q | q in qs
      ensures q !in l.values
    {
      var j :| 0 <= j < |qs| && qs[j] == q;
      if j >= i {
        assert qs[i] <= q;
      }
    }
  }

  /** The pass went through: no query is listed, and none lies beyond. */
  lemma AnyEnds(l: Listing, qs: seq<nat>)
    requires forall j :: 0 <= j < |qs| ==> qs[j] !in l.values && !Beyond(qs[j], l.values)
    ensures AnyAnswer(l, qs, Ok(false))
  {
  }

  /** The merge of `match_any`: sorted queries against the stream. */
  method AnyPass(body: seq<u8>, p: nat, n: nat, qs: seq<nat>) returns (r: Result<bool, IoError>)
    requires n > 0 && qs != [] && Sorted(qs)
    ensures AnyAnswer(List(p, 0, n, BytesBits(body)), qs, r)
  {
    hide Reading, List, Golomb.Decode, Beyond, AnyAnswer;
    var reader := new BitStreamReader(body);
    ghost var l := List(p, 0, n, reader.Remaining());
    var first := First(reader, p, n, l);
    if first.Err? {
      NothingListed(l, qs[0]);
      AnyStops(l, qs, 0, Err(first.error));
      return Err(first.error);
    }
    var data: u64, remaining: nat := first.value, n - 1;
    ghost var seen: seq<nat> := [data];
    for i := 0 to |qs|
      invariant fresh(reader) && reader.Valid()
      invariant Reading(l, p, seen, data, remaining, reader.Remaining())
      invariant i < |qs| ==> Passed(seen, qs[i])
      invariant forall j :: 0 <= j < i ==> qs[j] !in l.values && !Beyond(qs[j], l.values)
    {
      var stop;
      stop, data, remaining, seen := Seek(reader, p, qs[i], data, remaining, l, seen);
      if stop.Some? {
        AnyStops(l, qs, i, stop.value);
        return stop.value;
      }
      Reached(l, p, seen, data, remaining, reader.Remaining(), qs[i]);
      if data == qs[i] {
        AnyFound(l, qs, data);
        return Ok(true);
      }
      assert i + 1 < |qs| ==> qs[i] <= qs[i + 1];
    }
    AnyEnds(l, qs);
    r := Ok(false);
  }

  lemma AnyFound(l: Listing, qs: seq<nat>, q: nat)
    requires q in qs && q in l.values
    ensures AnyAnswer(l, qs, Ok(true))
  {
  }

  lemma NothingListed(l: Listing, q: nat)
    requires l.values == []
    ensures Beyond(q, l.values)
  {
  }

  // ----- all -----

  lemma AllStops(l: Listing, qs: seq<nat>, i: nat, r: Result<bool, IoError>)
    requires Sorted(qs) && i < |qs| && Beyond(qs[i], l.values)
    requires forall j :: 0 <= j < i ==> qs[j] in l.values
    requires r == match l.failure case None => Ok(false) case Some(e) => Err(e)
    ensures AllAnswer(l, qs, r)
  {
    assert qs[i] in qs && qs[i] !in l.values;
    forall q | q in qs
      ensures q in l.values || Beyond(q, l.values)
    {
      var j :| 0 <= j < |qs| && qs[j] == q;
      if j >= i {
        assert qs[i] <= q;
      }
    }
  }

  lemma AllMisses(l: Listing, qs: seq<nat>, q: nat)
    requires q in qs && q !in l.values && !Beyond(q, l.values)
    ensures AllAnswer(l, qs, Ok(false))
  {
  }

  lemma AllEnds(l: Listing, qs: seq<nat>)
    requires forall j :: 0 <= j < |qs| ==> qs[j] in l.values
    ensures AllAnswer(l, qs, Ok(true))
  {
  }

  lemma StrictIsSorted(qs: seq<nat>)
    requires StrictlySorted(qs)
    ensures Sorted(qs)
  {
  }

  /** The merge of `match_all`: sorted distinct queries against the stream. */
  method AllPass(body: seq<u8>, p: nat, n: nat, qs: seq<nat>) returns (r: Result<bool, IoError>)
    requires n > 0 && qs != [] && StrictlySorted(qs)
    ensures AllAnswer(List(p, 0, n, BytesBits(body)), qs, r)
  {
    hide Reading, List, Golomb.Decode, Beyond, AllAnswer;
    StrictIsSorted(qs);
    var reader := new BitStreamReader(body);
    ghost var l := List(p, 0, n, reader.Remaining());
    var first := First(reader, p, n, l);
    if first.Err? {
      NothingListed(l, qs[0]);
      AllStops(l, qs, 0, Err(first.error));
      return Err(first.error);
    }
    var data: u64, remaining: nat := first.value, n - 1;
    ghost var seen: seq<nat> := [data];
    for i := 0 to |qs|
      invariant fresh(reader) && reader.Valid()
      invariant Reading(l, p, seen, data, remaining, reader.Remaining())
      invariant i < |qs| ==> Passed(seen, qs[i])
      invariant forall j :: 0 <= j < i ==> qs[j] in l.values
    {
      var stop;
      stop, data, remaining, seen := Seek(reader, p, qs[i], data, remaining, l, seen);
      if stop.Some? {
        AllStops(l, qs, i, stop.value);
        return stop.value;
      }
      Reached(l, p, seen, data, remaining, reader.Remaining(), qs[i]);
      if data > qs[i] {
        AllMisses(l, qs, qs[i]);
        return Ok(false);
      }
      assert i + 1 < |qs| ==> qs[i] < qs[i + 1];
    }
    AllEnds(l, qs);
    r := Ok(true);
  }

  // ----- the queries -----

  /** The answer `match_any` gives for any bytes and any query. */
  ghost predicate MatchAnyAnswer(f: GcsFilter, m: u64, bytes: seq<u8>, query: seq<seq<u8>>, r: Result<bool, IoError>)
  {
    var h := Header(bytes);
    match Range(h.value, m)
    case None => h.value * m >= MAX64 && r == Err(Overflow)
    case Some(nm) =>
      && nm == h.value * m
      && if query == [] || h.value == 0 then r == Ok(false)
      else AnyAnswer(List(f.p, 0, h.value, BytesBits(h.rest)), MapAll(f, nm, query), r)
  }

  ghost predicate MatchAllAnswer(f: GcsFilter, m: u64, bytes: seq<u8>, query: seq<seq<u8>>, r: Result<bool, IoError>)
  {
    var h := Header(bytes);
    match Range(h.value, m)
    case None => h.value * m >= MAX64 && r == Err(Overflow)
    case Some(nm) =>
      && nm == h.value * m
      && if query == [] then r == Ok(true)
      else if h.value == 0 then r == Ok(false)
      else AllAnswer(List(f.p, 0, h.value, BytesBits(h.rest)), MapAll(f, nm, query), r)
  }

  /** `match_any`. */
  method MatchAny(f: GcsFilter, m: u64, bytes: seq<u8>, query: seq<seq<u8>>) returns (r: Result<bool, IoError>)
    ensures MatchAnyAnswer(f, m, bytes, query, r)
  {
    hide List, AnyAnswer, MapAll, Sort, CompactSize.Decode;
    var h := Header(bytes);
    var n := h.value;
    var nm := Range(n, m);
    if nm.None? {
      return Err(Overflow);
    }
    var mapped := MapAll(f, nm.value, query);
    if mapped == [] {
      return Ok(false);
    }
    var sorted := Sort(mapped);
    SameLength(mapped, sorted);
    SameElements(mapped, sorted);
    if n == 0 {
      return Ok(false);
    }
    r := AnyPass(h.rest, f.p, n, sorted);
    SameQueriesAny(List(f.p, 0, n, BytesBits(h.rest)), mapped, sorted, r);
  }

  /** The order and the repetition of the queries do not matter. */
  lemma SameQueriesAny(l: Listing, qs: seq<nat>, sorted: seq<nat>, r: Result<bool, IoError>)
    requires (forall q :: q in qs <==> q in sorted) && AnyAnswer(l, sorted, r)
    ensures AnyAnswer(l, qs, r)
  {
    assert SomeIn(qs, l.values) <==> SomeIn(sorted, l.values);
  }

  lemma SameQueriesAll(l: Listing, qs: seq<nat>, sorted: seq<nat>, r: Result<bool, IoError>)
    requires (forall q :: q in qs <==> q in sorted) && AllAnswer(l, sorted, r)
    ensures AllAnswer(l, qs, r)
  {
    assert AllIn(qs, l.values) <==> AllIn(sorted, l.values);
  }

  /** `match_all`. */
  method MatchAll(f: GcsFilter, m: u64, bytes: seq<u8>, query: seq<seq<u8>>) returns (r: Result<bool, IoError>)
    ensures MatchAllAnswer(f, m, bytes, query, r)
  {
    hide List, AllAnswer, MapAll, Sort, Dedup, CompactSize.Decode;
    var h := Header(bytes);
    var n := h.value;
    var nm := Range(n, m);
    if nm.None? {
      return Err(Overflow);
    }
    var mapped := MapAll(f, nm.value, query);
    if mapped == [] {
      return Ok(true);
    }
    var sorted := Sort(mapped);
    SameLength(mapped, sorted);
    SameElements(mapped, sorted);
    var distinct := Dedup(sorted);
    if n == 0 {
      return Ok(false);
    }
    r := AllPass(h.rest, f.p, n, distinct);
    SameQueriesAll(List(f.p, 0, n, BytesBits(h.rest)), mapped, distinct, r);
  }

  /** Bytes without a readable count are an empty filter. */
  lemma UnreadableCount(f: GcsFilter, m: u64, bytes: seq<u8>, query: seq<seq<u8>>)
    requires CompactSize.Decode(bytes).Err?
    ensures forall r :: MatchAnyAnswer(f, m, bytes, query, r) <==> r == Ok(false)
    ensures forall r :: MatchAllAnswer(f, m, bytes, query, r) <==> r == Ok(query == [])
  {
    hide CompactSize.Decode, List, AnyAnswer, AllAnswer;
  }
}
