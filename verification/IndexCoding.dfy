/** Differential coding of transaction indexes, and the request message that carries them. */
module IndexCoding {
  import opened Words
  import opened Sorting
  import opened CompactSize

  type Bytes = seq<u8>

  // ----- differences -----

  /** Strictly increasing, starting no lower than `from`. */
  predicate Ascending(s: seq<nat>, from: nat) {
    s == [] || (from <= s[0] && Ascending(s[1..], s[0] + 1))
  }

  /** Each index less the one before it, less one. */
  function Diffs(s: seq<nat>, from: nat): (d: seq<nat>)
    requires Ascending(s, from)
    ensures |d| == |s|
  {
    if s == [] then [] else [s[0] - from] + Diffs(s[1..], s[0] + 1)
  }

  /** Decoding: running sums. */
  function Sums(d: seq<nat>, from: nat): (s: seq<nat>)
    ensures |s| == |d| && Ascending(s, from)
  {
    if d == [] then [] else [from + d[0]] + Sums(d[1..], from + d[0] + 1)
  }

  /** Differencing is a bijection between increasing lists and all lists. */
  lemma {:induction false} SumsOfDiffs(s: seq<nat>, from: nat)
    requires Ascending(s, from)
    ensures Sums(Diffs(s, from), from) == s
    decreases |s|
  {
    if s != [] {
      SumsOfDiffs(s[1..], s[0] + 1);
    }
  }

  lemma {:induction false} DiffsOfSums(d: seq<nat>, from: nat)
    ensures Diffs(Sums(d, from), from) == d
    decreases |d|
  {
    if d != [] {
      DiffsOfSums(d[1..], from + d[0] + 1);
      assert Sums(d, from)[1..] == Sums(d[1..], from + d[0] + 1);
    }
  }

  /** A difference counts the positions skipped since the index before. */
  lemma {:induction false} DiffsMeaning(s: seq<nat>, from: nat, i: nat)
    requires Ascending(s, from) && i < |s|
    ensures Diffs(s, from)[i] == s[i] - (if i == 0 then from else s[i - 1] + 1)
    decreases i
  {
    if i > 0 {
      DiffsMeaning(s[1..], s[0] + 1, i - 1);
    }
  }

  /** The first index that may follow. */
  function Next(s: seq<nat>, from: nat): nat {
    if s == [] then from else s[|s| - 1] + 1
  }

  lemma {:induction false} AscendingSnoc(s: seq<nat>, from: nat, x: nat)
    requires Ascending(s, from)
    ensures Ascending(s + [x], from) <==> x >= Next(s, from)
    ensures x >= Next(s, from) ==> Diffs(s + [x], from) == Diffs(s, from) + [x - Next(s, from)]
    decreases |s|
  {
    if s == [] {
      assert [x][1..] == [];
    } else {
      AscendingSnoc(s[1..], s[0] + 1, x);
      assert (s + [x])[1..] == s[1..] + [x];
    }
  }

  lemma {:induction false} AscendingIsSorted(s: seq<nat>, from: nat)
    ensures Ascending(s, from) <==> StrictlySorted(s) && (s != [] ==> from <= s[0])
    decreases |s|
  {
    if s != [] {
      AscendingIsSorted(s[1..], s[0] + 1);
      if StrictlySorted(s[1..]) && (|s| > 1 ==> s[0] < s[1]) {
        forall i, j | 0 <= i < j < |s|
          ensures s[i] < s[j]
        {
          if i == 0 {
            assert j > 1 ==> s[1..][0] < s[1..][j - 1];
          } else {
            assert s[1..][i - 1] < s[1..][j - 1];
          }
        }
      }
      if StrictlySorted(s) {
        forall i, j | 0 <= i < j < |s[1..]|
          ensures s[1..][i] < s[1..][j]
        {
          assert s[i + 1] < s[j + 1];
        }
      }
    }
  }

  lemma {:induction false} AscendingPrefix(s: seq<nat>, k: nat, from: nat)
    requires k <= |s| && Ascending(s, from)
    ensures Ascending(s[..k], from)
    decreases k
  {
    if k > 0 {
      AscendingPrefix(s[1..], k - 1, s[0] + 1);
      assert s[..k][1..] == s[1..][..k - 1];
    }
  }

  // ----- encoding -----

  /** Indexes the encoder accepts: strictly increasing and below the largest u64. */
  ghost predicate Encodable(indexes: seq<u64>) {
    StrictlySorted(indexes) && forall i :: 0 <= i < |indexes| ==> indexes[i] + 1 < MAX64
  }

  /** The differences of s as variable-length integers. */
  ghost function IndexBytes(s: seq<u64>, from: nat): Bytes
    requires Ascending(s, from)
  {
    if s == [] then [] else Encode(s[0] - from) + IndexBytes(s[1..], s[0] as nat + 1)
  }

  /** The first difference and the rest. */
  lemma IndexBytesCons(x: u64, s: seq<u64>, from: nat)
    ensures Ascending([x] + s, from) <==> from <= x && Ascending(s, x as nat + 1)
    ensures Ascending([x] + s, from) ==> IndexBytes([x] + s, from) == Encode(x - from) + IndexBytes(s, x as nat + 1)
  {
    hide CompactSize.Encode;
    assert ([x] + s)[1..] == s;
  }

  lemma NoIndexes(from: nat)
    ensures Ascending([], from) && IndexBytes([], from) == []
  {
  }

  lemma {:induction false} IndexBytesSnoc(s: seq<u64>, from: nat, x: u64)
    requires Ascending(s, from) && x >= Next(s, from)
    ensures Ascending(s + [x], from)
    ensures IndexBytes(s + [x], from) == IndexBytes(s, from) + Encode(x - Next(s, from))
    decreases |s|
  {
    hide CompactSize.Encode, IndexBytes, Ascending;
    if s == [] {
      NoIndexes(from);
      NoIndexes(x as nat + 1);
      IndexBytesCons(x, [], from);
      assert s + [x] == [x] + [];
    } else {
      var h, t, f := s[0], s[1..], s[0] as nat + 1;
      assert s == [h] + t && s + [x] == [h] + (t + [x]);
      IndexBytesCons(h, t, from);
      IndexBytesSnoc(t, f, x);
      IndexBytesCons(h, t + [x], from);
      assert Next(t, f) == Next(s, from);
      var a, b, c := Encode(h - from), IndexBytes(t, f), Encode(x - Next(s, from));
      assert a + (b + c) == a + b + c;
    }
  }

  /** The bytes of every difference, in order. */
  ghost function VarInts(d: seq<u64>): Bytes {
    if d == [] then [] else Encode(d[0]) + VarInts(d[1..])
  }

  /** What is written are the differences. */
  lemma {:induction false} IndexBytesAreDiffs(s: seq<u64>, from: nat)
    requires Ascending(s, from)
    ensures forall i :: 0 <= i < |s| ==> Diffs(s, from)[i] < MAX64
    ensures IndexBytes(s, from) == VarInts(Diffs(s, from))
    decreases |s|
  {
    hide CompactSize.Encode;
    if s != [] {
      var d := Diffs(s, from);
      IndexBytesAreDiffs(s[1..], s[0] as nat + 1);
      assert d[1..] == Diffs(s[1..], s[0] as nat + 1);
    }
  }

  datatype Request = Request(blockHash: Bytes, indexes: seq<u64>)

  ghost predicate ValidRequest(q: Request) {
    |q.blockHash| == 32 && |q.indexes| < MAX64 && Encodable(q.indexes)
  }

  ghost function RequestBytes(q: Request): Bytes
    requires ValidRequest(q)
  {
    AscendingIsSorted(q.indexes, 0);
    q.blockHash + Encode(|q.indexes|) + IndexBytes(q.indexes, 0)
  }

  /** The block hash, the number of indexes, and their differences. */
  lemma RequestLayout(q: Request)
    requires ValidRequest(q)
    ensures Ascending(q.indexes, 0) && forall i :: 0 <= i < |q.indexes| ==> Diffs(q.indexes, 0)[i] < MAX64
    ensures |RequestBytes(q)| >= 32 && RequestBytes(q)[..32] == q.blockHash
    ensures Decode(RequestBytes(q)[32..]) == Ok(Parsed(|q.indexes|, VarInts(Diffs(q.indexes, 0))))
  {
    hide CompactSize.Encode, CompactSize.Decode;
    AscendingIsSorted(q.indexes, 0);
    IndexBytesAreDiffs(q.indexes, 0);
    DecodeEncoded(|q.indexes|, IndexBytes(q.indexes, 0));
    assert RequestBytes(q)[32..] == Encode(|q.indexes|) + IndexBytes(q.indexes, 0);
  }

  /** `consensus_encode`: an arithmetic panic exactly on lists that are not encodable. */
  method EncodeRequest(q: Request) returns (r: Result<Bytes, IoError>, len: nat)
    requires |q.blockHash| == 32 && |q.indexes| < MAX64
    ensures Encodable(q.indexes) ==> r == Ok(RequestBytes(q)) && len == |RequestBytes(q)|
    ensures !Encodable(q.indexes) ==> r == Err(Overflow)
  {
    hide CompactSize.Encode, Ascending;
    var out := q.blockHash + Encode(|q.indexes|);
    ghost var head := out;
    len := |out|;
    var lastIdx: u64 := 0;
    NoIndexes(0);
    assert q.indexes[..0] == [];
    for i := 0 to |q.indexes|
      invariant Ascending(q.indexes[..i], 0) && lastIdx == Next(q.indexes[..i], 0)
      invariant out == head + IndexBytes(q.indexes[..i], 0) && len == |out|
      invariant forall j :: 0 <= j < i ==> q.indexes[j] + 1 < MAX64
    {
      var idx := q.indexes[i];
      if idx < lastIdx {
        return Err(Overflow), len;
      }
      if idx + 1 >= MAX64 {
        return Err(Overflow), len;
      }
      IndexBytesSnoc(q.indexes[..i], 0, idx);
      assert q.indexes[..i + 1] == q.indexes[..i] + [idx];
      out := out + Encode(idx - lastIdx);
      len := len + |Encode(idx - lastIdx)|;
      lastIdx := idx + 1;
    }
    assert q.indexes[..|q.indexes|] == q.indexes;
    AscendingIsSorted(q.indexes, 0);
    r := Ok(out);
  }

  // ----- decoding -----

  const MAX_VEC_SIZE := 4_000_000

  datatype DecodeError = Io(e: IoError) | InvalidLength | Oversized(requested: nat, max: nat) | IndexOverflow

  /** What is read for `count` more indexes when the last one was `from` - 1. */
  function ReadIndexes(data: Bytes, count: nat, from: u64): Result<Parsed<seq<u64>>, DecodeError> {
    if count == 0 then Ok(Parsed([], data))
    else match Decode(data)
      case Err(e) => Err(Io(e))
      case Ok(p) =>
        var idx := from + p.value;
        if idx + 1 >= MAX64 then Err(IndexOverflow)
        else match ReadIndexes(p.rest, count - 1, idx + 1)
          case Err(e) => Err(e)
          case Ok(q) => Ok(Parsed([idx] + q.value, q.rest))
  }

  /** Indexes already read, put in front of what is read next. */
  function Prepend(done: seq<u64>, r: Result<Parsed<seq<u64>>, DecodeError>): Result<Parsed<seq<u64>>, DecodeError> {
    match r
    case Err(e) => Err(e)
    case Ok(q) => Ok(Parsed(done + q.value, q.rest))
  }

  lemma PrependStep(done: seq<u64>, idx: u64, r: Result<Parsed<seq<u64>>, DecodeError>)
    ensures Prepend(done, Prepend([idx], r)) == Prepend(done + [idx], r)
  {
    if r.Ok? {
      assert done + ([idx] + r.value.value) == done + [idx] + r.value.value;
    }
  }

  function DecodedRequest(data: Bytes, txSize: nat): Result<Parsed<Request>, DecodeError> {
    if |data| < 32 then Err(Io(UnexpectedEof))
    else match Decode(data[32..])
      case Err(e) => Err(Io(e))
      case Ok(n) =>
        if n.value * txSize >= MAX64 then Err(InvalidLength)
        else if n.value * txSize > MAX_VEC_SIZE then Err(Oversized(n.value * txSize, MAX_VEC_SIZE))
        else match ReadIndexes(n.rest, n.value, 0)
          case Err(e) => Err(e)
          case Ok(q) => Ok(Parsed(Request(data[..32], q.value), q.rest))
  }

  /** `consensus_decode`; txSize is the in-memory size of a transaction. */
  method DecodeRequest(data: Bytes, txSize: nat) returns (r: Result<Parsed<Request>, DecodeError>)
    ensures r == DecodedRequest(data, txSize)
  {
    hide CompactSize.Decode;
    if |data| < 32 {
      return Err(Io(UnexpectedEof));
    }
    var header := Decode(data[32..]);
    if header.Err? {
      return Err(Io(header.error));
    }
    var nbIndexes, rest := header.value.value, header.value.rest;
    var byteSize := nbIndexes * txSize;
    if byteSize >= MAX64 {
      return Err(InvalidLength);
    }
    if byteSize > MAX_VEC_SIZE {
      return Err(Oversized(byteSize, MAX_VEC_SIZE));
    }
    var indexes: seq<u64> := [];
    var lastIndex: u64 := 0;
    ghost var all := ReadIndexes(rest, nbIndexes, 0);
    assert all.Ok? ==> [] + all.value.value == all.value.value;
    for i := 0 to nbIndexes
      invariant all == Prepend(indexes, ReadIndexes(rest, nbIndexes - i, lastIndex))
    {
      var differential := Decode(rest);
      if differential.Err? {
        return Err(Io(differential.error));
      }
      if lastIndex + differential.value.value >= MAX64 {
        return Err(IndexOverflow);
      }
      var idx: u64 := lastIndex + differential.value.value;
      if idx + 1 >= MAX64 {
        return Err(IndexOverflow);
      }
      PrependStep(indexes, idx, ReadIndexes(differential.value.rest, nbIndexes - i - 1, idx + 1));
      rest, indexes, lastIndex := differential.value.rest, indexes + [idx], idx + 1;
    }
    assert indexes + [] == indexes;
    r := Ok(Parsed(Request(data[..32], indexes), rest));
  }

  // ----- the codec is a bijection -----

  /** What is read is increasing and is what its own encoding says. */
  lemma {:induction false} ReadEncodes(data: Bytes, count: nat, from: u64)
    requires ReadIndexes(data, count, from).Ok?
    ensures var q := ReadIndexes(data, count, from).value;
            && |q.value| == count && Ascending(q.value, from)
            && (forall i :: 0 <= i < count ==> q.value[i] + 1 < MAX64)
            && data == IndexBytes(q.value, from) + q.rest
    decreases count
  {
    hide CompactSize.Encode, CompactSize.Decode, IndexBytes, Ascending;
    if count == 0 {
      NoIndexes(from);
      assert data == [] + data;
    } else {
      EncodeDecoded(data);
      var p := Decode(data).value;
      var idx := from + p.value;
      ReadEncodes(p.rest, count - 1, idx + 1);
      var q := ReadIndexes(p.rest, count - 1, idx + 1).value;
      IndexBytesCons(idx, q.value, from);
      var a, b := Encode(p.value), IndexBytes(q.value, idx as nat + 1);
      assert a + (b + q.rest) == a + b + q.rest;
    }
  }

  /** One encoded difference is read as one index. */
  lemma ReadOne(v: u64, tail: Bytes, count: nat, from: u64)
    requires from as nat + v + 1 < MAX64
    ensures ReadIndexes(Encode(v) + tail, count + 1, from)
         == Prepend([from + v], ReadIndexes(tail, count, from as nat + v + 1))
  {
    hide CompactSize.Encode, CompactSize.Decode;
    DecodeEncoded(v, tail);
  }

  /** Every encodable list is read back, and the input after it left alone. */
  lemma {:induction false} ReadEncoded(s: seq<u64>, from: u64, rest: Bytes)
    requires Ascending(s, from) && forall i :: 0 <= i < |s| ==> s[i] + 1 < MAX64
    ensures ReadIndexes(IndexBytes(s, from) + rest, |s|, from) == Ok(Parsed(s, rest))
    decreases |s|
  {
    hide CompactSize.Encode, IndexBytes, Ascending;
    if s == [] {
      NoIndexes(from);
      assert [] + rest == rest;
    } else {
      hide ReadIndexes;
      var h, t, f := s[0], s[1..], s[0] as nat + 1;
      assert s == [h] + t;
      IndexBytesCons(h, t, from);
      var a, tail := Encode(h - from), IndexBytes(t, f) + rest;
      assert a + IndexBytes(t, f) + rest == a + tail;
      ReadOne(h - from, tail, |t|, from);
      ReadEncoded(t, f, rest);
    }
  }

  /** A sum that reaches the largest u64 is refused, whatever comes behind it. */
  lemma {:induction false} OverflowRefused(s: seq<u64>, from: u64, v: u64, rest: Bytes, count: nat)
    requires Ascending(s, from) && (forall i :: 0 <= i < |s| ==> s[i] + 1 < MAX64) && count > |s|
    requires Next(s, from) + v + 1 >= MAX64
    ensures ReadIndexes(IndexBytes(s, from) + (Encode(v) + rest), count, from) == Err(IndexOverflow)
    decreases |s|
  {
    hide CompactSize.Encode, CompactSize.Decode, IndexBytes, Ascending;
    var tail := Encode(v) + rest;
    if s == [] {
      NoIndexes(from);
      assert [] + tail == tail;
      DecodeEncoded(v, rest);
    } else {
      hide ReadIndexes;
      var h, t, f := s[0], s[1..], s[0] as nat + 1;
      assert s == [h] + t;
      IndexBytesCons(h, t, from);
      var a, b := Encode(h - from), IndexBytes(t, f);
      assert a + b + tail == a + (b + tail);
      ReadOne(h - from, b + tail, count - 1, from);
      assert Next(t, f) == Next(s, from);
      OverflowRefused(t, f, v, rest, count - 1);
    }
  }

  /** The decoder accepts exactly the encodings of valid requests within the size limit. */
  lemma DecodesExactly(data: Bytes, txSize: nat, q: Request, rest: Bytes)
    ensures DecodedRequest(data, txSize) == Ok(Parsed(q, rest)) <==>
              && ValidRequest(q) && |q.indexes| * txSize <= 4_000_000
              && data == RequestBytes(q) + rest
  {
    if DecodedRequest(data, txSize) == Ok(Parsed(q, rest)) {
      DecodedIsEncoded(data, txSize, q, rest);
    }
    if ValidRequest(q) && |q.indexes| * txSize <= MAX_VEC_SIZE && data == RequestBytes(q) + rest {
      EncodedIsDecoded(q, txSize, rest);
    }
  }

  /** Requests that are refused before an index is read. */
  lemma CountRefused(hash: Bytes, n: u64, rest: Bytes, txSize: nat)
    requires |hash| == 32
    ensures n * txSize >= 0x1_0000_0000_0000_0000 ==>
              DecodedRequest(hash + Encode(n) + rest, txSize) == Err(InvalidLength)
    ensures 4_000_000 < n * txSize < 0x1_0000_0000_0000_0000 ==>
              DecodedRequest(hash + Encode(n) + rest, txSize) == Err(Oversized(n * txSize, 4_000_000))
    ensures forall data: Bytes :: |data| < 32 ==> DecodedRequest(data, txSize) == Err(Io(UnexpectedEof))
  {
    hide CompactSize.Encode, CompactSize.Decode, ReadIndexes;
    assert (hash + Encode(n) + rest)[32..] == Encode(n) + rest;
    DecodeEncoded(n, rest);
  }

  lemma DecodedIsEncoded(data: Bytes, txSize: nat, q: Request, rest: Bytes)
    requires DecodedRequest(data, txSize) == Ok(Parsed(q, rest))
    ensures ValidRequest(q) && |q.indexes| * txSize <= MAX_VEC_SIZE && data == RequestBytes(q) + rest
  {
    hide CompactSize.Encode, CompactSize.Decode, ReadIndexes;
    EncodeDecoded(data[32..]);
    var n := Decode(data[32..]).value;
    ReadEncodes(n.rest, n.value, 0);
    AscendingIsSorted(q.indexes, 0);
    var body := IndexBytes(q.indexes, 0);
    assert data == data[..32] + data[32..];
    assert data[..32] + (Encode(n.value) + (body + rest)) == data[..32] + Encode(n.value) + body + rest;
  }

  lemma EncodedIsDecoded(q: Request, txSize: nat, rest: Bytes)
    requires ValidRequest(q) && |q.indexes| * txSize <= MAX_VEC_SIZE
    ensures DecodedRequest(RequestBytes(q) + rest, txSize) == Ok(Parsed(q, rest))
  {
    hide CompactSize.Encode, CompactSize.Decode, ReadIndexes;
    AscendingIsSorted(q.indexes, 0);
    var data := RequestBytes(q) + rest;
    var tail := IndexBytes(q.indexes, 0) + rest;
    assert data[..32] == q.blockHash && data[32..] == Encode(|q.indexes|) + tail;
    DecodeEncoded(|q.indexes|, tail);
    ReadEncoded(q.indexes, 0, rest);
  }
}
