/** Block filters, from the scripts of a block to the answers of a query (BIP 158). */
module BlockFilter {
  import opened Words
  import opened Sequences
  import opened Gcs
  import opened GcsWriter
  import opened GcsReader
  import opened BitSeq
  import CompactSize
  import Golomb

  // ----- writing and querying agree -----

  ghost predicate SameValue(f: GcsFilter, nm: u64, a: seq<u8>, b: seq<u8>) {
    MapToRange(f.Hash(a), nm) == MapToRange(f.Hash(b), nm)
  }

  /** q shares its mapped value with an element. */
  ghost predicate Hits(f: GcsFilter, nm: u64, es: set<seq<u8>>, q: seq<u8>) {
    exists e :: e in es && SameValue(f, nm, q, e)
  }

  /** What a reader finds in the bytes of a filter: every value, and no failure. */
  lemma ReadBack(f: GcsFilter, nm: u64, es: set<seq<u8>>, bytes: seq<u8>)
    requires (f.p < 64 || es == {}) && IsFilter(bytes, f.p, MappedValues(f, nm, es))
    ensures var h := Header(bytes);
            && h.value == |es|
            && List(f.p, 0, h.value, BytesBits(h.rest)) == Listing(MappedValues(f, nm, es), None)
  {
    hide Golomb.Decode, Golomb.CodeBits;
    var vs := MappedValues(f, nm, es);
    var body: seq<u8>, pad: nat :| IsBody(body, f.p, vs, pad) && bytes == CompactSize.Encode(|vs|) + body;
    CompactSize.DecodeEncoded(|vs|, body);
    ListOfDeltas(f.p, 0, vs, Repeat(false, pad));
  }

  lemma QueryHits(f: GcsFilter, nm: u64, es: set<seq<u8>>, query: seq<seq<u8>>, i: nat)
    requires i < |query|
    ensures MapAll(f, nm, query)[i] in MappedValues(f, nm, es) <==> Hits(f, nm, es, query[i])
  {
    hide MappedValues;
    MappedMember(f, nm, es, MapAll(f, nm, query)[i]);
    if Hits(f, nm, es, query[i]) {
      var e :| e in es && SameValue(f, nm, query[i], e);
    }
  }

  /** "Any" over the mapped queries is "any" over the queries. */
  lemma SomeHits(f: GcsFilter, nm: u64, es: set<seq<u8>>, query: seq<seq<u8>>)
    ensures SomeIn(MapAll(f, nm, query), MappedValues(f, nm, es)) <==> exists q :: q in query && Hits(f, nm, es, q)
  {
    hide MappedValues, Hits;
    var qs := MapAll(f, nm, query);
    if SomeIn(qs, MappedValues(f, nm, es)) {
      var v :| v in qs && v in MappedValues(f, nm, es);
      var i :| 0 <= i < |qs| && qs[i] == v;
      QueryHits(f, nm, es, query, i);
      assert query[i] in query;
    }
    if q :| q in query && Hits(f, nm, es, q) {
      var i :| 0 <= i < |query| && query[i] == q;
      QueryHits(f, nm, es, query, i);
      assert qs[i] in qs;
    }
  }

  lemma AllHit(f: GcsFilter, nm: u64, es: set<seq<u8>>, query: seq<seq<u8>>)
    ensures AllIn(MapAll(f, nm, query), MappedValues(f, nm, es)) <==> forall q :: q in query ==> Hits(f, nm, es, q)
  {
    hide MappedValues, Hits;
    var qs := MapAll(f, nm, query);
    if AllIn(qs, MappedValues(f, nm, es)) {
      forall q | q in query
        ensures Hits(f, nm, es, q)
      {
        var i :| 0 <= i < |query| && query[i] == q;
        QueryHits(f, nm, es, query, i);
        assert qs[i] in qs;
      }
    } else {
      var v :| v in qs && v !in MappedValues(f, nm, es);
      var i :| 0 <= i < |qs| && qs[i] == v;
      QueryHits(f, nm, es, query, i);
      assert query[i] in query;
    }
  }

  lemma AnyWritten(f: GcsFilter, m: u64, es: set<seq<u8>>, bytes: seq<u8>, query: seq<seq<u8>>,
                   r: Result<bool, IoError>)
    requires (f.p < 64 || es == {}) && Range(|es|, m).Some?
    requires IsFilter(bytes, f.p, MappedValues(f, Range(|es|, m).value, es)) && MatchAnyAnswer(f, m, bytes, query, r)
    ensures r == Ok(exists q :: q in query && Hits(f, Range(|es|, m).value, es, q))
  {
    hide MappedValues, IsFilter, Range, CompactSize.Decode, SomeIn, MapAll, List;
    var nm := Range(|es|, m).value;
    ReadBack(f, nm, es, bytes);
    SomeHits(f, nm, es, query);
  }

  lemma AllWritten(f: GcsFilter, m: u64, es: set<seq<u8>>, bytes: seq<u8>, query: seq<seq<u8>>,
                   r: Result<bool, IoError>)
    requires (f.p < 64 || es == {}) && Range(|es|, m).Some?
    requires IsFilter(bytes, f.p, MappedValues(f, Range(|es|, m).value, es)) && MatchAllAnswer(f, m, bytes, query, r)
    ensures r == Ok(forall q :: q in query ==> Hits(f, Range(|es|, m).value, es, q))
  {
    hide MappedValues, IsFilter, Range, CompactSize.Decode, AllIn, MapAll, List;
    var nm := Range(|es|, m).value;
    ReadBack(f, nm, es, bytes);
    AllHit(f, nm, es, query);
    if es == {} && query != [] {
      assert query[0] in query && !Hits(f, nm, es, query[0]);
    }
  }

  /**
   A filter written for a set answers "any" with true exactly when some query maps to the value
   of an element, and "all" exactly when every query does; it never fails.
   */
  lemma QueryWritten(f: GcsFilter, m: u64, es: set<seq<u8>>, bytes: seq<u8>, query: seq<seq<u8>>)
    requires (f.p < 64 || es == {}) && Range(|es|, m).Some?
    requires IsFilter(bytes, f.p, MappedValues(f, Range(|es|, m).value, es))
    ensures var nm := Range(|es|, m).value;
            && (forall r :: MatchAnyAnswer(f, m, bytes, query, r) ==>
                  r == Ok(exists q :: q in query && Hits(f, nm, es, q)))
            && (forall r :: MatchAllAnswer(f, m, bytes, query, r) ==>
                  r == Ok(forall q :: q in query ==> Hits(f, nm, es, q)))
  {
    hide *;
    var nm := Range(|es|, m).value;
    forall r | MatchAnyAnswer(f, m, bytes, query, r)
      ensures r == Ok(exists q :: q in query && Hits(f, nm, es, q))
    {
      AnyWritten(f, m, es, bytes, query, r);
    }
    forall r | MatchAllAnswer(f, m, bytes, query, r)
      ensures r == Ok(forall q :: q in query ==> Hits(f, nm, es, q))
    {
      AllWritten(f, m, es, bytes, query, r);
    }
  }

  /** No false negatives: an element of the set is always found, alone or among other queries. */
  lemma ElementIsFound(f: GcsFilter, m: u64, es: set<seq<u8>>, bytes: seq<u8>, query: seq<seq<u8>>, e: seq<u8>,
                       r: Result<bool, IoError>)
    requires f.p < 64 && Range(|es|, m).Some?
    requires IsFilter(bytes, f.p, MappedValues(f, Range(|es|, m).value, es))
    requires e in es && e in query && MatchAnyAnswer(f, m, bytes, query, r)
    ensures r == Ok(true)
  {
    hide MappedValues, IsFilter, Range, MatchAnyAnswer, MatchAllAnswer;
    QueryWritten(f, m, es, bytes, query);
    assert SameValue(f, Range(|es|, m).value, e, e);
    assert Hits(f, Range(|es|, m).value, es, e);
  }

  // ----- runs of add_element -----

  /** The elements a run of `add_element` leaves in the set. */
  ghost function Kept(added: seq<seq<u8>>): set<seq<u8>> {
    set e | e in added && e != []
  }

  /** A writer filled by any run of `add_element` and finished. */
  method Build(f: GcsFilter, m: u64, added: seq<seq<u8>>) returns (r: Result<nat, IoError>, bytes: seq<u8>)
    ensures var es := Kept(added);
            match Range(|es|, m)
            case None => r == Err(Overflow) && bytes == []
            case Some(nm) =>
              if f.p < 64 || es == {} then r == Ok(|bytes|) && IsFilter(bytes, f.p, MappedValues(f, nm, es))
              else |es| < MAX64 && r == Err(Overflow) && bytes == CompactSize.Encode(|es|)
  {
    hide MappedValues, IsFilter, Range;
    var w := new GcsFilterWriter([], f, m);
    for i := 0 to |added|
      invariant fresh(w) && w.filter == f && w.m == m && w.out == []
      invariant w.elements == Kept(added[..i])
    {
      assert added[..i + 1] == added[..i] + [added[i]];
      w.AddElement(added[i]);
    }
    assert added[..|added|] == added;
    r := w.Finish();
    bytes := w.out;
    assert bytes[0..] == bytes;
  }

  /** The bytes depend only on the set of non-empty elements, not on order or repetition. */
  method BuildTwice(f: GcsFilter, m: u64, added: seq<seq<u8>>, again: seq<seq<u8>>)
    returns (bytes: seq<u8>, bytes': seq<u8>)
    ensures Kept(added) == Kept(again) ==> bytes == bytes'
  {
    hide MappedValues, IsFilter, Range;
    var r, r';
    r, bytes := Build(f, m, added);
    r', bytes' := Build(f, m, again);
    if Kept(added) == Kept(again) && Range(|Kept(added)|, m).Some? && (f.p < 64 || Kept(added) == {}) {
      FilterUnique(bytes, bytes', f.p, MappedValues(f, Range(|Kept(added)|, m).value, Kept(added)));
    }
  }

  // ----- blocks -----

  const P: nat := 19
  const M: u64 := 784931

  type Script = seq<u8>

  /** A transaction: the coins it spends and the scripts of its outputs. */
  datatype Tx<Coin> = Tx(inputs: seq<Coin>, outputs: seq<Script>)

  datatype FilterError<Coin> = UtxoMissing(coin: Coin) | Io(error: IoError)

  /** The caller's function from a coin to its script, or to a failure of its own. */
  type Lookup<!Coin> = Coin -> Result<Script, FilterError<Coin>>

  /** The keys are the first two 64-bit words of the block hash. */
  function BlockParams(siphash: (u64, u64, seq<u8>) -> u64, blockHash: seq<u8>): GcsFilter
    requires |blockHash| == 32
  {
    CompactSize.Sizes();
    GcsFilter(siphash, CompactSize.LeValue(blockHash[0..8]), CompactSize.LeValue(blockHash[8..16]), P)
  }

  /** A script whose first byte is OP_RETURN. */
  predicate IsOpReturn(s: Script) {
    s != [] && s[0] == 0x6a
  }

  /** The spendable output scripts of transactions. */
  ghost function OutputScripts<Coin>(txs: seq<Tx<Coin>>): set<Script> {
    if txs == [] then {} else OutputScripts(txs[..|txs| - 1]) + Spendable(txs[|txs| - 1].outputs)
  }

  ghost function Spendable(outputs: seq<Script>): set<Script> {
    set s | s in outputs && s != [] && !IsOpReturn(s)
  }

  /** The coins a list of transactions spends, in order. */
  function Spent<Coin>(txs: seq<Tx<Coin>>): seq<Coin> {
    if txs == [] then [] else txs[0].inputs + Spent(txs[1..])
  }

  /** The coins a block spends; its first transaction spends none. */
  function SpentBy<Coin>(block: seq<Tx<Coin>>): seq<Coin> {
    if block == [] then [] else Spent(block[1..])
  }

  /** The scripts of coins. */
  ghost function Resolved<Coin>(coins: seq<Coin>, scriptFor: Lookup<Coin>): set<Script> {
    set c | c in coins && scriptFor(c).Ok? && scriptFor(c).value != [] :: scriptFor(c).value
  }

  /** Everything the filter of a block commits to. */
  ghost function BlockScripts<Coin>(block: seq<Tx<Coin>>, scriptFor: Lookup<Coin>): set<Script> {
    OutputScripts(block) + Resolved(SpentBy(block), scriptFor)
  }

  /** `add_output_scripts`. */
  method AddOutputScripts<Coin>(w: GcsFilterWriter, block: seq<Tx<Coin>>)
    modifies w`elements
    ensures w.elements == old(w.elements) + OutputScripts(block)
  {
    for i := 0 to |block|
      invariant w.elements == old(w.elements) + OutputScripts(block[..i])
    {
      var outputs := block[i].outputs;
      assert block[..i + 1][..i] == block[..i];
      for j := 0 to |outputs|
        invariant w.elements == old(w.elements) + OutputScripts(block[..i]) + Spendable(outputs[..j])
      {
        assert outputs[..j + 1] == outputs[..j] + [outputs[j]];
        if !IsOpReturn(outputs[j]) {
          w.AddElement(outputs[j]);
        }
      }
      assert outputs[..|outputs|] == outputs;
    }
    assert block[..|block|] == block;
  }

  /** How many coins are looked up before the first failure. */
  ghost function Known<Coin>(coins: seq<Coin>, scriptFor: Lookup<Coin>): (n: nat)
    ensures n <= |coins| && (n < |coins| ==> scriptFor(coins[n]).Err?)
    ensures forall i :: 0 <= i < n ==> scriptFor(coins[i]).Ok?
  {
    if coins == [] || scriptFor(coins[0]).Err? then 0 else 1 + Known(coins[1..], scriptFor)
  }

  /** `add_input_scripts`: stops at the first coin whose lookup fails, and returns that failure. */
  method AddInputScripts<Coin>(w: GcsFilterWriter, block: seq<Tx<Coin>>, scriptFor: Lookup<Coin>)
    returns (failure: Option<FilterError<Coin>>)
    modifies w`elements
    ensures var coins := SpentBy(block);
            var n := Known(coins, scriptFor);
            && w.elements == old(w.elements) + Resolved(coins[..n], scriptFor)
            && failure == if n < |coins| then Some(scriptFor(coins[n]).error) else None
  {
    hide SpentBy, Known;
    var coins := SpentBy(block);
    ghost var n := Known(coins, scriptFor);
    for j := 0 to |coins|
      invariant j <= n && w.elements == old(w.elements) + Resolved(coins[..j], scriptFor)
    {
      assert coins[..j + 1] == coins[..j] + [coins[j]];
      var script := scriptFor(coins[j]);
      if script.Err? {
        return Some(script.error);
      }
      ResolvedSnoc(coins[..j], coins[j], scriptFor);
      w.AddElement(script.value);
    }
    failure := None;
  }

  lemma ResolvedSnoc<Coin>(coins: seq<Coin>, c: Coin, scriptFor: Lookup<Coin>)
    requires scriptFor(c).Ok?
    ensures Resolved(coins + [c], scriptFor)
         == Resolved(coins, scriptFor) + (if scriptFor(c).value == [] then {} else {scriptFor(c).value})
  {
    var s := scriptFor(c).value;
    assert c in coins + [c];
    forall x | x in Resolved(coins, scriptFor)
      ensures x in Resolved(coins + [c], scriptFor)
    {
      var d :| d in coins && scriptFor(d).Ok? && scriptFor(d).value == x;
      assert d in coins + [c];
    }
  }

  /** `new_script_filter`. */
  method NewScriptFilter<Coin>(siphash: (u64, u64, seq<u8>) -> u64, blockHash: seq<u8>, block: seq<Tx<Coin>>,
                                   scriptFor: Lookup<Coin>)
    returns (r: Result<seq<u8>, FilterError<Coin>>)
    requires |blockHash| == 32
    ensures var coins := SpentBy(block);
            var n := Known(coins, scriptFor);
            if n < |coins| then r == Err(scriptFor(coins[n]).error)
            else
              var f, es := BlockParams(siphash, blockHash), BlockScripts(block, scriptFor);
              if |es| * 784931 >= MAX64 then r == Err(Io(Overflow))
              else r.Ok? && IsFilter(r.value, 19, MappedValues(f, |es| * 784931, es))
  {
    hide MappedValues, IsFilter, OutputScripts, Resolved, Known, SpentBy;
    var f := BlockParams(siphash, blockHash);
    var w := new GcsFilterWriter([], f, M);
    AddOutputScripts(w, block);
    var failure := AddInputScripts(w, block, scriptFor);
    if failure.Some? {
      return Err(failure.value);
    }
    assert SpentBy(block)[..|SpentBy(block)|] == SpentBy(block);
    assert w.elements == BlockScripts(block, scriptFor);
    var finished := w.Finish();
    if finished.Err? {
      return Err(Io(finished.error));
    }
    assert w.out[0..] == w.out;
    r := Ok(w.out);
  }

  /** The scripts added for the outputs, spelled out. */
  lemma {:induction false} OutputScriptsAre<Coin>(txs: seq<Tx<Coin>>, s: Script)
    ensures s in OutputScripts(txs) <==> s != [] && s[0] != 0x6a && exists i :: 0 <= i < |txs| && s in txs[i].outputs
    decreases |txs|
  {
    if txs != [] {
      var n := |txs| - 1;
      OutputScriptsAre(txs[..n], s);
      if i :| 0 <= i < |txs| && s in txs[i].outputs {
        assert i < n ==> s in txs[..n][i].outputs;
      }
    }
  }

  lemma {:induction false} SpentAre<Coin>(txs: seq<Tx<Coin>>, c: Coin)
    ensures c in Spent(txs) <==> exists i :: 0 <= i < |txs| && c in txs[i].inputs
    decreases |txs|
  {
    if txs != [] {
      SpentAre(txs[1..], c);
      if i :| 0 <= i < |txs| && c in txs[i].inputs {
        assert i > 0 ==> c in txs[1..][i - 1].inputs;
      }
      if i :| 0 <= i < |txs[1..]| && c in txs[1..][i].inputs {
        assert c in txs[i + 1].inputs;
      }
    }
  }

  /** The coins looked up are the inputs of every transaction but the first. */
  lemma SpentByAre<Coin>(block: seq<Tx<Coin>>, c: Coin)
    ensures c in SpentBy(block) <==> exists i :: 0 < i < |block| && c in block[i].inputs
  {
    if block != [] {
      SpentAre(block[1..], c);
      if i :| 0 < i < |block| && c in block[i].inputs {
        assert c in block[1..][i - 1].inputs;
      }
      if i :| 0 <= i < |block[1..]| && c in block[1..][i].inputs {
        assert c in block[i + 1].inputs;
      }
    }
  }

  /** s is the script of a coin spent behind the coinbase. */
  ghost predicate SpentScript<Coin>(block: seq<Tx<Coin>>, scriptFor: Lookup<Coin>, s: Script) {
    exists i, c :: 0 < i < |block| && c in block[i].inputs && scriptFor(c) == Ok(s)
  }

  /**
   A block commits to exactly the non-empty scripts that are an output not starting with
   OP_RETURN or the script of a coin spent behind the coinbase.
   */
  lemma BlockScriptsAre<Coin>(block: seq<Tx<Coin>>, scriptFor: Lookup<Coin>, s: Script)
    ensures s in BlockScripts(block, scriptFor) <==>
              && s != []
              && (|| (s[0] != 0x6a && exists i :: 0 <= i < |block| && s in block[i].outputs)
                  || SpentScript(block, scriptFor, s))
  {
    OutputScriptsAre(block, s);
    hide OutputScripts, SpentBy;
    if s in Resolved(SpentBy(block), scriptFor) {
      var c :| c in SpentBy(block) && scriptFor(c) == Ok(s);
      SpentByAre(block, c);
    }
    if s != [] && SpentScript(block, scriptFor, s) {
      var i, c :| 0 < i < |block| && c in block[i].inputs && scriptFor(c) == Ok(s);
      SpentByAre(block, c);
    }
  }

  /** The keys are the block hash's first sixteen bytes, the low word first. */
  lemma BlockKeys(siphash: (u64, u64, seq<u8>) -> u64, blockHash: seq<u8>)
    requires |blockHash| == 32
    ensures var f := BlockParams(siphash, blockHash);
            && f.k0 + MAX64 * f.k1 == CompactSize.LeValue(blockHash[..16])
            && f.siphash == siphash && f.p == 19
  {
    CompactSize.Sizes();
    assert blockHash[..16] == blockHash[0..8] + blockHash[8..16];
    CompactSize.LeValueConcat(blockHash[0..8], blockHash[8..16]);
  }

  /**
   The promise of a block filter: every script a wallet may own, in an output of the block or
   spent by it, makes the filter match under the keys of that block.
   */
  lemma BlockFilterFindsScript<Coin>(siphash: (u64, u64, seq<u8>) -> u64, blockHash: seq<u8>, block: seq<Tx<Coin>>,
                                     scriptFor: Lookup<Coin>, bytes: seq<u8>, query: seq<Script>, s: Script,
                                     i: nat, r: Result<bool, IoError>)
    requires |blockHash| == 32 && s != [] && s in query && i < |block|
    requires || (s in block[i].outputs && s[0] != 0x6a)
             || (i > 0 && exists c :: c in block[i].inputs && scriptFor(c) == Ok(s))
    requires var f, es := BlockParams(siphash, blockHash), BlockScripts(block, scriptFor);
             && Range(|es|, M).Some?
             && IsFilter(bytes, P, MappedValues(f, Range(|es|, M).value, es))
             && MatchAnyAnswer(f, M, bytes, query, r)
    ensures r == Ok(true)
  {
    hide MappedValues, IsFilter, Range, OutputScripts, MatchAnyAnswer;
    BlockScriptsAre(block, scriptFor, s);
    ElementIsFound(BlockParams(siphash, blockHash), M, BlockScripts(block, scriptFor), bytes, query, s, r);
  }
}
