/** Compact blocks: a block split into prefilled transactions and short ids, and rebuilt. */
module CompactBlock {
  import opened Words
  import opened Sorting
  import opened IndexCoding

  /** `Panic` stands for the capacity computation that underflows. */
  datatype Error = UnknownVersion | InvalidPrefill | Panic

  datatype Block<+Header, +Tx> = Block(header: Header, txdata: seq<Tx>)

  datatype PrefilledTransaction<+Tx> = PrefilledTransaction(idx: u16, tx: Tx)

  datatype HeaderAndShortIds<+Header, +Tx, +Id> =
    HeaderAndShortIds(header: Header, nonce: u64, shortIds: seq<Id>, prefilledTxs: seq<PrefilledTransaction<Tx>>)

  // ----- which transactions go where -----

  /** A prefill list for a block of n transactions: strictly increasing and in range. */
  ghost predicate GoodPrefill(prefill: seq<nat>, n: nat) {
    StrictlySorted(prefill) && forall i :: 0 <= i < |prefill| ==> prefill[i] < n
  }

  /** The positions to prefill among the first n: those asked for, and the coinbase. */
  ghost function Chosen(prefill: seq<nat>, n: nat): seq<nat> {
    if n == 0 then []
    else if prefill != [] && prefill[0] == 0 then prefill
    else [0] + prefill
  }

  /** The positions below n that are not chosen. */
  ghost function Missing(chosen: seq<nat>, n: nat): (m: seq<nat>)
    ensures forall i :: 0 <= i < |m| ==> m[i] < n
  {
    if n == 0 then []
    else Missing(chosen, n - 1) + if n - 1 in chosen then [] else [n - 1]
  }

  /** The coinbase and the requested positions are chosen, all others are missing. */
  lemma {:induction false} MissingAre(chosen: seq<nat>, n: nat, i: nat)
    ensures i in Missing(chosen, n) <==> i < n && i !in chosen
    decreases n
  {
    if n > 0 {
      MissingAre(chosen, n - 1, i);
    }
  }

  lemma ChosenAre(prefill: seq<nat>, n: nat, i: nat)
    requires GoodPrefill(prefill, n)
    ensures i in Chosen(prefill, n) <==> i in prefill || (i == 0 && n > 0)
    ensures StrictlySorted(Chosen(prefill, n))
  {
    AscendingIsSorted(prefill, 0);
    if n > 0 && prefill != [] && prefill[0] > 0 {
      var c := [0] + prefill;
      forall j, k | 0 <= j < k < |c|
        ensures c[j] < c[k]
      {
        assert c[k] == prefill[k - 1] >= prefill[0];
      }
    }
  }

  lemma {:induction false} MissingSame(a: seq<nat>, b: seq<nat>, n: nat)
    requires forall i :: 0 <= i < n ==> (i in a <==> i in b)
    ensures Missing(a, n) == Missing(b, n)
    decreases n
  {
    if n > 0 {
      MissingSame(a, b, n - 1);
    }
  }

  ghost function Pick<T, U>(s: seq<T>, at: seq<nat>, view: T -> U): (r: seq<U>)
    requires forall i :: 0 <= i < |at| ==> at[i] < |s|
    ensures |r| == |at| && forall i :: 0 <= i < |at| ==> r[i] == view(s[at[i]])
  {
    seq(|at|, i requires 0 <= i < |at| => view(s[at[i]]))
  }

  ghost function At<T>(s: seq<T>, at: seq<nat>): (r: seq<T>)
    requires forall i :: 0 <= i < |at| ==> at[i] < |s|
    ensures |r| == |at| && forall i :: 0 <= i < |at| ==> r[i] == s[at[i]]
  {
    seq(|at|, i requires 0 <= i < |at| => s[at[i]])
  }

  /** The prefilled transactions for the chosen positions: differences, cut to 16 bits. */
  ghost function Prefilled<Tx>(txdata: seq<Tx>, chosen: seq<nat>, view: Tx -> Tx): (r: seq<PrefilledTransaction<Tx>>)
    requires Ascending(chosen, 0) && forall i :: 0 <= i < |chosen| ==> chosen[i] < |txdata|
    ensures |r| == |chosen|
  {
    var d := Diffs(chosen, 0);
    seq(|chosen|, i requires 0 <= i < |chosen| => PrefilledTransaction(d[i] % 0x1_0000, view(txdata[chosen[i]])))
  }

  /** A loop state after n positions: k of the prefill list are used up. */
  ghost predicate Scanning(prefill: seq<nat>, k: nat, chosen: seq<nat>, n: nat) {
    && k <= |prefill|
    && Ascending(chosen, 0) && (forall i :: 0 <= i < |chosen| ==> chosen[i] < n)
    && chosen == Chosen(prefill[..k], n)
    && (n == 0 ==> k == 0)
  }

  /** As long as the list is good, its next element is still ahead. */
  ghost predicate Ahead(prefill: seq<nat>, k: nat, n: nat, total: nat) {
    GoodPrefill(prefill, total) && k < |prefill| ==> n <= prefill[k]
  }

  lemma ScanStart(prefill: seq<nat>, total: nat)
    ensures Scanning(prefill, 0, [], 0) && Ahead(prefill, 0, 0, total)
  {
  }

  lemma ScanTake(prefill: seq<nat>, k: nat, chosen: seq<nat>, n: nat, total: nat)
    requires Scanning(prefill, k, chosen, n) && k < |prefill| && prefill[k] == n
    ensures Scanning(prefill, k + 1, chosen + [n], n + 1) && Ahead(prefill, k + 1, n + 1, total)
  {
    hide Ascending;
    assert prefill[..k + 1] == prefill[..k] + [n];
    AscendingSnoc(chosen, 0, n);
  }

  lemma ScanCoinbase(prefill: seq<nat>, k: nat, chosen: seq<nat>, total: nat)
    requires Scanning(prefill, k, chosen, 0) && Ahead(prefill, k, 0, total) && (k < |prefill| ==> prefill[k] != 0)
    ensures Scanning(prefill, k, chosen + [0], 1) && Ahead(prefill, k, 1, total)
  {
    AscendingSnoc(chosen, 0, 0);
  }

  lemma ScanSkip(prefill: seq<nat>, k: nat, chosen: seq<nat>, n: nat, total: nat)
    requires n > 0 && Scanning(prefill, k, chosen, n) && Ahead(prefill, k, n, total)
    requires k < |prefill| ==> prefill[k] != n
    ensures Scanning(prefill, k, chosen, n + 1) && Ahead(prefill, k, n + 1, total)
    ensures n !in chosen
  {
  }

  /** A good list is no longer than the block. */
  lemma GoodIsShort(prefill: seq<nat>, n: nat)
    requires GoodPrefill(prefill, n)
    ensures |prefill| <= n
  {
    if prefill != [] {
      AtLeastPosition(prefill, |prefill| - 1);
    }
  }

  lemma {:induction false} AtLeastPosition(s: seq<nat>, i: nat)
    requires StrictlySorted(s) && i < |s|
    ensures s[i] >= i
    decreases i
  {
    if i > 0 {
      AtLeastPosition(s, i - 1);
    }
  }

  /** The list is used up at the end exactly when it is good. */
  lemma ScanDone(prefill: seq<nat>, k: nat, chosen: seq<nat>, n: nat)
    requires Scanning(prefill, k, chosen, n) && Ahead(prefill, k, n, n)
    ensures k == |prefill| <==> GoodPrefill(prefill, n)
    ensures k == |prefill| ==> chosen == Chosen(prefill, n)
  {
    if k == |prefill| {
      assert prefill[..k] == prefill;
      AscendingIsSorted(chosen, 0);
      if n > 0 && chosen != prefill {
        assert forall i :: 0 <= i < |prefill| ==> chosen[i + 1] == prefill[i];
      }
    }
  }

  // ----- splitting a block -----

  /** Version 1 sends transactions without their witnesses. */
  function View<Tx>(version: u32, strip: Tx -> Tx): Tx -> Tx {
    if version == 1 then strip else tx => tx
  }

  /** The vectors after n transactions. */
  ghost predicate Splitting<Tx, Id>(txdata: seq<Tx>, chosen: seq<nat>, n: nat, view: Tx -> Tx, id: Tx -> Id,
                                    prefilled: seq<PrefilledTransaction<Tx>>, shortIds: seq<Id>) {
    && n <= |txdata|
    && Ascending(chosen, 0) && (forall i :: 0 <= i < |chosen| ==> chosen[i] < n)
    && prefilled == Prefilled(txdata, chosen, view)
    && shortIds == Pick(txdata, Missing(chosen, n), id)
  }

  lemma SplitStart<Tx, Id>(txdata: seq<Tx>, view: Tx -> Tx, id: Tx -> Id)
    ensures Splitting(txdata, [], 0, view, id, [], [])
  {
  }

  lemma SplitTake<Tx, Id>(txdata: seq<Tx>, chosen: seq<nat>, n: nat, view: Tx -> Tx, id: Tx -> Id,
                          prefilled: seq<PrefilledTransaction<Tx>>, shortIds: seq<Id>)
    requires n < |txdata| && Splitting(txdata, chosen, n, view, id, prefilled, shortIds)
    ensures var p := PrefilledTransaction((n - Next(chosen, 0)) % 0x1_0000, view(txdata[n]));
            Splitting(txdata, chosen + [n], n + 1, view, id, prefilled + [p], shortIds)
  {
    hide Ascending, Diffs;
    AscendingSnoc(chosen, 0, n);
    MissingSame(chosen, chosen + [n], n);
  }

  lemma SplitSkip<Tx, Id>(txdata: seq<Tx>, chosen: seq<nat>, n: nat, view: Tx -> Tx, id: Tx -> Id,
                          prefilled: seq<PrefilledTransaction<Tx>>, shortIds: seq<Id>)
    requires n < |txdata| && n !in chosen && Splitting(txdata, chosen, n, view, id, prefilled, shortIds)
    ensures Splitting(txdata, chosen, n + 1, view, id, prefilled, shortIds + [id(txdata[n])])
  {
    assert Missing(chosen, n + 1) == Missing(chosen, n) + [n];
  }

  /** The vectors spelled out. */
  lemma SentMeans<Tx, Id>(txdata: seq<Tx>, chosen: seq<nat>, version: u32, strip: Tx -> Tx, id: Tx -> Id,
                          sent: seq<PrefilledTransaction<Tx>>, ids: seq<Id>)
    requires Splitting(txdata, chosen, |txdata|, View(version, strip), id, sent, ids)
    ensures |sent| == |chosen|
    ensures forall i :: 0 <= i < |chosen| ==>
              && chosen[i] < |txdata|
              && sent[i].tx == (if version == 1 then strip(txdata[chosen[i]]) else txdata[chosen[i]])
              && sent[i].idx == (chosen[i] as int - (if i == 0 then 0 else chosen[i - 1] + 1)) % 0x1_0000
    ensures |ids| == |Missing(chosen, |txdata|)|
    ensures forall i :: 0 <= i < |ids| ==> ids[i] == id(txdata[Missing(chosen, |txdata|)[i]])
  {
    hide Ascending, Diffs, Missing;
    forall i | 0 <= i < |chosen|
      ensures sent[i].idx == (chosen[i] as int - (if i == 0 then 0 else chosen[i - 1] + 1)) % 0x1_0000
    {
      DiffsMeaning(chosen, 0, i);
    }
  }

  /** `from_block`: succeeds exactly on known versions and good prefill lists. */
  method FromBlock<Header, Tx, Id>(block: Block<Header, Tx>, nonce: u64, version: u32, prefill: seq<nat>,
                                   strip: Tx -> Tx, shortId: (Header, u64, u32, Tx) -> Id)
    returns (r: Result<HeaderAndShortIds<Header, Tx, Id>, Error>)
    ensures r.Ok? <==> (version == 1 || version == 2) && GoodPrefill(prefill, |block.txdata|)
    ensures r.Ok? ==>
              var chosen := Chosen(prefill, |block.txdata|);
              && r.value.header == block.header && r.value.nonce == nonce
              && Splitting(block.txdata, chosen, |block.txdata|, View(version, strip),
                           tx => shortId(block.header, nonce, version, tx), r.value.prefilledTxs, r.value.shortIds)
    ensures r.Ok? ==>
              var chosen, sent := Chosen(prefill, |block.txdata|), r.value.prefilledTxs;
              && |sent| == |chosen|
              && forall i :: 0 <= i < |chosen| ==>
                   && chosen[i] < |block.txdata|
                   && sent[i].tx == (if version == 1 then strip(block.txdata[chosen[i]]) else block.txdata[chosen[i]])
                   && sent[i].idx == (chosen[i] as int - (if i == 0 then 0 else chosen[i - 1] + 1)) % 0x1_0000
    ensures r.Ok? ==>
              var missing, ids := Missing(Chosen(prefill, |block.txdata|), |block.txdata|), r.value.shortIds;
              && |ids| == |missing|
              && forall i :: 0 <= i < |ids| ==>
                   ids[i] == shortId(block.header, nonce, version, block.txdata[missing[i]])
    ensures r.Err? ==> r.error == if version != 1 && version != 2 then UnknownVersion
                                  else if |prefill| > |block.txdata| then Panic else InvalidPrefill
  {
    hide Ascending, Missing, Chosen, GoodPrefill, Splitting;
    if version != 1 && version != 2 {
      return Err(UnknownVersion);
    }
    if |block.txdata| < |prefill| {
      if GoodPrefill(prefill, |block.txdata|) {
        GoodIsShort(prefill, |block.txdata|);
      }
      return Err(Panic);
    }
    ghost var view, id := View(version, strip), tx => shortId(block.header, nonce, version, tx);
    ghost var chosen: seq<nat> := [];
    ghost var k := 0;
    var txdata, n := block.txdata, |block.txdata|;
    var remaining := prefill;
    var prefilled, shortIds := [], [];
    var lastPrefill := 0;
    ScanStart(prefill, n);
    SplitStart(txdata, view, id);
    for idx := 0 to n
      invariant Scanning(prefill, k, chosen, idx) && Ahead(prefill, k, idx, n)
      invariant remaining == prefill[k..] && lastPrefill == Next(chosen, 0)
      invariant Splitting(txdata, chosen, idx, view, id, prefilled, shortIds)
    {
      var tx := txdata[idx];
      var prefillTx := idx == 0;
      if remaining != [] && remaining[0] == idx {
        ScanTake(prefill, k, chosen, idx, n);
        remaining := remaining[1..];
        prefillTx := true;
        k := k + 1;
      } else if idx == 0 {
        ScanCoinbase(prefill, k, chosen, n);
      } else {
        ScanSkip(prefill, k, chosen, idx, n);
      }
      if prefillTx {
        SplitTake(txdata, chosen, idx, view, id, prefilled, shortIds);
        var diffIdx := idx - lastPrefill;
        lastPrefill := idx + 1;
        prefilled := prefilled + [PrefilledTransaction(diffIdx % 0x1_0000, if version == 1 then strip(tx) else tx)];
        chosen := chosen + [idx];
      } else {
        SplitSkip(txdata, chosen, idx, view, id, prefilled, shortIds);
        shortIds := shortIds + [shortId(block.header, nonce, version, tx)];
      }
    }
    ScanDone(prefill, k, chosen, n);
    if remaining != [] {
      return Err(InvalidPrefill);
    }
    SentMeans(txdata, chosen, version, strip, id, prefilled, shortIds);
    r := Ok(HeaderAndShortIds(block.header, nonce, shortIds, prefilled));
  }

  datatype BlockTransactions<+Tx> = BlockTransactions(blockHash: Bytes, transactions: seq<Tx>)

  /** `from_request`: the requested transactions, or the first index out of range. */
  method FromRequest<Tx>(request: Request, txdata: seq<Tx>) returns (r: Result<BlockTransactions<Tx>, u64>)
    ensures r.Ok? <==> forall i :: 0 <= i < |request.indexes| ==> request.indexes[i] < |txdata|
    ensures r.Ok? ==> r.value == BlockTransactions(request.blockHash, At(txdata, request.indexes))
    ensures r.Err? ==> exists i :: 0 <= i < |request.indexes| && request.indexes[i] == r.error >= |txdata|
                                && forall j :: 0 <= j < i ==> request.indexes[j] < |txdata|
  {
    var indexes := request.indexes;
    var txs := [];
    for i := 0 to |indexes|
      invariant forall j :: 0 <= j < i ==> indexes[j] < |txdata|
      invariant |txs| == i && forall j :: 0 <= j < i ==> txs[j] == txdata[indexes[j]]
    {
      if indexes[i] >= |txdata| {
        return Err(indexes[i]);
      }
      txs := txs + [txdata[indexes[i]]];
    }
    r := Ok(BlockTransactions(request.blockHash, txs));
  }

  // ----- rebuilding the block -----

  function Indexes<Tx>(prefilled: seq<PrefilledTransaction<Tx>>): (d: seq<nat>)
    ensures |d| == |prefilled| && forall i :: 0 <= i < |d| ==> d[i] == prefilled[i].idx
  {
    seq(|prefilled|, i requires 0 <= i < |prefilled| => prefilled[i].idx)
  }

  function Transactions<Tx>(prefilled: seq<PrefilledTransaction<Tx>>): (t: seq<Tx>)
    ensures |t| == |prefilled| && forall i :: 0 <= i < |t| ==> t[i] == prefilled[i].tx
  {
    seq(|prefilled|, i requires 0 <= i < |prefilled| => prefilled[i].tx)
  }

  lemma SumsExact(chosen: seq<nat>, sent: seq<nat>)
    requires Ascending(chosen, 0)
    ensures Sums(sent, 0) == chosen <==> sent == Diffs(chosen, 0)
  {
    SumsOfDiffs(chosen, 0);
    DiffsOfSums(sent, 0);
  }

  lemma CutExact(d: seq<nat>, sent: seq<nat>)
    requires |sent| == |d| && forall i :: 0 <= i < |d| ==> sent[i] == d[i] % 0x1_0000
    ensures sent == d <==> forall i :: 0 <= i < |d| ==> d[i] < 0x1_0000
  {
  }

  /** The sent differences add up to the chosen positions exactly when none was cut. */
  lemma SentIndexes<Tx>(txdata: seq<Tx>, chosen: seq<nat>, view: Tx -> Tx)
    requires Ascending(chosen, 0) && forall i :: 0 <= i < |chosen| ==> chosen[i] < |txdata|
    ensures Sums(Indexes(Prefilled(txdata, chosen, view)), 0) == chosen <==>
              forall i :: 0 <= i < |chosen| ==> Diffs(chosen, 0)[i] < 0x1_0000
  {
    hide Ascending, Diffs, Sums;
    var d, sent := Diffs(chosen, 0), Indexes(Prefilled(txdata, chosen, view));
    SumsExact(chosen, sent);
    CutExact(d, sent);
  }

  /** In a larger block one can be: position 65537 after the coinbase arrives as position 1. */
  lemma CutDifference<Tx>(txdata: seq<Tx>, view: Tx -> Tx)
    requires |txdata| > 0x1_0001
    ensures Sums(Indexes(Prefilled(txdata, [0, 0x1_0001], view)), 0) == [0, 1]
  {
    var chosen := [0, 0x1_0001];
    assert chosen[1..] == [0x1_0001] && chosen[1..][1..] == [];
    assert Diffs(chosen, 0) == [0, 0x1_0000];
    var sent := Indexes(Prefilled(txdata, chosen, view));
    assert sent == [0, 0] && sent[1..] == [0] && sent[1..][1..] == [];
  }

  /** No difference is cut in a block of at most 65536 transactions. */
  lemma {:induction false} SmallDifferences(chosen: seq<nat>, from: nat, n: nat)
    requires Ascending(chosen, from) && n <= 0x1_0000 && forall i :: 0 <= i < |chosen| ==> chosen[i] < n
    ensures forall i :: 0 <= i < |chosen| ==> Diffs(chosen, from)[i] < 0x1_0000
    decreases |chosen|
  {
    if chosen != [] {
      SmallDifferences(chosen[1..], chosen[0] + 1, n);
    }
  }

  /** n positions filled from the end: the given transactions at their places, the others around them. */
  function Fill<Tx>(n: nat, at: seq<nat>, given: seq<Tx>, others: seq<Tx>): (r: Option<seq<Tx>>)
    requires |at| == |given|
  {
    if n == 0 then if at == [] && others == [] then Some([]) else None
    else if at != [] && at[|at| - 1] == n - 1 then
      Then(Fill(n - 1, at[..|at| - 1], given[..|given| - 1], others), given[|given| - 1])
    else if others != [] then
      Then(Fill(n - 1, at, given, others[..|others| - 1]), others[|others| - 1])
    else None
  }

  function Then<Tx>(done: Option<seq<Tx>>, tx: Tx): Option<seq<Tx>> {
    match done
    case None => None
    case Some(s) => Some(s + [tx])
  }

  /** Transactions with those at the chosen positions seen through the view. */
  ghost function Viewed<Tx>(txdata: seq<Tx>, chosen: seq<nat>, n: nat, view: Tx -> Tx): seq<Tx>
    requires n <= |txdata|
  {
    seq(n, i requires 0 <= i < n => if i in chosen then view(txdata[i]) else txdata[i])
  }

  /** The last position is either the last one chosen or the last one missing. */
  lemma LastPosition(chosen: seq<nat>, n: nat)
    requires StrictlySorted(chosen) && forall i :: 0 <= i < |chosen| ==> chosen[i] < n + 1
    ensures n in chosen <==> chosen != [] && chosen[|chosen| - 1] == n
    ensures n !in chosen ==> forall i :: 0 <= i < |chosen| ==> chosen[i] < n
    ensures n in chosen ==>
              var init := chosen[..|chosen| - 1];
              && (forall i :: 0 <= i < |init| ==> init[i] < n)
              && (forall i :: 0 <= i < n ==> (i in chosen <==> i in init))
  {
    if n in chosen {
      var last := |chosen| - 1;
      assert chosen[last] == n by {
        var k :| 0 <= k < |chosen| && chosen[k] == n;
        assert chosen[k] <= chosen[last];
      }
      var init := chosen[..last];
      assert chosen == init + [n];
      forall i | 0 <= i < |init|
        ensures init[i] < n
      {
        assert chosen[i] < chosen[last];
      }
      forall i | 0 <= i < n
        ensures i in chosen <==> i in init
      {
        assert i in init + [n] <==> i in init;
      }
    }
  }

  lemma FillNothing<Tx>(txdata: seq<Tx>, view: Tx -> Tx)
    ensures Rebuilds(txdata, [], 0, view)
  {
    assert Pick(txdata, [], view) == [] && At(txdata, Missing([], 0)) == [] && Viewed(txdata, [], 0, view) == [];
  }

  lemma FillTake<Tx>(txdata: seq<Tx>, chosen: seq<nat>, n: nat, view: Tx -> Tx)
    requires n < |txdata| && StrictlySorted(chosen) && forall i :: 0 <= i < |chosen| ==> chosen[i] < n + 1
    requires n in chosen
    requires var init := chosen[..|chosen| - 1];
             (forall i :: 0 <= i < |init| ==> init[i] < n) && Rebuilds(txdata, init, n, view)
    ensures Rebuilds(txdata, chosen, n + 1, view)
  {
    LastPosition(chosen, n);
    var init := chosen[..|chosen| - 1];
    MissingSame(chosen, init, n);
    assert Missing(chosen, n + 1) == Missing(init, n);
    assert Pick(txdata, chosen, view)[..|init|] == Pick(txdata, init, view);
    assert Viewed(txdata, chosen, n + 1, view) == Viewed(txdata, init, n, view) + [view(txdata[n])];
  }

  lemma FillSkip<Tx>(txdata: seq<Tx>, chosen: seq<nat>, n: nat, view: Tx -> Tx)
    requires n < |txdata| && forall i :: 0 <= i < |chosen| ==> chosen[i] < n
    requires Rebuilds(txdata, chosen, n, view)
    ensures Rebuilds(txdata, chosen, n + 1, view)
  {
    var missing, more := Missing(chosen, n), Missing(chosen, n + 1);
    assert more == missing + [n];
    assert At(txdata, more)[..|missing|] == At(txdata, missing);
    assert Viewed(txdata, chosen, n + 1, view) == Viewed(txdata, chosen, n, view) + [txdata[n]];
  }

  ghost predicate Rebuilds<Tx>(txdata: seq<Tx>, chosen: seq<nat>, n: nat, view: Tx -> Tx)
    requires n <= |txdata| && forall i :: 0 <= i < |chosen| ==> chosen[i] < n
  {
    Fill(n, chosen, Pick(txdata, chosen, view), At(txdata, Missing(chosen, n))) == Some(Viewed(txdata, chosen, n, view))
  }

  /** Filling the missing positions gives back every transaction. */
  lemma {:induction false} FillRebuilds<Tx>(txdata: seq<Tx>, chosen: seq<nat>, n: nat, view: Tx -> Tx)
    requires n <= |txdata| && StrictlySorted(chosen) && forall i :: 0 <= i < |chosen| ==> chosen[i] < n
    ensures Rebuilds(txdata, chosen, n, view)
    decreases n
  {
    hide Rebuilds;
    if n == 0 {
      FillNothing(txdata, view);
      assert chosen == [];
    } else {
      LastPosition(chosen, n - 1);
      if n - 1 in chosen {
        FillRebuilds(txdata, chosen[..|chosen| - 1], n - 1, view);
        FillTake(txdata, chosen, n - 1, view);
      } else {
        FillRebuilds(txdata, chosen, n - 1, view);
        FillSkip(txdata, chosen, n - 1, view);
      }
    }
  }

  // ----- the whole exchange -----

  /** Every position is chosen or missing, and the missing ones make a request that can be sent. */
  lemma {:induction false} MissingSound(chosen: seq<nat>, n: nat)
    requires StrictlySorted(chosen) && forall i :: 0 <= i < |chosen| ==> chosen[i] < n
    ensures |chosen| + |Missing(chosen, n)| == n
    ensures StrictlySorted(Missing(chosen, n))
    decreases n
  {
    if n == 0 {
      assert chosen == [];
    } else {
      LastPosition(chosen, n - 1);
      if n - 1 in chosen {
        var init := chosen[..|chosen| - 1];
        MissingSame(chosen, init, n - 1);
        MissingSound(init, n - 1);
        assert Missing(chosen, n) == Missing(init, n - 1);
      } else {
        MissingSound(chosen, n - 1);
      }
    }
  }

  /** What a receiver gets from the prefilled transactions and the answer to its request. */
  ghost function Received<Tx>(txdata: seq<Tx>, prefilled: seq<PrefilledTransaction<Tx>>): Option<seq<Tx>> {
    var n, at := |txdata|, Sums(Indexes(prefilled), 0);
    Fill(n, at, Transactions(prefilled), At(txdata, Missing(at, n)))
  }

  /**
   A receiver adds up the sent differences, asks for the positions it lacks, and fills them in:
   unless a difference was cut it gets the block back, the prefilled transactions as the
   version sends them.
   */
  lemma BlockRebuilt<Tx, Id>(txdata: seq<Tx>, prefill: seq<nat>, version: u32, strip: Tx -> Tx, id: Tx -> Id,
                             prefilled: seq<PrefilledTransaction<Tx>>, shortIds: seq<Id>)
    requires |txdata| < MAX64 && GoodPrefill(prefill, |txdata|)
    requires Splitting(txdata, Chosen(prefill, |txdata|), |txdata|, View(version, strip), id, prefilled, shortIds)
    requires forall i :: 0 <= i < |prefilled| ==> Diffs(Chosen(prefill, |txdata|), 0)[i] < 0x1_0000
    ensures var n, at := |txdata|, Sums(Indexes(prefilled), 0);
            var missing := Missing(at, n);
            && at == Chosen(prefill, n)
            && |prefilled| + |shortIds| == n && |missing| == |shortIds|
            && (forall i :: 0 <= i < |missing| ==> missing[i] < MAX64) && Encodable(missing)
            && Received(txdata, prefilled) == Some(Viewed(txdata, at, n, View(version, strip)))
            && (version == 2 ==> Received(txdata, prefilled) == Some(txdata))
  {
    hide Ascending, Diffs, Sums, Missing, Chosen, Fill;
    var n, chosen, view := |txdata|, Chosen(prefill, |txdata|), View(version, strip);
    AscendingIsSorted(chosen, 0);
    SentIndexes(txdata, chosen, view);
    MissingSound(chosen, n);
    FillRebuilds(txdata, chosen, n, view);
    assert Transactions(prefilled) == Pick(txdata, chosen, view);
    assert version == 2 ==> Viewed(txdata, chosen, n, view) == txdata;
  }

  /** In particular for every block of at most 65536 transactions. */
  lemma SmallBlockRebuilt<Tx, Id>(txdata: seq<Tx>, prefill: seq<nat>, version: u32, strip: Tx -> Tx, id: Tx -> Id,
                                  prefilled: seq<PrefilledTransaction<Tx>>, shortIds: seq<Id>)
    requires |txdata| <= 0x1_0000 && GoodPrefill(prefill, |txdata|)
    requires Splitting(txdata, Chosen(prefill, |txdata|), |txdata|, View(version, strip), id, prefilled, shortIds)
    ensures var at := Chosen(prefill, |txdata|);
            && Received(txdata, prefilled) == Some(Viewed(txdata, at, |txdata|, View(version, strip)))
            && (version == 2 ==> Received(txdata, prefilled) == Some(txdata))
  {
    hide Ascending, Diffs, Chosen, Received;
    SmallDifferences(Chosen(prefill, |txdata|), 0, |txdata|);
    BlockRebuilt(txdata, prefill, version, strip, id, prefilled, shortIds);
  }
}
