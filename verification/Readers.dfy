/** What readers of the published indices can rely on, at any moment of any run. */
module Readers {
  import opened Wrappers
  import opened Ledger
  import opened Canonical
  import opened BlockBuild
  import opened Chain
  import opened Settlement

  // ----- Where a found block comes from -----

  lemma FoundByHash(setup: Setup, n: Node, k: BlockHash, b: Block) returns (i: nat)
    requires Inv(setup, n) && MayFind(n.view.hashes, k, b)
    ensures i < Shown(n, 2) <= |n.history| && n.history[i].block == b && k == b.hash
  {
    hide ChainOk, Extend, Gather;
    var h := n.history[..Shown(n, 2)];
    FindIff(Gather(h, HashEntry), k, b);
    i := GatherFrom(h, HashEntry, Entry(k, b));
  }

  lemma FoundByHeight(setup: Setup, n: Node, k: nat, b: Block) returns (i: nat)
    requires Inv(setup, n) && MayFind(n.view.heights, k, b)
    ensures i < Shown(n, 3) <= |n.history| && n.history[i].block == b && k == b.header.number
  {
    hide ChainOk, Extend, Gather;
    var h := n.history[..Shown(n, 3)];
    FindIff(Gather(h, HeightEntry), k, b);
    i := GatherFrom(h, HeightEntry, Entry(k, b));
  }

  lemma FoundByPayload(setup: Setup, n: Node, k: nat, b: Block) returns (i: nat)
    requires Inv(setup, n) && MayFind(n.view.payloads, k, b)
    ensures i < Shown(n, 4) <= |n.history| && n.history[i].block == b && k == b.payloadId
  {
    hide ChainOk, Extend, Gather;
    var h := n.history[..Shown(n, 4)];
    FindIff(Gather(h, PayloadEntry), k, b);
    i := GatherFrom(h, PayloadEntry, Entry(k, b));
  }

  lemma ShownByHash(setup: Setup, n: Node, i: nat)
    requires Inv(setup, n) && i < Shown(n, 2)
    ensures MayFind(n.view.hashes, n.history[i].block.hash, n.history[i].block)
  {
    hide ChainOk, Extend, Gather;
    var h := n.history[..Shown(n, 2)];
    var e := Entry(h[i].block.hash, h[i].block);
    GatherHas(h, HashEntry, i, e);
    FindIff(Gather(h, HashEntry), e.key, e.value);
  }

  lemma ShownByHeight(setup: Setup, n: Node, i: nat)
    requires Inv(setup, n) && i < Shown(n, 3)
    ensures MayFind(n.view.heights, n.history[i].block.header.number, n.history[i].block)
  {
    hide ChainOk, Extend, Gather;
    var h := n.history[..Shown(n, 3)];
    var e := Entry(h[i].block.header.number, h[i].block);
    GatherHas(h, HeightEntry, i, e);
    FindIff(Gather(h, HeightEntry), e.key, e.value);
  }

  lemma PayloadIdsDiffer(setup: Setup, h: seq<Built>, i: nat, j: nat)
    requires ChainOk(setup, h) && i < j < |h|
    ensures h[i].block.payloadId != h[j].block.payloadId
  {
    hide Build;
    assert BuiltOn(setup, h, j);
  }

  /** Equal hash, number or payload id means the same place in the chain. */
  lemma SamePlace(setup: Setup, h: seq<Built>, i: nat, j: nat)
    requires ChainOk(setup, h) && i < |h| && j < |h|
    requires h[i].block.hash == h[j].block.hash || h[i].block.header.number == h[j].block.header.number
             || h[i].block.payloadId == h[j].block.payloadId
    ensures i == j
  {
    hide ChainOk;
    NumberIsPlace(setup, h, i);
    NumberIsPlace(setup, h, j);
    if i != j {
      var lo, hi := if i < j then i else j, if i < j then j else i;
      HashesDiffer(setup, h, lo, hi);
      PayloadIdsDiffer(setup, h, lo, hi);
    }
  }

  /**
   Whoever finds a block by payload id also finds it by its hash and its height, and finds nothing
   else there.
   */
  lemma PayloadThenBlock(setup: Setup, n: Node, id: nat, b: Block)
    requires Inv(setup, n) && MayFind(n.view.payloads, id, b)
    ensures MayFind(n.view.hashes, b.hash, b) && MayFind(n.view.heights, b.header.number, b)
    ensures forall other :: MayFind(n.view.hashes, b.hash, other) ==> other == b
    ensures forall other :: MayFind(n.view.heights, b.header.number, other) ==> other == b
    ensures forall other :: MayFind(n.view.payloads, id, other) ==> other == b
  {
    hide ChainOk, Extend, Gather;
    var i := FoundByPayload(setup, n, id, b);
    ShownByHash(setup, n, i);
    ShownByHeight(setup, n, i);
    forall other | MayFind(n.view.hashes, b.hash, other) ensures other == b {
      var j := FoundByHash(setup, n, b.hash, other);
      SamePlace(setup, n.history, i, j);
    }
    forall other | MayFind(n.view.heights, b.header.number, other) ensures other == b {
      var j := FoundByHeight(setup, n, b.header.number, other);
      SamePlace(setup, n.history, i, j);
    }
    forall other | MayFind(n.view.payloads, id, other) ensures other == b {
      var j := FoundByPayload(setup, n, id, other);
      SamePlace(setup, n.history, i, j);
    }
  }

  // ----- Transactions of a found block -----

  lemma RecordsMatchKeys(setup: Setup, n: Node, k: Encoding, v: StoredTx)
    requires Inv(setup, n) && MayFind(n.view.transactions, k, v)
    ensures v.inner.encoded == k
  {
    hide ChainOk, Extend, Gather;
    var h := n.history[..Shown(n, 1)];
    FindIff(Gather(h, TxEntries), k, v);
    var i := GatherFrom(h, TxEntries, Entry(k, v));
  }

  lemma BlockListsCandidates(setup: Setup, h: seq<Built>, i: nat)
    requires ChainOk(setup, h) && i < |h|
    ensures h[i].block.transactions == HashesOf(h[i].candidates)
  {
    hide BuiltOn;
    if i > 0 {
      BuildLinks(setup, h, i);
    }
  }

  /** The lookup of a found block's `p`-th transaction answers, and every answer has the hash asked for. */
  ghost predicate TransactionVisible(v: View, b: Block, p: nat)
    requires p < |b.transactions|
  {
    && (exists tx :: MayFind(v.transactions, b.transactions[p], StoredTx(tx, b.hash, b.header.number, p)))
    && forall stored :: MayFind(v.transactions, b.transactions[p], stored) ==>
      stored.inner.encoded == b.transactions[p]
  }

  /** Whoever finds a block by any index can look up each of its transactions, in order. */
  lemma TransactionsVisible(setup: Setup, n: Node, i: nat, p: nat)
    requires Inv(setup, n) && i < Shown(n, 2) && p < |n.history[i].block.transactions|
    ensures TransactionVisible(n.view, n.history[i].block, p)
  {
    hide ChainOk, Extend, Gather;
    BlockListsCandidates(setup, n.history, i);
    var h, b := n.history[..Shown(n, 1)], n.history[i];
    var stored := StoredTx(b.candidates[p].tx, b.block.hash, b.block.header.number, p);
    var e := Entry(b.block.transactions[p], stored);
    assert TxEntries(h[i])[p] == e;
    GatherHas(h, TxEntries, i, e);
    FindIff(Gather(h, TxEntries), e.key, e.value);
    forall v | MayFind(n.view.transactions, e.key, v) ensures v.inner.encoded == e.key {
      RecordsMatchKeys(setup, n, e.key, v);
    }
  }

  // ----- Receipts of a found block -----

  function Ran(b: Built): seq<nat> {
    RanAt(b.env, Start(b.before), b.candidates, 0)
  }

  lemma ReceiptsOfBuilt(setup: Setup, h: seq<Built>, i: nat)
    requires ChainOk(setup, h) && i < |h|
    ensures |Ran(h[i])| == |h[i].tally.receipts| && Increasing(Ran(h[i]))
    ensures forall k :: 0 <= k < |Ran(h[i])| ==>
      Ran(h[i])[k] < |h[i].candidates| && ReceiptOf(h[i].tally.receipts[k], h[i].candidates[Ran(h[i])[k]])
  {
    hide BuiltOn, Include, Increasing;
    var b := h[i];
    if i > 0 {
      BuildLinks(setup, h, i);
    }
    ReceiptsFollowTransactions(b.env, Start(b.before), b.candidates, 0);
  }

  lemma ReceiptKeys(setup: Setup, h: seq<Built>, i: nat, e: Entry<Encoding, StoredReceipt>) returns (k: nat)
    requires ChainOk(setup, h) && i < |h| && e in ReceiptEntries(h[i])
    ensures k < |Ran(h[i])| && Ran(h[i])[k] < |h[i].candidates|
    ensures e.key == h[i].candidates[Ran(h[i])[k]].key && e.value.blockHash == h[i].block.hash
  {
    hide ChainOk, Ran;
    ReceiptsOfBuilt(setup, h, i);
    k :| 0 <= k < |ReceiptEntries(h[i])| && ReceiptEntries(h[i])[k] == e;
    assert ReceiptOf(h[i].tally.receipts[k], h[i].candidates[Ran(h[i])[k]]);
  }

  /** What ran in one block is not among the receipts of an earlier one. */
  lemma KeysDiffer(
    setup: Setup, h: seq<Built>, i: nat, j: nat, e: Entry<Encoding, StoredReceipt>, f: Entry<Encoding, StoredReceipt>)
    requires ChainOk(setup, h) && i < j < |h|
    requires e in ReceiptEntries(h[i]) && f in ReceiptEntries(h[j])
    ensures e.key != f.key
  {
    hide Build, Gather, Ran, IsGenesis;
    var k := ReceiptKeys(setup, h, j, f);
    assert h[..j][i] == h[i];
    GatherHas(h[..j], ReceiptEntries, i, e);
    assert BuiltOn(setup, h, j);
    assert h[j].candidates[Ran(h[j])[k]] in h[j].candidates;
  }

  /** A key has receipts from one block at most. */
  lemma KeyRunsInOneBlock(
    setup: Setup, h: seq<Built>, i: nat, j: nat, e: Entry<Encoding, StoredReceipt>, f: Entry<Encoding, StoredReceipt>)
    requires ChainOk(setup, h) && i < |h| && j < |h|
    requires e in ReceiptEntries(h[i]) && f in ReceiptEntries(h[j]) && e.key == f.key
    ensures i == j
  {
    hide ChainOk;
    if i < j {
      KeysDiffer(setup, h, i, j, e, f);
    } else if j < i {
      KeysDiffer(setup, h, j, i, f, e);
    }
  }

  /** What a receipt lookup answers is a receipt of a block that is there, with the key asked for and its number. */
  lemma ReceiptAnswers(setup: Setup, n: Node, key: Encoding, r: StoredReceipt) returns (i: nat, k: nat)
    requires Inv(setup, n) && MayFind(n.view.receipts, key, r)
    ensures i < Shown(n, 0) && k < |n.history[i].tally.receipts|
    ensures r.receipt == n.history[i].tally.receipts[k] && r.receipt.key == key
    ensures r.blockHash == n.history[i].block.hash && r.receipt.blockNumber == n.history[i].block.header.number
  {
    hide ChainOk, Extend, Gather, IncludeAll;
    var h := n.history[..Shown(n, 0)];
    FindIff(Gather(h, ReceiptEntries), key, r);
    i := GatherFrom(h, ReceiptEntries, Entry(key, r));
    k :| 0 <= k < |ReceiptEntries(h[i])| && ReceiptEntries(h[i])[k] == Entry(key, r);
    ReceiptsNumbered(setup, n.history, i);
  }

  lemma ReceiptsNumbered(setup: Setup, h: seq<Built>, i: nat)
    requires ChainOk(setup, h) && i < |h|
    ensures forall k :: 0 <= k < |h[i].tally.receipts| ==>
      h[i].tally.receipts[k].blockNumber == h[i].block.header.number
  {
    if i > 0 {
      BuildLinks(setup, h, i);
      BuiltEnv(setup, h[i].before, h[i - 1].block, h[i].attrs, h[i].block.payloadId, h[i].candidates);
      ReceiptsCarryNumber(h[i].env, Start(h[i].before), h[i].candidates);
    }
  }

  /** A lookup under `key` finds a receipt, and only receipts that name block `b`. */
  ghost predicate ReceiptNames(v: View, key: Encoding, b: Block) {
    && key in v.receipts
    && (exists r :: MayFind(v.receipts, key, r))
    && forall r :: MayFind(v.receipts, key, r) ==> r.blockHash == b.hash
  }

  /** Some transaction of the block that ran arrived as exactly these bytes. */
  ghost predicate RanAs(b: Built, key: Encoding) {
    exists k :: 0 <= k < |Ran(b)| && Ran(b)[k] < |b.candidates| && b.candidates[Ran(b)[k]].key == key
  }

  /**
   Under the bytes a transaction arrived as, its receipt is found as soon as its block is found, and
   names that block. So the hash a block lists leads to the receipt exactly when it is the hash of
   bytes that ran: for EIP-2718 bytes always, for other encodings of the transaction not.
   */
  lemma ReceiptsVisible(setup: Setup, n: Node, i: nat, key: Encoding)
    requires Inv(setup, n) && i < Shown(n, 2)
    ensures ReceiptNames(n.view, key, n.history[i].block) <==> RanAs(n.history[i], key)
  {
    hide ChainOk, Extend, Gather, Ran;
    var h, b := n.history[..Shown(n, 0)], n.history[i];
    if RanAs(b, key) {
      var k :| 0 <= k < |Ran(b)| && Ran(b)[k] < |b.candidates| && b.candidates[Ran(b)[k]].key == key;
      ReceiptsOfBuilt(setup, n.history, i);
      assert ReceiptOf(b.tally.receipts[k], b.candidates[Ran(b)[k]]);
      var e := ReceiptEntries(b)[k];
      GatherHas(h, ReceiptEntries, i, e);
      FindIff(Gather(h, ReceiptEntries), e.key, e.value);
      forall r | MayFind(n.view.receipts, key, r) ensures r.blockHash == b.block.hash {
        FindIff(Gather(h, ReceiptEntries), key, r);
        var j := GatherFrom(h, ReceiptEntries, Entry(key, r));
        KeyRunsInOneBlock(setup, n.history, i, j, e, Entry(key, r));
      }
    }
    if ReceiptNames(n.view, key, b.block) {
      var r :| MayFind(n.view.receipts, key, r);
      FindIff(Gather(h, ReceiptEntries), key, r);
      var j := GatherFrom(h, ReceiptEntries, Entry(key, r));
      var k := ReceiptKeys(setup, n.history, j, Entry(key, r));
      SamePlace(setup, n.history, i, j);
    }
  }

  ghost predicate FoundByAny(v: View, b: Block) {
    || MayFind(v.hashes, b.hash, b)
    || MayFind(v.heights, b.header.number, b)
    || MayFind(v.payloads, b.payloadId, b)
  }

  /** Whichever index led to a block, all its transactions and the receipts of those that ran are there. */
  lemma FoundIsWhole(setup: Setup, n: Node, b: Block) returns (i: nat)
    requires Inv(setup, n) && FoundByAny(n.view, b)
    ensures i < |n.history| && n.history[i].block == b
    ensures forall p :: 0 <= p < |b.transactions| ==> TransactionVisible(n.view, b, p)
    ensures forall key :: ReceiptNames(n.view, key, b) <==> RanAs(n.history[i], key)
  {
    hide Inv, TransactionVisible, ReceiptNames, RanAs;
    PublishedInOrder(setup, n);
    if MayFind(n.view.hashes, b.hash, b) {
      i := FoundByHash(setup, n, b.hash, b);
    } else if MayFind(n.view.heights, b.header.number, b) {
      i := FoundByHeight(setup, n, b.header.number, b);
    } else {
      i := FoundByPayload(setup, n, b.payloadId, b);
    }
    forall p | 0 <= p < |b.transactions| ensures TransactionVisible(n.view, b, p) {
      TransactionsVisible(setup, n, i, p);
    }
    forall key ensures ReceiptNames(n.view, key, b) <==> RanAs(n.history[i], key) {
      ReceiptsVisible(setup, n, i, key);
    }
  }

  // ----- Later reads of the same run -----

  ghost predicate Grows<K(!new), V(!new)>(a: Index<K, V>, b: Index<K, V>) {
    forall k, v :: MayFind(a, k, v) ==> MayFind(b, k, v)
  }

  ghost predicate ViewGrows(a: View, b: View) {
    && Grows(a.receipts, b.receipts) && Grows(a.transactions, b.transactions)
    && Grows(a.hashes, b.hashes) && Grows(a.heights, b.heights) && Grows(a.payloads, b.payloads)
  }

  lemma {:induction false} ExtendGrows<K(!new), V(!new)>(m: Index<K, V>, es: seq<Entry<K, V>>)
    ensures Grows(m, Extend(m, es))
  {
    if es != [] {
      ExtendGrows(m, es[..|es| - 1]);
    }
  }

  lemma GrowsItself(v: View)
    ensures ViewGrows(v, v)
  {
  }

  lemma PublishGrows(v: View, b: Built, stage: nat)
    ensures ViewGrows(v, Publish(v, b, stage))
  {
    hide Extend, Grows, ReceiptEntries, TxEntries, HashEntry, HeightEntry, PayloadEntry;
    GrowsItself(v);
    match stage
    case 0 => ExtendGrows(v.receipts, ReceiptEntries(b));
    case 1 => ExtendGrows(v.transactions, TxEntries(b));
    case 2 => ExtendGrows(v.hashes, HashEntry(b));
    case 3 => ExtendGrows(v.heights, HeightEntry(b));
    case _ => ExtendGrows(v.payloads, PayloadEntry(b));
  }

  /** What a reader may once have found it may find ever after. */
  lemma {:induction false} NothingDisappears(setup: Setup, n: Node, actions: seq<Action>)
    requires DoAll(setup, n, actions).Some?
    ensures ViewGrows(n.view, DoAll(setup, n, actions).value.view)
  {
    hide BuildNext, Publish;
    if actions != [] {
      var init, a := actions[..|actions| - 1], actions[|actions| - 1];
      NothingDisappears(setup, n, init);
      var m := DoAll(setup, n, init).value;
      if a.PublishNext? {
        PublishGrows(m.view, m.pending.built, m.pending.stage);
      }
    }
  }

  /**
   A reader that found a block once and comes back later in the run, writer anywhere, still finds all
   its transactions and the receipts of those that ran.
   */
  lemma FoundStaysWhole(setup: Setup, n: Node, actions: seq<Action>, b: Block) returns (i: nat)
    requires Inv(setup, n) && FoundByAny(n.view, b) && DoAll(setup, n, actions).Some?
    ensures var m := DoAll(setup, n, actions).value;
      && i < |m.history| && m.history[i].block == b && FoundByAny(m.view, b)
      && (forall p :: 0 <= p < |b.transactions| ==> TransactionVisible(m.view, b, p))
      && (forall key :: ReceiptNames(m.view, key, b) <==> RanAs(m.history[i], key))
  {
    hide Inv, DoAll, MayFind, TransactionVisible, ReceiptNames, RanAs;
    ReachableInv(setup, n, actions);
    NothingDisappears(setup, n, actions);
    i := FoundIsWhole(setup, DoAll(setup, n, actions).value, b);
  }

  // ----- Payload answers -----

  /**
   The encodings a reader may answer with for a list of hashes, looked up one after the other while the
   writer goes on: before each lookup the node takes the next run of steps. Unknown hashes drop out.
   */
  ghost predicate Answers(
    setup: Setup, n: Node, runs: seq<seq<Action>>, hashes: seq<Encoding>, answer: seq<Encoding>)
    requires |runs| == |hashes|
    decreases hashes
  {
    if hashes == [] then answer == []
    else if DoAll(setup, n, runs[0]).None? then false
    else
      var m := DoAll(setup, n, runs[0]).value;
      if hashes[0] !in m.view.transactions then Answers(setup, m, runs[1..], hashes[1..], answer)
      else
        && answer != [] && (exists v :: MayFind(m.view.transactions, hashes[0], v) && v.inner.encoded == answer[0])
        && Answers(setup, m, runs[1..], hashes[1..], answer[1..])
  }

  /** The block is looked up at node `n`, its transactions after that. */
  ghost predicate PayloadAnswer(
    setup: Setup, n: Node, id: nat, runs: seq<seq<Action>>, b: Block, answer: seq<Encoding>)
  {
    && MayFind(n.view.payloads, id, b)
    && |runs| == |b.transactions|
    && Answers(setup, n, runs, b.transactions, answer)
  }

  lemma PublishedInOrder(setup: Setup, n: Node)
    requires Inv(setup, n)
    ensures n.history != []
    ensures Shown(n, 4) <= Shown(n, 3) <= Shown(n, 2) <= Shown(n, 1) <= Shown(n, 0)
  {
  }

  ghost predicate Known(m: Index<Encoding, StoredTx>, k: Encoding) {
    exists v :: MayFind(m, k, v)
  }

  lemma {:induction false} AnswerIsExact(
    setup: Setup, n: Node, runs: seq<seq<Action>>, hashes: seq<Encoding>, answer: seq<Encoding>)
    requires Inv(setup, n) && |runs| == |hashes|
    requires forall i :: 0 <= i < |hashes| ==> Known(n.view.transactions, hashes[i])
    requires Answers(setup, n, runs, hashes, answer)
    ensures answer == hashes
    decreases hashes
  {
    hide Inv, DoAll, MayFind;
    if hashes != [] {
      var m := DoAll(setup, n, runs[0]).value;
      ReachableInv(setup, n, runs[0]);
      NothingDisappears(setup, n, runs[0]);
      forall i | 0 <= i < |hashes| ensures Known(m.view.transactions, hashes[i]) {
        assert Known(n.view.transactions, hashes[i]);
        var v :| MayFind(n.view.transactions, hashes[i], v);
        assert MayFind(m.view.transactions, hashes[i], v);
      }
      assert Known(m.view.transactions, hashes[0]);
      KnownIsKey(m.view.transactions, hashes[0]);
      var v :| MayFind(m.view.transactions, hashes[0], v) && v.inner.encoded == answer[0];
      RecordsMatchKeys(setup, m, hashes[0], v);
      AnswerIsExact(setup, m, runs[1..], hashes[1..], answer[1..]);
    }
  }

  lemma KnownIsKey(m: Index<Encoding, StoredTx>, k: Encoding)
    requires Known(m, k)
    ensures k in m
  {
  }

  /** A payload is answered with all its block's transactions, in order, however the writer goes on meanwhile. */
  lemma PayloadIsWhole(setup: Setup, n: Node, id: nat, runs: seq<seq<Action>>, b: Block, answer: seq<Encoding>)
    requires Inv(setup, n) && PayloadAnswer(setup, n, id, runs, b, answer)
    ensures answer == b.transactions
  {
    hide Inv, Answers, MayFind;
    var i := FoundByPayload(setup, n, id, b);
    PublishedInOrder(setup, n);
    forall p | 0 <= p < |b.transactions| ensures Known(n.view.transactions, b.transactions[p]) {
      TransactionsVisible(setup, n, i, p);
      assert TransactionVisible(n.view, b, p);
    }
    AnswerIsExact(setup, n, runs, b.transactions, answer);
  }

  /** The payload answered for an id never changes, whatever is built and included again afterwards. */
  lemma PayloadNeverChanges(
    setup: Setup, n: Node, actions: seq<Action>, id: nat,
    runs: seq<seq<Action>>, b: Block, answer: seq<Encoding>,
    runs': seq<seq<Action>>, b': Block, answer': seq<Encoding>)
    requires Inv(setup, n) && DoAll(setup, n, actions).Some?
    requires PayloadAnswer(setup, n, id, runs, b, answer)
    requires PayloadAnswer(setup, DoAll(setup, n, actions).value, id, runs', b', answer')
    ensures b' == b && answer' == answer
  {
    hide Inv, DoAll, Answers, MayFind;
    var m := DoAll(setup, n, actions).value;
    ReachableInv(setup, n, actions);
    NothingDisappears(setup, n, actions);
    PayloadThenBlock(setup, m, id, b);
    PayloadIsWhole(setup, n, id, runs, b, answer);
    PayloadIsWhole(setup, m, id, runs', b', answer');
  }

  /** Asking again for an id that has been built changes nothing. */
  lemma RepeatedIdBuildsNothing(setup: Setup, n: Node, i: nat, attrs: Attributes, drained: seq<Candidate>)
    requires Inv(setup, n) && n.pending == Idle && i < |n.history| && IsDrain(drained, n.pool)
    ensures Do(setup, n, StartBlockBuild(attrs, n.history[i].block.payloadId, drained)) == Some(n)
  {
    hide ChainOk, Extend, Gather, BuildNext, IsDrain;
    var h, e := n.history, Entry(n.history[i].block.payloadId, n.history[i].block);
    assert h[..|h|] == h;
    GatherHas(h, PayloadEntry, i, e);
    FindIff(Gather(h, PayloadEntry), e.key, e.value);
  }

  // ----- Nonces over a whole run -----

  /** The nonces of the transactions of `x` that got receipts, in chain order. */
  function ChainNonces(h: seq<Built>, x: Account): seq<nat> {
    if h == [] then []
    else
      var b := h[|h| - 1];
      ChainNonces(h[..|h| - 1], x) + NoncesRun(b.env, Start(b.before), b.candidates, x)
  }

  lemma RangeConcat(a: nat, b: nat, c: nat)
    requires a <= b <= c
    ensures Range(a, b) + Range(b, c) == Range(a, c)
  {
  }

  /** One signer's transactions carry consecutive nonces all along the chain, so none runs twice. */
  lemma {:induction false} ChainNoncesConsecutive(setup: Setup, h: seq<Built>, x: Account)
    requires ChainOk(setup, h)
    ensures var first, next := NonceOf(h[0].before.nonces, x), NonceOf(h[|h| - 1].tally.state.nonces, x);
      first <= next && ChainNonces(h, x) == Range(first, next)
    decreases |h|
  {
    hide Build, IncludeAll, Include, Range, NoncesRun, EnvFor;
    var n := |h| - 1;
    var b := h[n];
    if n > 0 {
      ChainPrefix(setup, h, n);
      ChainNoncesConsecutive(setup, h[..n], x);
      assert BuiltOn(setup, h, n);
      BuildLinks(setup, h, n);
      NoncesConsecutive(b.env, Start(b.before), b.candidates, x);
      RangeConcat(NonceOf(h[0].before.nonces, x), NonceOf(b.before.nonces, x), NonceOf(b.tally.state.nonces, x));
    } else {
      NothingRuns(b, x);
    }
  }

  lemma NothingRuns(b: Built, x: Account)
    requires IsGenesis(b)
    ensures NoncesRun(b.env, Start(b.before), b.candidates, x) == [] && b.tally.state == b.before
    ensures Range(NonceOf(b.before.nonces, x), NonceOf(b.before.nonces, x)) == []
  {
  }

  /** Deposits have no nonce: one listed twice in a payload runs twice in the block. */
  lemma RepeatedDepositRunsTwice(env: Env, s: State, c: Candidate)
    requires c.tx.call.DepositCall?
    requires c.vm.deposit.vm.None? || c.vm.deposit.vm.value.User?
    ensures var r := IncludeAll(env, Start(s), [c, c]);
      r.Ok? && |r.value.receipts| == 2 && r.value.receipts[0].key == r.value.receipts[1].key == c.key
  {
    assert [c, c][1..] == [c] && [c][1..] == [];
    var t := Include(env, Start(s), c).value;
    assert IncludeAll(env, t, [c]) == IncludeAll(env, Include(env, t, c).value, []);
  }

  /** Over the blocks of a chain: two places with the same bytes both run exactly for deposits that end. */
  lemma BlockRunsTwiceIff(setup: Setup, h: seq<Built>, i: nat, p: nat, q: nat)
    requires ChainOk(setup, h) && i < |h| && KeysTellTransactions(h[i].candidates)
    requires p < q < |h[i].candidates| && h[i].candidates[p].key == h[i].candidates[q].key
    ensures p in Ran(h[i]) && q in Ran(h[i]) <==> DepositEnds(h[i].candidates[p]) && DepositEnds(h[i].candidates[q])
  {
    hide BuiltOn, IncludeAll, RanAt;
    BuildLinks(setup, h, i);
    RunsTwiceIff(h[i].env, h[i].before, h[i].candidates, p, q);
  }

  // ----- Another encoding -----

  lemma FinishKeeps(n: Node)
    requires n.pending.Publishing? ==> n.pending.stage <= 4
    ensures Finish(n).pending == Idle && Finish(n).history == n.history
    decreases if n.pending.Publishing? then 5 - n.pending.stage else 0
  {
    hide Publish;
    if n.pending.Publishing? {
      FinishKeeps(PublishStep(n));
    }
  }

  /** After a block is started and published the chain is longer by it, and everything is shown. */
  lemma BlockPublished(setup: Setup, n: Node, attrs: Attributes, id: nat) returns (m: Node)
    requires Inv(setup, n) && n.pending == Idle && n.pool == map[] && id !in n.view.payloads
    requires BuildNext(setup, n, attrs, id, []).Ok?
    ensures Do(setup, n, StartBlockBuild(attrs, id, [])).Some?
    ensures var next := Do(setup, n, StartBlockBuild(attrs, id, [])).value;
      && (next.pending.Publishing? ==> next.pending.stage <= 4) && m == Finish(next)
    ensures Inv(setup, m) && m.pending == Idle
    ensures m.history == n.history + [BuildNext(setup, n, attrs, id, []).value]
  {
    hide Inv, BuildNext, Finish;
    var a := StartBlockBuild(attrs, id, []);
    var next := Do(setup, n, a).value;
    StartInv(setup, n, a);
    FinishIsRun(setup, next);
    ReachableInv(setup, next, Publishes(5));
    FinishKeeps(next);
    m := Finish(next);
  }

  lemma OneCandidate(receipts: Index<Encoding, StoredReceipt>, c: Candidate)
    requires c.key !in receipts
    ensures Fresh(receipts, Decoded([Some(c)]) + []) == [c]
  {
    assert [Some(c)][..0] == [] && Decoded([Some(c)]) == [] + [c];
    assert Decoded([Some(c)]) + [] == [c] && [c][..0] == [];
  }

  /**
   A deposit that arrives in another encoding than its EIP-2718 one: the hash that its block lists
   leads to no receipt of the block, the hash of the bytes that arrived does.
   */
  lemma OtherEncodingMisses(setup: Setup, n: Node, attrs: Attributes, id: nat, c: Candidate) returns (m: Node)
    requires Inv(setup, n) && n.pending == Idle && n.pool == map[] && id !in n.view.payloads
    requires attrs.transactions == [Some(c)] && DepositEnds(c) && c.key !in n.view.receipts
    requires c.key != c.tx.encoded
    requires BuildNext(setup, n, attrs, id, []).Ok?
    ensures Inv(setup, m) && m.pending == Idle
    ensures var b := BuildNext(setup, n, attrs, id, []).value.block;
      && b.transactions == [c.tx.encoded] && MayFind(m.view.payloads, id, b)
      && ReceiptNames(m.view, c.key, b) && !ReceiptNames(m.view, c.tx.encoded, b)
  {
    hide Inv, Do, Finish, ReceiptNames, Include, MayFind;
    m := BlockPublished(setup, n, attrs, id);
    var i, b := |n.history|, BuildNext(setup, n, attrs, id, []).value;
    OneCandidate(n.view.receipts, c);
    LoneDeposit(setup, n, attrs, id, c);
    AllShown(setup, m, i);
    ReceiptsVisible(setup, m, i, c.key);
    ReceiptsVisible(setup, m, i, c.tx.encoded);
  }

  lemma LoneDeposit(setup: Setup, n: Node, attrs: Attributes, id: nat, c: Candidate)
    requires attrs.transactions == [Some(c)] && DepositEnds(c) && c.key !in n.view.receipts
    requires c.key != c.tx.encoded && BuildNext(setup, n, attrs, id, []).Ok?
    ensures var b := BuildNext(setup, n, attrs, id, []).value;
      && b.block.transactions == [c.tx.encoded] && b.block.payloadId == id
      && RanAs(b, c.key) && !RanAs(b, c.tx.encoded)
  {
    hide Include, RanAt, Fresh, Decoded, Latest;
    var b := BuildNext(setup, n, attrs, id, []).value;
    OneCandidate(n.view.receipts, c);
    assert b.candidates == [c];
    assert b.block.transactions == [c.tx.encoded];
    DepositRunsAt(b.env, Start(b.before), [c], 0, 0);
    assert 0 in Ran(b);
    var k :| 0 <= k < |Ran(b)| && Ran(b)[k] == 0;
    assert b.candidates[Ran(b)[k]].key == c.key;
  }

  lemma AllShown(setup: Setup, m: Node, i: nat)
    requires Inv(setup, m) && m.pending == Idle && i < |m.history|
    ensures i < Shown(m, 2) && MayFind(m.view.payloads, m.history[i].block.payloadId, m.history[i].block)
  {
    hide ChainOk, Extend, Gather;
    var h, e := m.history, Entry(m.history[i].block.payloadId, m.history[i].block);
    assert h[..|h|] == h;
    GatherHas(h, PayloadEntry, i, e);
    FindIff(Gather(h, PayloadEntry), e.key, e.value);
  }
}
