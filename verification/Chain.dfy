/**
 The node as a step system. One writer runs commands one at a time; the block that a command built
 is made visible one index after the other, and readers may look at any moment in between.
 */
module Chain {
  import opened Wrappers
  import opened Canonical
  import opened BlockBuild

  // ----- Indices -----

  datatype Entry<K, V> = Entry(key: K, value: V)

  /** An index keeps everything ever inserted under a key, and a lookup returns any one of it. */
  type Index<K, V> = map<K, seq<V>>

  ghost predicate MayFind<K, V>(m: Index<K, V>, k: K, v: V) {
    k in m && v in m[k]
  }

  function Insert<K, V>(m: Index<K, V>, e: Entry<K, V>): Index<K, V> {
    m[e.key := (if e.key in m then m[e.key] else []) + [e.value]]
  }

  function Extend<K, V>(m: Index<K, V>, es: seq<Entry<K, V>>): Index<K, V> {
    if es == [] then m else Insert(Extend(m, es[..|es| - 1]), es[|es| - 1])
  }

  lemma {:induction false} ExtendConcat<K, V>(m: Index<K, V>, a: seq<Entry<K, V>>, b: seq<Entry<K, V>>)
    ensures Extend(Extend(m, a), b) == Extend(m, a + b)
  {
    if b == [] {
      assert a + b == a;
    } else {
      var init := b[..|b| - 1];
      ExtendConcat(m, a, init);
      assert (a + b)[..|a + b| - 1] == a + init;
    }
  }

  lemma {:induction false} FindIff<K, V>(es: seq<Entry<K, V>>, k: K, v: V)
    ensures MayFind(Extend(map[], es), k, v) <==> Entry(k, v) in es
  {
    if es != [] {
      var init, last := es[..|es| - 1], es[|es| - 1];
      FindIff(init, k, v);
      assert es == init + [last];
    }
  }

  lemma {:induction false} KeyHasValue<K, V>(es: seq<Entry<K, V>>, k: K)
    ensures k in Extend(map[], es) ==> exists v :: Entry(k, v) in es
  {
    if es != [] {
      var init, last := es[..|es| - 1], es[|es| - 1];
      KeyHasValue(init, k);
      assert es == init + [last];
      if k in Extend(map[], es) {
        if k == last.key {
          assert Entry(k, last.value) in es;
        } else {
          var v :| Entry(k, v) in init;
          assert Entry(k, v) in es;
        }
      }
    }
  }

  /** The entries that a list of blocks puts into one index, in order. */
  function Gather<K, V>(h: seq<Built>, part: Built -> seq<Entry<K, V>>): seq<Entry<K, V>> {
    if h == [] then [] else Gather(h[..|h| - 1], part) + part(h[|h| - 1])
  }

  lemma {:induction false} GatherHas<K, V>(h: seq<Built>, part: Built -> seq<Entry<K, V>>, i: nat, e: Entry<K, V>)
    requires i < |h| && e in part(h[i])
    ensures e in Gather(h, part)
    decreases |h|
  {
    if i < |h| - 1 {
      GatherHas(h[..|h| - 1], part, i, e);
    }
  }

  lemma {:induction false} GatherFrom<K, V>(h: seq<Built>, part: Built -> seq<Entry<K, V>>, e: Entry<K, V>)
      returns (i: nat)
    requires e in Gather(h, part)
    ensures i < |h| && e in part(h[i])
  {
    if e in part(h[|h| - 1]) {
      i := |h| - 1;
    } else {
      i := GatherFrom(h[..|h| - 1], part, e);
    }
  }

  // ----- What a block puts into each index -----

  datatype StoredReceipt = StoredReceipt(receipt: Receipt, blockHash: BlockHash)

  datatype StoredTx = StoredTx(inner: Tx, blockHash: BlockHash, blockNumber: nat, txIndex: nat)

  function ReceiptEntries(b: Built): (r: seq<Entry<Encoding, StoredReceipt>>)
    ensures |r| == |b.tally.receipts|
  {
    seq(|b.tally.receipts|, i requires 0 <= i < |b.tally.receipts| =>
      Entry(b.tally.receipts[i].key, StoredReceipt(b.tally.receipts[i], b.block.hash)))
  }

  function TxEntries(b: Built): (r: seq<Entry<Encoding, StoredTx>>)
    ensures |r| == |b.candidates|
  {
    seq(|b.candidates|, i requires 0 <= i < |b.candidates| =>
      Entry(b.candidates[i].tx.encoded,
        StoredTx(b.candidates[i].tx, b.block.hash, b.block.header.number, i)))
  }

  function HashEntry(b: Built): seq<Entry<BlockHash, Block>> {
    [Entry(b.block.hash, b.block)]
  }

  function HeightEntry(b: Built): seq<Entry<nat, Block>> {
    [Entry(b.block.header.number, b.block)]
  }

  function PayloadEntry(b: Built): seq<Entry<nat, Block>> {
    [Entry(b.block.payloadId, b.block)]
  }

  /** What readers can see. */
  datatype View = View(
    receipts: Index<Encoding, StoredReceipt>, transactions: Index<Encoding, StoredTx>,
    hashes: Index<BlockHash, Block>, heights: Index<nat, Block>, payloads: Index<nat, Block>)

  // ----- Steps -----

  datatype Pending = Idle | Publishing(built: Built, stage: nat)

  datatype Node = Node(view: View, pending: Pending, state: State, pool: map<Encoding, Candidate>, history: seq<Built>)

  /** `drained` is the order in which the memory pool happened to give up its transactions. */
  datatype Action =
    | StartBlockBuild(attrs: Attributes, id: nat, drained: seq<Candidate>)
    | AddTransaction(tx: Tx, l1Cost: nat, l1Info: Option<nat>, vm: Vm)
    | PublishNext

  predicate IsDrain(drained: seq<Candidate>, pool: map<Encoding, Candidate>) {
    && |drained| == |pool|
    && (forall i :: 0 <= i < |drained| ==> drained[i].key in pool && pool[drained[i].key] == drained[i])
    && (forall i, j :: 0 <= i < j < |drained| ==> drained[i].key != drained[j].key)
  }

  /** Candidates that have no receipt from an earlier block. */
  function Fresh(receipts: Index<Encoding, StoredReceipt>, cs: seq<Candidate>): (r: seq<Candidate>)
    ensures forall c :: c in r <==> c in cs && c.key !in receipts
  {
    if cs == [] then []
    else
      var rest := Fresh(receipts, cs[..|cs| - 1]);
      if cs[|cs| - 1].key in receipts then rest else rest + [cs[|cs| - 1]]
  }

  /** The height is the number of heights, less one. */
  function Latest(heights: Index<nat, Block>): Option<Block> {
    if |heights| == 0 || |heights| - 1 !in heights || heights[|heights| - 1] == [] then None
    else Some(heights[|heights| - 1][0])
  }

  /** Receipts, transactions, hashes, heights and payload ids are refreshed one by one, in this order. */
  function Publish(v: View, b: Built, stage: nat): View {
    if stage == 0 then v.(receipts := Extend(v.receipts, ReceiptEntries(b)))
    else if stage == 1 then v.(transactions := Extend(v.transactions, TxEntries(b)))
    else if stage == 2 then v.(hashes := Extend(v.hashes, HashEntry(b)))
    else if stage == 3 then v.(heights := Extend(v.heights, HeightEntry(b)))
    else v.(payloads := Extend(v.payloads, PayloadEntry(b)))
  }

  /** The block in hand reaches the next index, and is let go after the last one. */
  function PublishStep(n: Node): Node
    requires n.pending.Publishing?
  {
    var b, stage := n.pending.built, n.pending.stage;
    n.(view := Publish(n.view, b, stage), pending := if stage < 4 then Publishing(b, stage + 1) else Idle)
  }

  function BuildNext(setup: Setup, n: Node, attrs: Attributes, id: nat, drained: seq<Candidate>): Result<Built, Panic> {
    match Latest(n.view.heights)
    case None => Err(NoParent)
    case Some(parent) =>
      Build(setup, n.state, parent, attrs, id, Fresh(n.view.receipts, Decoded(attrs.transactions) + drained))
  }

  /** A step that cannot happen, or that panics, leads nowhere. */
  function Do(setup: Setup, n: Node, a: Action): Option<Node> {
    match a
    case StartBlockBuild(attrs, id, drained) =>
      if n.pending != Idle || !IsDrain(drained, n.pool) then None
      else if id in n.view.payloads then Some(n)
      else
        (match BuildNext(setup, n, attrs, id, drained)
         case Err(_) => None
         case Ok(b) => Some(Node(n.view, Publishing(b, 0), b.tally.state, map[], n.history + [b])))
    case AddTransaction(tx, l1Cost, l1Info, vm) =>
      if n.pending != Idle then None
      else Some(n.(pool := n.pool[tx.encoded := Candidate(tx.encoded, tx, l1Cost, l1Info, vm)]))
    case PublishNext =>
      if n.pending == Idle then None else Some(PublishStep(n))
  }

  function DoAll(setup: Setup, n: Node, actions: seq<Action>): Option<Node> {
    if actions == [] then Some(n)
    else
      match DoAll(setup, n, actions[..|actions| - 1])
      case None => None
      case Some(m) => Do(setup, m, actions[|actions| - 1])
  }

  /** The genesis block is added to empty indices. */
  function Initial(genesis: Block, s: State, env: Env, attrs: Attributes): Node {
    var b := Built(genesis, attrs, [], env, s, Start(s));
    Node(View(map[], map[], map[], map[], map[]), Publishing(b, 2), s, map[], [b])
  }

  ghost predicate IsGenesis(b: Built) {
    && b.block.header.number == 0 && b.block.hash.Given? && b.block.transactions == []
    && b.candidates == [] && b.tally == Start(b.before)
  }

  // ----- The invariant -----

  /** How many blocks of the history an index shows. */
  function Shown(n: Node, index: nat): nat
    requires n.history != []
  {
    if n.pending.Publishing? && n.pending.stage <= index then |n.history| - 1 else |n.history|
  }

  /** Every index shows exactly the blocks that have been published to it. */
  ghost predicate ViewShows(n: Node) {
    && n.history != []
    && n.view.receipts == Extend(map[], Gather(n.history[..Shown(n, 0)], ReceiptEntries))
    && n.view.transactions == Extend(map[], Gather(n.history[..Shown(n, 1)], TxEntries))
    && n.view.hashes == Extend(map[], Gather(n.history[..Shown(n, 2)], HashEntry))
    && n.view.heights == Extend(map[], Gather(n.history[..Shown(n, 3)], HeightEntry))
    && n.view.payloads == Extend(map[], Gather(n.history[..Shown(n, 4)], PayloadEntry))
    && (n.pending.Publishing? ==> n.pending.built == n.history[|n.history| - 1] && n.pending.stage <= 4)
  }

  /** Block `i` was built on block `i - 1`, from candidates without a receipt, under an unused id. */
  ghost predicate BuiltOn(setup: Setup, h: seq<Built>, i: nat)
    requires 0 < i < |h|
  {
    && h[i].before == h[i - 1].tally.state
    && Build(setup, h[i].before, h[i - 1].block, h[i].attrs, h[i].block.payloadId, h[i].candidates) == Ok(h[i])
    && (forall c, e :: c in h[i].candidates && e in Gather(h[..i], ReceiptEntries) ==> c.key != e.key)
    && (forall j :: 0 <= j < i ==> h[j].block.payloadId != h[i].block.payloadId)
  }

  ghost predicate ChainOk(setup: Setup, h: seq<Built>) {
    && h != [] && IsGenesis(h[0])
    && forall i :: 0 < i < |h| ==> BuiltOn(setup, h, i)
  }

  ghost predicate Inv(setup: Setup, n: Node) {
    && ChainOk(setup, n.history)
    && ViewShows(n)
    && n.state == n.history[|n.history| - 1].tally.state
  }

  lemma BuildLinks(setup: Setup, h: seq<Built>, i: nat)
    requires 0 < i < |h| && BuiltOn(setup, h, i)
    ensures h[i].block.header.number == h[i - 1].block.header.number + 1
    ensures h[i].block.header.parentHash == h[i - 1].block.hash
    ensures h[i].block.hash == HashOf(h[i].block.header)
    ensures h[i].block.transactions == HashesOf(h[i].candidates)
    ensures h[i].block.header.stateRoot == h[i].tally.state.root
    ensures h[i].env == EnvFor(setup, h[i - 1].block, h[i].candidates).value
    ensures IncludeAll(h[i].env, Start(h[i].before), h[i].candidates) == Ok(h[i].tally)
  {
    hide IncludeAll, EnvFor;
  }

  lemma ChainPrefix(setup: Setup, h: seq<Built>, k: nat)
    requires ChainOk(setup, h) && 0 < k <= |h|
    ensures ChainOk(setup, h[..k])
  {
    hide Build, IsGenesis;
    forall i | 0 < i < k ensures BuiltOn(setup, h[..k], i) {
      assert BuiltOn(setup, h, i);
      assert h[..k][..i] == h[..i];
    }
  }

  /** Block numbers count up from the genesis block's zero. */
  lemma NumberIsPlace(setup: Setup, h: seq<Built>, i: nat)
    requires ChainOk(setup, h) && i < |h|
    ensures h[i].block.header.number == i
  {
    hide BuiltOn;
    if i > 0 {
      NumberIsPlace(setup, h, i - 1);
      BuildLinks(setup, h, i);
    }
  }

  /** No two blocks of a chain share a hash. */
  lemma HashesDiffer(setup: Setup, h: seq<Built>, i: nat, j: nat)
    requires ChainOk(setup, h) && i < j < |h|
    ensures h[i].block.hash != h[j].block.hash
  {
    hide BuiltOn;
    NumberIsPlace(setup, h, i);
    NumberIsPlace(setup, h, j);
    BuildLinks(setup, h, j);
    if i > 0 {
      BuildLinks(setup, h, i);
    }
  }

  lemma {:induction false} SingleEntries<K>(
    h: seq<Built>, part: Built -> seq<Entry<K, Block>>, keyOf: Built -> K, i: nat)
    requires i < |h|
    requires forall j :: 0 <= j < |h| ==> part(h[j]) == [Entry(keyOf(h[j]), h[j].block)]
    requires forall j :: 0 <= j < |h| && j != i ==> keyOf(h[j]) != keyOf(h[i])
    ensures var m := Extend(map[], Gather(h, part)); keyOf(h[i]) in m && m[keyOf(h[i])] == [h[i].block]
    decreases |h|
  {
    var init, last := h[..|h| - 1], h[|h| - 1];
    var es := Gather(h, part);
    assert es[|es| - 1] == part(last)[0] && es[..|es| - 1] == Gather(init, part);
    if i < |init| {
      SingleEntries(init, part, keyOf, i);
    } else {
      KeyAbsent(init, part, keyOf, keyOf(last));
    }
  }

  lemma {:induction false} KeyAbsent<K>(h: seq<Built>, part: Built -> seq<Entry<K, Block>>, keyOf: Built -> K, k: K)
    requires forall j :: 0 <= j < |h| ==> part(h[j]) == [Entry(keyOf(h[j]), h[j].block)] && keyOf(h[j]) != k
    ensures k !in Extend(map[], Gather(h, part))
    decreases |h|
  {
    if h != [] {
      var init := h[..|h| - 1];
      var es := Gather(h, part);
      assert es[|es| - 1] == part(h[|h| - 1])[0] && es[..|es| - 1] == Gather(init, part);
      KeyAbsent(init, part, keyOf, k);
    }
  }

  function Numbers(n: nat): (r: set<nat>)
    ensures |r| == n && forall i: nat :: i in r <==> i < n
  {
    if n == 0 then {} else Numbers(n - 1) + {n - 1}
  }

  function NumberOf(b: Built): nat {
    b.block.header.number
  }

  /** The height index holds exactly the heights from zero up. */
  lemma {:induction false} HeightsAreDense(setup: Setup, h: seq<Built>)
    requires ChainOk(setup, h)
    ensures Extend(map[], Gather(h, HeightEntry)).Keys == Numbers(|h|)
    decreases |h|
  {
    hide BuiltOn, IsGenesis, ChainOk;
    var n := |h| - 1;
    assert h != [] by { NotEmpty(setup, h); }
    var es := Gather(h, HeightEntry);
    NumberIsPlace(setup, h, n);
    assert es[|es| - 1] == HeightEntry(h[n])[0] && es[..|es| - 1] == Gather(h[..n], HeightEntry);
    if n > 0 {
      ChainPrefix(setup, h, n);
      HeightsAreDense(setup, h[..n]);
    } else {
      assert Gather(h[..n], HeightEntry) == [];
    }
  }

  lemma NotEmpty(setup: Setup, h: seq<Built>)
    requires ChainOk(setup, h)
    ensures h != []
  {
  }

  /** Each height holds one block, the one that was built as many blocks after the genesis block. */
  lemma HeightHolds(setup: Setup, h: seq<Built>, i: nat)
    requires ChainOk(setup, h) && i < |h|
    ensures var m := Extend(map[], Gather(h, HeightEntry)); i in m && m[i] == [h[i].block]
  {
    hide ChainOk, Extend, Gather;
    forall j | 0 <= j < |h| ensures NumberOf(h[j]) == j {
      NumberIsPlace(setup, h, j);
    }
    SingleEntries(h, HeightEntry, NumberOf, i);
  }

  lemma LatestIsLast(setup: Setup, h: seq<Built>)
    requires ChainOk(setup, h)
    ensures Latest(Extend(map[], Gather(h, HeightEntry))) == Some(h[|h| - 1].block)
  {
    hide ChainOk, Extend, Gather;
    NotEmpty(setup, h);
    HeightsAreDense(setup, h);
    HeightHolds(setup, h, |h| - 1);
    var m := Extend(map[], Gather(h, HeightEntry));
    assert |m| == |m.Keys|;
  }

  // ----- Every reachable state satisfies the invariant -----

  lemma InitialInv(setup: Setup, genesis: Block, s: State, env: Env, attrs: Attributes)
    requires genesis.header.number == 0 && genesis.hash.Given? && genesis.transactions == []
    ensures Inv(setup, Initial(genesis, s, env, attrs))
  {
    var n := Initial(genesis, s, env, attrs);
    var h := n.history;
    assert h[..1] == h && h[..0] == [];
    assert ReceiptEntries(h[0]) == [] && TxEntries(h[0]) == [];
  }

  lemma AddInv(setup: Setup, n: Node, a: Action)
    requires Inv(setup, n) && a.AddTransaction? && Do(setup, n, a).Some?
    ensures Inv(setup, Do(setup, n, a).value)
  {
    hide BuiltOn;
  }

  lemma {:induction false} ShowOneMore<K, V>(h: seq<Built>, part: Built -> seq<Entry<K, V>>)
    requires h != []
    ensures Extend(Extend(map[], Gather(h[..|h| - 1], part)), part(h[|h| - 1])) == Extend(map[], Gather(h, part))
  {
    ExtendConcat(map[], Gather(h[..|h| - 1], part), part(h[|h| - 1]));
  }

  lemma PublishInv(setup: Setup, n: Node)
    requires Inv(setup, n) && Do(setup, n, PublishNext).Some?
    ensures Inv(setup, Do(setup, n, PublishNext).value)
  {
    hide ChainOk, Extend, Gather, ReceiptEntries, TxEntries, HashEntry, HeightEntry, PayloadEntry;
    var h := n.history;
    assert h[..|h|] == h;
    match n.pending.stage
    case 0 => ShowOneMore(h, ReceiptEntries);
    case 1 => ShowOneMore(h, TxEntries);
    case 2 => ShowOneMore(h, HashEntry);
    case 3 => ShowOneMore(h, HeightEntry);
    case _ => ShowOneMore(h, PayloadEntry);
  }

  lemma StartInv(setup: Setup, n: Node, a: Action)
    requires Inv(setup, n) && a.StartBlockBuild? && Do(setup, n, a).Some?
    ensures Inv(setup, Do(setup, n, a).value)
  {
    hide Build, BuiltOn, Extend, Gather, IsGenesis;
    var h := n.history;
    assert h[..|h|] == h;
    if a.id !in n.view.payloads {
      var cs := Fresh(n.view.receipts, Decoded(a.attrs.transactions) + a.drained);
      LatestIsLast(setup, h);
      var b := Build(setup, n.state, h[|h| - 1].block, a.attrs, a.id, cs).value;
      var h' := h + [b];
      assert h'[..|h|] == h;
      NewBlock(setup, n, a.attrs, a.id, cs);
      forall i | 0 < i < |h| ensures BuiltOn(setup, h', i) {
        assert BuiltOn(setup, h, i);
        SamePrefix(setup, h, b, i);
      }
    }
  }

  lemma SamePrefix(setup: Setup, h: seq<Built>, b: Built, i: nat)
    requires 0 < i < |h| && BuiltOn(setup, h, i)
    ensures BuiltOn(setup, h + [b], i)
  {
    hide Build;
    assert (h + [b])[..i] == h[..i];
  }

  lemma BuildKeeps(setup: Setup, s: State, parent: Block, attrs: Attributes, id: nat, cs: seq<Candidate>)
    requires Build(setup, s, parent, attrs, id, cs).Ok?
    ensures var b := Build(setup, s, parent, attrs, id, cs).value;
      b.before == s && b.attrs == attrs && b.candidates == cs && b.block.payloadId == id
  {
    hide IncludeAll, EnvFor;
  }

  lemma NewBlock(setup: Setup, n: Node, attrs: Attributes, id: nat, cs: seq<Candidate>)
    requires Inv(setup, n) && n.pending == Idle && id !in n.view.payloads
    requires forall c :: c in cs ==> c.key !in n.view.receipts
    requires Build(setup, n.state, n.history[|n.history| - 1].block, attrs, id, cs).Ok?
    ensures var b := Build(setup, n.state, n.history[|n.history| - 1].block, attrs, id, cs).value;
      BuiltOn(setup, n.history + [b], |n.history|)
  {
    hide Build, ChainOk;
    var h := n.history;
    assert h[..|h|] == h;
    var b := Build(setup, n.state, h[|h| - 1].block, attrs, id, cs).value;
    BuildKeeps(setup, n.state, h[|h| - 1].block, attrs, id, cs);
    assert (h + [b])[..|h|] == h;
    forall c, e | c in cs && e in Gather(h, ReceiptEntries) ensures c.key != e.key {
      FindIff(Gather(h, ReceiptEntries), e.key, e.value);
      assert Entry(e.key, e.value) == e;
    }
    forall j | 0 <= j < |h| ensures h[j].block.payloadId != id {
      var e := Entry(h[j].block.payloadId, h[j].block);
      GatherHas(h, PayloadEntry, j, e);
      FindIff(Gather(h, PayloadEntry), e.key, e.value);
    }
  }

  /** Whatever commands arrive and wherever a reader interrupts, the indices show prefixes of one chain. */
  lemma {:induction false} ReachableInv(setup: Setup, n: Node, actions: seq<Action>)
    requires Inv(setup, n) && DoAll(setup, n, actions).Some?
    ensures Inv(setup, DoAll(setup, n, actions).value)
  {
    hide Do, Inv;
    if actions != [] {
      var init, a := actions[..|actions| - 1], actions[|actions| - 1];
      ReachableInv(setup, n, init);
      var m := DoAll(setup, n, init).value;
      match a
      case StartBlockBuild(_, _, _) => StartInv(setup, m, a);
      case AddTransaction(_, _, _, _) => AddInv(setup, m, a);
      case PublishNext => PublishInv(setup, m);
    }
  }

  /** The state of a node that has run some commands since its genesis block, or is in the middle of one. */
  lemma EveryRunInv(
    setup: Setup, genesis: Block, s: State, env: Env, attrs: Attributes, actions: seq<Action>)
    requires genesis.header.number == 0 && genesis.hash.Given? && genesis.transactions == []
    requires DoAll(setup, Initial(genesis, s, env, attrs), actions).Some?
    ensures Inv(setup, DoAll(setup, Initial(genesis, s, env, attrs), actions).value)
  {
    hide Inv, DoAll, Initial;
    InitialInv(setup, genesis, s, env, attrs);
    ReachableInv(setup, Initial(genesis, s, env, attrs), actions);
  }

  // ----- Commands run to their end -----

  /** The state once the block in hand has been published to every index. */
  function Finish(n: Node): Node
    requires n.pending.Publishing? ==> n.pending.stage <= 4
    decreases if n.pending.Publishing? then 5 - n.pending.stage else 0
  {
    if n.pending == Idle then n else Finish(PublishStep(n))
  }

  function Publishes(k: nat): (r: seq<Action>)
    ensures |r| == k
  {
    if k == 0 then [] else Publishes(k - 1) + [PublishNext]
  }

  lemma DoPublish(setup: Setup, n: Node)
    requires n.pending.Publishing?
    ensures Do(setup, n, PublishNext) == Some(PublishStep(n))
  {
  }

  lemma {:induction false} PublishingFirst(setup: Setup, n: Node, k: nat)
    requires n.pending.Publishing?
    ensures DoAll(setup, n, Publishes(k + 1)) == DoAll(setup, PublishStep(n), Publishes(k))
  {
    hide Do, PublishStep;
    if k > 0 {
      PublishingFirst(setup, n, k - 1);
      assert Publishes(k + 1)[..k] == Publishes(k);
      assert Publishes(k)[..k - 1] == Publishes(k - 1);
    } else {
      DoPublish(setup, n);
      assert Publishes(1) == [PublishNext] && Publishes(1)[..0] == [];
    }
  }

  /** Finishing is what the publish steps that are left come to. */
  lemma {:induction false} FinishIsRun(setup: Setup, n: Node)
    requires n.pending.Publishing? ==> n.pending.stage <= 4
    ensures var k := if n.pending.Publishing? then 5 - n.pending.stage else 0;
      DoAll(setup, n, Publishes(k)) == Some(Finish(n))
    decreases if n.pending.Publishing? then 5 - n.pending.stage else 0
  {
    hide Do, Publish, DoAll;
    if n.pending.Publishing? {
      PublishingFirst(setup, n, 4 - n.pending.stage);
      FinishIsRun(setup, PublishStep(n));
    } else {
      NothingToDo(setup, n);
    }
  }

  lemma NothingToDo(setup: Setup, n: Node)
    ensures DoAll(setup, n, Publishes(0)) == Some(n)
  {
  }
}
