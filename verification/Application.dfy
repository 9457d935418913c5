/** The application object: commands change its repositories in place. */
module Application {
  import opened Wrappers
  import opened Arith
  import opened Canonical
  import opened BlockBuild
  import opened Chain
  import opened Listing

  class App {
    const setup: Setup
    var state: State
    var memPool: map<Encoding, Candidate>
    var receipts: Index<Encoding, StoredReceipt>
    var transactions: Index<Encoding, StoredTx>
    var hashes: Index<BlockHash, Block>
    var heights: Index<nat, Block>
    var payloads: Index<nat, Block>
    ghost var history: seq<Built>

    ghost predicate Valid()
      reads this
    {
      forall k :: k in memPool ==> memPool[k].key == k
    }

    /** Between commands the object is a node of the step system that publishes nothing. */
    ghost function Snapshot(): Node
      reads this
    {
      Node(View(receipts, transactions, hashes, heights, payloads), Idle, state, memPool, history)
    }

    constructor (setup: Setup, s: State)
      ensures Valid() && this.setup == setup
      ensures Snapshot() == Node(View(map[], map[], map[], map[], map[]), Idle, s, map[], [])
    {
      this.setup, state, memPool, history := setup, s, map[], [];
      receipts, transactions, hashes, heights, payloads := map[], map[], map[], map[], map[];
    }

    method AddTransaction(tx: Tx, l1Cost: nat, l1Info: Option<nat>, vm: Vm)
      requires Valid()
      modifies this`memPool
      ensures Valid()
      ensures Do(setup, old(Snapshot()), Action.AddTransaction(tx, l1Cost, l1Info, vm)) == Some(Snapshot())
      ensures memPool.Keys == old(memPool.Keys) + {tx.encoded}
      ensures forall k :: k in old(memPool) && k != tx.encoded ==> memPool[k] == old(memPool)[k]
      ensures var c := memPool[tx.encoded];
        c.key == tx.encoded && c.tx == tx && c.l1Cost == l1Cost && c.l1Info == l1Info && c.vm == vm
    {
      memPool := memPool[tx.encoded := Candidate(tx.encoded, tx, l1Cost, l1Info, vm)];
    }

    /** Empties the pool, in whatever order its hash table yields. */
    method DrainPool() returns (drained: seq<Candidate>)
      requires Valid()
      modifies this`memPool
      ensures memPool == map[] && IsDrain(drained, old(memPool))
    {
      drained := [];
      while memPool != map[]
        invariant Valid()
        invariant forall k :: k in memPool ==> k in old(memPool) && memPool[k] == old(memPool)[k]
        invariant |drained| + |memPool| == |old(memPool)|
        invariant forall i :: 0 <= i < |drained| ==>
          drained[i].key in old(memPool) && drained[i].key !in memPool && old(memPool)[drained[i].key] == drained[i]
        invariant forall i, j :: 0 <= i < j < |drained| ==> drained[i].key != drained[j].key
        decreases |memPool|
      {
        var k :| k in memPool;
        drained := drained + [memPool[k]];
        memPool := memPool - {k};
      }
    }

    /** Adds a block to the three block indices. */
    method AddBlock(block: Block)
      modifies this`hashes, this`heights, this`payloads
      ensures hashes == Extend(old(hashes), [Entry(block.hash, block)])
      ensures heights == Extend(old(heights), [Entry(block.header.number, block)])
      ensures payloads == Extend(old(payloads), [Entry(block.payloadId, block)])
    {
      ExtendOne(hashes, Entry(block.hash, block));
      ExtendOne(heights, Entry(block.header.number, block));
      ExtendOne(payloads, Entry(block.payloadId, block));
      hashes := Insert(hashes, Entry(block.hash, block));
      heights := Insert(heights, Entry(block.header.number, block));
      payloads := Insert(payloads, Entry(block.payloadId, block));
    }

    /** The genesis block reaches the block indices with nothing executed before it. */
    method GenesisUpdate(genesis: Block, ghost env: Env, ghost attrs: Attributes)
      requires Valid() && Snapshot() == Node(View(map[], map[], map[], map[], map[]), Idle, state, map[], [])
      modifies this
      ensures Valid()
      ensures Snapshot() == Finish(Initial(genesis, old(state), env, attrs))
    {
      AddBlock(genesis);
      ghost var b := Built(genesis, attrs, [], env, state, Start(state));
      history := [b];
      FinishFromBlocks(Initial(genesis, state, env, attrs));
    }

    /** Takes over the state after a new block, and adds the block to every index. */
    method Install(built: Built)
      requires Valid()
      modifies this
      ensures Valid()
      ensures Snapshot() == Finish(Node(old(Snapshot()).view, Publishing(built, 0), built.tally.state,
        old(memPool), old(history) + [built]))
      ensures payloads == Insert(old(payloads), Entry(built.block.payloadId, built.block))
      ensures memPool == old(memPool)
    {
      hide Extend, Finish, ReceiptEntries, TxEntries;
      ghost var before := Snapshot();
      state := built.tally.state;
      history := history + [built];
      receipts := Extend(receipts, ReceiptEntries(built));
      transactions := Extend(transactions, TxEntries(built));
      AddBlock(built.block);
      ExtendOne(old(payloads), Entry(built.block.payloadId, built.block));
      FinishFromStart(Node(before.view, Publishing(built, 0), state, memPool, history));
    }

    /**
     Builds a block, or does nothing when the payload id is known. The new state is the one the step
     system reaches for the order in which the pool was drained; a panic is a step it cannot take. The one
     block then found under the id lists the transactions of payload and pool that have no receipt yet.
     */
    method StartBlockBuild(attrs: Attributes, id: nat)
        returns (r: Result<(), Panic>, ghost drained: seq<Candidate>, ghost origins: seq<Origin>)
      requires Valid()
      modifies this
      ensures id in old(payloads) ==> r.Ok? && Snapshot() == old(Snapshot())
      ensures id !in old(payloads) ==>
        var next := Do(setup, old(Snapshot()), Action.StartBlockBuild(attrs, id, drained));
        && IsDrain(drained, old(memPool))
        && (r.Ok? <==> next.Some?)
        && (r.Ok? ==>
              && next.value.pending.Publishing? && next.value.pending.stage == 0
              && Snapshot() == Finish(next.value))
      ensures id !in old(payloads) && r.Ok? ==>
        && id in payloads && |payloads[id]| == 1
        && Lists(payloads[id][0].transactions, origins, attrs.transactions, old(memPool), old(receipts))
        && memPool == map[]
      ensures r.Ok? ==> Valid()
    {
      drained, origins := [], [];
      if id in payloads {
        return Ok(()), drained, origins;
      }
      hide Build, Extend, IsDrain, Fresh, Decoded, Finish, ReceiptEntries, TxEntries, Lists;
      ghost var before := Snapshot();
      var pool := DrainPool();
      drained := pool;
      var latest := Latest(heights);
      if latest.None? {
        return Err(NoParent), drained, origins;
      }
      var candidates := Fresh(receipts, Decoded(attrs.transactions) + pool);
      var result := BuildBlock(setup, state, latest.value, attrs, id, candidates);
      if result.Err? {
        return Err(result.error), drained, origins;
      }
      BuildKeeps(setup, state, latest.value, attrs, id, candidates);
      Install(result.value);
      origins := BuiltLists(setup, before, attrs, id, drained);
      return Ok(()), drained, origins;
    }
  }

  /** Executes the candidates on top of the parent block and sums them up in a header. */
  method BuildBlock(setup: Setup, s: State, parent: Block, attrs: Attributes, id: nat, candidates: seq<Candidate>)
      returns (r: Result<Built, Panic>)
    ensures r == Build(setup, s, parent, attrs, id, candidates)
  {
    var env := EnvFor(setup, parent, candidates);
    if env.Err? {
      return Err(env.error);
    }
    var executed := ExecuteTransactions(env.value, s, candidates);
    if executed.Err? {
      return Err(executed.error);
    }
    var t := executed.value;
    if t.gas > U64_MAX {
      return Err(GasOverflow);
    }
    var header := HeaderFor(parent, attrs, candidates, env.value, t);
    var block := Block(HashOf(header), t.tip, id, header, HashesOf(candidates));
    return Ok(Built(block, attrs, candidates, env.value, s, t));
  }

  lemma ExtendOne<K, V>(m: Index<K, V>, e: Entry<K, V>)
    ensures Extend(m, [e]) == Insert(m, e)
  {
    assert [e][..0] == [] && Extend(m, [e][..0]) == m;
  }

  lemma FinishFromBlocks(n: Node)
    requires n.pending.Publishing? && n.pending.stage == 2
    ensures var v, b := n.view, n.pending.built;
      Finish(n) == n.(pending := Idle,
        view := v.(hashes := Extend(v.hashes, HashEntry(b)), heights := Extend(v.heights, HeightEntry(b)),
                   payloads := Extend(v.payloads, PayloadEntry(b))))
  {
    hide Extend;
    var b := n.pending.built;
    var n3 := n.(view := Publish(n.view, b, 2), pending := Publishing(b, 3));
    var n4 := n.(view := Publish(n3.view, b, 3), pending := Publishing(b, 4));
    var n5 := n.(view := Publish(n4.view, b, 4), pending := Idle);
    assert Finish(n) == Finish(n3) == Finish(n4) == Finish(n5) == n5;
  }

  lemma FinishFromStart(n: Node)
    requires n.pending.Publishing? && n.pending.stage == 0
    ensures var v, b := n.view, n.pending.built;
      Finish(n) == n.(pending := Idle, view := View(
        Extend(v.receipts, ReceiptEntries(b)), Extend(v.transactions, TxEntries(b)),
        Extend(v.hashes, HashEntry(b)), Extend(v.heights, HeightEntry(b)), Extend(v.payloads, PayloadEntry(b))))
  {
    hide Extend;
    var b := n.pending.built;
    var n1 := n.(view := Publish(n.view, b, 0), pending := Publishing(b, 1));
    var n2 := n.(view := Publish(n1.view, b, 1), pending := Publishing(b, 2));
    assert Finish(n) == Finish(n1) == Finish(n2);
    FinishFromBlocks(n2);
  }
}
