/**
 Three places know the latest height: the in-memory index counts its keys, an ordered database takes
 its last big-endian key, and the state roots carry a counter of their own.
 */
module Heights {
  import opened Wrappers
  import opened Bytes
  import opened BlockBuild
  import opened Chain

  const KEY_WIDTH: nat := 8

  predicate FitsKey(n: nat) {
    n < Pow256(KEY_WIDTH)
  }

  function Key(n: nat): seq<byte> {
    Be(n, KEY_WIDTH)
  }

  lemma KeyOrder(m: nat, n: nat)
    requires FitsKey(m) && FitsKey(n)
    ensures LexLess(Key(m), Key(n)) <==> m < n
    ensures Key(m) == Key(n) <==> m == n
  {
    BeOrder(m, n, KEY_WIDTH);
  }

  lemma FitsBelow(m: nat, n: nat)
    requires m <= n && FitsKey(n)
    ensures FitsKey(m)
  {
  }

  /** Blocks by hash, hashes by height key, state roots by height key, and the state root counter. */
  datatype Disk = Disk(
    blocks: map<BlockHash, Block>, heights: map<seq<byte>, BlockHash>, roots: map<seq<byte>, nat>, counter: Option<nat>)
  {
    /** A store that never saw a root is at height zero, the genesis block's. */
    function Height(): nat {
      if counter.Some? then counter.value else 0
    }

    function Add(b: Block): Disk {
      this.(blocks := blocks[b.hash := b], heights := heights[Key(b.header.number) := b.hash])
    }

    function PushStateRoot(root: nat): Disk {
      this.(roots := roots[Key(Height() + 1) := root], counter := Some(Height() + 1))
    }

    function RootByHeight(genesisRoot: nat, height: nat): Option<nat> {
      if height == 0 then Some(genesisRoot)
      else if Key(height) in roots then Some(roots[Key(height)])
      else None
    }

    function BlockAt(k: seq<byte>): Option<Block> {
      if k in heights && heights[k] in blocks then Some(blocks[heights[k]]) else None
    }

    /** The key at the end of the height table. */
    ghost predicate IsLastKey(k: seq<byte>) {
      k in heights && forall other :: other in heights && other != k ==> LexLess(other, k)
    }
  }

  class DiskStore {
    var blocks: map<BlockHash, Block>
    var heights: map<seq<byte>, BlockHash>
    var roots: map<seq<byte>, nat>
    var counter: Option<nat>

    ghost function Contents(): Disk
      reads this
    {
      Disk(blocks, heights, roots, counter)
    }

    constructor ()
      ensures Contents() == Disk(map[], map[], map[], None)
    {
      blocks, heights, roots, counter := map[], map[], map[], None;
    }

    method Add(block: Block)
      modifies this`blocks, this`heights
      ensures Contents() == old(Contents()).Add(block)
    {
      blocks := blocks[block.hash := block];
      heights := heights[Key(block.header.number) := block.hash];
    }

    method PushStateRoot(root: nat)
      modifies this`roots, this`counter
      ensures Contents() == old(Contents()).PushStateRoot(root)
    {
      var height := (if counter.Some? then counter.value else 0) + 1;
      roots := roots[Key(height) := root];
      counter := Some(height);
    }
  }

  /**
   The root of the state is pushed once a block's transactions are executed, then the block is added;
   the genesis block is only added.
   */
  function After(h: seq<Built>): Disk {
    if h == [] then Disk(map[], map[], map[], None)
    else
      var b := h[|h| - 1];
      if |h| == 1 then Disk(map[], map[], map[], None).Add(b.block)
      else After(h[..|h| - 1]).PushStateRoot(b.tally.state.root).Add(b.block)
  }

  lemma {:induction false} CounterIsHeight(h: seq<Built>)
    requires h != []
    ensures After(h).Height() == |h| - 1
    decreases |h|
  {
    if |h| > 1 {
      CounterIsHeight(h[..|h| - 1]);
    }
  }

  /** The height table holds the keys of the heights from zero up, and each leads to its block. */
  lemma {:induction false} HeightTable(setup: Setup, h: seq<Built>, k: seq<byte>)
    requires ChainOk(setup, h) && FitsKey(|h|)
    ensures k in After(h).heights <==> exists i: nat :: i < |h| && k == Key(i)
    decreases |h|
  {
    hide ChainOk, Key, FitsKey;
    NotEmpty(setup, h);
    var n := |h| - 1;
    NumberIsPlace(setup, h, n);
    if n > 0 {
      ChainPrefix(setup, h, n);
      FitsBelow(n, |h|);
      HeightTable(setup, h[..n], k);
    }
  }

  lemma {:induction false} BlocksStored(setup: Setup, h: seq<Built>, i: nat)
    requires ChainOk(setup, h) && FitsKey(|h|) && i < |h|
    ensures After(h).BlockAt(Key(i)) == Some(h[i].block) && After(h).heights[Key(i)] == h[i].block.hash
    decreases |h|
  {
    hide ChainOk, Key, FitsKey;
    var n := |h| - 1;
    NumberIsPlace(setup, h, n);
    if i < n {
      ChainPrefix(setup, h, n);
      FitsBelow(n, |h|);
      FitsBelow(i, |h|);
      BlocksStored(setup, h[..n], i);
      HashesDiffer(setup, h, i, n);
      KeyOrder(i, n);
      assert h[..n][i] == h[i];
      AddKeepsOthers(After(h[..n]).PushStateRoot(h[n].tally.state.root), h[n].block, Key(i), h[i].block);
    }
  }

  lemma AddKeepsOthers(d: Disk, b: Block, k: seq<byte>, found: Block)
    requires d.BlockAt(k) == Some(found) && d.heights[k] == found.hash
    requires k != Key(b.header.number) && found.hash != b.hash
    ensures d.Add(b).BlockAt(k) == Some(found)
  {
  }

  /** The last key of the height table is that of the last block. */
  lemma LastKeyIsLatest(setup: Setup, h: seq<Built>, k: seq<byte>)
    requires ChainOk(setup, h) && FitsKey(|h|)
    ensures After(h).IsLastKey(k) <==> k == Key(|h| - 1)
  {
    hide ChainOk, Key, FitsKey, LexLess;
    NotEmpty(setup, h);
    var n := |h| - 1;
    FitsBelow(n, |h|);
    HeightTable(setup, h, k);
    HeightTable(setup, h, Key(n));
    forall other | other in After(h).heights && other != Key(n)
      ensures LexLess(other, Key(n)) && !LexLess(Key(n), other)
    {
      HeightTable(setup, h, other);
      var i: nat :| i < |h| && other == Key(i);
      FitsBelow(i, |h|);
      KeyOrder(i, n);
      KeyOrder(n, i);
    }
  }

  /** The root a header carries is that of the state its transactions left. */
  lemma LastRoot(setup: Setup, h: seq<Built>)
    requires ChainOk(setup, h) && |h| > 1
    ensures h[|h| - 1].block.header.stateRoot == h[|h| - 1].tally.state.root
  {
    hide BuiltOn;
    BuildLinks(setup, h, |h| - 1);
  }

  /** Every height above genesis leads to the root of its block's header, and no other height to a root. */
  lemma {:induction false} RootsStored(setup: Setup, h: seq<Built>, genesisRoot: nat, height: nat)
    requires ChainOk(setup, h) && FitsKey(|h|) && FitsKey(height) && height > 0
    ensures After(h).RootByHeight(genesisRoot, height)
      == if height < |h| then Some(h[height].block.header.stateRoot) else None
    decreases |h|
  {
    hide ChainOk, Key, FitsKey;
    NotEmpty(setup, h);
    var n := |h| - 1;
    if n > 0 {
      ChainPrefix(setup, h, n);
      FitsBelow(n, |h|);
      RootsStored(setup, h[..n], genesisRoot, height);
      CounterIsHeight(h[..n]);
      KeyOrder(n, height);
      LastRoot(setup, h);
    }
  }

  /** The in-memory lookup of a root: genesis from the configuration, anything else from the header. */
  function RootInMemory(heights: Index<nat, Block>, genesisRoot: nat, height: nat): Option<nat> {
    if height == 0 then Some(genesisRoot)
    else if height in heights && heights[height] != [] then Some(heights[height][0].header.stateRoot)
    else None
  }

  /**
   Between commands the three ideas of the latest height are one, the last block is found by it on
   disk and in memory alike, and parent hashes lead from every block to the one below.
   */
  lemma LatestAgrees(setup: Setup, n: Node, i: nat)
    requires Inv(setup, n) && n.pending == Idle && FitsKey(|n.history|) && i < |n.history|
    ensures After(n.history).Height() == |n.view.heights| - 1 == |n.history| - 1
    ensures After(n.history).IsLastKey(Key(|n.history| - 1))
    ensures After(n.history).BlockAt(Key(|n.history| - 1)) == Latest(n.view.heights)
      == Some(n.history[|n.history| - 1].block)
    ensures n.history[i].block.header.number == i
    ensures i > 0 ==> n.history[i].block.header.parentHash == n.history[i - 1].block.hash
  {
    hide Key, FitsKey, Extend, Gather, BuiltOn, IsGenesis;
    var h := n.history;
    assert h[..|h|] == h;
    CounterIsHeight(h);
    HeightsAreDense(setup, h);
    assert |n.view.heights| == |n.view.heights.Keys|;
    LastKeyIsLatest(setup, h, Key(|h| - 1));
    LatestIsLast(setup, h);
    BlocksStored(setup, h, |h| - 1);
    NumberIsPlace(setup, h, i);
    if i > 0 {
      BuildLinks(setup, h, i);
    }
  }

  /**
   Looking up a root by height gives the same on disk and in memory, and it is the root in that
   block's header: at height zero exactly when the configured genesis root is the genesis header's.
   */
  lemma RootsAgree(setup: Setup, n: Node, genesisRoot: nat, height: nat)
    requires Inv(setup, n) && n.pending == Idle && FitsKey(|n.history|) && FitsKey(height)
    ensures After(n.history).RootByHeight(genesisRoot, height) == RootInMemory(n.view.heights, genesisRoot, height)
    ensures height < |n.history| ==>
      (RootInMemory(n.view.heights, genesisRoot, height) == Some(n.history[height].block.header.stateRoot)
       <==> (height > 0 || genesisRoot == n.history[0].block.header.stateRoot))
  {
    hide Key, FitsKey, Extend, Gather, ChainOk;
    var h := n.history;
    assert h[..|h|] == h;
    if height > 0 {
      RootsStored(setup, h, genesisRoot, height);
      HeightsAreDense(setup, h);
      if height < |h| {
        HeightHolds(setup, h, height);
      } else {
        assert height !in n.view.heights.Keys;
      }
    }
  }

  /** While a block is being published, its root is already counted although the block is not there yet. */
  lemma CounterRunsAhead(h: seq<Built>, next: Built)
    requires h != []
    ensures var mid := After(h).PushStateRoot(next.tally.state.root);
      mid.Height() == |h| && mid.heights == After(h).heights && After(h + [next]) == mid.Add(next.block)
  {
    CounterIsHeight(h);
    assert (h + [next])[..|h|] == h;
  }
}
