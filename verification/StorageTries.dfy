/** The storage of EVM accounts: one trie per account, its nodes kept under their hashes and never removed. */
module StorageTries {
  import opened Wrappers
  import opened Bytes
  import opened MerkleStore

  type Address = nat

  /** The root of the trie without a slot. */
  const NO_STORAGE: Hash<nat> := HashOf(Empty)

  // ----- Changes -----

  datatype TrieChanges = TrieChanges(root: Hash<nat>, diff: Nodes<nat>)

  /** The later root stands; the later node stands where both have one. */
  function Add(a: TrieChanges, b: TrieChanges): TrieChanges {
    TrieChanges(b.root, a.diff + b.diff)
  }

  type TriesChanges = map<Address, TrieChanges>

  function WithTrieChanges(t: TriesChanges, account: Address, changes: TrieChanges): TriesChanges {
    t[account := if account in t then Add(t[account], changes) else changes]
  }

  datatype Batch = Batch(account: Address, changes: TrieChanges)

  function Merged(batches: seq<Batch>): TriesChanges {
    if batches == [] then map[]
    else
      var last := batches[|batches| - 1];
      WithTrieChanges(Merged(batches[..|batches| - 1]), last.account, last.changes)
  }

  // ----- One account's slots -----

  /** A storage slot, its index already hashed to a path. */
  datatype Slot = Slot(path: Path, value: nat)

  /** A zero is not stored. */
  function SlotUpdate(value: nat): Option<nat> {
    if value == 0 then None else Some(value)
  }

  /** The root after the slots are written in order, and the nodes to add. */
  function CommitSlots(root: Hash<nat>, slots: seq<Slot>): TrieChanges {
    if slots == [] then TrieChanges(root, map[])
    else
      var before, last := CommitSlots(root, slots[..|slots| - 1]), slots[|slots| - 1];
      TrieChanges(Put(before.root, last.path, SlotUpdate(last.value)),
        before.diff + NewNodes(before.root, last.path, SlotUpdate(last.value)))
  }

  method CommitStorage(root: Hash<nat>, slots: seq<Slot>) returns (changes: TrieChanges)
    ensures changes == CommitSlots(root, slots)
  {
    var current: Hash<nat>, diff: Nodes<nat> := root, map[];
    var i := 0;
    while i < |slots|
      invariant 0 <= i <= |slots| && CommitSlots(root, slots[..i]) == TrieChanges(current, diff)
    {
      assert slots[..i + 1][..i] == slots[..i];
      var v := if slots[i].value == 0 then None else Some(slots[i].value);
      current, diff := Put(current, slots[i].path, v), diff + NewNodes(current, slots[i].path, v);
      i := i + 1;
    }
    assert slots[..i] == slots;
    changes := TrieChanges(current, diff);
  }

  /** What a slot holds after the writes: the last value written to it, or what it held before. */
  function SlotAfter(slots: seq<Slot>, path: Path, before: Option<nat>): Option<nat> {
    if slots == [] then before
    else
      var last := slots[|slots| - 1];
      if last.path == path then SlotUpdate(last.value) else SlotAfter(slots[..|slots| - 1], path, before)
  }

  predicate Writes(slots: seq<Slot>, path: Path) {
    exists i :: 0 <= i < |slots| && slots[i].path == path
  }

  lemma {:induction false} SlotAfterConcat(s: seq<Slot>, t: seq<Slot>, path: Path, before: Option<nat>)
    ensures SlotAfter(s + t, path, before) == SlotAfter(t, path, SlotAfter(s, path, before))
    decreases |t|
  {
    if t == [] {
      assert s + t == s;
    } else {
      var init := t[..|t| - 1];
      SlotAfterConcat(s, init, path, before);
      assert (s + t)[..|s + t| - 1] == s + init;
    }
  }

  /** A slot that is written no longer depends on what it held, one that is not keeps it. */
  lemma {:induction false} SlotAfterWrites(slots: seq<Slot>, path: Path, before: Option<nat>, other: Option<nat>)
    ensures Writes(slots, path) ==> SlotAfter(slots, path, before) == SlotAfter(slots, path, other)
    ensures !Writes(slots, path) ==>
      SlotAfter(slots, path, before) == before && SlotAfter(slots, path, other) == other
    decreases |slots|
  {
    hide Writes;
    if slots != [] {
      var init, last := slots[..|slots| - 1], slots[|slots| - 1];
      SlotAfterWrites(init, path, before, other);
      WritesSnoc(slots, path);
    } else {
      NothingWritten(path);
    }
  }

  lemma WritesSnoc(slots: seq<Slot>, path: Path)
    requires slots != []
    ensures Writes(slots, path) <==> Writes(slots[..|slots| - 1], path) || slots[|slots| - 1].path == path
  {
    var n := |slots| - 1;
    if Writes(slots[..n], path) {
      var i :| 0 <= i < n && slots[..n][i].path == path;
      assert slots[i].path == path;
    }
    if Writes(slots, path) {
      var i :| 0 <= i < |slots| && slots[i].path == path;
      assert i < n ==> slots[..n][i].path == path;
    }
  }

  lemma NothingWritten(path: Path)
    ensures !Writes([], path)
  {
  }

  /** With the new nodes added, the new root is complete, and every slot reads as it was last written. */
  lemma {:induction false} SlotsRead(nodes: Nodes<nat>, root: Hash<nat>, slots: seq<Slot>, path: Path)
    requires ContentAddressed(nodes) && Complete(nodes, root)
    ensures var c := CommitSlots(root, slots); var after := nodes + c.diff;
      && ContentAddressed(c.diff) && ContentAddressed(after) && Within(nodes, after) && Complete(after, c.root)
      && Get(after, c.root, path) == Ok(SlotAfter(slots, path, Get(nodes, root, path).value))
    decreases |slots|
  {
    hide Get, Put, NewNodes;
    if slots == [] {
      assert nodes + map[] == nodes;
      assert Get(nodes, root, path).Ok?;
    } else {
      var init, last := slots[..|slots| - 1], slots[|slots| - 1];
      var before := CommitSlots(root, init);
      var v := SlotUpdate(last.value);
      SlotsRead(nodes, root, init, path);
      PutCommits(nodes + before.diff, before.root, last.path, v);
      NewNodesAddressed(before.root, last.path, v);
      OverwritesNothing(before.diff, NewNodes(before.root, last.path, v));
      AddAssociative(nodes, before.diff, NewNodes(before.root, last.path, v));
      WithinTransitive(nodes, nodes + before.diff, nodes + CommitSlots(root, slots).diff);
    }
  }

  lemma {:induction false} CommitAddressed(root: Hash<nat>, slots: seq<Slot>)
    ensures ContentAddressed(CommitSlots(root, slots).diff)
    decreases |slots|
  {
    hide Put, NewNodes;
    if slots != [] {
      var init, last := slots[..|slots| - 1], slots[|slots| - 1];
      CommitAddressed(root, init);
      NewNodesAddressed(CommitSlots(root, init).root, last.path, SlotUpdate(last.value));
      OverwritesNothing(CommitSlots(root, init).diff,
        NewNodes(CommitSlots(root, init).root, last.path, SlotUpdate(last.value)));
    }
  }

  lemma WithinTransitive(a: Nodes<nat>, b: Nodes<nat>, c: Nodes<nat>)
    requires Within(a, b) && Within(b, c)
    ensures Within(a, c)
  {
  }

  // ----- The repository -----

  /** Nodes by account and hash, and each account's current root. */
  datatype Repository = Repository(nodes: map<Address, Nodes<nat>>, roots: map<Address, Hash<nat>>) {
    function NodesOf(account: Address): Nodes<nat> {
      if account in nodes then nodes[account] else map[]
    }

    /** One account's changes: all nodes, then the root. */
    function Apply(account: Address, changes: TrieChanges): Repository {
      Repository(nodes[account := NodesOf(account) + changes.diff], roots[account := changes.root])
    }

    function ApplyAll(t: TriesChanges): Repository {
      Repository(
        map a | a in nodes.Keys + t.Keys :: if a in t then NodesOf(a) + t[a].diff else nodes[a],
        map a | a in roots.Keys + t.Keys :: if a in t then t[a].root else roots[a])
    }

    function InOrder(batches: seq<Batch>): Repository {
      if batches == [] then this
      else
        var last := batches[|batches| - 1];
        InOrder(batches[..|batches| - 1]).Apply(last.account, last.changes)
    }

    /** An account without a root has the empty trie. */
    function RootOf(account: Address): Hash<nat> {
      if account in roots then roots[account] else NO_STORAGE
    }

    ghost predicate Sound() {
      forall a :: a in nodes ==> ContentAddressed(nodes[a])
    }
  }

  lemma AddAssociative<K, V>(a: map<K, V>, b: map<K, V>, c: map<K, V>)
    ensures a + (b + c) == a + b + c
  {
  }

  function NodesAfter(r: Repository, t: TriesChanges, a: Address): Nodes<nat>
    requires a in r.nodes || a in t
  {
    if a in t then r.NodesOf(a) + t[a].diff else r.nodes[a]
  }

  lemma NodesOneMore(r: Repository, t: TriesChanges, account: Address, changes: TrieChanges, a: Address)
    requires a in r.nodes || a in t || a == account
    ensures NodesAfter(r, WithTrieChanges(t, account, changes), a)
      == if a == account then r.ApplyAll(t).NodesOf(a) + changes.diff else NodesAfter(r, t, a)
  {
    if a == account && a in t {
      AddAssociative(r.NodesOf(a), t[a].diff, changes.diff);
    }
  }

  lemma SameMap<K, V>(a: map<K, V>, b: map<K, V>)
    requires a.Keys == b.Keys && forall k :: k in a ==> a[k] == b[k]
    ensures a == b
  {
  }

  lemma NodesKeys(r: Repository, t: TriesChanges, a: Address)
    ensures a in r.ApplyAll(t).nodes <==> a in r.nodes || a in t
    ensures a in r.nodes || a in t ==> r.ApplyAll(t).nodes[a] == NodesAfter(r, t, a)
  {
  }

  lemma RootsOneMore(r: Repository, t: TriesChanges, account: Address, changes: TrieChanges)
    ensures r.ApplyAll(WithTrieChanges(t, account, changes)).roots == r.ApplyAll(t).Apply(account, changes).roots
  {
    SameMap(r.ApplyAll(WithTrieChanges(t, account, changes)).roots, r.ApplyAll(t).Apply(account, changes).roots);
  }

  lemma OneMoreBatch(r: Repository, t: TriesChanges, account: Address, changes: TrieChanges)
    ensures r.ApplyAll(WithTrieChanges(t, account, changes)) == r.ApplyAll(t).Apply(account, changes)
  {
    hide NodesAfter, Repository.ApplyAll;
    var t' := WithTrieChanges(t, account, changes);
    var whole, step := r.ApplyAll(t'), r.ApplyAll(t).Apply(account, changes);
    RootsOneMore(r, t, account, changes);
    forall a ensures a in whole.nodes <==> a in step.nodes {
      NodesKeys(r, t, a);
      NodesKeys(r, t', a);
    }
    forall a | a in whole.nodes ensures whole.nodes[a] == step.nodes[a] {
      NodesKeys(r, t, a);
      NodesKeys(r, t', a);
      NodesOneMore(r, t, account, changes, a);
    }
    SameMap(whole.nodes, step.nodes);
  }

  /** Merging first and applying once comes to the same as applying every batch in order. */
  lemma {:induction false} MergedIsInOrder(r: Repository, batches: seq<Batch>)
    ensures r.ApplyAll(Merged(batches)) == r.InOrder(batches)
    decreases |batches|
  {
    hide *;
    if batches == [] {
      EmptyMerge(r, batches);
    } else {
      var init, last := batches[..|batches| - 1], batches[|batches| - 1];
      MergedIsInOrder(r, init);
      OneMoreBatch(r, Merged(init), last.account, last.changes);
      LastBatch(r, batches);
    }
  }

  lemma EmptyMerge(r: Repository, batches: seq<Batch>)
    requires batches == []
    ensures r.ApplyAll(Merged(batches)) == r.InOrder(batches)
  {
    assert r.ApplyAll(map[]).nodes == r.nodes && r.ApplyAll(map[]).roots == r.roots;
  }

  lemma LastBatch(r: Repository, batches: seq<Batch>)
    requires batches != []
    ensures var init, last := batches[..|batches| - 1], batches[|batches| - 1];
      && Merged(batches) == WithTrieChanges(Merged(init), last.account, last.changes)
      && r.InOrder(batches) == r.InOrder(init).Apply(last.account, last.changes)
  {
  }

  /** The nodes of every batch are content addressed, as a trie's changed nodes are. */
  ghost predicate SoundBatches(batches: seq<Batch>) {
    forall i :: 0 <= i < |batches| ==> ContentAddressed(batches[i].changes.diff)
  }

  lemma {:induction false} BatchesOnlyAdd(r: Repository, batches: seq<Batch>, a: Address)
    requires r.Sound() && SoundBatches(batches)
    ensures r.InOrder(batches).Sound()
    ensures Within(r.NodesOf(a), r.InOrder(batches).NodesOf(a))
    decreases |batches|
  {
    if batches != [] {
      var init, last := batches[..|batches| - 1], batches[|batches| - 1];
      BatchesOnlyAdd(r, init, a);
      OverwritesNothing(r.InOrder(init).NodesOf(last.account), last.changes.diff);
    }
  }

  /**
   Whatever is merged and applied later, a root that was complete stays complete and every read below
   it gives the answer it gave before.
   */
  lemma OldRootsKeepReading(r: Repository, batches: seq<Batch>, a: Address, root: Hash<nat>, path: Path)
    requires r.Sound() && SoundBatches(batches) && Complete(r.NodesOf(a), root)
    ensures var after := r.ApplyAll(Merged(batches));
      Complete(after.NodesOf(a), root) && Get(after.NodesOf(a), root, path) == Get(r.NodesOf(a), root, path)
  {
    var after := r.ApplyAll(Merged(batches));
    MergedIsInOrder(r, batches);
    BatchesOnlyAdd(r, batches, a);
    forall p ensures Get(after.NodesOf(a), root, p) == Get(r.NodesOf(a), root, p) {
      ReadsKeep(r.NodesOf(a), after.NodesOf(a), root, p);
    }
  }

  /** Batch `i` is the last one for its account. */
  ghost predicate IsLastFor(batches: seq<Batch>, i: nat)
    requires i < |batches|
  {
    forall j :: i < j < |batches| ==> batches[j].account != batches[i].account
  }

  /** Once applied, a commit of slots on top of an account's root is what its storage reads. */
  lemma StorageReads(r: Repository, account: Address, slots: seq<Slot>, path: Path)
    requires r.Sound() && Complete(r.NodesOf(account), r.RootOf(account))
    ensures var after := r.Apply(account, CommitSlots(r.RootOf(account), slots));
      && after.Sound() && Complete(after.NodesOf(account), after.RootOf(account))
      && Get(after.NodesOf(account), after.RootOf(account), path)
           == Ok(SlotAfter(slots, path, Get(r.NodesOf(account), r.RootOf(account), path).value))
  {
    SlotsRead(r.NodesOf(account), r.RootOf(account), slots, path);
  }

  /** An account's current root is that of its last batch. */
  lemma {:induction false} CurrentRoot(r: Repository, batches: seq<Batch>, i: nat)
    requires i < |batches| && IsLastFor(batches, i)
    ensures var after := r.ApplyAll(Merged(batches)); var b := batches[i];
      b.account in after.roots && after.roots[b.account] == b.changes.root
  {
    MergedIsInOrder(r, batches);
    RootInOrder(r, batches, i);
  }

  lemma {:induction false} RootInOrder(r: Repository, batches: seq<Batch>, i: nat)
    requires i < |batches| && IsLastFor(batches, i)
    ensures var after := r.InOrder(batches); var b := batches[i];
      b.account in after.roots && after.roots[b.account] == b.changes.root
    decreases |batches|
  {
    if i < |batches| - 1 {
      RootInOrder(r, batches[..|batches| - 1], i);
    }
  }

  /** Keys of different accounts never meet in the one table that holds them all. */
  function UniqueKey(account: seq<byte>, key: seq<byte>): seq<byte> {
    account + key
  }

  lemma UniqueKeyInjective(a: seq<byte>, b: seq<byte>, k: seq<byte>, l: seq<byte>)
    requires |a| == |b| == 20
    ensures UniqueKey(a, k) == UniqueKey(b, l) <==> a == b && k == l
  {
    if UniqueKey(a, k) == UniqueKey(b, l) {
      assert UniqueKey(a, k)[..20] == a && UniqueKey(b, l)[..20] == b;
      assert UniqueKey(a, k)[20..] == k && UniqueKey(b, l)[20..] == l;
    }
  }

  // ----- In place -----

  /** Puts the nodes one by one, in whatever order the map yields them. */
  method InsertBatch(nodes: Nodes<nat>, diff: Nodes<nat>) returns (r: Nodes<nat>)
    ensures r == nodes + diff
  {
    r := nodes;
    var rest := diff.Keys;
    assert diff - rest == map[] && nodes + map[] == nodes;
    while rest != {}
      invariant rest <= diff.Keys && r == nodes + (diff - rest)
      decreases |rest|
    {
      var h :| h in rest;
      OneMoreNode(nodes, diff, rest, h);
      r := r[h := diff[h]];
      rest := rest - {h};
    }
    assert diff - rest == diff;
  }

  class TrieStore {
    var nodes: map<Address, Nodes<nat>>
    var roots: map<Address, Hash<nat>>

    function Contents(): Repository
      reads this
    {
      Repository(nodes, roots)
    }

    constructor ()
      ensures Contents() == Repository(map[], map[])
    {
      nodes, roots := map[], map[];
    }

    /** All nodes, then the root. */
    method ApplyOne(account: Address, changes: TrieChanges)
      modifies this
      ensures Contents() == old(Contents()).Apply(account, changes)
    {
      var stored := InsertBatch(if account in nodes then nodes[account] else map[], changes.diff);
      nodes := nodes[account := stored];
      roots := roots[account := changes.root];
    }

    /** Accounts come in whatever order the map yields them. */
    method Apply(t: TriesChanges)
      modifies this
      ensures Contents() == old(Contents()).ApplyAll(t)
    {
      ghost var before := Contents();
      var rest := t.Keys;
      NothingApplied(before, t);
      while rest != {}
        invariant rest <= t.Keys
        invariant Contents() == before.ApplyAll(t - rest)
        decreases |rest|
      {
        var a :| a in rest;
        OneMoreAccount(before, t, rest, a);
        ApplyOne(a, t[a]);
        rest := rest - {a};
      }
      assert t - rest == t;
    }
  }

  lemma OneMoreNode<K, V>(before: map<K, V>, diff: map<K, V>, rest: set<K>, h: K)
    requires rest <= diff.Keys && h in rest
    ensures before + (diff - (rest - {h})) == (before + (diff - rest))[h := diff[h]]
  {
  }

  lemma NothingApplied(r: Repository, t: TriesChanges)
    ensures r.ApplyAll(t - t.Keys) == r
  {
    assert t - t.Keys == map[];
    EmptyMerge(r, []);
  }

  lemma OneMoreAccount(r: Repository, t: TriesChanges, rest: set<Address>, a: Address)
    requires rest <= t.Keys && a in rest
    ensures r.ApplyAll(t - (rest - {a})) == r.ApplyAll(t - rest).Apply(a, t[a])
  {
    assert t - (rest - {a}) == WithTrieChanges(t - rest, a, t[a]);
    OneMoreBatch(r, t - rest, a, t[a]);
  }

  // ----- Staging -----

  function Overlay(memory: Nodes<nat>, inner: Nodes<nat>, h: Hash<nat>): Option<Node<nat>> {
    if h in memory then Some(memory[h]) else if h in inner then Some(inner[h]) else None
  }

  /** Writes stay in memory, reads look there first. */
  class Staging {
    var memory: Nodes<nat>
    const inner: Nodes<nat>

    constructor (inner: Nodes<nat>)
      ensures memory == map[] && this.inner == inner
    {
      memory, this.inner := map[], inner;
    }

    function Lookup(h: Hash<nat>): Option<Node<nat>>
      reads this
    {
      Overlay(memory, inner, h)
    }

    method Insert(h: Hash<nat>, node: Node<nat>)
      modifies this`memory
      ensures memory == old(memory)[h := node]
      ensures forall k :: Lookup(k) == if k == h then Some(node) else Overlay(old(memory), inner, k)
    {
      memory := memory[h := node];
    }

    /** Removing a staged node brings back what the inner store has under its hash. */
    method Remove(h: Hash<nat>)
      modifies this`memory
      ensures memory == old(memory) - {h}
      ensures forall k :: Lookup(k) == Overlay(if k == h then map[] else old(memory), inner, k)
    {
      memory := memory - {h};
    }
  }

  /** Looking up through the overlay is looking up in the inner nodes with the staged ones over them. */
  lemma OverlayIsUnion(memory: Nodes<nat>, inner: Nodes<nat>, h: Hash<nat>)
    ensures Overlay(memory, inner, h) == if h in inner + memory then Some((inner + memory)[h]) else None
  {
  }

  /** Content-addressed staging never changes what is read below a root the inner store has in full. */
  lemma StagingIsTransparent(inner: Nodes<nat>, memory: Nodes<nat>, root: Hash<nat>, path: Path)
    requires ContentAddressed(inner) && ContentAddressed(memory) && Complete(inner, root)
    ensures Get(inner + memory, root, path) == Get(inner, root, path)
    ensures forall h :: h in inner ==> Overlay(memory, inner, h) == Some(inner[h])
  {
    OverwritesNothing(inner, memory);
    ReadsKeep(inner, inner + memory, root, path);
    forall h | h in inner ensures Overlay(memory, inner, h) == Some(inner[h]) {
      OverlayIsUnion(memory, inner, h);
    }
  }
}
