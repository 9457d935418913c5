/**
 Merkle tries as content-addressed nodes: a node is stored under its hash, and hashing is injective,
 so a hash is the node it is the hash of. A node may be missing from a store, and nodes are only added.
 */
module MerkleStore {
  import opened Wrappers

  type Path = seq<nat>

  datatype Hash<V> = HashOf(node: Node<V>)

  /** The empty trie is known by its root and is not stored. */
  datatype Node<V> =
    | Empty
    | Leaf(rest: Path, value: V)
    | Extension(first: nat, more: Path, child: Hash<V>)
    | Branch(children: map<nat, Hash<V>>, here: Option<V>)

  type Nodes<!V(==)> = map<Hash<V>, Node<V>>

  /** Every node is stored under its own hash. */
  ghost predicate ContentAddressed<V(!new)>(nodes: Nodes<V>) {
    forall h :: h in nodes ==> h == HashOf(nodes[h])
  }

  datatype TrieError = MissingNode

  function Get<V(==)>(nodes: Nodes<V>, root: Hash<V>, path: Path): Result<Option<V>, TrieError>
    decreases root
  {
    if root.node.Empty? then Ok(None)
    else if root !in nodes || nodes[root] != root.node then Err(MissingNode)
    else
      match root.node
      case Leaf(rest, value) => Ok(if rest == path then Some(value) else None)
      case Extension(first, more, child) =>
        if [first] + more <= path then Get(nodes, child, path[1 + |more|..]) else Ok(None)
      case Branch(children, here) =>
        if path == [] then Ok(here)
        else if path[0] in children then Get(nodes, children[path[0]], path[1..])
        else Ok(None)
  }

  /** Every read below this root finds the nodes it needs. */
  ghost predicate Complete<V>(nodes: Nodes<V>, root: Hash<V>) {
    forall path :: Get(nodes, root, path).Ok?
  }

  ghost predicate Within<V(!new)>(a: Nodes<V>, b: Nodes<V>) {
    forall h :: h in a ==> h in b && b[h] == a[h]
  }

  /** A read that succeeded gives the same answer however much the store has grown. */
  lemma {:induction false} ReadsKeep<V(!new)>(a: Nodes<V>, b: Nodes<V>, root: Hash<V>, path: Path)
    requires Within(a, b) && Get(a, root, path).Ok?
    ensures Get(b, root, path) == Get(a, root, path)
    decreases root
  {
    match root.node
    case Empty =>
    case Leaf(_, _) =>
    case Extension(first, more, child) =>
      if [first] + more <= path {
        ReadsKeep(a, b, child, path[1 + |more|..]);
      }
    case Branch(children, _) =>
      if path != [] && path[0] in children {
        ReadsKeep(a, b, children[path[0]], path[1..]);
      }
  }

  lemma CompleteKeeps<V(!new)>(a: Nodes<V>, b: Nodes<V>, root: Hash<V>)
    requires Within(a, b) && Complete(a, root)
    ensures Complete(b, root)
  {
    forall path ensures Get(b, root, path).Ok? {
      ReadsKeep(a, b, root, path);
    }
  }

  /** Writing content-addressed nodes over content-addressed nodes replaces nothing. */
  lemma OverwritesNothing<V(!new)>(a: Nodes<V>, diff: Nodes<V>)
    requires ContentAddressed(a) && ContentAddressed(diff)
    ensures ContentAddressed(a + diff) && Within(a, a + diff) && Within(diff, a + diff)
  {
    forall h | h in a && h in diff ensures a[h] == diff[h] {
      assert h == HashOf(a[h]) == HashOf(diff[h]);
    }
  }

  // ----- Changing one value -----

  /** A node as a branch, with the nodes that opening it up brings forth. */
  function Open<V>(node: Node<V>): (b: Node<V>)
    requires !node.Empty?
    ensures b.Branch?
  {
    match node
    case Leaf(rest, value) =>
      if rest == [] then Branch(map[], Some(value))
      else Branch(map[rest[0] := HashOf(Leaf(rest[1..], value))], None)
    case Extension(first, more, child) =>
      Branch(map[first := if more == [] then child else HashOf(Extension(more[0], more[1..], child))], None)
    case Branch(_, _) => node
  }

  function Opened<V(==)>(node: Node<V>): Nodes<V>
    requires !node.Empty?
  {
    match node
    case Leaf(rest, value) =>
      if rest == [] then map[] else map[HashOf(Leaf(rest[1..], value)) := Leaf(rest[1..], value)]
    case Extension(first, more, child) =>
      if more == [] then map[]
      else map[HashOf(Extension(more[0], more[1..], child)) := Extension(more[0], more[1..], child)]
    case Branch(_, _) => map[]
  }

  function ChildAt<V>(b: Node<V>, digit: nat): Hash<V>
    requires b.Branch?
  {
    if digit in b.children then b.children[digit] else HashOf(Empty)
  }

  /** The root after the value at `path` is set, or removed. */
  function Put<V>(root: Hash<V>, path: Path, v: Option<V>): Hash<V>
    decreases path
  {
    if root.node.Empty? then
      if v.None? then root else HashOf(Leaf(path, v.value))
    else
      var b := Open(root.node);
      if path == [] then HashOf(Branch(b.children, v))
      else HashOf(Branch(b.children[path[0] := Put(ChildAt(b, path[0]), path[1..], v)], b.here))
  }

  /** The nodes the store needs for it. */
  function NewNodes<V(==)>(root: Hash<V>, path: Path, v: Option<V>): Nodes<V>
    decreases path
  {
    var top := Put(root, path, v);
    if root.node.Empty? then
      if v.None? then map[] else map[top := top.node]
    else
      var b := Open(root.node);
      if path == [] then Opened(root.node)[top := top.node]
      else (Opened(root.node) + NewNodes(ChildAt(b, path[0]), path[1..], v))[top := top.node]
  }

  lemma {:induction false} NewNodesAddressed<V(!new)>(root: Hash<V>, path: Path, v: Option<V>)
    ensures ContentAddressed(NewNodes(root, path, v))
    decreases path
  {
    if !root.node.Empty? && path != [] {
      NewNodesAddressed(ChildAt(Open(root.node), path[0]), path[1..], v);
    }
  }

  /** Reading below an opened node is reading below its branch. */
  lemma OpenReads<V(!new)>(nodes: Nodes<V>, root: Hash<V>, q: Path)
    requires ContentAddressed(nodes) && !root.node.Empty? && Complete(nodes, root)
    ensures var b, all := Open(root.node), nodes + Opened(root.node);
      Get(nodes, root, q) == if q == [] then Ok(b.here) else Get(all, ChildAt(b, q[0]), q[1..])
  {
    assert Get(nodes, root, q).Ok?;
    assert ContentAddressed(Opened(root.node));
    OverwritesNothing(nodes, Opened(root.node));
    match root.node
    case Leaf(rest, value) =>
      if q != [] && rest != [] {
        assert rest == q <==> rest[0] == q[0] && rest[1..] == q[1..];
      }
    case Extension(first, more, child) =>
      ExtensionReads(nodes, root, q);
    case Branch(children, _) =>
      if q != [] && q[0] in children {
        ReadsKeep(nodes, nodes + Opened(root.node), children[q[0]], q[1..]);
      }
  }

  lemma ExtensionReads<V(!new)>(nodes: Nodes<V>, root: Hash<V>, q: Path)
    requires ContentAddressed(nodes) && root.node.Extension? && Complete(nodes, root)
    requires Within(nodes, nodes + Opened(root.node))
    ensures var b, all := Open(root.node), nodes + Opened(root.node);
      Get(nodes, root, q) == if q == [] then Ok(b.here) else Get(all, ChildAt(b, q[0]), q[1..])
  {
    var first, more, child := root.node.first, root.node.more, root.node.child;
    assert Get(nodes, root, q).Ok?;
    if q != [] && q[0] == first {
      assert [first] + more <= q <==> more <= q[1..];
      if more <= q[1..] {
        assert q[1 + |more|..] == q[1..][|more|..];
        ReadsKeep(nodes, nodes + Opened(root.node), child, q[1..][|more|..]);
        assert more != [] ==> [more[0]] + more[1..] == more && 1 + |more[1..]| == |more|;
      } else {
        assert more != [] && [more[0]] + more[1..] == more;
      }
    }
  }

  lemma ChildrenComplete<V(!new)>(nodes: Nodes<V>, root: Hash<V>, digit: nat)
    requires ContentAddressed(nodes) && !root.node.Empty? && Complete(nodes, root)
    ensures Complete(nodes + Opened(root.node), ChildAt(Open(root.node), digit))
  {
    forall p ensures Get(nodes + Opened(root.node), ChildAt(Open(root.node), digit), p).Ok? {
      assert ([digit] + p)[1..] == p;
      assert Get(nodes, root, [digit] + p).Ok?;
      OpenReads(nodes, root, [digit] + p);
    }
  }

  /** In any store that has the old nodes and the new, the new root reads the new value and all others as before. */
  lemma {:induction false} PutReads<V(!new)>(
    nodes: Nodes<V>, store: Nodes<V>, root: Hash<V>, path: Path, v: Option<V>, q: Path)
    requires ContentAddressed(nodes) && Complete(nodes, root)
    requires Within(nodes, store) && Within(NewNodes(root, path, v), store)
    ensures Get(store, Put(root, path, v), q) == if q == path then Ok(v) else Get(nodes, root, q)
    decreases path
  {
    var top := Put(root, path, v);
    if root.node.Empty? {
      assert v.Some? ==> top in NewNodes(root, path, v);
    } else {
      var b, all := Open(root.node), nodes + Opened(root.node);
      assert top in NewNodes(root, path, v) && NewNodes(root, path, v)[top] == top.node;
      OpenReads(nodes, root, q);
      assert ContentAddressed(Opened(root.node));
      OverwritesNothing(nodes, Opened(root.node));
      OpenedWithin(root, path, v, store);
      AllWithin(nodes, Opened(root.node), store);
      if q != [] {
        ChildrenComplete(nodes, root, q[0]);
        if path != [] && path[0] == q[0] {
          ChildWithin(root, path, v, store);
          PutReads(all, store, ChildAt(b, path[0]), path[1..], v, q[1..]);
          assert q == path <==> q[1..] == path[1..];
        } else {
          assert Get(all, ChildAt(b, q[0]), q[1..]).Ok?;
          ReadsKeep(all, store, ChildAt(b, q[0]), q[1..]);
        }
      }
    }
  }

  lemma AllWithin<V(!new)>(a: Nodes<V>, b: Nodes<V>, store: Nodes<V>)
    requires Within(a, store) && Within(b, store)
    ensures Within(a + b, store)
  {
  }

  lemma OpenedWithin<V(!new)>(root: Hash<V>, path: Path, v: Option<V>, store: Nodes<V>)
    requires !root.node.Empty? && Within(NewNodes(root, path, v), store)
    ensures Within(Opened(root.node), store)
  {
    NewNodesAddressed(root, path, v);
    forall h | h in Opened(root.node) ensures h in store && store[h] == Opened(root.node)[h] {
      assert h in NewNodes(root, path, v);
      assert h == HashOf(NewNodes(root, path, v)[h]);
    }
  }

  lemma ChildWithin<V(!new)>(root: Hash<V>, path: Path, v: Option<V>, store: Nodes<V>)
    requires !root.node.Empty? && path != [] && Within(NewNodes(root, path, v), store)
    ensures Within(NewNodes(ChildAt(Open(root.node), path[0]), path[1..], v), store)
  {
    var inner := NewNodes(ChildAt(Open(root.node), path[0]), path[1..], v);
    NewNodesAddressed(root, path, v);
    NewNodesAddressed(ChildAt(Open(root.node), path[0]), path[1..], v);
    forall h | h in inner ensures h in store && store[h] == inner[h] {
      assert h in NewNodes(root, path, v);
      assert h == HashOf(NewNodes(root, path, v)[h]) == HashOf(inner[h]);
    }
  }

  /** One change on top of a complete root: the store grows, the new root is complete and reads as changed. */
  lemma PutCommits<V(!new)>(nodes: Nodes<V>, root: Hash<V>, path: Path, v: Option<V>)
    requires ContentAddressed(nodes) && Complete(nodes, root)
    ensures var after := nodes + NewNodes(root, path, v);
      && ContentAddressed(after) && Within(nodes, after) && Complete(after, Put(root, path, v))
      && forall q :: Get(after, Put(root, path, v), q) == if q == path then Ok(v) else Get(nodes, root, q)
  {
    var after := nodes + NewNodes(root, path, v);
    NewNodesAddressed(root, path, v);
    OverwritesNothing(nodes, NewNodes(root, path, v));
    forall q ensures Get(after, Put(root, path, v), q) == if q == path then Ok(v) else Get(nodes, root, q) {
      PutReads(nodes, after, root, path, v, q);
    }
    forall q ensures Get(after, Put(root, path, v), q).Ok? {
      assert Get(nodes, root, q).Ok?;
    }
  }

  lemma EmptyIsComplete<V>(nodes: Nodes<V>)
    ensures Complete(nodes, HashOf(Empty))
  {
  }
}
