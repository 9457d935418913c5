/** Which transactions a block lists, and in what order, told from the payload and the memory pool. */
module Listing {
  import opened Wrappers
  import opened BlockBuild
  import opened Chain

  /** Where a listed transaction comes from: a place in the payload, or the memory pool. */
  datatype Origin = FromPayload(place: nat) | FromPool(key: Encoding)

  /** A transaction that is there, decodes, and has no receipt from an earlier block. */
  ghost predicate Open(
    o: Origin, txs: seq<Option<Candidate>>, pool: map<Encoding, Candidate>, receipts: Index<Encoding, StoredReceipt>)
  {
    match o
    case FromPayload(p) => p < |txs| && txs[p].Some? && txs[p].value.key !in receipts
    case FromPool(key) => key in pool && key !in receipts
  }

  function HashAt(o: Origin, txs: seq<Option<Candidate>>, pool: map<Encoding, Candidate>): Encoding
    requires match o
      case FromPayload(p) => p < |txs| && txs[p].Some?
      case FromPool(key) => key in pool
  {
    match o
    case FromPayload(p) => txs[p].value.tx.encoded
    case FromPool(key) => pool[key].tx.encoded
  }

  /** The hash is that of the open transaction with this origin. */
  ghost predicate ListedFrom(
    hash: Encoding, o: Origin, txs: seq<Option<Candidate>>, pool: map<Encoding, Candidate>,
    receipts: Index<Encoding, StoredReceipt>)
  {
    Open(o, txs, pool, receipts) && hash == HashAt(o, txs, pool)
  }

  /** The payload goes first, in its own order; the pool follows, each of its transactions once. */
  predicate Before(a: Origin, b: Origin) {
    match (a, b)
    case (FromPayload(p), FromPayload(q)) => p < q
    case (FromPayload(_), FromPool(_)) => true
    case (FromPool(_), FromPayload(_)) => false
    case (FromPool(j), FromPool(k)) => j != k
  }

  /** The block lists every open transaction and no other, payload first. */
  ghost predicate Lists(
    transactions: seq<Encoding>, origins: seq<Origin>, txs: seq<Option<Candidate>>, pool: map<Encoding, Candidate>,
    receipts: Index<Encoding, StoredReceipt>)
  {
    && |origins| == |transactions|
    && (forall i :: 0 <= i < |origins| ==> ListedFrom(transactions[i], origins[i], txs, pool, receipts))
    && (forall i, j :: 0 <= i < j < |origins| ==> Before(origins[i], origins[j]))
    && (forall o :: Open(o, txs, pool, receipts) ==> o in origins)
  }

  /** The places of a payload that decode. */
  function Places(txs: seq<Option<Candidate>>): (r: seq<nat>)
    ensures Increasing(r) && forall p :: p in r <==> 0 <= p < |txs| && txs[p].Some?
    ensures |r| == |Decoded(txs)|
    ensures forall i :: 0 <= i < |r| ==> r[i] < |txs| && txs[r[i]] == Some(Decoded(txs)[i])
  {
    if txs == [] then []
    else
      var init := txs[..|txs| - 1];
      var r := Places(init);
      if txs[|txs| - 1].Some? then r + [|txs| - 1] else r
  }

  /** The places of a list of candidates that are left when those with a receipt are taken out. */
  function Kept(receipts: Index<Encoding, StoredReceipt>, cs: seq<Candidate>): seq<nat> {
    if cs == [] then []
    else
      var r := Kept(receipts, cs[..|cs| - 1]);
      if cs[|cs| - 1].key in receipts then r else r + [|cs| - 1]
  }

  ghost predicate PlacesIn(r: seq<nat>, cs: seq<Candidate>, kept: seq<Candidate>) {
    |r| == |kept| && forall i :: 0 <= i < |r| ==> r[i] < |cs| && cs[r[i]] == kept[i]
  }

  lemma {:induction false} KeptAre(receipts: Index<Encoding, StoredReceipt>, cs: seq<Candidate>)
    ensures PlacesIn(Kept(receipts, cs), cs, Fresh(receipts, cs))
    ensures Increasing(Kept(receipts, cs))
  {
    if cs != [] {
      KeptAre(receipts, cs[..|cs| - 1]);
    }
  }

  lemma {:induction false} KeptIff(receipts: Index<Encoding, StoredReceipt>, cs: seq<Candidate>, p: nat)
    ensures p in Kept(receipts, cs) <==> p < |cs| && cs[p].key !in receipts
  {
    if cs != [] {
      KeptIff(receipts, cs[..|cs| - 1], p);
    }
  }

  function OriginOf(places: seq<nat>, drained: seq<Candidate>, p: nat): Origin
    requires p < |places| + |drained|
  {
    if p < |places| then FromPayload(places[p]) else FromPool(drained[p - |places|].key)
  }

  function Keys(drained: seq<Candidate>): (r: set<Encoding>)
    ensures forall k :: k in r <==> exists i :: 0 <= i < |drained| && drained[i].key == k
    ensures (forall i, j :: 0 <= i < j < |drained| ==> drained[i].key != drained[j].key) ==> |r| == |drained|
  {
    if drained == [] then {} else Keys(drained[..|drained| - 1]) + {drained[|drained| - 1].key}
  }

  lemma DrainsAll(drained: seq<Candidate>, pool: map<Encoding, Candidate>, key: Encoding)
    requires IsDrain(drained, pool) && key in pool
    ensures exists i :: 0 <= i < |drained| && drained[i].key == key
  {
    SubsetSize(Keys(drained), pool.Keys);
  }

  lemma SubsetSize<T>(a: set<T>, b: set<T>)
    requires a <= b && |a| == |b|
    ensures a == b
  {
    assert |b - a| == 0;
  }

  function Origins(receipts: Index<Encoding, StoredReceipt>, txs: seq<Option<Candidate>>, drained: seq<Candidate>)
    : (r: seq<Origin>)
    ensures var cs := Decoded(txs) + drained;
      var kept := Kept(receipts, cs);
      && |r| == |kept| == |Fresh(receipts, cs)|
      && forall i :: 0 <= i < |r| ==> kept[i] < |cs| && r[i] == OriginOf(Places(txs), drained, kept[i])
  {
    var kept := Kept(receipts, Decoded(txs) + drained);
    KeptAre(receipts, Decoded(txs) + drained);
    seq(|kept|, i requires 0 <= i < |kept| => OriginOf(Places(txs), drained, kept[i]))
  }

  lemma OriginIsOpen(
    receipts: Index<Encoding, StoredReceipt>, txs: seq<Option<Candidate>>, drained: seq<Candidate>,
    pool: map<Encoding, Candidate>, i: nat)
    requires IsDrain(drained, pool) && i < |Origins(receipts, txs, drained)|
    ensures var o := Origins(receipts, txs, drained)[i];
      ListedFrom(Fresh(receipts, Decoded(txs) + drained)[i].tx.encoded, o, txs, pool, receipts)
  {
    hide Decoded, Fresh, Kept, IsDrain, Increasing;
    KeptAre(receipts, Decoded(txs) + drained);
    var cs := Decoded(txs) + drained;
    var kept, places := Kept(receipts, cs), Places(txs);
    var p := kept[i];
    assert p in kept;
    KeptIff(receipts, cs, p);
    assert Fresh(receipts, cs)[i] == cs[p];
    if p < |places| {
      assert cs[p] == Decoded(txs)[p];
      assert Origins(receipts, txs, drained)[i] == FromPayload(places[p]);
    } else {
      assert cs[p] == drained[p - |places|];
      DrainedFrom(drained, pool, p - |places|);
      assert Origins(receipts, txs, drained)[i] == FromPool(cs[p].key);
    }
  }

  lemma DrainedFrom(drained: seq<Candidate>, pool: map<Encoding, Candidate>, i: nat)
    requires IsDrain(drained, pool) && i < |drained|
    ensures drained[i].key in pool && pool[drained[i].key] == drained[i]
  {
  }

  lemma OpenIsListed(
    receipts: Index<Encoding, StoredReceipt>, txs: seq<Option<Candidate>>, drained: seq<Candidate>,
    pool: map<Encoding, Candidate>, o: Origin)
    requires IsDrain(drained, pool) && Open(o, txs, pool, receipts)
    ensures o in Origins(receipts, txs, drained)
  {
    hide Decoded, Fresh;
    var cs := Decoded(txs) + drained;
    var kept, places := Kept(receipts, cs), Places(txs);
    var p: nat;
    if o.FromPayload? {
      assert o.place in places;
      p :| p < |places| && places[p] == o.place;
      assert cs[p] == Decoded(txs)[p];
    } else {
      DrainsAll(drained, pool, o.key);
      var i :| 0 <= i < |drained| && drained[i].key == o.key;
      p := |places| + i;
      assert cs[p] == drained[i];
    }
    KeptIff(receipts, cs, p);
    var i :| 0 <= i < |kept| && kept[i] == p;
    assert Origins(receipts, txs, drained)[i] == o;
  }

  lemma OriginsInOrder(
    receipts: Index<Encoding, StoredReceipt>, txs: seq<Option<Candidate>>, drained: seq<Candidate>,
    pool: map<Encoding, Candidate>, i: nat, j: nat)
    requires IsDrain(drained, pool) && i < j < |Origins(receipts, txs, drained)|
    ensures Before(Origins(receipts, txs, drained)[i], Origins(receipts, txs, drained)[j])
  {
    hide Decoded, Fresh;
    var kept, places := Kept(receipts, Decoded(txs) + drained), Places(txs);
    KeptAre(receipts, Decoded(txs) + drained);
    assert kept[i] < kept[j];
  }

  /** What a block is built from lists as it should, for every order in which the pool was drained. */
  lemma CandidatesList(
    receipts: Index<Encoding, StoredReceipt>, txs: seq<Option<Candidate>>, drained: seq<Candidate>,
    pool: map<Encoding, Candidate>)
    requires IsDrain(drained, pool)
    ensures Lists(HashesOf(Fresh(receipts, Decoded(txs) + drained)), Origins(receipts, txs, drained),
      txs, pool, receipts)
  {
    hide Decoded, Fresh, Kept, OriginOf, Open, ListedFrom, Before, IsDrain;
    var origins := Origins(receipts, txs, drained);
    forall i | 0 <= i < |origins|
      ensures ListedFrom(Fresh(receipts, Decoded(txs) + drained)[i].tx.encoded, origins[i], txs, pool, receipts)
    {
      OriginIsOpen(receipts, txs, drained, pool, i);
    }
    forall i, j | 0 <= i < j < |origins| ensures Before(origins[i], origins[j]) {
      OriginsInOrder(receipts, txs, drained, pool, i, j);
    }
    forall o | Open(o, txs, pool, receipts) ensures o in origins {
      OpenIsListed(receipts, txs, drained, pool, o);
    }
  }

  /**
   A command that builds a block lists, in it, the decodable transactions of the payload without a receipt, in
   the payload's order, then every pooled transaction without one, and nothing else.
   */
  lemma BuiltLists(setup: Setup, n: Node, attrs: Attributes, id: nat, drained: seq<Candidate>)
      returns (origins: seq<Origin>)
    requires id !in n.view.payloads && Do(setup, n, StartBlockBuild(attrs, id, drained)).Some?
    ensures var after := Do(setup, n, StartBlockBuild(attrs, id, drained)).value;
      && after.pending.Publishing?
      && after.pool == map[]
      && Lists(after.pending.built.block.transactions, origins, attrs.transactions, n.pool, n.view.receipts)
  {
    hide Decoded, Fresh, IncludeAll, EnvFor, Lists, IsDrain, Latest;
    CandidatesList(n.view.receipts, attrs.transactions, drained, n.pool);
    origins := Origins(n.view.receipts, attrs.transactions, drained);
  }
}
