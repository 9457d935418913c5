/**
 Execution reads modules and resources from a flat store; queries read them from a Merkle trie, at the
 root of any block. Keys are hashed injectively to the paths of the trie, and values are serialised
 injectively. What a root reads is first told as contents, and then tied to the nodes in the database.
 */
module StateTrie {
  import opened Wrappers
  import opened Bytes
  import opened MoveTypes
  import opened MerkleStore

  const ACCOUNT_INFO_PREFIX: string := "Account_"
  const ETH_ADDRESS_LENGTH: nat := 20

  // ----- Hexadecimal names -----

  function HexChar(n: nat): char
    requires n < 16
  {
    "0123456789abcdef"[n]
  }

  function HexValue(c: char): Option<nat> {
    if '0' <= c <= '9' then Some(c as nat - '0' as nat)
    else if 'a' <= c <= 'f' then Some(c as nat - 'a' as nat + 10)
    else if 'A' <= c <= 'F' then Some(c as nat - 'A' as nat + 10)
    else None
  }

  function EncodeHex(bytes: seq<byte>): (s: string)
    ensures |s| == 2 * |bytes|
  {
    if bytes == [] then ""
    else [HexChar(bytes[0] as nat / 16), HexChar(bytes[0] as nat % 16)] + EncodeHex(bytes[1..])
  }

  function DecodeHex(s: string): Option<seq<byte>> {
    if s == "" then Some([])
    else if |s| == 1 then None
    else
      match (HexValue(s[0]), HexValue(s[1]), DecodeHex(s[2..]))
      case (Some(hi), Some(lo), Some(rest)) =>
        if hi < 16 && lo < 16 then Some([(16 * hi + lo) as byte] + rest) else None
      case _ => None
  }

  /** Accepts digits of either case, with or without a leading `0x`. */
  function AddressFromHex(s: string): Option<seq<byte>> {
    var digits := if |s| >= 2 && s[..2] == "0x" then s[2..] else s;
    if |digits| == 2 * ETH_ADDRESS_LENGTH then DecodeHex(digits) else None
  }

  lemma HexDigit(n: nat)
    requires n < 16
    ensures HexValue(HexChar(n)) == Some(n) && HexChar(n) != 'x'
  {
  }

  lemma {:induction false} HexRoundTrip(bytes: seq<byte>)
    ensures DecodeHex(EncodeHex(bytes)) == Some(bytes)
    ensures bytes != [] ==> EncodeHex(bytes)[1] != 'x'
  {
    if bytes != [] {
      HexDigit(bytes[0] as nat / 16);
      HexDigit(bytes[0] as nat % 16);
      HexRoundTrip(bytes[1..]);
      var s := EncodeHex(bytes);
      assert s[2..] == EncodeHex(bytes[1..]);
      assert s[0] == HexChar(bytes[0] as nat / 16) && s[1] == HexChar(bytes[0] as nat % 16);
      assert bytes == [bytes[0]] + bytes[1..];
    }
  }

  // ----- Keys and values -----

  function AccountInfoTag(address: seq<byte>): StructTag {
    StructTag(EVM_NATIVE_ADDRESS, EVM_NATIVE_MODULE, ACCOUNT_INFO_PREFIX + EncodeHex(address), [])
  }

  predicate IsEvmAccountKey(tag: StructTag) {
    && tag.address == EVM_NATIVE_ADDRESS
    && tag.moduleName == EVM_NATIVE_MODULE
    && ACCOUNT_INFO_PREFIX <= tag.name
  }

  /** Neither the account that holds the resource nor the tag's type arguments play a part. */
  function EvmKeyAddress(tag: StructTag): (r: Option<seq<byte>>)
    ensures r.Some? ==> IsEvmAccountKey(tag)
  {
    if IsEvmAccountKey(tag) then AddressFromHex(tag.name[|ACCOUNT_INFO_PREFIX|..]) else None
  }

  predicate LowerHexDigit(c: char) {
    '0' <= c <= '9' || 'a' <= c <= 'f'
  }

  lemma {:induction false} HexIsLower(bytes: seq<byte>)
    ensures forall i :: 0 <= i < |EncodeHex(bytes)| ==> LowerHexDigit(EncodeHex(bytes)[i])
  {
    if bytes != [] {
      HexIsLower(bytes[1..]);
    }
  }

  lemma TagRoundTrip(address: seq<byte>)
    requires |address| == ETH_ADDRESS_LENGTH
    ensures IsEvmAccountKey(AccountInfoTag(address)) && EvmKeyAddress(AccountInfoTag(address)) == Some(address)
    ensures var name := AccountInfoTag(address).name; forall i :: 8 <= i < |name| ==> LowerHexDigit(name[i])
  {
    HexRoundTrip(address);
    HexIsLower(address);
    var name := AccountInfoTag(address).name;
    assert name[|ACCOUNT_INFO_PREFIX|..] == EncodeHex(address);
    assert EncodeHex(address)[..2][1] != 'x';
  }

  /** What the flat store is keyed by. */
  datatype Key = Module(address: AccountAddress, name: string) | Resource(holder: AccountAddress, tag: StructTag)

  datatype TreeKey = StateKey(key: Key) | Evm(address: seq<byte>)

  /** Bytes as they are, or wrapped as a state value, which is never empty. */
  datatype TreeValue = Raw(bytes: seq<byte>) | StateValue(value: seq<byte>)

  const EMPTY: TreeValue := Raw([])

  function TreeKeyOf(k: Key): TreeKey {
    match k
    case Module(_, _) => StateKey(k)
    case Resource(_, tag) =>
      match EvmKeyAddress(tag)
      case Some(address) => Evm(address)
      case None => StateKey(k)
  }

  /** The digits spell the bytes, in either case. */
  ghost predicate Spells(digits: string, bytes: seq<byte>) {
    && |digits| == 2 * |bytes|
    && forall i :: 0 <= i < |bytes| ==>
      HexValue(digits[2 * i]) == Some(bytes[i] as nat / 16) && HexValue(digits[2 * i + 1]) == Some(bytes[i] as nat % 16)
  }

  lemma HexPair(hi: nat, lo: nat)
    requires hi < 16 && lo < 16
    ensures (16 * hi + lo) / 16 == hi && (16 * hi + lo) % 16 == lo
  {
  }

  lemma HexDigitBelow(c: char)
    ensures HexValue(c).Some? ==> HexValue(c).value < 16 && c != 'x'
  {
  }

  lemma {:induction false} DecodeHexIff(s: string, bytes: seq<byte>)
    ensures DecodeHex(s) == Some(bytes) <==> Spells(s, bytes)
  {
    hide HexValue;
    if |s| >= 2 && bytes != [] {
      hide Spells;
      DecodeHexIff(s[2..], bytes[1..]);
      HexDigitBelow(s[0]);
      HexDigitBelow(s[1]);
      SpellsFirst(s, bytes);
      assert bytes == [bytes[0]] + bytes[1..];
      if HexValue(s[0]).Some? && HexValue(s[1]).Some? {
        HexPair(HexValue(s[0]).value, HexValue(s[1]).value);
      }
    }
  }

  lemma SpellsFirst(s: string, bytes: seq<byte>)
    requires |s| >= 2 && bytes != []
    ensures Spells(s, bytes) <==>
      && HexValue(s[0]) == Some(bytes[0] as nat / 16) && HexValue(s[1]) == Some(bytes[0] as nat % 16)
      && Spells(s[2..], bytes[1..])
  {
    hide HexValue;
    if Spells(s, bytes) {
      forall i | 0 <= i < |bytes[1..]|
        ensures HexValue(s[2..][2 * i]) == Some(bytes[1..][i] as nat / 16)
        ensures HexValue(s[2..][2 * i + 1]) == Some(bytes[1..][i] as nat % 16)
      {
        assert s[2..][2 * i] == s[2 * (i + 1)] && s[2..][2 * i + 1] == s[2 * (i + 1) + 1];
      }
    }
    if Spells(s[2..], bytes[1..]) && |s| == 2 * |bytes| {
      forall i | 0 < i < |bytes|
        ensures HexValue(s[2 * i]) == Some(bytes[i] as nat / 16)
        ensures HexValue(s[2 * i + 1]) == Some(bytes[i] as nat % 16)
      {
        assert s[2 * i] == s[2..][2 * (i - 1)] && s[2 * i + 1] == s[2..][2 * (i - 1) + 1];
        assert bytes[i] == bytes[1..][i - 1];
      }
    }
  }

  lemma SpellsSize(digits: string, bytes: seq<byte>)
    ensures Spells(digits, bytes) ==> |digits| == 2 * |bytes| && (|digits| >= 2 ==> digits[1] != 'x')
  {
    if Spells(digits, bytes) && |digits| >= 2 {
      assert HexValue(digits[2 * 0 + 1]) == Some(bytes[0] as nat % 16);
      HexDigitBelow(digits[1]);
    }
  }

  /**
   A resource has its place in the trie by an account's address exactly when its tag is of the module `evm` at
   0x1 and its name is `Account_` and the twenty bytes in hexadecimal, in either case, `0x` in front or not.
   */
  lemma PlaceIff(k: Key, address: seq<byte>)
    ensures TreeKeyOf(k) == Evm(address) <==>
      && k.Resource? && |address| == 20
      && k.tag.address == Zeros(31) + [1] && k.tag.moduleName == "evm"
      && "Account_" <= k.tag.name
      && (Spells(k.tag.name[8..], address) || ("Account_0x" <= k.tag.name && Spells(k.tag.name[10..], address)))
  {
    hide DecodeHex, Spells;
    if k.Resource? && IsEvmAccountKey(k.tag) {
      var s := k.tag.name[8..];
      DecodeHexIff(s, address);
      SpellsSize(s, address);
      if "0x" <= s {
        DecodeHexIff(s[2..], address);
        SpellsSize(s[2..], address);
        assert k.tag.name[10..] == s[2..];
        assert k.tag.name[..10] == "Account_" + s[..2];
      }
      if "Account_0x" <= k.tag.name {
        assert s[0] == k.tag.name[8] && s[1] == k.tag.name[9];
        assert s[..2] == "0x";
      }
    }
  }

  predicate IsRaw(k: Key) {
    k.Resource? && IsEvmAccountKey(k.tag)
  }

  /** A deletion serialises to the empty string, and so does an empty EVM value. */
  function ValueOf(k: Key, v: Option<seq<byte>>): TreeValue {
    match v
    case None => EMPTY
    case Some(bytes) => if IsRaw(k) then Raw(bytes) else StateValue(bytes)
  }

  // ----- The trie -----

  type Contents = map<TreeKey, TreeValue>

  /** Inserting the empty string removes the key. */
  function InsertLeaf(t: Contents, k: TreeKey, leaf: TreeValue): Contents {
    if leaf == EMPTY then t - {k} else t[k := leaf]
  }

  type Changes = map<Key, Option<seq<byte>>>

  /** The updates collected from a change set listed in some order; equal keys override. */
  function TreeValues(changes: Changes, order: seq<Key>): map<TreeKey, TreeValue>
    requires forall i :: 0 <= i < |order| ==> order[i] in changes
  {
    if order == [] then map[]
    else
      var k := order[|order| - 1];
      TreeValues(changes, order[..|order| - 1])[TreeKeyOf(k) := ValueOf(k, changes[k])]
  }

  function Updated(t: Contents, values: map<TreeKey, TreeValue>): Contents {
    map k | k in t.Keys + values.Keys && (k in values ==> values[k] != EMPTY) :: if k in values then values[k] else t[k]
  }

  ghost predicate Lists<K(!new)>(order: seq<K>, keys: set<K>) {
    forall k :: k in order <==> k in keys
  }

  /** The change set yields its entries in whatever order its maps do. */
  method ToTreeValues(changes: Changes) returns (values: map<TreeKey, TreeValue>, ghost order: seq<Key>)
    ensures Lists(order, changes.Keys) && values == TreeValues(changes, order)
  {
    hide TreeKeyOf, ValueOf;
    values, order := map[], [];
    var todo := changes;
    while todo != map[]
      invariant forall k :: k in todo ==> k in changes && todo[k] == changes[k]
      invariant forall k :: k in changes ==> k in todo || k in order
      invariant forall k :: k in order ==> k in changes
      invariant values == TreeValues(changes, order)
      decreases |todo|
    {
      var k :| k in todo;
      assert (order + [k])[..|order|] == order;
      values := values[TreeKeyOf(k) := ValueOf(k, todo[k])];
      order := order + [k];
      todo := todo - {k};
    }
  }

  lemma UpdatedNext(t: Contents, done: map<TreeKey, TreeValue>, k: TreeKey, leaf: TreeValue)
    ensures InsertLeaf(Updated(t, done), k, leaf) == Updated(t, done[k := leaf])
  {
  }

  lemma OneMore<K, V>(m: map<K, V>, rest: set<K>, k: K)
    requires rest <= m.Keys && k in rest
    ensures m - (rest - {k}) == (m - rest)[k := m[k]]
  {
  }

  lemma AllAndNone<K, V>(m: map<K, V>)
    ensures m - m.Keys == map[] && m - {} == m
  {
  }

  // ----- The nodes behind the contents -----

  /** Hashing keys to paths never confuses two keys. */
  ghost predicate Injective(keyHash: TreeKey -> Path) {
    forall j, k :: keyHash(j) == keyHash(k) ==> j == k
  }

  function Held(t: Contents, k: TreeKey): Option<TreeValue> {
    if k in t then Some(t[k]) else None
  }

  /** Below this root the nodes read, at each key's path, what the contents hold. */
  ghost predicate Reads(nodes: Nodes<TreeValue>, root: Hash<TreeValue>, keyHash: TreeKey -> Path, t: Contents) {
    forall k :: Get(nodes, root, keyHash(k)) == Ok(Held(t, k))
  }

  /** A root that can be queried: all its nodes are there, under their hashes, and read these contents. */
  ghost predicate Commits(nodes: Nodes<TreeValue>, root: Hash<TreeValue>, keyHash: TreeKey -> Path, t: Contents) {
    ContentAddressed(nodes) && Complete(nodes, root) && Reads(nodes, root, keyHash, t)
  }

  /** The empty string removes, anything else is set. */
  function Update(leaf: TreeValue): Option<TreeValue> {
    if leaf == EMPTY then None else Some(leaf)
  }

  lemma {:induction false} InsertCommits(
    nodes: Nodes<TreeValue>, root: Hash<TreeValue>, keyHash: TreeKey -> Path, t: Contents, k: TreeKey, leaf: TreeValue)
    requires Injective(keyHash) && Commits(nodes, root, keyHash, t)
    ensures Commits(nodes + NewNodes(root, keyHash(k), Update(leaf)), Put(root, keyHash(k), Update(leaf)),
      keyHash, InsertLeaf(t, k, leaf))
  {
    hide Get, Put, NewNodes;
    PutCommits(nodes, root, keyHash(k), Update(leaf));
    var after, top := nodes + NewNodes(root, keyHash(k), Update(leaf)), Put(root, keyHash(k), Update(leaf));
    forall j ensures Get(after, top, keyHash(j)) == Ok(Held(InsertLeaf(t, k, leaf), j)) {
      assert Get(nodes, root, keyHash(j)) == Ok(Held(t, j));
    }
  }

  lemma MapsAssociate<K, V>(a: map<K, V>, b: map<K, V>, c: map<K, V>)
    ensures a + b + c == a + (b + c)
  {
  }

  /** Inserts the updates one by one, in whatever order: the new root and the nodes it adds to the database. */
  method InsertValues(
    db: Nodes<TreeValue>, root: Hash<TreeValue>, keyHash: TreeKey -> Path, values: map<TreeKey, TreeValue>,
    ghost t: Contents)
    returns (newRoot: Hash<TreeValue>, diff: Nodes<TreeValue>)
    requires Injective(keyHash) && Commits(db, root, keyHash, t)
    ensures ContentAddressed(diff) && Commits(db + diff, newRoot, keyHash, Updated(t, values))
  {
    assert t == Updated(t, map[]);
    hide Updated, InsertLeaf, Commits, Put, NewNodes, Injective;
    newRoot, diff := root, map[];
    var rest := values.Keys;
    AllAndNone(values);
    assert db + diff == db;
    while rest != {}
      invariant rest <= values.Keys && ContentAddressed(diff)
      invariant Commits(db + diff, newRoot, keyHash, Updated(t, values - rest))
      decreases |rest|
    {
      var k :| k in rest;
      UpdatedNext(t, values - rest, k, values[k]);
      OneMore(values, rest, k);
      InsertCommits(db + diff, newRoot, keyHash, Updated(t, values - rest), k, values[k]);
      var added := NewNodes(newRoot, keyHash(k), Update(values[k]));
      NewNodesAddressed(newRoot, keyHash(k), Update(values[k]));
      OverwritesNothing(diff, added);
      MapsAssociate(db, diff, added);
      newRoot, diff := Put(newRoot, keyHash(k), Update(values[k])), diff + added;
      rest := rest - {k};
    }
  }

  // ----- Reading through the trie -----

  /** A node that is missing, or a value that is not in the form the key calls for. */
  datatype ReadError = MissingState | WrongForm

  function Unwrap(k: Key, v: Option<TreeValue>): Result<Option<seq<byte>>, ReadError> {
    match v
    case None => Ok(None)
    case Some(Raw(bytes)) => if IsRaw(k) then Ok(Some(bytes)) else Err(WrongForm)
    case Some(StateValue(value)) => if IsRaw(k) then Err(WrongForm) else Ok(Some(value))
  }

  /** The resolver's answer, told from what its root reads. */
  function Read(t: Contents, k: Key): Result<Option<seq<byte>>, ReadError> {
    Unwrap(k, Held(t, TreeKeyOf(k)))
  }

  /** The resolver at a root of the database. */
  function Resolve(
    nodes: Nodes<TreeValue>, root: Hash<TreeValue>, keyHash: TreeKey -> Path, k: Key)
    : Result<Option<seq<byte>>, ReadError>
  {
    match Get(nodes, root, keyHash(TreeKeyOf(k)))
    case Err(_) => Err(MissingState)
    case Ok(v) => Unwrap(k, v)
  }

  type Flat = map<Key, seq<byte>>

  function ApplyFlat(f: Flat, changes: Changes): Flat {
    map k | k in f.Keys + changes.Keys && (k in changes ==> changes[k].Some?) ::
      if k in changes then changes[k].value else f[k]
  }

  function ReadFlat(f: Flat, k: Key): Option<seq<byte>> {
    if k in f then Some(f[k]) else None
  }

  /** An account tag is the one made for its address, and held only by the EVM native account. */
  ghost predicate WellTagged(k: Key) {
    TreeKeyOf(k).Evm? ==> k == Resource(EVM_NATIVE_ADDRESS, AccountInfoTag(TreeKeyOf(k).address))
  }

  /** The key that everything sharing its place in the trie stands for. */
  function Canonical(k: Key): Key {
    match TreeKeyOf(k)
    case Evm(address) => Resource(EVM_NATIVE_ADDRESS, AccountInfoTag(address))
    case StateKey(_) => k
  }

  lemma AddressLength(tag: StructTag)
    requires EvmKeyAddress(tag).Some?
    ensures |EvmKeyAddress(tag).value| == ETH_ADDRESS_LENGTH
  {
    var name := tag.name[|ACCOUNT_INFO_PREFIX|..];
    DecodeLength(if |name| >= 2 && name[..2] == "0x" then name[2..] else name);
  }

  lemma {:induction false} DecodeLength(s: string)
    requires DecodeHex(s).Some?
    ensures 2 * |DecodeHex(s).value| == |s|
    decreases |s|
  {
    if |s| > 1 {
      DecodeLength(s[2..]);
    }
  }

  lemma CanonicalKey(k: Key)
    ensures TreeKeyOf(Canonical(k)) == TreeKeyOf(k) && IsRaw(Canonical(k)) == IsRaw(k)
    ensures WellTagged(Canonical(k)) && (WellTagged(k) <==> Canonical(k) == k)
  {
    if TreeKeyOf(k).Evm? {
      AddressLength(k.tag);
      TagRoundTrip(TreeKeyOf(k).address);
    }
  }

  lemma SameTreeKey(j: Key, k: Key)
    requires WellTagged(j) && WellTagged(k) && TreeKeyOf(j) == TreeKeyOf(k)
    ensures j == k
  {
  }

  // ----- The two stores against each other -----

  /** What a trie can show of a flat store: an empty EVM value cannot be told from none. */
  function Visible(f: Flat, k: Key): Option<seq<byte>> {
    if IsRaw(k) && k in f && f[k] == [] then None else ReadFlat(f, k)
  }

  function ValueIn(f: Flat, k: Key): TreeValue {
    ValueOf(k, ReadFlat(f, k))
  }

  function ValueAt(t: Contents, k: TreeKey): TreeValue {
    if k in t then t[k] else EMPTY
  }

  /** The trie holds, at each well-tagged key's place, the leaf of the flat store's value, and no empty leaf. */
  ghost predicate Mirrors(t: Contents, f: Flat) {
    && (forall k :: k in f ==> WellTagged(k))
    && (forall k :: WellTagged(k) ==> ValueAt(t, TreeKeyOf(k)) == ValueIn(f, k))
    && (forall k :: k in t ==> t[k] != EMPTY)
  }

  lemma {:induction false} TreeValuesAt(changes: Changes, order: seq<Key>, k: Key)
    requires forall i :: 0 <= i < |order| ==> order[i] in changes
    requires (forall j :: j in changes ==> WellTagged(j)) && WellTagged(k)
    ensures var values := TreeValues(changes, order);
      && (TreeKeyOf(k) in values <==> k in order)
      && (k in order ==> values[TreeKeyOf(k)] == ValueOf(k, changes[k]))
    decreases |order|
  {
    if order != [] {
      var init, last := order[..|order| - 1], order[|order| - 1];
      assert order == init + [last] && last in changes;
      TreeValuesAt(changes, init, k);
      if TreeKeyOf(last) == TreeKeyOf(k) {
        SameTreeKey(last, k);
      }
    }
  }

  /** One change set keeps the stores together, whatever order its entries come in. */
  lemma MirrorsNext(t: Contents, f: Flat, changes: Changes, order: seq<Key>)
    requires Mirrors(t, f) && Lists(order, changes.Keys)
    requires forall k :: k in changes ==> WellTagged(k)
    ensures Mirrors(Updated(t, TreeValues(changes, order)), ApplyFlat(f, changes))
  {
    var t', f' := Updated(t, TreeValues(changes, order)), ApplyFlat(f, changes);
    forall k | WellTagged(k) ensures ValueAt(t', TreeKeyOf(k)) == ValueIn(f', k) {
      TreeValuesAt(changes, order, k);
      assert ValueAt(t, TreeKeyOf(k)) == ValueIn(f, k);
    }
  }

  /** For every key at all, the trie shows what the flat store has under the key's canonical form. */
  lemma MirrorReads(t: Contents, f: Flat, k: Key)
    requires Mirrors(t, f)
    ensures Read(t, k) == Ok(Visible(f, Canonical(k)))
  {
    CanonicalKey(k);
    assert ValueAt(t, TreeKeyOf(Canonical(k))) == ValueIn(f, Canonical(k));
  }

  // ----- Runs -----

  datatype Step = Step(changes: Changes, order: seq<Key>)

  ghost predicate Listed(steps: seq<Step>) {
    forall i :: 0 <= i < |steps| ==> Lists(steps[i].order, steps[i].changes.Keys)
  }

  ghost predicate Tagged(steps: seq<Step>) {
    forall i, k :: 0 <= i < |steps| && k in steps[i].changes ==> WellTagged(k)
  }

  function TrieAfter(steps: seq<Step>): Contents
    requires forall i :: 0 <= i < |steps| ==> forall k :: k in steps[i].order ==> k in steps[i].changes
  {
    if steps == [] then map[]
    else
      var last := steps[|steps| - 1];
      Updated(TrieAfter(steps[..|steps| - 1]), TreeValues(last.changes, last.order))
  }

  function FlatAfter(steps: seq<Step>): Flat {
    if steps == [] then map[] else ApplyFlat(FlatAfter(steps[..|steps| - 1]), steps[|steps| - 1].changes)
  }

  lemma {:induction false} RunMirrors(steps: seq<Step>)
    requires Listed(steps) && Tagged(steps)
    ensures Mirrors(TrieAfter(steps), FlatAfter(steps))
    decreases |steps|
  {
    if steps != [] {
      var init, last := steps[..|steps| - 1], steps[|steps| - 1];
      RunMirrors(init);
      MirrorsNext(TrieAfter(init), FlatAfter(init), last.changes, last.order);
    }
  }

  ghost predicate EvmValuesFull(f: Flat) {
    forall k :: k in f && IsRaw(k) ==> f[k] != []
  }

  /**
   After any run of change sets with well-made account tags, the trie resolver returns for a key what
   the flat store returns exactly when the key is well made itself or its account does not exist,
   and the value is not an empty EVM value.
   */
  lemma ResolverMatchesFlat(steps: seq<Step>, k: Key)
    requires Listed(steps) && Tagged(steps)
    ensures var f := FlatAfter(steps);
      (Read(TrieAfter(steps), k) == Ok(ReadFlat(f, k)))
      == (if WellTagged(k) then !(IsRaw(k) && ReadFlat(f, k) == Some([])) else Visible(f, Canonical(k)) == None)
    ensures EvmValuesFull(FlatAfter(steps)) && WellTagged(k) ==>
      Read(TrieAfter(steps), k) == Ok(ReadFlat(FlatAfter(steps), k))
  {
    RunMirrors(steps);
    MirrorReads(TrieAfter(steps), FlatAfter(steps), k);
    CanonicalKey(k);
  }

  // ----- Old roots -----

  /** A change set, the root the trie had after it, and the nodes it added. */
  datatype Commit = Commit(step: Step, root: Hash<TreeValue>, diff: Nodes<TreeValue>)

  function StepsOf(commits: seq<Commit>): (r: seq<Step>)
    ensures |r| == |commits|
  {
    seq(|commits|, i requires 0 <= i < |commits| => commits[i].step)
  }

  function NodesAfter(commits: seq<Commit>): Nodes<TreeValue> {
    if commits == [] then map[] else NodesAfter(commits[..|commits| - 1]) + commits[|commits| - 1].diff
  }

  /** Each root was complete, and read what it should, when it was the newest. */
  ghost predicate Committed(commits: seq<Commit>, keyHash: TreeKey -> Path) {
    && Listed(StepsOf(commits))
    && (forall i :: 0 <= i < |commits| ==> ContentAddressed(commits[i].diff))
    && (forall i :: 0 <= i < |commits| ==> CommittedAt(commits, keyHash, i))
  }

  ghost predicate CommittedAt(commits: seq<Commit>, keyHash: TreeKey -> Path, i: nat)
    requires i < |commits| && Listed(StepsOf(commits))
  {
    Commits(NodesAfter(commits[..i + 1]), commits[i].root, keyHash, TrieAfter(StepsOf(commits)[..i + 1]))
  }

  lemma {:induction false} LaterNodesAdd(commits: seq<Commit>, i: nat)
    requires i <= |commits| && forall j :: 0 <= j < |commits| ==> ContentAddressed(commits[j].diff)
    ensures ContentAddressed(NodesAfter(commits)) && Within(NodesAfter(commits[..i]), NodesAfter(commits))
    decreases |commits|
  {
    if i == |commits| {
      assert commits[..i] == commits;
      if commits != [] {
        LaterNodesAdd(commits[..|commits| - 1], 0);
        OverwritesNothing(NodesAfter(commits[..|commits| - 1]), commits[|commits| - 1].diff);
      }
    } else {
      var init := commits[..|commits| - 1];
      LaterNodesAdd(init, i);
      assert init[..i] == commits[..i];
      OverwritesNothing(NodesAfter(init), commits[|commits| - 1].diff);
    }
  }

  /**
   After any number of further change sets, the database with all nodes added since answers at the
   root of change set `i` what the flat store answered right after it.
   */
  lemma {:induction false} OldRootsKeepTheirAnswers(commits: seq<Commit>, keyHash: TreeKey -> Path, i: nat, k: Key)
    requires i < |commits| && Committed(commits, keyHash) && Tagged(StepsOf(commits))
    requires WellTagged(k) && EvmValuesFull(FlatAfter(StepsOf(commits)[..i + 1]))
    ensures Resolve(NodesAfter(commits), commits[i].root, keyHash, k)
      == Ok(ReadFlat(FlatAfter(StepsOf(commits)[..i + 1]), k))
  {
    hide Get, TrieAfter, FlatAfter, TreeKeyOf, WellTagged;
    var steps := StepsOf(commits)[..i + 1];
    var before, now := NodesAfter(commits[..i + 1]), NodesAfter(commits);
    assert CommittedAt(commits, keyHash, i);
    assert Listed(steps) && Tagged(steps);
    assert Get(before, commits[i].root, keyHash(TreeKeyOf(k))) == Ok(Held(TrieAfter(steps), TreeKeyOf(k)));
    LaterNodesAdd(commits, i + 1);
    ReadsKeep(before, now, commits[i].root, keyHash(TreeKeyOf(k)));
    ResolverMatchesFlat(steps, k);
  }

  lemma StepsSnoc(commits: seq<Commit>, c: Commit)
    ensures StepsOf(commits + [c]) == StepsOf(commits) + [c.step]
    ensures NodesAfter(commits + [c]) == NodesAfter(commits) + c.diff
    ensures FlatAfter(StepsOf(commits + [c])) == ApplyFlat(FlatAfter(StepsOf(commits)), c.step.changes)
  {
    assert StepsOf(commits + [c]) == StepsOf(commits) + [c.step];
    assert (commits + [c])[..|commits|] == commits;
    assert (StepsOf(commits) + [c.step])[..|commits|] == StepsOf(commits);
  }

  /** The newest root reads what the steps come to; before any step, the empty trie does. */
  lemma {:induction false} NewestCommits(commits: seq<Commit>, keyHash: TreeKey -> Path)
    requires Committed(commits, keyHash)
    ensures Listed(StepsOf(commits))
    ensures Commits(NodesAfter(commits), if commits == [] then HashOf(Empty) else commits[|commits| - 1].root,
      keyHash, TrieAfter(StepsOf(commits)))
  {
    if commits == [] {
      EmptyIsComplete<TreeValue>(map[]);
    } else {
      var n := |commits| - 1;
      assert CommittedAt(commits, keyHash, n);
      assert commits[..n + 1] == commits && StepsOf(commits)[..n + 1] == StepsOf(commits);
    }
  }

  /** A commit on top of others that reads its updates when it is new makes one longer run of commits. */
  lemma {:induction false} CommittedNext(commits: seq<Commit>, keyHash: TreeKey -> Path, c: Commit)
    requires Committed(commits, keyHash)
    requires Lists(c.step.order, c.step.changes.Keys) && ContentAddressed(c.diff)
    requires Listed(StepsOf(commits)) && Commits(NodesAfter(commits) + c.diff, c.root, keyHash,
      Updated(TrieAfter(StepsOf(commits)), TreeValues(c.step.changes, c.step.order)))
    ensures Committed(commits + [c], keyHash)
    ensures StepsOf(commits + [c]) == StepsOf(commits) + [c.step]
    ensures NodesAfter(commits + [c]) == NodesAfter(commits) + c.diff
    ensures FlatAfter(StepsOf(commits + [c])) == ApplyFlat(FlatAfter(StepsOf(commits)), c.step.changes)
  {
    hide Commits, FlatAfter, NodesAfter, TrieAfter, CommittedAt;
    var all, n := commits + [c], |commits|;
    StepsSnoc(commits, c);
    forall i | 0 <= i < |all| ensures CommittedAt(all, keyHash, i) {
      if i < n {
        assert CommittedAt(commits, keyHash, i);
        StaysCommitted(commits, keyHash, c, i);
      } else {
        NewlyCommitted(commits, keyHash, c);
      }
    }
  }

  lemma {:induction false} StaysCommitted(commits: seq<Commit>, keyHash: TreeKey -> Path, c: Commit, i: nat)
    requires i < |commits| && Listed(StepsOf(commits)) && CommittedAt(commits, keyHash, i)
    requires Listed(StepsOf(commits + [c]))
    ensures CommittedAt(commits + [c], keyHash, i)
  {
    hide Commits, NodesAfter, TrieAfter;
    assert (commits + [c])[..i + 1] == commits[..i + 1];
    assert StepsOf(commits + [c])[..i + 1] == StepsOf(commits)[..i + 1];
  }

  lemma {:induction false} NewlyCommitted(commits: seq<Commit>, keyHash: TreeKey -> Path, c: Commit)
    requires Listed(StepsOf(commits)) && Listed(StepsOf(commits + [c]))
    requires Lists(c.step.order, c.step.changes.Keys)
    requires Commits(NodesAfter(commits) + c.diff, c.root, keyHash,
      Updated(TrieAfter(StepsOf(commits)), TreeValues(c.step.changes, c.step.order)))
    ensures CommittedAt(commits + [c], keyHash, |commits|)
  {
    hide Commits, NodesAfter, Updated, TreeValues;
    var n := |commits|;
    var all, steps := commits + [c], StepsOf(commits + [c]);
    StepsSnoc(commits, c);
    assert steps[..n] == StepsOf(commits) && steps[n] == c.step && steps[..n + 1] == steps && all[..n + 1] == all;
    assert TrieAfter(steps) == Updated(TrieAfter(steps[..n]), TreeValues(c.step.changes, c.step.order));
  }

  class InMemoryState {
    const keyHash: TreeKey -> Path
    var resolver: Flat
    var db: Nodes<TreeValue>
    var stateRoot: Option<Hash<TreeValue>>
    ghost var commits: seq<Commit>

    /** The two stores are what the change sets taken in so far come to, and each of their roots was complete. */
    ghost predicate Valid()
      reads this
    {
      && Injective(keyHash) && Committed(commits, keyHash)
      && db == NodesAfter(commits)
      && resolver == FlatAfter(StepsOf(commits))
      && stateRoot == (if commits == [] then None else Some(commits[|commits| - 1].root))
    }

    constructor (keyHash: TreeKey -> Path)
      requires Injective(keyHash)
      ensures Valid() && this.keyHash == keyHash && commits == []
    {
      this.keyHash, resolver, db, stateRoot, commits := keyHash, map[], map[], None, [];
    }

    /** Both stores take in the change set; the database gains the nodes of a new complete root, and loses none. */
    method Apply(changes: Changes)
      requires Valid()
      modifies this
      ensures Valid()
      ensures |commits| == |old(commits)| + 1 && commits[..|old(commits)|] == old(commits)
      ensures var c := commits[|old(commits)|];
        && c.step.changes == changes && Lists(c.step.order, changes.Keys)
        && stateRoot == Some(c.root) && ContentAddressed(c.diff) && db == old(db) + c.diff
      ensures resolver == ApplyFlat(old(resolver), changes)
    {
      hide Commits, Injective, Updated, TreeValues, Committed, NodesAfter, FlatAfter, TrieAfter, StepsOf;
      NewestCommits(commits, keyHash);
      var values, order := ToTreeValues(changes);
      var root := if stateRoot.Some? then stateRoot.value else HashOf(Empty);
      ghost var contents := TrieAfter(StepsOf(commits));
      var newRoot, diff := InsertValues(db, root, keyHash, values, contents);
      ghost var c := Commit(Step(changes, order), newRoot, diff);
      CommittedNext(commits, keyHash, c);
      db := db + diff;
      stateRoot := Some(newRoot);
      resolver := ApplyFlat(resolver, changes);
      commits := commits + [c];
    }
  }

  function PrefixedTag(address: seq<byte>): StructTag {
    AccountInfoTag(address).(name := ACCOUNT_INFO_PREFIX + "0x" + EncodeHex(address))
  }

  lemma PrefixedSpelling(address: seq<byte>)
    requires |address| == ETH_ADDRESS_LENGTH
    ensures EvmKeyAddress(PrefixedTag(address)) == Some(address) && PrefixedTag(address) != AccountInfoTag(address)
  {
    HexRoundTrip(address);
    var name := PrefixedTag(address).name;
    assert name[|ACCOUNT_INFO_PREFIX|..] == "0x" + EncodeHex(address);
    assert ("0x" + EncodeHex(address))[..2] == "0x" && ("0x" + EncodeHex(address))[2..] == EncodeHex(address);
    assert |name| != |AccountInfoTag(address).name|;
  }

  /** Two spellings of one address share a place in the trie but not in the flat store. */
  lemma SpellingsCollide(address: seq<byte>, v: byte)
    requires |address| == ETH_ADDRESS_LENGTH
    ensures var plain := Resource(EVM_NATIVE_ADDRESS, AccountInfoTag(address));
      var prefixed := Resource(EVM_NATIVE_ADDRESS, PrefixedTag(address));
      var changes: Changes := map[plain := Some([v])];
      && Read(Updated(map[], TreeValues(changes, [plain])), prefixed) == Ok(Some([v]))
      && ReadFlat(ApplyFlat(map[], changes), prefixed) == None
  {
    hide AccountInfoTag, PrefixedTag, EvmKeyAddress, IsEvmAccountKey;
    var plain := Resource(EVM_NATIVE_ADDRESS, AccountInfoTag(address));
    TagRoundTrip(address);
    PrefixedSpelling(address);
    var changes: Changes := map[plain := Some([v])];
    assert [plain][..0] == [];
    assert TreeValues(changes, [plain]) == map[Evm(address) := Raw([v])];
  }
}
