/**
 EVM state diffs of one session, turned into resource operations of the EVM native account and
 squashed into one change set. Hashing code is injective, so a code hash is the code it is the hash of.
 */
module StateChanges {
  import opened Wrappers
  import opened Bytes
  import opened MerkleStore
  import opened StorageTries

  datatype CodeHash = KeccakEmpty | KeccakOf(code: seq<byte>) | Zero

  datatype AccountInfo =
    AccountInfo(nonce: nat, balance: nat, codeHash: CodeHash, code: Option<seq<byte>>)

  /** One account in a diff, with its changed storage slots in the order they come. */
  datatype AccountDiff = AccountDiff(info: AccountInfo, touched: bool, selfDestructed: bool, slots: seq<Slot>)

  type StateDiff = map<Address, AccountDiff>

  datatype Key = Account(address: Address) | Code(hash: CodeHash)

  datatype Value =
    | Info(nonce: nat, balance: nat, codeHash: CodeHash, storageRoot: Hash<nat>)
    | Bytecode(code: seq<byte>)

  datatype Op = New(value: Value) | Modify(value: Value) | Delete

  type ChangeSet = map<Key, Op>

  function GetAccountCodeHash(info: AccountInfo): CodeHash {
    match info.code
    case Some(code) => if code == [] then KeccakEmpty else KeccakOf(code)
    case None => if info.codeHash.Zero? then KeccakEmpty else info.codeHash
  }

  /** The diff brings the code itself along, and there is some. */
  predicate BringsCode(info: AccountInfo) {
    info.code.Some? && info.code.value != []
  }

  predicate Persists(d: AccountDiff) {
    d.touched && !d.selfDestructed
  }

  /** What a session starts from: the resources its resolver has, and the stored tries. */
  datatype Before = Before(store: set<Key>, repo: Repository)

  /** Every diff opens the account's trie at the stored root. */
  function StorageOf(env: Before, a: Address, d: AccountDiff): TrieChanges {
    CommitSlots(env.repo.RootOf(a), d.slots)
  }

  function InfoOf(env: Before, a: Address, d: AccountDiff): Value {
    Info(d.info.nonce, d.info.balance, d.info.codeHash, StorageOf(env, a, d).root)
  }

  // ----- Squashing -----

  datatype SquashError = CannotSquash

  /** The operation that two in a row come to; `None` when the second undoes the first. */
  function SquashOp(first: Op, second: Op): Result<Option<Op>, SquashError> {
    match (first, second)
    case (Modify(_), Modify(v)) => Ok(Some(Modify(v)))
    case (New(_), Modify(v)) => Ok(Some(New(v)))
    case (Modify(_), Delete) => Ok(Some(Delete))
    case (Delete, New(v)) => Ok(Some(Modify(v)))
    case (New(_), Delete) => Ok(None)
    case _ => Err(CannotSquash)
  }

  predicate Clashes(a: ChangeSet, b: ChangeSet, k: Key) {
    k in a && k in b && SquashOp(a[k], b[k]).Err?
  }

  function Lookup(c: ChangeSet, k: Key): Option<Op> {
    if k in c then Some(c[k]) else None
  }

  function SquashAt(a: ChangeSet, b: ChangeSet, k: Key): Option<Op>
    requires !Clashes(a, b, k)
  {
    if k !in b then Lookup(a, k)
    else if k !in a then Some(b[k])
    else SquashOp(a[k], b[k]).value
  }

  function Squash(a: ChangeSet, b: ChangeSet): Result<ChangeSet, SquashError> {
    if exists k :: k in a && Clashes(a, b, k) then Err(CannotSquash)
    else Ok(map k | k in a.Keys + b.Keys && SquashAt(a, b, k).Some? :: SquashAt(a, b, k).value)
  }

  // ----- One account -----

  /** What the session's resolver has, or an earlier diff has put in its changes. */
  predicate Exists(env: Before, prior: ChangeSet, k: Key) {
    k in prior || k in env.store
  }

  /** What one more account does to one key's operation. */
  function AfterOne(env: Before, prior: ChangeSet, d: AccountDiff, a: Address, before: Option<Op>, k: Key): Option<Op> {
    if !Persists(d) then before
    else if k == Account(a) then
      Some(if Exists(env, prior, k) then Modify(InfoOf(env, a, d)) else New(InfoOf(env, a, d)))
    else if before.Some? then before
    else if BringsCode(d.info) && k == Code(KeccakOf(d.info.code.value)) && !Exists(env, prior, k)
    then Some(New(Bytecode(d.info.code.value)))
    else None
  }

  method AddAccountChanges(env: Before, prior: ChangeSet, address: Address, d: AccountDiff, result: ChangeSet)
      returns (r: ChangeSet, storage: TrieChanges)
    requires Persists(d) && Account(address) !in result
    ensures storage == StorageOf(env, address, d)
    ensures forall k :: Lookup(r, k) == AfterOne(env, prior, d, address, Lookup(result, k), k)
    ensures Account(address) in r
    ensures var op := r[Account(address)];
      && (if Exists(env, prior, Account(address)) then op.Modify? else op.New?)
      && op.value.Info?
      && op.value.nonce == d.info.nonce
      && op.value.balance == d.info.balance
      && op.value.codeHash == d.info.codeHash
      && op.value.storageRoot == storage.root
  {
    var codeHash := GetAccountCodeHash(d.info);
    storage := CommitStorage(env.repo.RootOf(address), d.slots);
    var info := Info(d.info.nonce, d.info.balance, d.info.codeHash, storage.root);
    var tag := Account(address);
    var isCreated := !Exists(env, prior, tag);
    r := result[tag := if isCreated then New(info) else Modify(info)];
    var codeTag := Code(codeHash);
    if !Exists(env, prior, codeTag) {
      if d.info.code.Some? && d.info.code.value != [] && codeTag !in r {
        r := r[codeTag := New(Bytecode(d.info.code.value))];
      }
    }
  }

  // ----- What a list of diffs should come to -----

  /** The last diff that persists a change of the account. */
  function LastDiff(states: seq<StateDiff>, a: Address): Option<AccountDiff> {
    if states == [] then None
    else
      var last := states[|states| - 1];
      if a in last && Persists(last[a]) then Some(last[a]) else LastDiff(states[..|states| - 1], a)
  }

  /** Some account whose address is among `within` persists with this code. */
  ghost predicate DeploysIn(state: StateDiff, within: set<Address>, code: seq<byte>) {
    exists a :: a in within && a in state && Persists(state[a]) && state[a].info.code == Some(code)
  }

  ghost predicate Deploys(states: seq<StateDiff>, code: seq<byte>) {
    exists i :: 0 <= i < |states| && DeploysIn(states[i], states[i].Keys, code)
  }

  /** New exactly when the store did not have the resource at the start; code is never written twice. */
  ghost function Expected(env: Before, states: seq<StateDiff>, k: Key): Option<Op> {
    match k
    case Account(a) =>
      (match LastDiff(states, a)
       case None => None
       case Some(d) => Some(if k in env.store then Modify(InfoOf(env, a, d)) else New(InfoOf(env, a, d))))
    case Code(KeccakOf(code)) =>
      if k !in env.store && code != [] && Deploys(states, code) then Some(New(Bytecode(code))) else None
    case _ => None
  }

  /** The changes of one diff, once the accounts in `within` have been gone through. */
  ghost function ExpectedSingle(
    env: Before, prior: ChangeSet, state: StateDiff, within: set<Address>, k: Key): Option<Op>
  {
    match k
    case Account(a) =>
      if a in within && a in state && Persists(state[a]) then
        Some(if Exists(env, prior, k) then Modify(InfoOf(env, a, state[a])) else New(InfoOf(env, a, state[a])))
      else None
    case Code(KeccakOf(code)) =>
      if !Exists(env, prior, k) && code != [] && DeploysIn(state, within, code) then Some(New(Bytecode(code)))
      else None
    case _ => None
  }

  /** The storage changes of one account over all diffs, merged in order. */
  function TrieFor(env: Before, states: seq<StateDiff>, a: Address): Option<TrieChanges> {
    if states == [] then None
    else
      var before, last := TrieFor(env, states[..|states| - 1], a), states[|states| - 1];
      if a !in last || !Persists(last[a]) then before
      else if before.None? then Some(StorageOf(env, a, last[a]))
      else Some(Add(before.value, StorageOf(env, a, last[a])))
  }

  function TrieLookup(t: TriesChanges, a: Address): Option<TrieChanges> {
    if a in t then Some(t[a]) else None
  }

  /** An account's storage changes when those of one more diff, for the accounts in `within`, are merged in. */
  function TrieNext(
    env: Before, tries: TriesChanges, state: StateDiff, within: set<Address>, a: Address): Option<TrieChanges>
  {
    if a in within && a in state && Persists(state[a]) then
      Some(WithTrieChanges(tries, a, StorageOf(env, a, state[a]))[a])
    else TrieLookup(tries, a)
  }

  lemma DeploysNext(states: seq<StateDiff>, state: StateDiff, code: seq<byte>)
    ensures Deploys(states + [state], code) <==> Deploys(states, code) || DeploysIn(state, state.Keys, code)
  {
    var all := states + [state];
    if Deploys(states, code) {
      var i :| 0 <= i < |states| && DeploysIn(states[i], states[i].Keys, code);
      assert all[i] == states[i];
    }
    if DeploysIn(state, state.Keys, code) {
      assert all[|states|] == state;
    }
  }

  /** Adding one diff to what is there never fails, and leaves what all diffs so far come to. */
  lemma SquashNext(env: Before, states: seq<StateDiff>, prior: ChangeSet, state: StateDiff, single: ChangeSet)
    requires forall k :: Lookup(prior, k) == Expected(env, states, k)
    requires forall k :: Lookup(single, k) == ExpectedSingle(env, prior, state, state.Keys, k)
    ensures Squash(prior, single).Ok?
    ensures forall k :: Lookup(Squash(prior, single).value, k) == Expected(env, states + [state], k)
  {
    forall k ensures !Clashes(prior, single, k) && SquashAt(prior, single, k) == Expected(env, states + [state], k) {
      SquashNextAt(env, states, prior, state, single, k);
    }
  }

  lemma SquashNextAt(
    env: Before, states: seq<StateDiff>, prior: ChangeSet, state: StateDiff, single: ChangeSet, k: Key)
    requires Lookup(prior, k) == Expected(env, states, k)
    requires Lookup(single, k) == ExpectedSingle(env, prior, state, state.Keys, k)
    ensures !Clashes(prior, single, k)
    ensures SquashAt(prior, single, k) == Expected(env, states + [state], k)
  {
    hide Deploys, DeploysIn;
    var all := states + [state];
    assert all[..|all| - 1] == states && all[|all| - 1] == state;
    match k {
      case Account(_) =>
      case Code(KeccakOf(code)) => DeploysNext(states, state, code);
      case _ =>
    }
  }

  lemma SingleNext(env: Before, prior: ChangeSet, state: StateDiff, within: set<Address>, a: Address, k: Key)
    requires a in state
    ensures ExpectedSingle(env, prior, state, within + {a}, k)
      == AfterOne(env, prior, state[a], a, ExpectedSingle(env, prior, state, within, k), k)
  {
    if k.Code? && k.hash.KeccakOf? {
      var code := k.hash.code;
      if DeploysIn(state, within, code) {
        var b :| b in within && b in state && Persists(state[b]) && state[b].info.code == Some(code);
        assert b in within + {a};
      }
      if Persists(state[a]) && state[a].info.code == Some(code) {
        assert a in within + {a};
      }
    }
  }

  // ----- All diffs -----

  /** The operations collected so far are those of the accounts gone through. */
  ghost predicate Collected(env: Before, prior: ChangeSet, state: StateDiff, done: set<Address>, single: ChangeSet) {
    forall k :: Lookup(single, k) == ExpectedSingle(env, prior, state, done, k)
  }

  ghost predicate TriesCollected(
    env: Before, tries: TriesChanges, state: StateDiff, done: set<Address>, now: TriesChanges)
  {
    forall a :: TrieLookup(now, a) == TrieNext(env, tries, state, done, a)
  }

  lemma CollectedOneMore(
    env: Before, prior: ChangeSet, state: StateDiff, done: set<Address>, a: Address,
    before: ChangeSet, after: ChangeSet)
    requires a in state && a !in done && Collected(env, prior, state, done, before)
    requires forall k :: Lookup(after, k) == AfterOne(env, prior, state[a], a, Lookup(before, k), k)
    ensures Collected(env, prior, state, done + {a}, after)
  {
    hide ExpectedSingle, AfterOne, Lookup;
    forall k ensures Lookup(after, k) == ExpectedSingle(env, prior, state, done + {a}, k) {
      SingleNext(env, prior, state, done, a, k);
    }
  }

  lemma TriesOneMore(
    env: Before, tries: TriesChanges, state: StateDiff, done: set<Address>, a: Address, now: TriesChanges)
    requires a in state && a !in done && TriesCollected(env, tries, state, done, now)
    ensures TriesCollected(env, tries, state, done + {a},
      if Persists(state[a]) then WithTrieChanges(now, a, StorageOf(env, a, state[a])) else now)
  {
    var after := if Persists(state[a]) then WithTrieChanges(now, a, StorageOf(env, a, state[a])) else now;
    assert TrieLookup(now, a) == TrieLookup(tries, a);
    forall b ensures TrieLookup(after, b) == TrieNext(env, tries, state, done + {a}, b) {
      assert TrieLookup(now, b) == TrieNext(env, tries, state, done, b);
    }
  }

  lemma NotYet(env: Before, prior: ChangeSet, state: StateDiff, done: set<Address>, a: Address, single: ChangeSet)
    requires a !in done && Collected(env, prior, state, done, single)
    ensures Account(a) !in single
  {
    assert Lookup(single, Account(a)) == None;
  }

  lemma NothingYet(env: Before, prior: ChangeSet, state: StateDiff, tries: TriesChanges)
    ensures Collected(env, prior, state, {}, map[]) && TriesCollected(env, tries, state, {}, tries)
  {
  }

  /** The changes of one diff, its accounts taken in whatever order the map yields them. */
  method SingleChanges(env: Before, prior: ChangeSet, state: StateDiff, tries: TriesChanges)
      returns (single: ChangeSet, tries': TriesChanges)
    ensures Collected(env, prior, state, state.Keys, single)
    ensures TriesCollected(env, tries, state, state.Keys, tries')
  {
    hide Collected, TriesCollected, AfterOne, WithTrieChanges, StorageOf;
    single, tries' := map[], tries;
    NothingYet(env, prior, state, tries);
    var rest := state.Keys;
    ghost var done: set<Address> := {};
    while rest != {}
      invariant done !! rest && done + rest == state.Keys
      invariant Collected(env, prior, state, done, single)
      invariant TriesCollected(env, tries, state, done, tries')
      decreases |rest|
    {
      var a :| a in rest;
      TriesOneMore(env, tries, state, done, a, tries');
      rest := rest - {a};
      if !Persists(state[a]) {
        CollectedOneMore(env, prior, state, done, a, single, single) by { NoChange(env, prior, state[a], a, single); }
        done := done + {a};
        continue;
      }
      NotYet(env, prior, state, done, a, single);
      var next, storage := AddAccountChanges(env, prior, a, state[a], single);
      CollectedOneMore(env, prior, state, done, a, single, next);
      single := next;
      tries' := WithTrieChanges(tries', a, storage);
      done := done + {a};
    }
    assert done == state.Keys;
  }

  lemma NoChange(env: Before, prior: ChangeSet, d: AccountDiff, a: Address, single: ChangeSet)
    requires !Persists(d)
    ensures forall k :: Lookup(single, k) == AfterOne(env, prior, d, a, Lookup(single, k), k)
  {
  }

  datatype Changes = Changes(accounts: ChangeSet, storage: TriesChanges)

  // ----- What a session leaves, by flags and fields -----

  /** The diff has the account touched, and not destroyed in the transaction that created it. */
  predicate ChangesAccount(state: StateDiff, a: Address) {
    a in state && state[a].touched && !state[a].selfDestructed
  }

  ghost predicate NeverChanged(states: seq<StateDiff>, a: Address) {
    forall i :: 0 <= i < |states| ==> !ChangesAccount(states[i], a)
  }

  /** Diff `i` changes the account and no later one does. */
  ghost predicate ChangedLast(states: seq<StateDiff>, a: Address, i: nat) {
    && i < |states|
    && ChangesAccount(states[i], a)
    && forall j :: i < j < |states| ==> !ChangesAccount(states[j], a)
  }

  /** The one operation on the account's record carries the diff's fields and the root of its storage changes. */
  ghost predicate Recorded(env: Before, r: Changes, a: Address, info: AccountInfo) {
    && Account(a) in r.accounts && a in r.storage
    && var op := r.accounts[Account(a)];
    && (if Account(a) in env.store then op.Modify? else op.New?)
    && op.value.Info?
    && op.value.nonce == info.nonce
    && op.value.balance == info.balance
    && op.value.codeHash == info.codeHash
    && op.value.storageRoot == r.storage[a].root
  }

  /** Some diff changes an account that brings this code along. */
  ghost predicate BroughtAlong(states: seq<StateDiff>, code: seq<byte>) {
    exists i, a :: 0 <= i < |states| && ChangesAccount(states[i], a) && states[i][a].info.code == Some(code)
  }

  /** The bytecode is written, once, exactly when it is not empty, not stored yet, and brought along. */
  ghost predicate CodeWritten(env: Before, states: seq<StateDiff>, r: Changes, code: seq<byte>) {
    var k := Code(KeccakOf(code));
    && (k in r.accounts <==> code != [] && k !in env.store && BroughtAlong(states, code))
    && (k in r.accounts ==> r.accounts[k] == New(Bytecode(code)))
  }

  lemma {:induction false} LastDiffByFlags(states: seq<StateDiff>, a: Address, i: nat)
    ensures NeverChanged(states, a) ==> LastDiff(states, a) == None
    ensures ChangedLast(states, a, i) ==> LastDiff(states, a) == Some(states[i][a])
    decreases |states|
  {
    if states != [] {
      var init := states[..|states| - 1];
      LastDiffByFlags(init, a, i);
      if NeverChanged(states, a) {
        forall j | 0 <= j < |init| ensures !ChangesAccount(init[j], a) {
          assert init[j] == states[j];
        }
      }
      if ChangedLast(states, a, i) && i < |init| {
        assert init[i] == states[i];
        forall j | i < j < |init| ensures !ChangesAccount(init[j], a) {
          assert init[j] == states[j];
        }
      }
    }
  }

  lemma AccountByFlags(env: Before, states: seq<StateDiff>, r: Changes, a: Address, i: nat)
    requires Lookup(r.accounts, Account(a)) == Expected(env, states, Account(a))
    requires TrieLookup(r.storage, a) == TrieFor(env, states, a)
    ensures NeverChanged(states, a) ==> Account(a) !in r.accounts && a !in r.storage
    ensures ChangedLast(states, a, i) ==> Recorded(env, r, a, states[i][a].info)
  {
    hide LastDiff, TrieFor, StorageOf;
    LastDiffByFlags(states, a, i);
    TrieForLast(env, states, a);
  }

  lemma CodeByFlags(env: Before, states: seq<StateDiff>, r: Changes, code: seq<byte>)
    requires Lookup(r.accounts, Code(KeccakOf(code))) == Expected(env, states, Code(KeccakOf(code)))
    ensures CodeWritten(env, states, r, code)
  {
    if BroughtAlong(states, code) {
      var i, a :| 0 <= i < |states| && ChangesAccount(states[i], a) && states[i][a].info.code == Some(code);
      assert DeploysIn(states[i], states[i].Keys, code);
    }
    if Deploys(states, code) {
      var i :| 0 <= i < |states| && DeploysIn(states[i], states[i].Keys, code);
      var a :| a in states[i] && Persists(states[i][a]) && states[i][a].info.code == Some(code);
      assert ChangesAccount(states[i], a);
    }
  }

  /**
   Squashing the diffs of a session never fails. Each resource ends up with one operation: new exactly
   when the store did not have it at the start, with the value of the last diff that persists it; and
   each account's storage changes are those of its diffs, merged in order. Told by flags and fields: an
   account no diff changes gets nothing, any other gets the record of the last diff that changes it, and
   code is written when some changed account brings it along.
   */
  method ExtractEvmChanges(env: Before, states: seq<StateDiff>) returns (r: Changes)
    ensures forall k :: Lookup(r.accounts, k) == Expected(env, states, k)
    ensures forall a :: TrieLookup(r.storage, a) == TrieFor(env, states, a)
    ensures forall a :: NeverChanged(states, a) ==> Account(a) !in r.accounts && a !in r.storage
    ensures forall a, i: nat :: ChangedLast(states, a, i) ==> Recorded(env, r, a, states[i][a].info)
    ensures forall code :: CodeWritten(env, states, r, code)
  {
    hide Expected, ExpectedSingle, Squash, NeverChanged, Recorded, CodeWritten;
    var changes: ChangeSet, tries: TriesChanges := map[], map[];
    forall k ensures Expected(env, [], k) == None {
      NothingExpected(env, k);
    }
    var i := 0;
    while i < |states|
      invariant 0 <= i <= |states|
      invariant forall k :: Lookup(changes, k) == Expected(env, states[..i], k)
      invariant forall a :: TrieLookup(tries, a) == TrieFor(env, states[..i], a)
    {
      assert states[..i + 1] == states[..i] + [states[i]] && states[..i + 1][..i] == states[..i];
      var single, tries' := SingleChanges(env, changes, states[i], tries);
      SquashNext(env, states[..i], changes, states[i], single);
      changes := Squash(changes, single).value;
      tries := tries';
      i := i + 1;
    }
    assert states[..i] == states;
    r := Changes(changes, tries);
    forall a | NeverChanged(states, a) ensures Account(a) !in r.accounts && a !in r.storage {
      AccountByFlags(env, states, r, a, 0);
    }
    forall a, i: nat | ChangedLast(states, a, i) ensures Recorded(env, r, a, states[i][a].info) {
      AccountByFlags(env, states, r, a, i);
    }
    forall code ensures CodeWritten(env, states, r, code) {
      CodeByFlags(env, states, r, code);
    }
  }

  lemma NothingExpected(env: Before, k: Key)
    ensures Expected(env, [], k) == None
  {
  }

  // ----- The storage a session leaves -----

  /** Merged over all diffs, an account's changes end with its last diff's root and hold all its nodes. */
  lemma {:induction false} TrieForLast(env: Before, states: seq<StateDiff>, a: Address)
    ensures TrieFor(env, states, a).Some? <==> LastDiff(states, a).Some?
    ensures TrieFor(env, states, a).Some? ==>
      var merged, last := TrieFor(env, states, a).value, StorageOf(env, a, LastDiff(states, a).value);
      merged.root == last.root && ContentAddressed(merged.diff) && Within(last.diff, merged.diff)
    decreases |states|
  {
    hide StorageOf;
    if states != [] {
      var init, last := states[..|states| - 1], states[|states| - 1];
      TrieForLast(env, init, a);
      if a in last && Persists(last[a]) {
        StorageAddressed(env, a, last[a]);
        if TrieFor(env, init, a).Some? {
          OverwritesNothing(TrieFor(env, init, a).value.diff, StorageOf(env, a, last[a]).diff);
        }
      }
    }
  }

  lemma StorageAddressed(env: Before, a: Address, d: AccountDiff)
    ensures ContentAddressed(StorageOf(env, a, d).diff)
  {
    CommitAddressed(env.repo.RootOf(a), d.slots);
  }

  /**
   Once a session's changes are applied, an account's record and its trie name the same root, which
   is complete and reads the last diff's slots over the stored ones. What earlier diffs of the same
   session wrote to that account's storage is not read.
   */
  lemma SessionStorage(env: Before, states: seq<StateDiff>, tries: TriesChanges, a: Address, path: Path)
    requires env.repo.Sound() && Complete(env.repo.NodesOf(a), env.repo.RootOf(a))
    requires forall b :: TrieLookup(tries, b) == TrieFor(env, states, b)
    requires LastDiff(states, a).Some?
    ensures var after, d := env.repo.ApplyAll(tries), LastDiff(states, a).value;
      && Expected(env, states, Account(a)).value.value.storageRoot == after.RootOf(a)
      && Complete(after.NodesOf(a), after.RootOf(a))
      && Get(after.NodesOf(a), after.RootOf(a), path) == Ok(SlotAfter(d.slots, path,
           Get(env.repo.NodesOf(a), env.repo.RootOf(a), path).value))
  {
    hide Get, Put, NewNodes;
    var d := LastDiff(states, a).value;
    var nodes, c := env.repo.NodesOf(a), StorageOf(env, a, d);
    TrieForLast(env, states, a);
    assert TrieLookup(tries, a) == TrieFor(env, states, a);
    var all := nodes + tries[a].diff;
    assert env.repo.ApplyAll(tries).NodesOf(a) == all;
    SlotsRead(nodes, env.repo.RootOf(a), d.slots, path);
    OverwritesNothing(nodes, tries[a].diff);
    WithinTransitive(c.diff, tries[a].diff, all);
    AllWithin(nodes, c.diff, all);
    CompleteKeeps(nodes + c.diff, all, c.root);
    ReadsKeep(nodes + c.diff, all, c.root, path);
  }

  /** All slots the diffs of a session write for one account, in order. */
  function SlotsOf(states: seq<StateDiff>, a: Address): seq<Slot> {
    if states == [] then []
    else
      var last := states[|states| - 1];
      SlotsOf(states[..|states| - 1], a) + (if a in last && Persists(last[a]) then last[a].slots else [])
  }

  /** Those among them that the account's last diff comes after. */
  function Earlier(states: seq<StateDiff>, a: Address): seq<Slot> {
    if states == [] then []
    else
      var init, last := states[..|states| - 1], states[|states| - 1];
      if a in last && Persists(last[a]) then SlotsOf(init, a) else Earlier(init, a)
  }

  lemma {:induction false} EarlierThenLast(states: seq<StateDiff>, a: Address)
    requires LastDiff(states, a).Some?
    ensures SlotsOf(states, a) == Earlier(states, a) + LastDiff(states, a).value.slots
    decreases |states|
  {
    var init, last := states[..|states| - 1], states[|states| - 1];
    if !(a in last && Persists(last[a])) {
      EarlierThenLast(init, a);
    }
  }

  /**
   A slot reads what the session's whole history of writes makes of it exactly when the account's last
   diff writes it, or the earlier diffs leave it at its stored value.
   */
  lemma HistoryReadIff(env: Before, states: seq<StateDiff>, tries: TriesChanges, a: Address, path: Path)
    requires env.repo.Sound() && Complete(env.repo.NodesOf(a), env.repo.RootOf(a))
    requires forall b :: TrieLookup(tries, b) == TrieFor(env, states, b)
    requires LastDiff(states, a).Some?
    ensures Get(env.repo.NodesOf(a), env.repo.RootOf(a), path).Ok?
    ensures var after := env.repo.ApplyAll(tries);
      var stored := Get(env.repo.NodesOf(a), env.repo.RootOf(a), path).value;
      Get(after.NodesOf(a), after.RootOf(a), path) == Ok(SlotAfter(SlotsOf(states, a), path, stored)) <==>
        Writes(LastDiff(states, a).value.slots, path) || SlotAfter(Earlier(states, a), path, stored) == stored
  {
    hide Get, TrieFor, LastDiff, SlotsOf, Earlier, SlotAfter, Writes;
    var last := LastDiff(states, a).value.slots;
    var stored := Get(env.repo.NodesOf(a), env.repo.RootOf(a), path).value;
    SessionStorage(env, states, tries, a, path);
    EarlierThenLast(states, a);
    SlotAfterConcat(Earlier(states, a), last, path, stored);
    SlotAfterWrites(last, path, stored, SlotAfter(Earlier(states, a), path, stored));
  }

  /** A slot that only the first of two diffs writes is lost: it reads as never written. */
  lemma EarlierWriteLost(env: Before, states: seq<StateDiff>, info: AccountInfo) returns (tries: TriesChanges)
    requires env == Before({}, Repository(map[], map[]))
    requires states == [map[1 := AccountDiff(info, true, false, [Slot([0], 5)])],
                        map[1 := AccountDiff(info, true, false, [Slot([1], 6)])]]
    ensures forall b :: TrieLookup(tries, b) == TrieFor(env, states, b)
    ensures SlotAfter(SlotsOf(states, 1), [0], None) == Some(5)
    ensures var after := env.repo.ApplyAll(tries); Get(after.NodesOf(1), after.RootOf(1), [0]) == Ok(None)
  {
    var init := states[..1];
    assert init == [states[0]] && init[..0] == [];
    assert SlotsOf(init, 1) == [Slot([0], 5)];
    assert SlotsOf(states, 1) == [Slot([0], 5), Slot([1], 6)];
    assert [Slot([0], 5), Slot([1], 6)][..1] == [Slot([0], 5)];
    TrieForLast(env, states, 1);
    tries := map[1 := TrieFor(env, states, 1).value];
    forall b | b != 1 ensures TrieFor(env, states, b) == None {
      assert TrieFor(env, init, b) == None;
    }
    SessionStorage(env, states, tries, 1, [0]);
  }
}
