/**
 Transfers inside the EVM are not visible in the Move ledger while a transaction runs. They are
 logged, and replayed when the body is over: first every call's value goes back from the EVM native
 account to the caller, then every logged transfer is made in order. This module relates that
 deferred order to the history in which each call took effect when it happened.
 */
module Replay {
  import opened Arith
  import opened Ledger

  /** One EVM call: `payer` hands `value` to the EVM native account, and `origin` spends it inside. */
  datatype EvmCall =
    EvmCall(payer: Account, origin: Account, value: nat, transfers: seq<Transfer>)

  /** What a transaction body does to balances, in order. */
  datatype Event = Pay(t: Transfer) | Call(c: EvmCall)

  function Payment(c: EvmCall): Transfer {
    Transfer(c.payer, EVM_NATIVE, c.value)
  }

  function Credit(c: EvmCall): Transfer {
    Transfer(EVM_NATIVE, c.origin, c.value)
  }

  function MovePart(e: Event): seq<Transfer> {
    if e.Pay? then [e.t] else [Payment(e.c)]
  }

  function OriginPart(e: Event): seq<Transfer> {
    if e.Pay? then [] else [Credit(e.c)]
  }

  function EvmPart(e: Event): seq<Transfer> {
    if e.Pay? then [] else e.c.transfers
  }

  function HistoryPart(e: Event): seq<Transfer> {
    if e.Pay? then [e.t] else [Payment(e.c), Credit(e.c)] + e.c.transfers
  }

  function Collect(events: seq<Event>, part: Event -> seq<Transfer>): seq<Transfer> {
    if events == [] then []
    else Collect(events[..|events| - 1], part) + part(events[|events| - 1])
  }

  /** The transfers made while the body runs. */
  function MoveOps(events: seq<Event>): seq<Transfer> {
    Collect(events, MovePart)
  }

  /** The transfers made after it: all credits, then all EVM transfers. */
  function ReplayOps(events: seq<Event>): seq<Transfer> {
    Collect(events, OriginPart) + Collect(events, EvmPart)
  }

  /** Each call paid, credited and carried out on the spot. */
  function History(events: seq<Event>): seq<Transfer> {
    Collect(events, HistoryPart)
  }

  // ----- Collected lists -----

  lemma {:induction false} CollectConcat(a: seq<Event>, b: seq<Event>, part: Event -> seq<Transfer>)
    ensures Collect(a + b, part) == Collect(a, part) + Collect(b, part)
  {
    if b == [] {
      assert a + b == a;
    } else {
      var init := b[..|b| - 1];
      CollectConcat(a, init, part);
      assert (a + b)[..|a + b| - 1] == a + init;
    }
  }

  lemma {:induction false} CollectAt(events: seq<Event>, i: nat, part: Event -> seq<Transfer>)
    requires i < |events|
    ensures Collect(events[..i + 1], part) == Collect(events[..i], part) + part(events[i])
    ensures Collect(events, part) == Collect(events[..i + 1], part) + Collect(events[i + 1..], part)
  {
    assert events[..i + 1][..i] == events[..i];
    CollectConcat(events[..i + 1], events[i + 1..], part);
    assert events[..i + 1] + events[i + 1..] == events;
  }

  lemma {:induction false} NetNonNegative(events: seq<Event>, part: Event -> seq<Transfer>, x: Account)
    requires forall i :: 0 <= i < |events| ==> Net(part(events[i]), x) >= 0
    ensures Net(Collect(events, part), x) >= 0
  {
    if events != [] {
      var init := events[..|events| - 1];
      NetNonNegative(init, part, x);
      NetConcat(Collect(init, part), part(events[|events| - 1]), x);
    }
  }

  lemma NetOne(t: Transfer, x: Account)
    ensures Net([t], x) == Delta(t, x)
  {
    assert [t][1..] == [];
  }

  /** Deferring the EVM effects changes no account's total change. */
  lemma {:induction false} NetOfHistory(events: seq<Event>, x: Account)
    ensures Net(History(events), x)
      == Net(MoveOps(events), x) + Net(Collect(events, OriginPart), x) + Net(Collect(events, EvmPart), x)
  {
    if events != [] {
      var init, e := events[..|events| - 1], events[|events| - 1];
      NetOfHistory(init, x);
      NetConcat(History(init), HistoryPart(e), x);
      NetConcat(MoveOps(init), MovePart(e), x);
      NetConcat(Collect(init, OriginPart), OriginPart(e), x);
      NetConcat(Collect(init, EvmPart), EvmPart(e), x);
      HistoryPartNet(e, x);
    }
  }

  lemma HistoryPartNet(e: Event, x: Account)
    ensures Net(HistoryPart(e), x) == Net(MovePart(e), x) + Net(OriginPart(e), x) + Net(EvmPart(e), x)
  {
    if e.Call? {
      var two := [Payment(e.c), Credit(e.c)];
      NetConcat(two, e.c.transfers, x);
      assert two[1..] == [Credit(e.c)];
      NetOne(Payment(e.c), x);
      NetOne(Credit(e.c), x);
    }
  }

  lemma DeferredNet(events: seq<Event>, x: Account)
    ensures Net(MoveOps(events) + ReplayOps(events), x) == Net(History(events), x)
  {
    NetConcat(MoveOps(events), ReplayOps(events), x);
    NetConcat(Collect(events, OriginPart), Collect(events, EvmPart), x);
    NetOfHistory(events, x);
  }

  /** When both orders run to the end they leave the same balances everywhere. */
  lemma DeferredSameBalances(b: Balances, events: seq<Event>, x: Account)
    requires Run(b, History(events)).complete
    requires Run(b, MoveOps(events) + ReplayOps(events)).complete
    ensures Bal(Run(b, MoveOps(events) + ReplayOps(events)).balances, x) == Bal(Run(b, History(events)).balances, x)
  {
    DeferredNet(events, x);
    CompleteNet(b, History(events), x);
    CompleteNet(b, MoveOps(events) + ReplayOps(events), x);
  }

  // ----- When the replay cannot fall short -----

  /** The account that a body step takes tokens from in the Move ledger. */
  function Payer(e: Event): Account {
    if e.Pay? then e.t.from else e.c.payer
  }

  ghost predicate MoveDebited(events: seq<Event>, x: Account) {
    exists i | 0 <= i < |events| :: Payer(events[i]) == x
  }

  function Debits(ts: seq<Transfer>, x: Account): nat {
    if ts == [] then 0 else (if ts[0].from == x then ts[0].amount else 0) + Debits(ts[1..], x)
  }

  function CreditTo(c: EvmCall, x: Account): nat {
    if c.origin == x then c.value else 0
  }

  /**
   The EVM native account never spends on its own, and an account that pays from the Move ledger
   spends inside a call no more than that call's credit to it. Contracts meet the second part by
   never paying from the Move ledger, ordinary accounts by spending in the EVM only a call's value.
   */
  ghost predicate Separated(events: seq<Event>) {
    && !MoveDebited(events, EVM_NATIVE)
    && (forall i | 0 <= i < |events| && events[i].Call? ::
          && Debits(events[i].c.transfers, EVM_NATIVE) == 0
          && forall j | 0 <= j < |events| ::
            Debits(events[i].c.transfers, Payer(events[j])) <= CreditTo(events[i].c, Payer(events[j])))
  }

  lemma {:induction false} DebitsBound(ts: seq<Transfer>, k: nat, x: Account)
    requires k < |ts| && ts[k].from == x
    ensures Net(ts[..k], x) >= ts[k].amount - Debits(ts, x)
  {
    if k > 0 {
      DebitsBound(ts[1..], k - 1, x);
      assert ts[..k][1..] == ts[1..][..k - 1];
    }
  }

  lemma {:induction false} DebitsNet(ts: seq<Transfer>, x: Account)
    ensures Net(ts, x) >= -(Debits(ts, x) as int)
  {
    if ts != [] {
      DebitsNet(ts[1..], x);
    }
  }

  /** The `j`-th of `t` is covered when `s` has gone before. */
  ghost predicate CoveredAfter(b: Balances, s: seq<Transfer>, t: seq<Transfer>, j: nat)
    requires j < |t|
  {
    Bal(b, t[j].from) + Net(s, t[j].from) + Net(t[..j], t[j].from) >= t[j].amount
  }

  lemma CoveredAppend(b: Balances, s: seq<Transfer>, t: seq<Transfer>)
    ensures Covered(b, s + t) <==> Covered(b, s) && forall j :: 0 <= j < |t| ==> CoveredAfter(b, s, t, j)
  {
    forall j | 0 <= j < |t| ensures CoveredAt(b, s + t, |s| + j) <==> CoveredAfter(b, s, t, j) {
      assert (s + t)[..|s| + j] == s + t[..j];
      NetConcat(s, t[..j], t[j].from);
    }
    forall k | 0 <= k < |s| ensures CoveredAt(b, s + t, k) <==> CoveredAt(b, s, k) {
      assert (s + t)[..k] == s[..k];
    }
    if Covered(b, s + t) {
      forall k | 0 <= k < |s| ensures CoveredAt(b, s, k) {
        assert CoveredAt(b, s + t, k);
      }
      forall j | 0 <= j < |t| ensures CoveredAfter(b, s, t, j) {
        assert CoveredAt(b, s + t, |s| + j);
      }
    }
    if Covered(b, s) && forall j :: 0 <= j < |t| ==> CoveredAfter(b, s, t, j) {
      forall k | 0 <= k < |s + t| ensures CoveredAt(b, s + t, k) {
        if k < |s| {
          assert CoveredAt(b, s, k);
        } else {
          assert CoveredAfter(b, s, t, k - |s|);
        }
      }
    }
  }

  /** All values of the calls together. */
  function Values(events: seq<Event>): nat {
    if events == [] then 0
    else Values(events[..|events| - 1]) + (var e := events[|events| - 1]; if e.Call? then e.c.value else 0)
  }

  /** What the body paid into the EVM native account covers every credit out of it. */
  lemma {:induction false} NativeHoldsValues(events: seq<Event>)
    requires !MoveDebited(events, EVM_NATIVE)
    ensures Net(MoveOps(events), EVM_NATIVE) >= Values(events)
  {
    if events != [] {
      var init, e := events[..|events| - 1], events[|events| - 1];
      assert !MoveDebited(init, EVM_NATIVE) by {
        forall i | 0 <= i < |init| ensures Payer(init[i]) != EVM_NATIVE {
          assert init[i] == events[i];
        }
      }
      NativeHoldsValues(init);
      NetConcat(MoveOps(init), MovePart(e), EVM_NATIVE);
      assert Payer(e) != EVM_NATIVE;
      NetOne(MovePart(e)[0], EVM_NATIVE);
    }
  }

  lemma {:induction false} CreditsCovered(b: Balances, events: seq<Event>)
    requires Bal(b, EVM_NATIVE) >= Values(events)
    ensures Covered(b, Collect(events, OriginPart))
    ensures Net(Collect(events, OriginPart), EVM_NATIVE) >= -(Values(events) as int)
  {
    if events != [] {
      var init, e := events[..|events| - 1], events[|events| - 1];
      CreditsCovered(b, init);
      CoveredAppend(b, Collect(init, OriginPart), OriginPart(e));
      NetConcat(Collect(init, OriginPart), OriginPart(e), EVM_NATIVE);
      if e.Call? {
        assert OriginPart(e)[..0] == [];
        NetOne(Credit(e.c), EVM_NATIVE);
      }
    }
  }

  ghost predicate KeepsCredit(e: Event, x: Account) {
    Net(OriginPart(e), x) + Net(EvmPart(e), x) >= 0
  }

  lemma {:induction false} CreditsKept(events: seq<Event>, i: nat, x: Account)
    requires i <= |events| && forall k :: 0 <= k < |events| ==> KeepsCredit(events[k], x)
    ensures Net(Collect(events[..i], OriginPart), x) + Net(Collect(events[..i], EvmPart), x) >= 0
  {
    if i > 0 {
      CreditsKept(events, i - 1, x);
      NetOfNext(events, i - 1, OriginPart, x);
      NetOfNext(events, i - 1, EvmPart, x);
      assert KeepsCredit(events[i - 1], x);
    }
  }

  /** Up to event `i`, a Move payer spent in the EVM at most what calls credited to it. */
  lemma PayerKeepsCredits(events: seq<Event>, i: nat, x: Account)
    requires Separated(events) && MoveDebited(events, x) && i <= |events|
    ensures Net(Collect(events[..i], OriginPart), x) + Net(Collect(events[..i], EvmPart), x) >= 0
  {
    forall k | 0 <= k < |events| ensures KeepsCredit(events[k], x) {
      CallKeepsCredit(events, k, x);
    }
    CreditsKept(events, i, x);
  }

  lemma {:induction false} NetOfNext(events: seq<Event>, i: nat, part: Event -> seq<Transfer>, x: Account)
    requires i < |events|
    ensures Net(Collect(events[..i + 1], part), x) == Net(Collect(events[..i], part), x) + Net(part(events[i]), x)
  {
    CollectAt(events, i, part);
    NetConcat(Collect(events[..i], part), part(events[i]), x);
  }

  lemma CallKeepsCredit(events: seq<Event>, i: nat, x: Account)
    requires Separated(events) && MoveDebited(events, x) && i < |events|
    ensures KeepsCredit(events[i], x)
  {
    var e := events[i];
    var j :| 0 <= j < |events| && Payer(events[j]) == x;
    OriginPartAdds(e, x);
    DebitsNet(EvmPart(e), x);
    assert e.Call? ==> Debits(e.c.transfers, Payer(events[j])) <= CreditTo(e.c, x);
  }

  /** Credits still to come, and payments of others, can only add to an account. */
  lemma LaterCreditsAdd(events: seq<Event>, i: nat, x: Account)
    requires i < |events| && x != EVM_NATIVE
    ensures Net(Collect(events, OriginPart), x) >= Net(Collect(events[..i + 1], OriginPart), x)
  {
    var rest := events[i + 1..];
    CollectAt(events, i, OriginPart);
    NetConcat(Collect(events[..i + 1], OriginPart), Collect(rest, OriginPart), x);
    forall k | 0 <= k < |rest| ensures Net(OriginPart(rest[k]), x) >= 0 {
      OriginPartAdds(rest[k], x);
    }
    NetNonNegative(rest, OriginPart, x);
  }

  lemma OriginPartAdds(e: Event, x: Account)
    requires x != EVM_NATIVE
    ensures Net(OriginPart(e), x) == if e.Call? then CreditTo(e.c, x) else 0
  {
    if e.Call? {
      NetOne(Credit(e.c), x);
    }
  }

  lemma LaterPaymentsAdd(events: seq<Event>, i: nat, x: Account)
    requires i < |events| && !MoveDebited(events, x)
    ensures Net(MoveOps(events), x) >= Net(MoveOps(events[..i + 1]), x)
  {
    var rest := events[i + 1..];
    CollectAt(events, i, MovePart);
    NetConcat(MoveOps(events[..i + 1]), MoveOps(rest), x);
    forall k | 0 <= k < |rest| ensures Net(MovePart(rest[k]), x) >= 0 {
      assert rest[k] == events[i + 1 + k] && Payer(events[i + 1 + k]) != x;
      NetOne(MovePart(rest[k])[0], x);
    }
    NetNonNegative(rest, MovePart, x);
  }

  /** In the history, the `j`-th transfer inside event `i` was covered when it happened. */
  lemma CoveredInHistory(b: Balances, events: seq<Event>, i: nat, j: nat)
    requires Covered(b, History(events)) && i < |events| && events[i].Call? && j < |events[i].c.transfers|
    ensures var ts := events[i].c.transfers; var x := ts[j].from;
      Bal(b, x) + Net(MoveOps(events[..i + 1]), x) + Net(Collect(events[..i + 1], OriginPart), x)
        + Net(Collect(events[..i], EvmPart), x) + Net(ts[..j], x) >= ts[j].amount
  {
    var c := events[i].c;
    var x := c.transfers[j].from;
    var two := [Payment(c), Credit(c)];
    CollectAt(events, i, HistoryPart);
    CoveredAppend(b, History(events[..i + 1]), Collect(events[i + 1..], HistoryPart));
    CoveredAppend(b, History(events[..i]), two + c.transfers);
    assert CoveredAfter(b, History(events[..i]), two + c.transfers, 2 + j);
    assert (two + c.transfers)[2 + j] == c.transfers[j];
    assert (two + c.transfers)[..2 + j] == two + c.transfers[..j];
    NetConcat(two, c.transfers[..j], x);
    NetOfHistory(events[..i], x);
    CollectAt(events, i, MovePart);
    CollectAt(events, i, OriginPart);
    NetConcat(MoveOps(events[..i]), [Payment(c)], x);
    NetConcat(Collect(events[..i], OriginPart), [Credit(c)], x);
    assert two[1..] == [Credit(c)];
    NetOne(Payment(c), x);
    NetOne(Credit(c), x);
  }

  lemma TransferCovered(b: Balances, events: seq<Event>, i: nat, j: nat)
    requires Separated(events) && Covered(b, History(events)) && Run(b, MoveOps(events)).complete
    requires i < |events| && events[i].Call? && j < |events[i].c.transfers|
    ensures var ts := events[i].c.transfers; var x := ts[j].from;
      Bal(b, x) + Net(MoveOps(events), x) + Net(Collect(events, OriginPart), x)
        + Net(Collect(events[..i], EvmPart), x) + Net(ts[..j], x) >= ts[j].amount
  {
    var ts := events[i].c.transfers;
    var x := ts[j].from;
    if ts[j].amount == 0 && x == EVM_NATIVE {
      NativeStaysCovered(b, events, i, j);
    } else {
      DebitsBound(ts, j, x);
      DebitsNet(ts[..j], x);
      assert x != EVM_NATIVE by { DebitsAtLeast(ts, j, x); }
      LaterCreditsAdd(events, i, x);
      if MoveDebited(events, x) {
        CompleteNet(b, MoveOps(events), x);
        PayerKeepsCredits(events, i, x);
        var c := events[i].c;
        CollectAt(events, i, OriginPart);
        NetConcat(Collect(events[..i], OriginPart), [Credit(c)], x);
        var k :| 0 <= k < |events| && Payer(events[k]) == x;
        assert Debits(ts, Payer(events[k])) <= CreditTo(c, x);
        NetOne(Credit(c), x);
      } else {
        LaterPaymentsAdd(events, i, x);
        CoveredInHistory(b, events, i, j);
      }
    }
  }

  lemma {:induction false} DebitsAtLeast(ts: seq<Transfer>, k: nat, x: Account)
    requires k < |ts| && ts[k].from == x
    ensures Debits(ts, x) >= ts[k].amount
  {
    if k > 0 {
      DebitsAtLeast(ts[1..], k - 1, x);
    }
  }

  /** The EVM native account, which never spends, always has at least nothing left. */
  lemma NativeStaysCovered(b: Balances, events: seq<Event>, i: nat, j: nat)
    requires Separated(events) && i < |events| && events[i].Call? && j <= |events[i].c.transfers|
    ensures Net(MoveOps(events), EVM_NATIVE) + Net(Collect(events, OriginPart), EVM_NATIVE)
      + Net(Collect(events[..i], EvmPart), EVM_NATIVE)
      + Net(events[i].c.transfers[..j], EVM_NATIVE) >= 0
  {
    var ts := events[i].c.transfers;
    NativeHoldsValues(events);
    CreditsCovered(map[EVM_NATIVE := Values(events)], events);
    forall k | 0 <= k < |events[..i]| ensures Net(EvmPart(events[..i][k]), EVM_NATIVE) >= 0 {
      DebitsNet(EvmPart(events[..i][k]), EVM_NATIVE);
    }
    NetNonNegative(events[..i], EvmPart, EVM_NATIVE);
    DebitsPrefix(ts, j, EVM_NATIVE);
    DebitsNet(ts[..j], EVM_NATIVE);
  }

  lemma {:induction false} DebitsPrefix(ts: seq<Transfer>, k: nat, x: Account)
    requires k <= |ts|
    ensures Debits(ts[..k], x) <= Debits(ts, x)
  {
    if k > 0 {
      DebitsPrefix(ts[1..], k - 1, x);
      assert ts[..k][1..] == ts[1..][..k - 1];
    }
  }

  lemma {:induction false} TransfersCovered(b: Balances, b2: Balances, events: seq<Event>, i: nat)
    requires Separated(events) && Covered(b, History(events)) && Run(b, MoveOps(events)).complete
    requires i <= |events|
    requires forall x :: Bal(b2, x) == Bal(b, x) + Net(MoveOps(events), x) + Net(Collect(events, OriginPart), x)
    ensures Covered(b2, Collect(events[..i], EvmPart))
  {
    if i > 0 {
      TransfersCovered(b, b2, events, i - 1);
      var e := events[i - 1];
      var s := Collect(events[..i - 1], EvmPart);
      CollectAt(events, i - 1, EvmPart);
      forall j | 0 <= j < |EvmPart(e)| ensures CoveredAfter(b2, s, EvmPart(e), j) {
        TransferCovered(b, events, i - 1, j);
      }
      CoveredAppend(b2, s, EvmPart(e));
    }
  }

  /**
   The replay never falls short: if every step of the history was covered when it happened and the
   body's own transfers went through, the deferred order also runs to its end.
   */
  lemma ReplayRunsToEnd(b: Balances, events: seq<Event>)
    requires Separated(events)
    requires Run(b, History(events)).complete && Run(b, MoveOps(events)).complete
    ensures Run(b, MoveOps(events) + ReplayOps(events)).complete
  {
    var b1 := Run(b, MoveOps(events)).balances;
    var credits, evm := Collect(events, OriginPart), Collect(events, EvmPart);
    forall x ensures Bal(b1, x) == Bal(b, x) + Net(MoveOps(events), x) {
      CompleteNet(b, MoveOps(events), x);
    }
    NativeHoldsValues(events);
    CreditsCovered(b1, events);
    RunIffCovered(b1, credits);
    var b2 := Run(b1, credits).balances;
    forall x ensures Bal(b2, x) == Bal(b, x) + Net(MoveOps(events), x) + Net(credits, x) {
      CompleteNet(b1, credits, x);
    }
    RunIffCovered(b, History(events));
    TransfersCovered(b, b2, events, |events|);
    assert events[..|events|] == events;
    RunIffCovered(b2, evm);
    RunConcat(b1, credits, evm);
    RunConcat(b, MoveOps(events), ReplayOps(events));
  }

  /** Whatever the balances: a history that goes through, with its body, has a replay that goes through. */
  ghost predicate NeverFallsShort(events: seq<Event>) {
    forall b :: Run(b, History(events)).complete && Run(b, MoveOps(events)).complete ==>
      Run(b, MoveOps(events) + ReplayOps(events)).complete
  }

  /** The deferred order needs no more of any account than the history or the body does. */
  ghost predicate NeedsNoMore(events: seq<Event>) {
    forall x :: Need(MoveOps(events) + ReplayOps(events), x) <= Max(Need(History(events), x), Need(MoveOps(events), x))
  }

  /** Exactly which bodies have replays that cannot fall short, told from their events alone. */
  lemma NeverFallsShortIff(events: seq<Event>)
    ensures NeverFallsShort(events) <==> NeedsNoMore(events)
  {
    var past, body, deferred := History(events), MoveOps(events), MoveOps(events) + ReplayOps(events);
    if NeverFallsShort(events) {
      var b := JustEnough(past, body);
      forall x ensures Bal(b, x) == Max(Need(past, x), Need(body, x)) {
        JustEnoughIs(past, body, x);
      }
      RunIffNeeds(b, past);
      RunIffNeeds(b, body);
      RunIffNeeds(b, deferred);
      assert Run(b, past).complete && Run(b, body).complete;
      forall x ensures Need(deferred, x) <= Max(Need(past, x), Need(body, x)) {
        assert Bal(b, x) >= Need(deferred, x);
      }
    }
    if NeedsNoMore(events) {
      forall b | Run(b, past).complete && Run(b, body).complete ensures Run(b, deferred).complete {
        RunIffNeeds(b, past);
        RunIffNeeds(b, body);
        RunIffNeeds(b, deferred);
      }
    }
  }

  /** Separated bodies are among them. */
  lemma SeparatedNeedsNoMore(events: seq<Event>)
    requires Separated(events)
    ensures NeverFallsShort(events) && NeedsNoMore(events)
  {
    forall b | Run(b, History(events)).complete && Run(b, MoveOps(events)).complete
      ensures Run(b, MoveOps(events) + ReplayOps(events)).complete
    {
      ReplayRunsToEnd(b, events);
    }
    NeverFallsShortIff(events);
  }

  // ----- The EVM native account -----

  function DirectPart(e: Event): seq<Transfer> {
    if e.Pay? then [e.t] else []
  }

  /** What a call's payment and its credit come to together: the value passes from payer to origin. */
  function PassedPart(e: Event): seq<Transfer> {
    if e.Pay? then [e.t] else [Transfer(e.c.payer, e.c.origin, e.c.value)]
  }

  lemma PassedPartNet(e: Event, x: Account)
    ensures Net(MovePart(e), x) + Net(OriginPart(e), x) == Net(PassedPart(e), x)
  {
    if e.Call? {
      NetOne(Payment(e.c), x);
      NetOne(Credit(e.c), x);
      NetOne(Transfer(e.c.payer, e.c.origin, e.c.value), x);
    }
  }

  /** The passage through the EVM native account cancels for every account, that one included. */
  lemma {:induction false} PassedNet(events: seq<Event>, x: Account)
    ensures Net(MoveOps(events) + ReplayOps(events), x)
      == Net(Collect(events, PassedPart), x) + Net(Collect(events, EvmPart), x)
  {
    NetConcat(MoveOps(events), ReplayOps(events), x);
    NetConcat(Collect(events, OriginPart), Collect(events, EvmPart), x);
    PassedMoves(events, x);
  }

  lemma {:induction false} PassedMoves(events: seq<Event>, x: Account)
    ensures Net(MoveOps(events), x) + Net(Collect(events, OriginPart), x) == Net(Collect(events, PassedPart), x)
  {
    if events != [] {
      var init, e := events[..|events| - 1], events[|events| - 1];
      PassedMoves(init, x);
      NetConcat(MoveOps(init), MovePart(e), x);
      NetConcat(Collect(init, OriginPart), OriginPart(e), x);
      NetConcat(Collect(init, PassedPart), PassedPart(e), x);
      PassedPartNet(e, x);
    }
  }

  /** All that a body does to balances in the end: direct payments, values passed on, EVM transfers. */
  function EffectPart(e: Event): seq<Transfer> {
    PassedPart(e) + EvmPart(e)
  }

  lemma {:induction false} EffectNet(events: seq<Event>, x: Account)
    ensures Net(Collect(events, EffectPart), x)
      == Net(Collect(events, PassedPart), x) + Net(Collect(events, EvmPart), x)
  {
    if events != [] {
      var init, e := events[..|events| - 1], events[|events| - 1];
      EffectNet(init, x);
      NetConcat(Collect(init, EffectPart), EffectPart(e), x);
      NetConcat(PassedPart(e), EvmPart(e), x);
      NetConcat(Collect(init, PassedPart), PassedPart(e), x);
      NetConcat(Collect(init, EvmPart), EvmPart(e), x);
    }
  }

  /**
   For every body and every account, the EVM native one included: the replay leaves it changed by the
   direct payments, the values that pass from payer to origin, and the EVM transfers that name it, and
   unchanged exactly when those cancel.
   */
  lemma AccountChange(b: Balances, events: seq<Event>, x: Account)
    requires Run(b, MoveOps(events) + ReplayOps(events)).complete
    ensures var after := Run(b, MoveOps(events) + ReplayOps(events)).balances;
      && Bal(after, x) == Bal(b, x) + Net(Collect(events, PassedPart), x) + Net(Collect(events, EvmPart), x)
      && (Bal(after, x) == Bal(b, x) <==> Net(Collect(events, EffectPart), x) == 0)
  {
    CompleteNet(b, MoveOps(events) + ReplayOps(events), x);
    PassedNet(events, x);
    EffectNet(events, x);
  }

  /** Payers and origins are other accounts than the EVM native one. */
  ghost predicate NativeOnlyCarries(events: seq<Event>) {
    forall i | 0 <= i < |events| && events[i].Call? ::
      events[i].c.payer != EVM_NATIVE && events[i].c.origin != EVM_NATIVE
  }

  lemma {:induction false} PassedIsDirect(events: seq<Event>)
    requires NativeOnlyCarries(events)
    ensures Net(Collect(events, PassedPart), EVM_NATIVE) == Net(Collect(events, DirectPart), EVM_NATIVE)
  {
    if events != [] {
      var init, e := events[..|events| - 1], events[|events| - 1];
      PassedIsDirect(init);
      NetConcat(Collect(init, PassedPart), PassedPart(e), EVM_NATIVE);
      NetConcat(Collect(init, DirectPart), DirectPart(e), EVM_NATIVE);
      if e.Call? {
        NetOne(PassedPart(e)[0], EVM_NATIVE);
      }
    }
  }

  /** What the native account sends and gets on its own, by a direct payment or inside the EVM. */
  function OwnPart(e: Event): seq<Transfer> {
    if e.Pay? then [e.t] else e.c.transfers
  }

  lemma {:induction false} OwnNet(events: seq<Event>, x: Account)
    ensures Net(Collect(events, OwnPart), x) == Net(Collect(events, DirectPart), x) + Net(Collect(events, EvmPart), x)
  {
    if events != [] {
      var init, e := events[..|events| - 1], events[|events| - 1];
      OwnNet(init, x);
      NetConcat(Collect(init, OwnPart), OwnPart(e), x);
      NetConcat(Collect(init, DirectPart), DirectPart(e), x);
      NetConcat(Collect(init, EvmPart), EvmPart(e), x);
    }
  }

  /** Where the EVM native account only carries values, passing them on leaves it as it was. */
  lemma NativeChange(b: Balances, events: seq<Event>)
    requires NativeOnlyCarries(events) && Run(b, MoveOps(events) + ReplayOps(events)).complete
    ensures var after := Run(b, MoveOps(events) + ReplayOps(events)).balances;
      && Bal(after, EVM_NATIVE) == Bal(b, EVM_NATIVE)
           + Net(Collect(events, DirectPart), EVM_NATIVE) + Net(Collect(events, EvmPart), EVM_NATIVE)
      && (Bal(after, EVM_NATIVE) == Bal(b, EVM_NATIVE) <==> Net(Collect(events, OwnPart), EVM_NATIVE) == 0)
  {
    AccountChange(b, events, EVM_NATIVE);
    PassedIsDirect(events);
    OwnNet(events, EVM_NATIVE);
  }

  /** Address 0x1 is an address inside the EVM too: tokens sent to it there stay with the native account. */
  lemma NativeKeepsWhatItGets(b: Balances, c: EvmCall)
    requires b == map[5 := 10] && c == EvmCall(5, 5, 10, [Transfer(5, EVM_NATIVE, 10)])
    ensures var r := Run(b, MoveOps([Call(c)]) + ReplayOps([Call(c)]));
      r.complete && Bal(b, EVM_NATIVE) == 0 && Bal(r.balances, EVM_NATIVE) == 10
  {
    var e := Call(c);
    var pay, credit, send := Payment(c), Credit(c), c.transfers[0];
    CollectOne(e, MovePart);
    CollectOne(e, OriginPart);
    CollectOne(e, EvmPart);
    assert c.transfers == [send];
    assert MoveOps([e]) + ReplayOps([e]) == [pay] + ([credit] + ([send] + []));
    RunFirst(b, pay, [credit] + ([send] + []));
    RunFirst(Moved(b, pay), credit, [send] + []);
    RunFirst(Moved(Moved(b, pay), credit), send, []);
  }

  lemma {:induction false} CollectOne(e: Event, part: Event -> seq<Transfer>)
    ensures Collect([e], part) == part(e)
  {
    assert [e][..0] == [];
  }

  /**
   Without the separation the replay can fall short although every step was covered: account 2
   lends 10 inside the EVM, gets them back, and only then spends them in the Move ledger, which
   the replay has already seen when it starts to lend.
   */
  lemma LateMoveDebitFallsShort(b: Balances, events: seq<Event>, loan: EvmCall, spend: Transfer)
    requires b == map[2 := 10]
    requires loan == EvmCall(5, 5, 0, [Transfer(2, 3, 10), Transfer(3, 2, 10)])
    requires spend == Transfer(2, 4, 10) && events == [Call(loan), Pay(spend)]
    ensures Run(b, History(events)).complete
    ensures Run(b, MoveOps(events)).complete
    ensures !Run(b, MoveOps(events) + ReplayOps(events)).complete
    ensures !Separated(events)
  {
    var pay, credit, lend, back := Payment(loan), Credit(loan), loan.transfers[0], loan.transfers[1];
    CollectTwo(Call(loan), Pay(spend), HistoryPart);
    CollectTwo(Call(loan), Pay(spend), MovePart);
    CollectTwo(Call(loan), Pay(spend), OriginPart);
    CollectTwo(Call(loan), Pay(spend), EvmPart);
    assert loan.transfers == [lend, back] && [lend, back][1..] == [back];
    assert History(events) == [pay] + ([credit] + ([lend] + ([back] + ([spend] + []))));
    assert MoveOps(events) == [pay] + ([spend] + []);
    assert MoveOps(events) + ReplayOps(events) == [pay] + ([spend] + ([credit] + ([lend] + [back])));
    RunFirst(b, pay, [credit] + ([lend] + ([back] + ([spend] + []))));
    RunFirst(b, credit, [lend] + ([back] + ([spend] + [])));
    RunFirst(b, lend, [back] + ([spend] + []));
    RunFirst(Moved(b, lend), back, [spend] + []);
    RunFirst(Moved(Moved(b, lend), back), spend, []);
    RunFirst(b, pay, [spend] + []);
    RunFirst(b, spend, []);
    RunFirst(b, pay, [spend] + ([credit] + ([lend] + [back])));
    RunFirst(b, spend, [credit] + ([lend] + [back]));
    RunFirst(Moved(b, spend), credit, [lend] + [back]);
    RunFirst(Moved(b, spend), lend, [back]);
    assert Debits(events[0].c.transfers, Payer(events[1])) > CreditTo(events[0].c, Payer(events[1]));
  }

  /** So that body is one whose deferred order needs more than its history did. */
  lemma LateMoveNeedsMore(events: seq<Event>)
    requires events == [Call(EvmCall(5, 5, 0, [Transfer(2, 3, 10), Transfer(3, 2, 10)])), Pay(Transfer(2, 4, 10))]
    ensures !NeedsNoMore(events)
  {
    hide Run, History, MoveOps, ReplayOps, NeedsNoMore;
    var loan := EvmCall(5, 5, 0, [Transfer(2, 3, 10), Transfer(3, 2, 10)]);
    LateMoveDebitFallsShort(map[2 := 10], events, loan, Transfer(2, 4, 10));
    NeverFallsShortIff(events);
    assert !NeverFallsShort(events);
  }

  lemma {:induction false} CollectTwo(e: Event, f: Event, part: Event -> seq<Transfer>)
    ensures Collect([e, f], part) == part(e) + part(f)
  {
    assert [e, f][..1] == [e] && [e][..0] == [];
    assert Collect([e], part) == [] + part(e);
  }
}
