/** Base token balances, and what a list of transfers does to them. */
module Ledger {
  import opened Arith

  /** Accounts are told apart by their addresses only, so an account is its address as a number. */
  type Account = nat

  /** The account that holds tokens on behalf of the EVM, at address 0x1. */
  const EVM_NATIVE: Account := 1

  type Balances = map<Account, nat>

  datatype Transfer = Transfer(from: Account, to: Account, amount: nat)

  function Bal(b: Balances, x: Account): nat {
    if x in b then b[x] else 0
  }

  /** A transfer withdraws before it deposits, so it needs the funds even when sent to oneself. */
  function Moved(b: Balances, t: Transfer): (r: Balances)
    requires t.amount <= Bal(b, t.from)
    ensures forall x :: Bal(r, x) == Bal(b, x) + Delta(t, x)
  {
    var paid := b[t.from := Bal(b, t.from) - t.amount];
    paid[t.to := Bal(paid, t.to) + t.amount]
  }

  /** The change one transfer makes to one account. */
  function Delta(t: Transfer, x: Account): int {
    (if t.to == x then t.amount else 0) - (if t.from == x then t.amount else 0)
  }

  /** The change a list of transfers makes to one account. */
  function Net(ts: seq<Transfer>, x: Account): int {
    if ts == [] then 0 else Delta(ts[0], x) + Net(ts[1..], x)
  }

  /** How far a list of transfers got: the balances at that point, and whether that was the end. */
  datatype Progress = Progress(balances: Balances, complete: bool)

  /** Transfers run in order up to the first one that is not covered; a zero amount is skipped. */
  function Run(b: Balances, ts: seq<Transfer>): Progress
    decreases ts
  {
    if ts == [] then Progress(b, true)
    else if ts[0].amount == 0 then Run(b, ts[1..])
    else if Bal(b, ts[0].from) < ts[0].amount then Progress(b, false)
    else Run(Moved(b, ts[0]), ts[1..])
  }

  // ----- Lists of transfers -----

  lemma RunFirst(b: Balances, t: Transfer, rest: seq<Transfer>)
    ensures Run(b, [t] + rest) ==
      if t.amount == 0 then Run(b, rest)
      else if Bal(b, t.from) < t.amount then Progress(b, false)
      else Run(Moved(b, t), rest)
  {
    assert ([t] + rest)[1..] == rest;
  }

  lemma {:induction false} NetConcat(s: seq<Transfer>, t: seq<Transfer>, x: Account)
    ensures Net(s + t, x) == Net(s, x) + Net(t, x)
  {
    if s == [] {
      assert s + t == t;
    } else {
      NetConcat(s[1..], t, x);
      assert (s + t)[1..] == s[1..] + t;
    }
  }

  lemma {:induction false} RunConcat(b: Balances, s: seq<Transfer>, t: seq<Transfer>)
    ensures Run(b, s + t) == if Run(b, s).complete then Run(Run(b, s).balances, t) else Run(b, s)
    decreases s
  {
    if s == [] {
      assert s + t == t;
    } else {
      assert (s + t)[1..] == s[1..] + t;
      if s[0].amount == 0 {
        RunConcat(b, s[1..], t);
      } else if s[0].amount <= Bal(b, s[0].from) {
        RunConcat(Moved(b, s[0]), s[1..], t);
      }
    }
  }

  /** Every transfer was covered when its turn came. */
  ghost predicate Covered(b: Balances, ts: seq<Transfer>) {
    forall k :: 0 <= k < |ts| ==> CoveredAt(b, ts, k)
  }

  ghost predicate CoveredAt(b: Balances, ts: seq<Transfer>, k: nat)
    requires k < |ts|
  {
    Bal(b, ts[k].from) + Net(ts[..k], ts[k].from) >= ts[k].amount
  }

  lemma CoveredCons(b: Balances, ts: seq<Transfer>)
    requires ts != [] && ts[0].amount <= Bal(b, ts[0].from)
    ensures Covered(b, ts) <==> Covered(Moved(b, ts[0]), ts[1..])
  {
    var b' := Moved(b, ts[0]);
    forall k | 0 < k < |ts| ensures CoveredAt(b, ts, k) <==> CoveredAt(b', ts[1..], k - 1) {
      assert ts[..k][1..] == ts[1..][..k - 1];
    }
    assert CoveredAt(b, ts, 0);
    if Covered(b, ts) {
      forall k | 0 <= k < |ts[1..]| ensures CoveredAt(b', ts[1..], k) {
        assert CoveredAt(b, ts, k + 1);
      }
    }
  }

  /** Running to the end is the same as every transfer being covered in turn. */
  lemma {:induction false} RunIffCovered(b: Balances, ts: seq<Transfer>)
    ensures Run(b, ts).complete <==> Covered(b, ts)
    decreases ts
  {
    if ts != [] {
      if ts[0].amount <= Bal(b, ts[0].from) {
        CoveredCons(b, ts);
        RunIffCovered(Moved(b, ts[0]), ts[1..]);
        if ts[0].amount == 0 {
          SameRun(b, Moved(b, ts[0]), ts[1..]);
        }
      } else {
        assert ts[..0] == [] && !CoveredAt(b, ts, 0);
      }
    }
  }

  /** Runs depend on what the balances are, not on which zero balances are written down. */
  lemma {:induction false} SameRun(b: Balances, b': Balances, ts: seq<Transfer>)
    requires forall x :: Bal(b, x) == Bal(b', x)
    ensures Run(b, ts).complete == Run(b', ts).complete
    ensures forall x :: Bal(Run(b, ts).balances, x) == Bal(Run(b', ts).balances, x)
    decreases ts
  {
    if ts != [] {
      if ts[0].amount == 0 {
        SameRun(b, b', ts[1..]);
      } else if ts[0].amount <= Bal(b, ts[0].from) {
        SameRun(Moved(b, ts[0]), Moved(b', ts[0]), ts[1..]);
      }
    }
  }

  /** The number of transfers a run performs. */
  function Done(b: Balances, ts: seq<Transfer>): (n: nat)
    ensures n <= |ts|
    ensures n == |ts| <==> Run(b, ts).complete
    decreases ts
  {
    if ts == [] then 0
    else if ts[0].amount == 0 then 1 + Done(b, ts[1..])
    else if Bal(b, ts[0].from) < ts[0].amount then 0
    else 1 + Done(Moved(b, ts[0]), ts[1..])
  }

  /** A run changes each account by the net of the transfers it performed. */
  lemma {:induction false} RunNet(b: Balances, ts: seq<Transfer>, x: Account)
    ensures Bal(Run(b, ts).balances, x) == Bal(b, x) + Net(ts[..Done(b, ts)], x)
    decreases ts
  {
    if ts != [] {
      var n := Done(b, ts);
      if ts[0].amount == 0 {
        RunNet(b, ts[1..], x);
        assert ts[..n][1..] == ts[1..][..n - 1];
      } else if ts[0].amount <= Bal(b, ts[0].from) {
        RunNet(Moved(b, ts[0]), ts[1..], x);
        assert ts[..n][1..] == ts[1..][..n - 1];
      }
    }
  }

  lemma CompleteNet(b: Balances, ts: seq<Transfer>, x: Account)
    requires Run(b, ts).complete
    ensures Bal(Run(b, ts).balances, x) == Bal(b, x) + Net(ts, x)
  {
    RunNet(b, ts, x);
    assert ts[..|ts|] == ts;
  }

  // ----- What a run needs to start with -----

  /** The least that `x` must have at the start for all its own transfers to be covered. */
  function Need(ts: seq<Transfer>, x: Account): nat
    decreases |ts|
  {
    if ts == [] then 0
    else
      var init, last := ts[..|ts| - 1], ts[|ts| - 1];
      if last.from == x && last.amount - Net(init, x) > Need(init, x) then last.amount - Net(init, x)
      else Need(init, x)
  }

  lemma {:induction false} NeedIff(b: Balances, ts: seq<Transfer>)
    ensures Covered(b, ts) <==> forall x :: Bal(b, x) >= Need(ts, x)
    decreases |ts|
  {
    if ts != [] {
      var n := |ts| - 1;
      var init, last := ts[..n], ts[n];
      NeedIff(b, init);
      assert Covered(b, ts) <==> Covered(b, init) && CoveredAt(b, ts, n) by {
        forall k | 0 <= k < n ensures CoveredAt(b, ts, k) <==> CoveredAt(b, init, k) {
          assert init[..k] == ts[..k];
        }
        if Covered(b, ts) {
          forall k | 0 <= k < |init| ensures CoveredAt(b, init, k) {
            assert CoveredAt(b, ts, k);
          }
        }
      }
      if forall x :: Bal(b, x) >= Need(ts, x) {
        forall x ensures Bal(b, x) >= Need(init, x) {
          assert Bal(b, x) >= Need(ts, x);
        }
        assert Bal(b, last.from) >= Need(ts, last.from);
      }
    }
  }

  /** A run ends exactly when every account starts with what it needs. */
  lemma RunIffNeeds(b: Balances, ts: seq<Transfer>)
    ensures Run(b, ts).complete <==> forall x :: Bal(b, x) >= Need(ts, x)
  {
    RunIffCovered(b, ts);
    NeedIff(b, ts);
  }

  function Senders(ts: seq<Transfer>): set<Account> {
    set t | t in ts :: t.from
  }

  lemma {:induction false} OnlySendersNeed(ts: seq<Transfer>, x: Account)
    requires x !in Senders(ts)
    ensures Need(ts, x) == 0
    decreases |ts|
  {
    if ts != [] {
      var init, last := ts[..|ts| - 1], ts[|ts| - 1];
      assert last in ts;
      forall y | y in Senders(init) ensures y in Senders(ts) {
        var t :| t in init && t.from == y;
        assert t in ts;
      }
      OnlySendersNeed(init, x);
    }
  }

  /** Balances that give every account exactly what two lists need, whichever needs more. */
  function JustEnough(s: seq<Transfer>, t: seq<Transfer>): Balances {
    map x | x in Senders(s) + Senders(t) :: Max(Need(s, x), Need(t, x))
  }

  lemma JustEnoughIs(s: seq<Transfer>, t: seq<Transfer>, x: Account)
    ensures Bal(JustEnough(s, t), x) == Max(Need(s, x), Need(t, x))
  {
    if x !in Senders(s) + Senders(t) {
      OnlySendersNeed(s, x);
      OnlySendersNeed(t, x);
    }
  }

  // ----- Conservation -----

  ghost function Total(b: Balances): nat {
    if b == map[] then 0
    else
      var x :| x in b;
      b[x] + Total(b - {x})
  }

  lemma {:induction false} TotalWithout(b: Balances, x: Account)
    requires x in b
    ensures Total(b) == b[x] + Total(b - {x})
    decreases |b|
  {
    var y :| y in b && Total(b) == b[y] + Total(b - {y});
    if y != x {
      TotalWithout(b - {y}, x);
      TotalWithout(b - {x}, y);
      assert b - {y} - {x} == b - {x} - {y};
    }
  }

  lemma TotalUpdate(b: Balances, x: Account, n: nat)
    ensures Total(b[x := n]) == Total(b) - Bal(b, x) + n
  {
    TotalWithout(b[x := n], x);
    assert b[x := n] - {x} == b - {x};
    if x in b {
      TotalWithout(b, x);
    } else {
      assert b - {x} == b;
    }
  }

  lemma MovedKeepsTotal(b: Balances, t: Transfer)
    requires t.amount <= Bal(b, t.from)
    ensures Total(Moved(b, t)) == Total(b)
  {
    var paid := b[t.from := Bal(b, t.from) - t.amount];
    TotalUpdate(b, t.from, Bal(b, t.from) - t.amount);
    TotalUpdate(paid, t.to, Bal(paid, t.to) + t.amount);
  }

  /** No list of transfers, finished or cut short, creates or destroys tokens. */
  lemma {:induction false} RunKeepsTotal(b: Balances, ts: seq<Transfer>)
    ensures Total(Run(b, ts).balances) == Total(b)
    decreases ts
  {
    if ts != [] {
      if ts[0].amount == 0 {
        RunKeepsTotal(b, ts[1..]);
      } else if ts[0].amount <= Bal(b, ts[0].from) {
        MovedKeepsTotal(b, ts[0]);
        RunKeepsTotal(Moved(b, ts[0]), ts[1..]);
      }
    }
  }

  /** No account ever holds more than all accounts together, so a bounded supply bounds each balance. */
  lemma BalanceBelowTotal(b: Balances, x: Account)
    ensures Bal(b, x) <= Total(b)
  {
    if x in b {
      TotalWithout(b, x);
    }
  }
}
