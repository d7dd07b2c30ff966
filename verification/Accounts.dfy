/** The books as a whole: every mahber's pool accounted for by the rows of the other tables, over every run. */
module Accounts {
  import opened MoneyRecords
  import opened MoneyMachine
  import opened MoneyChanges
  import opened MoneyInvariants
  import Ledger
  import Payments
  import Fines
  import Lottery
  import PoolTheorems
  import Spending

  function Drawn(draws: seq<Draw>, mahber: MahberId): Money {
    if draws == [] then 0.0
    else
      var n := |draws| - 1;
      Drawn(draws[..n], mahber) + (if draws[n].mahber == mahber then draws[n].payout else 0.0)
  }

  /** Approved expenses: paid through the bank. Those recorded by a draw name no bank. */
  predicate IsApproved(e: Expense, mahber: MahberId) {
    e.mahber == mahber && e.status == Paid && e.bankCode.Code?
  }

  function Spent(expenses: seq<Expense>, mahber: MahberId): Money {
    if expenses == [] then 0.0
    else
      var n := |expenses| - 1;
      Spent(expenses[..n], mahber) + (if IsApproved(expenses[n], mahber) then expenses[n].amount else 0.0)
  }

  function PaidOut(payouts: seq<Payout>, mahber: MahberId): Money {
    if payouts == [] then 0.0
    else
      var n := |payouts| - 1;
      PaidOut(payouts[..n], mahber) + (if payouts[n].mahber == mahber then payouts[n].amount else 0.0)
  }

  /** All fines of a mahber, negative ones too. */
  function Fined(fines: seq<Fine>, mahber: MahberId): Money {
    if fines == [] then 0.0
    else
      var n := |fines| - 1;
      Fined(fines[..n], mahber) + (if fines[n].mahber == mahber then fines[n].amount else 0.0)
  }

  /** Completed payments and payouts credit the pool; fines, draws and approved expenses debit it. */
  function Expected(db: Db, mahber: MahberId): Money {
    CompletedTotal(db.payments, mahber) + PaidOut(db.payouts, mahber)
    - Fined(db.fines, mahber) - Drawn(db.draws, mahber) - Spent(db.expenses, mahber)
  }

  predicate Balanced(db: Db, mahber: MahberId) {
    Ledger.Pool(db.ledger, mahber) == Expected(db, mahber)
  }

  // ----- single rows

  lemma OneMoreDraw(draws: seq<Draw>, d: Draw, mahber: MahberId)
    ensures Drawn(draws + [d], mahber) == Drawn(draws, mahber) + (if d.mahber == mahber then d.payout else 0.0)
  {
    assert (draws + [d])[..|draws|] == draws;
  }

  lemma OneMoreExpense(expenses: seq<Expense>, e: Expense, mahber: MahberId)
    ensures Spent(expenses + [e], mahber) == Spent(expenses, mahber) + (if IsApproved(e, mahber) then e.amount else 0.0)
  {
    assert (expenses + [e])[..|expenses|] == expenses;
  }

  lemma OneMorePayout(payouts: seq<Payout>, p: Payout, mahber: MahberId)
    ensures PaidOut(payouts + [p], mahber) == PaidOut(payouts, mahber) + (if p.mahber == mahber then p.amount else 0.0)
  {
    assert (payouts + [p])[..|payouts|] == payouts;
  }

  lemma {:induction false} SpentAfterUpdate(expenses: seq<Expense>, i: nat, e: Expense, mahber: MahberId)
    requires i < |expenses| && expenses[i].status != Paid
    ensures Spent(expenses[i := e], mahber) ==
            Spent(expenses, mahber) + (if IsApproved(e, mahber) then e.amount else 0.0)
  {
    var n := |expenses| - 1;
    if i < n {
      SpentAfterUpdate(expenses[..n], i, e, mahber);
      assert expenses[i := e][..n] == expenses[..n][i := e];
    } else {
      assert expenses[i := e][..n] == expenses[..n];
    }
  }

  lemma FinedAfter(fines: seq<Fine>, f: Fine, mahber: MahberId)
    ensures Fined(fines + [f], mahber) == Fined(fines, mahber) + (if f.mahber == mahber then f.amount else 0.0)
  {
    assert (fines + [f])[..|fines|] == fines;
  }

  lemma {:induction false} FinedSame(fines: seq<Fine>, fines': seq<Fine>, mahber: MahberId)
    requires PoolTheorems.SameCharges(fines, fines')
    ensures Fined(fines, mahber) == Fined(fines', mahber)
  {
    if fines != [] {
      var n := |fines| - 1;
      FinedSame(fines[..n], fines'[..n], mahber);
    }
  }

  // ----- every change

  lemma PaymentChangeBalances(db: Db, c: Change, mahber: MahberId)
    requires Legal(db, c) && Balanced(db, mahber)
    requires c.Supersede? || c.OpenPayment? || c.ClosePayment? || c.CompletePayment? || c.CompleteJoin?
    ensures Balanced(Play(db, c), mahber)
  {
    hide Ledger.LastBalance, Ledger.Pool, CompletedTotal, PaidOut, Drawn, Spent, Fined, Payments.Overlap,
      Payments.Superseded, Payments.StampPaid, Payments.MemberAfterPayment, OfPayer, Payments.ExpireSuperseded;
    var after := Play(db, c);
    PoolTheorems.PoolAfterChange(db, c, mahber);
    FinedSame(db.fines, after.fines, mahber);
    match c
    case Supersede(claim) =>
      SupersedingOnlyExpires(db.payments, claim);
      TotalOfSame(db.payments, after.payments, mahber);
    case ClosePayment(i, status) => TotalOfSame(db.payments, after.payments, mahber);
    case OpenPayment(p) => TotalOfAppend(db.payments, p, mahber);
    case CompletePayment(i, k) => TotalOfUpdate(db.payments, i, after.payments[i], mahber);
    case CompleteJoin(j, k, config) => TotalOfAppend(db.payments, after.payments[|db.payments|], mahber);
  }

  lemma SpendingChangeBalances(db: Db, c: Change, mahber: MahberId)
    requires Legal(db, c) && Balanced(db, mahber)
    requires c.AskExpense? || c.DeclineExpense? || c.PayExpense? || c.PayOut? || c.AwardDraw?
    ensures Balanced(Play(db, c), mahber)
  {
    hide Ledger.LastBalance, Ledger.Pool, CompletedTotal, PaidOut, Drawn, Spent, Fined, Lottery.AllPaid,
      Lottery.MarkWinner;
    var after := Play(db, c);
    PoolTheorems.PoolAfterChange(db, c, mahber);
    match c
    case AskExpense(e) => OneMoreExpense(db.expenses, e, mahber);
    case DeclineExpense(i) => SpentAfterUpdate(db.expenses, i, after.expenses[i], mahber);
    case PayExpense(i, approver) => SpentAfterUpdate(db.expenses, i, after.expenses[i], mahber);
    case PayOut(m, u, amount, purpose, reason) => OneMorePayout(db.payouts, after.payouts[|db.payouts|], mahber);
    case AwardDraw(m, eligible, winner, payout, seed, id, _) =>
      OneMoreDraw(db.draws, after.draws[|db.draws|], mahber);
      OneMoreExpense(db.expenses, after.expenses[|db.expenses|], mahber);
  }

  lemma FineChangeBalances(db: Db, c: Change, mahber: MahberId)
    requires Legal(db, c) && Balanced(db, mahber) && (c.AddFine? || c.WaiveFine?)
    ensures Balanced(Play(db, c), mahber)
  {
    hide Ledger.LastBalance, Ledger.Pool, CompletedTotal, PaidOut, Drawn, Spent, Fined, Fines.DueForFine,
      Fines.Mentions, Fines.CalculateFine;
    var after := Play(db, c);
    PoolTheorems.PoolAfterChange(db, c, mahber);
    if c.AddFine? {
      FinedAfter(db.fines, after.fines[|db.fines|], mahber);
    } else {
      FinedSame(db.fines, after.fines, mahber);
    }
  }

  lemma ChangeBalances(db: Db, c: Change, mahber: MahberId)
    requires Legal(db, c) && Balanced(db, mahber)
    ensures Balanced(Play(db, c), mahber)
  {
    hide Legal, Ledger.Pool, CompletedTotal, PaidOut, Drawn, Spent, Fined;
    if c.Supersede? || c.OpenPayment? || c.ClosePayment? || c.CompletePayment? || c.CompleteJoin? {
      PaymentChangeBalances(db, c, mahber);
    } else if c.AskExpense? || c.DeclineExpense? || c.PayExpense? || c.PayOut? || c.AwardDraw? {
      SpendingChangeBalances(db, c, mahber);
    } else if c.AddFine? || c.WaiveFine? {
      FineChangeBalances(db, c, mahber);
    }
  }

  lemma {:induction false} ChangesBalance(db: Db, cs: seq<Change>, mahber: MahberId)
    requires LegalAll(db, cs) && Balanced(db, mahber)
    ensures Balanced(PlayAll(db, cs), mahber)
    decreases |cs|
  {
    hide Legal, Play, Balanced;
    if cs != [] {
      ChangeBalances(db, cs[0], mahber);
      ChangesBalance(Play(db, cs[0]), cs[1..], mahber);
    }
  }

  lemma DoBalances(db: Db, t: Tick, mahber: MahberId)
    requires Inv(db) && Balanced(db, mahber)
    ensures Balanced(Do(db, t), mahber)
  {
    hide Inv, Apply, LegalAll, PlayAll, Ledger.Pool, CompletedTotal, PaidOut, Drawn, Spent, Fined;
    AtIsFine(db, t);
    var now := At(db, t);
    InvHasAmounts(now);
    var cs := OpChanges(now, t.op);
    ChangesBalance(now, cs, mahber);
  }

  lemma {:induction false} RunBalances(db: Db, ticks: seq<Tick>, mahber: MahberId)
    requires Inv(db) && Balanced(db, mahber)
    ensures Balanced(Run(db, ticks), mahber)
  {
    hide Inv, Do, Balanced, Grows;
    if ticks != [] {
      var n := |ticks| - 1;
      RunBalances(db, ticks[..n], mahber);
      RunKeepsAll(db, ticks[..n]);
      DoBalances(Run(db, ticks[..n]), ticks[n], mahber);
    }
  }

  /**
   The accounting identity: over every run of all services, a mahber's pool is its completed
   payments and payouts less its fines, draws and approved expenses. Nothing else moves it.
   */
  lemma BooksBalance(clock: Time, ticks: seq<Tick>, mahber: MahberId)
    ensures var db := Run(EmptyDb(clock), ticks);
            Ledger.Pool(db.ledger, mahber) ==
            CompletedTotal(db.payments, mahber) + PaidOut(db.payouts, mahber)
            - Fined(db.fines, mahber) - Drawn(db.draws, mahber) - Spent(db.expenses, mahber)
  {
    hide Run, Inv, Ledger.Pool, CompletedTotal, PaidOut, Drawn, Spent, Fined;
    EmptyIsFine(clock);
    EmptyBalances(clock, mahber);
    RunBalances(EmptyDb(clock), ticks, mahber);
  }

  lemma EmptyBalances(clock: Time, mahber: MahberId)
    ensures Balanced(EmptyDb(clock), mahber)
  {
  }

  // ----- payouts and contributions

  lemma {:induction false} ChargedAsFined(fines: seq<Fine>, mahber: MahberId)
    requires forall i :: 0 <= i < |fines| ==> fines[i].amount >= 0.0
    ensures PoolTheorems.FinesCharged(fines, mahber) == Fined(fines, mahber)
  {
    if fines != [] {
      ChargedAsFined(fines[..|fines| - 1], mahber);
    }
  }

  /**
   What draws and expenses take out is covered by completed payments, but for what payouts
   put in and negative fines give back: over every run they exceed them by no more.
   */
  lemma OutlaysAreCovered(clock: Time, ticks: seq<Tick>, mahber: MahberId)
    requires forall t :: t in ticks ==> PoolTheorems.Validated(t.op)
    ensures var db := Run(EmptyDb(clock), ticks);
            var outlays := Drawn(db.draws, mahber) + Spent(db.expenses, mahber);
            var covered := CompletedTotal(db.payments, mahber) + PaidOut(db.payouts, mahber);
            && outlays <= covered + (PoolTheorems.FinesCharged(db.fines, mahber) - Fined(db.fines, mahber))
            && ((forall i :: 0 <= i < |db.fines| ==> db.fines[i].amount >= 0.0) ==> outlays <= covered)
  {
    hide Run, PoolTheorems.Validated, Ledger.Pool, CompletedTotal, PaidOut, Drawn, Spent, Fined,
      PoolTheorems.FinesCharged;
    BooksBalance(clock, ticks, mahber);
    PoolTheorems.DebtIsBoundedByFines(clock, ticks, mahber);
    var fines := Run(EmptyDb(clock), ticks).fines;
    if forall i :: 0 <= i < |fines| ==> fines[i].amount >= 0.0 {
      ChargedAsFined(fines, mahber);
    }
  }

  /**
   All payouts together (draws, expenses and payouts) are promised not to exceed the
   contributions. Over every run they do not if and only if the pool and the fines together
   are at least twice what was paid out as payouts.
   */
  lemma PayoutsWithinContributionsExactly(clock: Time, ticks: seq<Tick>, mahber: MahberId)
    ensures var db := Run(EmptyDb(clock), ticks);
            Drawn(db.draws, mahber) + Spent(db.expenses, mahber) + PaidOut(db.payouts, mahber)
              <= CompletedTotal(db.payments, mahber) <==>
            2.0 * PaidOut(db.payouts, mahber) <= Ledger.Pool(db.ledger, mahber) + Fined(db.fines, mahber)
  {
    hide Run, Ledger.Pool, CompletedTotal, PaidOut, Drawn, Spent, Fined;
    BooksBalance(clock, ticks, mahber);
  }

  /** The same payout `n` times over. */
  function PayOutTimes(db: Db, mahber: MahberId, member: UserId, amount: Money, n: nat): Db {
    if n == 0 then db
    else Spending.CreatePayout(PayOutTimes(db, mahber, member, amount, n - 1), mahber, member, amount, General, "").db
  }

  /** One pool can be paid out any number of times: each payout fills it for the next. */
  lemma {:induction false} OnePoolPaysAnyNumber(db: Db, mahber: MahberId, member: UserId, amount: Money, n: nat)
    requires 0.0 < amount <= Ledger.Pool(db.ledger, mahber) && Spending.IsActiveMember(db.members, mahber, member)
    ensures var after := PayOutTimes(db, mahber, member, amount, n);
            && Spending.CreatePayout(after, mahber, member, amount, General, "").refusal.None?
            && PaidOut(after.payouts, mahber) == PaidOut(db.payouts, mahber) + n as real * amount
            && Ledger.Pool(after.ledger, mahber) == Ledger.Pool(db.ledger, mahber) + n as real * amount
            && after.members == db.members && after.payments == db.payments
  {
    hide Ledger.Post, Ledger.Pool, PaidOut, Spending.IsActiveMember;
    if n > 0 {
      OnePoolPaysAnyNumber(db, mahber, member, amount, n - 1);
      var before := PayOutTimes(db, mahber, member, amount, n - 1);
      PoolTheorems.PayoutFillsPool(before, mahber, member, amount, General, "");
      OneMorePayout(before.payouts, Payout(mahber, member, amount, General, ""), mahber);
      assert n as real * amount == (n - 1) as real * amount + amount;
    }
  }
}
