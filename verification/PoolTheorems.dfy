/** The mahber's pool of money over every run: what fills it, what drains it, and how far it can fall. */
module PoolTheorems {
  import opened Wrappers
  import opened MoneyRecords
  import opened MoneyMachine
  import opened MoneyChanges
  import opened MoneyInvariants
  import Ledger
  import Members
  import Payments
  import Fines
  import Lottery
  import Spending

  /** The ranges request validation enforces: a draw keeps no negative share, a payout is of a positive amount. */
  predicate Validated(op: Op) {
    match op
    case ExecuteDraw(_, _, rate, _, _, _) => rate >= 0.0
    case CreatePayout(_, _, amount, _, _) => amount > 0.0
    case _ => true
  }

  /** A penalty is free-form configuration and may even be negative; then it charges nothing. */
  function Charge(f: Fine): Money {
    if f.amount > 0.0 then f.amount else 0.0
  }

  /** What members of a mahber have been charged in fines so far. */
  function FinesCharged(fines: seq<Fine>, mahber: MahberId): Money {
    if fines == [] then 0.0
    else
      var n := |fines| - 1;
      FinesCharged(fines[..n], mahber) + (if fines[n].mahber == mahber then Charge(fines[n]) else 0.0)
  }

  lemma PoolAfterPost(ledger: seq<Entry>, now: Time, m: MahberId, u: UserId, kind: EntryKind, amount: Money,
                      text: string, source: Source, mahber: MahberId)
    ensures Ledger.Pool(Ledger.Post(ledger, now, m, u, kind, amount, text, source), mahber) ==
            Ledger.Pool(ledger, mahber) + (if m == mahber then amount else 0.0)
  {
    hide Ledger.LastBalance;
    var after := Ledger.Post(ledger, now, m, u, kind, amount, text, source);
    Ledger.BalanceAfter(ledger, after[|ledger|], mahber, u);
  }

  lemma FinesChargedAfter(fines: seq<Fine>, f: Fine, mahber: MahberId)
    ensures FinesCharged(fines + [f], mahber) ==
            FinesCharged(fines, mahber) + (if f.mahber == mahber then Charge(f) else 0.0)
  {
    assert (fines + [f])[..|fines|] == fines;
  }

  lemma {:induction false} FinesChargedSame(fines: seq<Fine>, fines': seq<Fine>, mahber: MahberId)
    requires SameCharges(fines, fines')
    ensures FinesCharged(fines, mahber) == FinesCharged(fines', mahber)
  {
    if fines != [] {
      var n := |fines| - 1;
      FinesChargedSame(fines[..n], fines'[..n], mahber);
    }
  }

  // ----- single calls

  /** A draw empties the pool down to exactly the operational share, and touches no other pool. */
  lemma DrawLeavesOperationalShare(db: Db, mahber: MahberId, created: Time, rate: Money, threshold: Money, seed: nat,
                                   id: string, other: MahberId)
    requires Lottery.ExecuteDraw(db, mahber, created, rate, threshold, seed, id).refusal.None?
    ensures var after := Lottery.ExecuteDraw(db, mahber, created, rate, threshold, seed, id).db;
            && Ledger.Pool(db.ledger, mahber) > 0.0
            && Ledger.Pool(after.ledger, mahber) == Ledger.Pool(db.ledger, mahber) * rate / 100.0
            && Ledger.Pool(after.ledger, mahber) < Ledger.Pool(db.ledger, mahber)
            && (other != mahber ==> Ledger.Pool(after.ledger, other) == Ledger.Pool(db.ledger, other))
            && after.fines == db.fines
  {
    hide Ledger.Post, Lottery.AllPaid, Lottery.Eligible, Ledger.Pool, Lottery.MarkWinner;
    var eligible := Lottery.Eligible(db, mahber, threshold, |db.members|);
    var winner := eligible[seed % |eligible|];
    var payout := Lottery.PayoutAmount(Ledger.Pool(db.ledger, mahber), rate);
    PoolAfterPost(db.ledger, db.clock, mahber, winner, EqubPayoutEntry, -payout, "Equb payout from lottery draw " + id,
                  OfDraw(|db.draws|), mahber);
    PoolAfterPost(db.ledger, db.clock, mahber, winner, EqubPayoutEntry, -payout, "Equb payout from lottery draw " + id,
                  OfDraw(|db.draws|), other);
  }

  /** An approved expense leaves the pool exactly its amount smaller, and never below zero. */
  lemma ExpenseNeverOverdraws(db: Db, expense: nat, mahber: MahberId, approver: UserId)
    requires Spending.ApproveExpense(db, expense, mahber, approver, true).refusal.None?
    ensures var after := Spending.ApproveExpense(db, expense, mahber, approver, true).db;
            && Ledger.Pool(after.ledger, mahber) == Ledger.Pool(db.ledger, mahber) - db.expenses[expense].amount
            && Ledger.Pool(after.ledger, mahber) >= 0.0
            && Spending.ApproveExpense(after, expense, mahber, approver, true).refusal == Some(NotPending)
  {
    hide Ledger.Post, Ledger.Pool;
    var e := db.expenses[expense];
    PoolAfterPost(db.ledger, db.clock, mahber, approver, ExpenseEntry, -e.amount,
                  "Expense: " + e.reason + " (" + e.category + ")", OfExpense(expense), mahber);
  }

  /** A payout is entered with a positive amount, so it fills the pool by the very amount paid out of it. */
  lemma PayoutFillsPool(db: Db, mahber: MahberId, member: UserId, amount: Money, purpose: PayoutCategory,
                        reason: string)
    requires Spending.CreatePayout(db, mahber, member, amount, purpose, reason).refusal.None?
    ensures var after := Spending.CreatePayout(db, mahber, member, amount, purpose, reason).db;
            Ledger.Pool(after.ledger, mahber) == Ledger.Pool(db.ledger, mahber) + amount
  {
    hide Ledger.Post, Ledger.Pool;
    PoolAfterPost(db.ledger, db.clock, mahber, member, if purpose.IddirBenefit? then IddirPayoutEntry else PayoutEntry,
                  amount,
                  "Payout: " + reason + " (" + Spending.CategoryName(purpose) + ")", OfPayout(|db.payouts|), mahber);
  }

  // ----- when money may be spent

  /** An expense of the mahber that nobody has decided on. */
  predicate IsOpen(expenses: seq<Expense>, expense: nat, mahber: MahberId) {
    expense < |expenses| && expenses[expense].mahber == mahber && expenses[expense].status == Awaiting
  }

  /**
   An expense is approved exactly when it is undecided, the pool covers it, its bank code is a
   number and the gateway answers; the first of these to fail is the reason given, and then
   nothing changes. Approval marks the one row and debits the approver's balance.
   */
  lemma ApprovalAnswersExactly(db: Db, expense: nat, mahber: MahberId, approver: UserId, up: bool)
    ensures var out := Spending.ApproveExpense(db, expense, mahber, approver, up);
            var found := expense < |db.expenses| && db.expenses[expense].mahber == mahber;
            var open := IsOpen(db.expenses, expense, mahber);
            var covered := open && db.expenses[expense].amount <= Ledger.Pool(db.ledger, mahber);
            && (out.refusal == Some(NotFound) <==> !found)
            && (out.refusal == Some(NotPending) <==> found && !open)
            && (out.refusal == Some(InsufficientBalance) <==> open && !covered)
            && (out.refusal == Some(NoBankCode) <==> covered && db.expenses[expense].bankCode == NoCode)
            && (out.refusal == Some(InvalidBankCode) <==> covered && db.expenses[expense].bankCode == BadCode)
            && (out.refusal == Some(GatewayDown) <==> covered && db.expenses[expense].bankCode.Code? && !up)
            && (out.refusal.None? <==> covered && db.expenses[expense].bankCode.Code? && up)
            && (out.refusal.Some? ==> out.db == db)
            && (out.refusal.None? ==>
                  var e, k := db.expenses[expense], |db.ledger|;
                  && out.db == db.(expenses := db.expenses[expense := e.(status := Paid)], ledger := out.db.ledger)
                  && |out.db.ledger| == k + 1 && out.db.ledger[..k] == db.ledger
                  && var entry := out.db.ledger[k];
                     && entry.mahber == mahber && entry.member == approver && entry.kind == ExpenseEntry
                     && entry.amount == -e.amount && entry.source == OfExpense(expense)
                     && entry.description == "Expense: " + e.reason + " (" + e.category + ")"
                     && entry.createdAt == db.clock)
  {
    hide Ledger.Pool, Ledger.LastBalance;
  }

  /** A requested expense waits undecided, and can be approved at once exactly when the pool covers it. */
  lemma RequestedExpenseWaits(db: Db, mahber: MahberId, amount: Money, reason: string, category: string,
                              bankCode: BankCode, approver: UserId)
    ensures var after, n := Spending.CreateExpense(db, mahber, amount, reason, category, bankCode), |db.expenses|;
            && after == db.(expenses := after.expenses)
            && |after.expenses| == n + 1 && after.expenses[..n] == db.expenses
            && after.expenses[n].amount == amount && IsOpen(after.expenses, n, mahber)
            && (Spending.ApproveExpense(after, n, mahber, approver, true).refusal.None? <==>
                  amount <= Ledger.Pool(db.ledger, mahber) && bankCode.Code?)
  {
    hide Spending.ApproveExpense, Ledger.Pool;
    var after := Spending.CreateExpense(db, mahber, amount, reason, category, bankCode);
    ApprovalAnswersExactly(after, |db.expenses|, mahber, approver, true);
  }

  /** An expense is declined exactly when it is undecided, and then nothing but its status changes. */
  lemma RejectionAnswersExactly(db: Db, expense: nat, mahber: MahberId)
    ensures var out := Spending.RejectExpense(db, expense, mahber);
            var found := expense < |db.expenses| && db.expenses[expense].mahber == mahber;
            && (out.refusal == Some(NotFound) <==> !found)
            && (out.refusal == Some(NotPending) <==> found && !IsOpen(db.expenses, expense, mahber))
            && (out.refusal.None? <==> IsOpen(db.expenses, expense, mahber))
            && (out.refusal.Some? ==> out.db == db)
            && (out.refusal.None? ==>
                  out.db == db.(expenses := db.expenses[expense := db.expenses[expense].(status := Declined)]))
  {
  }

  /**
   A payout is made exactly when its recipient is an active member and the pool covers it; it
   adds one payout row and one credit of the same amount for the recipient.
   */
  lemma PayoutAnswersExactly(db: Db, mahber: MahberId, member: UserId, amount: Money, purpose: PayoutCategory,
                             reason: string)
    ensures var out := Spending.CreatePayout(db, mahber, member, amount, purpose, reason);
            var active := exists i :: 0 <= i < |db.members| && db.members[i].mahber == mahber
                                      && db.members[i].member == member && db.members[i].status == Active;
            var pool := Ledger.Pool(db.ledger, mahber);
            && (out.refusal == Some(NotActive) <==> !active)
            && (out.refusal == Some(InsufficientBalance) <==> active && pool < amount)
            && (out.refusal.None? <==> active && amount <= pool)
            && (out.refusal.Some? ==> out.db == db)
            && (out.refusal.None? ==>
                  var n, k := |db.payouts|, |db.ledger|;
                  && out.db == db.(payouts := db.payouts + [Payout(mahber, member, amount, purpose, reason)],
                                   ledger := out.db.ledger)
                  && |out.db.ledger| == k + 1 && out.db.ledger[..k] == db.ledger
                  && var entry := out.db.ledger[k];
                     && entry.mahber == mahber && entry.member == member && entry.amount == amount
                     && entry.kind == (if purpose == IddirBenefit then IddirPayoutEntry else PayoutEntry)
                     && entry.source == OfPayout(n) && entry.createdAt == db.clock)
  {
    hide Ledger.Pool, Ledger.LastBalance, Spending.CategoryName;
    if i :| 0 <= i < |db.members| && db.members[i].mahber == mahber && db.members[i].member == member
            && db.members[i].status == Active {
      assert Members.IsRow(db.members[i], mahber, member);
    }
  }

  // ----- what a draw pays out

  /** Everything in a mahber's ledger but its contributions. */
  function OtherTotal(ledger: seq<Entry>, mahber: MahberId): Money {
    if ledger == [] then 0.0
    else
      var n := |ledger| - 1;
      OtherTotal(ledger[..n], mahber) +
      (if ledger[n].mahber == mahber && ledger[n].kind != ContributionEntry then ledger[n].amount else 0.0)
  }

  lemma {:induction false} PoolIsContributionsAndOthers(ledger: seq<Entry>, mahber: MahberId)
    ensures Ledger.Pool(ledger, mahber) == ContributionTotal(ledger, mahber) + OtherTotal(ledger, mahber)
  {
    if ledger != [] {
      PoolIsContributionsAndOthers(ledger[..|ledger| - 1], mahber);
    }
  }

  lemma SamePayoutSamePool(a: Money, b: Money, rate: Money)
    requires rate < 100.0
    ensures Lottery.PayoutAmount(a, rate) == Lottery.PayoutAmount(b, rate) <==> a == b
  {
    var kept, d := 100.0 - rate, a - b;
    assert Lottery.PayoutAmount(a, rate) - Lottery.PayoutAmount(b, rate) == d * kept / 100.0;
  }

  /**
   The payout is documented as the completed contributions less the operational share. In
   every state the services can reach, a draw pays exactly that if and only if the mahber's
   other entries (fines, payouts, expenses, earlier draws) add up to nothing.
   */
  lemma PayoutAsDocumentedExactly(db: Db, mahber: MahberId, created: Time, rate: Money, threshold: Money, seed: nat,
                                  id: string)
    requires Inv(db) && rate < 100.0
    requires Lottery.ExecuteDraw(db, mahber, created, rate, threshold, seed, id).refusal.None?
    ensures var draws := Lottery.ExecuteDraw(db, mahber, created, rate, threshold, seed, id).db.draws;
            && |draws| == |db.draws| + 1
            && (draws[|db.draws|].payout == Lottery.PayoutAmount(CompletedTotal(db.payments, mahber), rate)
                <==> OtherTotal(db.ledger, mahber) == 0.0)
  {
    hide Ledger.Post, Lottery.AllPaid, Lottery.Eligible, Ledger.Pool, Lottery.MarkWinner, Lottery.PayoutAmount,
      ContributionTotal, CompletedTotal, OtherTotal, Dated, FinesBooked, WinnersOk, Ledger.LedgerOk;
    PoolIsContributionsAndOthers(db.ledger, mahber);
    SamePayoutSamePool(Ledger.Pool(db.ledger, mahber), CompletedTotal(db.payments, mahber), rate);
  }

  // ----- how far the pool can fall

  /** Since fines stood at `base`, the pool has fallen below zero by no more than what was fined. */
  ghost predicate Covered(db: Db, mahber: MahberId, base: Money) {
    && FinesCharged(db.fines, mahber) >= base
    && Ledger.Pool(db.ledger, mahber) + FinesCharged(db.fines, mahber) >= base
  }

  ghost predicate SameCharges(fines: seq<Fine>, fines': seq<Fine>) {
    && |fines| == |fines'|
    && forall i :: 0 <= i < |fines| ==> fines[i].mahber == fines'[i].mahber && fines[i].amount == fines'[i].amount
  }

  /** The entry a change posts, if it posts one, makes all the difference to the pool. */
  lemma PoolAfterChange(db: Db, c: Change, mahber: MahberId)
    requires Legal(db, c)
    ensures var ledger := Play(db, c).ledger;
            Ledger.Pool(ledger, mahber) ==
            if |ledger| > |db.ledger| && ledger[|db.ledger|].mahber == mahber
            then Ledger.Pool(db.ledger, mahber) + ledger[|db.ledger|].amount
            else Ledger.Pool(db.ledger, mahber)
  {
    hide Legal, Play, Ledger.Pool;
    var ledger := Play(db, c).ledger;
    ChangeGrowsLists(db, c);
    ChangePostsAtMostOne(db, c);
    if |ledger| > |db.ledger| {
      assert ledger == db.ledger + [ledger[|db.ledger|]];
      Ledger.BalanceAfter(db.ledger, ledger[|db.ledger|], mahber, "");
    } else {
      assert ledger == db.ledger;
    }
  }

  lemma FineKeepsCover(db: Db, c: Change, mahber: MahberId, base: Money)
    requires Legal(db, c) && Covered(db, mahber, base) && c.AddFine?
    ensures Covered(Play(db, c), mahber, base)
  {
    hide Ledger.LastBalance, Ledger.Pool, Fines.CalculateFine, Fines.DueForFine, Fines.Mentions, FinesCharged;
    PoolAfterChange(db, c, mahber);
    FinesChargedAfter(db.fines, Play(db, c).fines[|db.fines|], mahber);
  }

  /** No other change charges anybody, and it posts a credit or a debit the pool can bear. */
  lemma OtherChangesPay(db: Db, c: Change)
    requires Legal(db, c) && AmountsPositive(db) && !c.AddFine?
    requires c.AwardDraw? ==> c.payout <= Ledger.Pool(db.ledger, c.mahber)
    requires c.PayOut? ==> c.amount > 0.0
    ensures var after := Play(db, c);
            && SameCharges(db.fines, after.fines)
            && (|after.ledger| > |db.ledger| ==>
                  var e := after.ledger[|db.ledger|];
                  e.amount >= 0.0 || Ledger.Pool(db.ledger, e.mahber) + e.amount >= 0.0)
  {
    hide Ledger.LastBalance, Ledger.Pool, Lottery.AllPaid, Fines.DueForFine, Fines.Mentions, Payments.Overlap,
      Payments.Superseded, OfPayer, MembersGrow, Payments.ExpireSuperseded, Payments.MemberAfterPayment,
      Lottery.MarkWinner;
  }

  lemma ChangeKeepsCover(db: Db, c: Change, mahber: MahberId, base: Money)
    requires Legal(db, c) && Covered(db, mahber, base) && AmountsPositive(db)
    requires c.AwardDraw? ==> c.payout <= Ledger.Pool(db.ledger, c.mahber)
    requires c.PayOut? ==> c.amount > 0.0
    ensures Covered(Play(db, c), mahber, base)
  {
    hide Legal, Play, Ledger.Pool, AmountsPositive;
    if c.AddFine? {
      FineKeepsCover(db, c, mahber, base);
    } else {
      OtherChangesPay(db, c);
      PoolAfterChange(db, c, mahber);
      FinesChargedSame(db.fines, Play(db, c).fines, mahber);
    }
  }

  lemma {:induction false} ChangesKeepCover(db: Db, cs: seq<Change>, op: Op, mahber: MahberId, base: Money)
    requires LegalAll(db, cs) && Covered(db, mahber, base) && AmountsPositive(db)
    requires Validated(op) && !op.ExecuteDraw? && forall c :: c in cs ==> Suits(op, c)
    ensures Covered(PlayAll(db, cs), mahber, base)
    decreases |cs|
  {
    hide Covered, Legal, Play, AmountsPositive;
    if cs != [] {
      assert Suits(op, cs[0]);
      ChangeKeepsCover(db, cs[0], mahber, base);
      ChangeKeepsAmounts(db, cs[0]);
      ChangesKeepCover(Play(db, cs[0]), cs[1..], op, mahber, base);
    }
  }

  lemma DrawKeepsCover(db: Db, m: MahberId, created: Time, rate: Money, threshold: Money, seed: nat, id: string,
                       mahber: MahberId, base: Money)
    requires Covered(db, mahber, base) && 0.0 <= rate
    ensures Covered(Lottery.ExecuteDraw(db, m, created, rate, threshold, seed, id).db, mahber, base)
  {
    hide Ledger.Pool, FinesCharged, Lottery.ExecuteDraw;
    DrawRefusedOrDone(db, m, created, rate, threshold, seed, id);
    if Lottery.ExecuteDraw(db, m, created, rate, threshold, seed, id).refusal.None? {
      DrawLeavesOperationalShare(db, m, created, rate, threshold, seed, id, mahber);
      assert Ledger.Pool(db.ledger, m) * rate >= 0.0;
    }
  }

  lemma DrawRefusedOrDone(db: Db, m: MahberId, created: Time, rate: Money, threshold: Money, seed: nat, id: string)
    ensures var out := Lottery.ExecuteDraw(db, m, created, rate, threshold, seed, id); out.refusal.Some? ==>
            out.db == db
  {
  }

  lemma DoKeepsCover(db: Db, t: Tick, mahber: MahberId, base: Money)
    requires Inv(db) && Validated(t.op) && Covered(db, mahber, base)
    ensures Covered(Do(db, t), mahber, base)
  {
    hide Inv, Apply, LegalAll, PlayAll, Ledger.Pool, FinesCharged;
    AtIsFine(db, t);
    var now := At(db, t);
    InvHasAmounts(now);
    if t.op.ExecuteDraw? {
      var op := t.op;
      DrawKeepsCover(now, op.mahber, op.mahberCreated, op.rate, op.threshold, op.seed, op.id, mahber, base);
      assert Do(db, t) == Lottery.ExecuteDraw(now, op.mahber, op.mahberCreated, op.rate, op.threshold, op.seed,
                                              op.id).db by {
        ApplyDraw(now, op);
      }
    } else {
      var cs := OpChanges(now, t.op);
      ChangesKeepCover(now, cs, t.op, mahber, base);
    }
  }

  lemma ApplyDraw(db: Db, op: Op)
    requires op.ExecuteDraw?
    ensures Apply(db, op) == Lottery.ExecuteDraw(db, op.mahber, op.mahberCreated, op.rate, op.threshold, op.seed, op.id)
  {
    hide Lottery.ExecuteDraw;
  }

  lemma {:induction false} RunKeepsCover(db: Db, ticks: seq<Tick>, mahber: MahberId, base: Money)
    requires Inv(db) && Covered(db, mahber, base) && forall t :: t in ticks ==> Validated(t.op)
    ensures Covered(Run(db, ticks), mahber, base)
  {
    hide Inv, Do, Covered, Validated, Grows;
    if ticks != [] {
      var n := |ticks| - 1;
      RunKeepsCover(db, ticks[..n], mahber, base);
      RunKeepsAll(db, ticks[..n]);
      DoKeepsCover(Run(db, ticks[..n]), ticks[n], mahber, base);
    }
  }

  /**
   Only fines can put a pool into debt. Over any run of any services from a pool that is not
   negative, it ends below zero by no more than what was charged in fines meanwhile, and not
   at all if nobody was fined.
   */
  lemma OnlyFinesMakeDebt(db: Db, ticks: seq<Tick>, mahber: MahberId)
    requires Inv(db) && Ledger.Pool(db.ledger, mahber) >= 0.0 && forall t :: t in ticks ==> Validated(t.op)
    ensures var after := Run(db, ticks);
            var charged := FinesCharged(after.fines, mahber) - FinesCharged(db.fines, mahber);
            && charged >= 0.0 && Ledger.Pool(after.ledger, mahber) >= -charged
            && (|after.fines| == |db.fines| ==> Ledger.Pool(after.ledger, mahber) >= 0.0)
  {
    hide Run, Inv, Ledger.Pool, Validated, MembersGrow, PaymentsGrow;
    RunKeepsCover(db, ticks, mahber, FinesCharged(db.fines, mahber));
    RunKeepsAll(db, ticks);
    var after := Run(db, ticks);
    if |after.fines| == |db.fines| {
      FinesChargedSame(db.fines, after.fines, mahber);
    }
  }

  /** From an empty store on, a pool is never further below zero than all fines charged to its members. */
  lemma {:induction false} DebtIsBoundedByFines(clock: Time, ticks: seq<Tick>, mahber: MahberId)
    requires forall t :: t in ticks ==> Validated(t.op)
    ensures var db := Run(EmptyDb(clock), ticks);
            Ledger.Pool(db.ledger, mahber) + FinesCharged(db.fines, mahber) >= 0.0
  {
    hide Run, Inv, Validated;
    EmptyIsFine(clock);
    RunKeepsCover(EmptyDb(clock), ticks, mahber, 0.0);
  }
}
