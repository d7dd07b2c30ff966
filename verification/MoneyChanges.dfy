/**
 Every call decomposed into primitive changes of the store. A change is legal when the
 guards under which some service makes it hold. What legal changes keep, every call of
 every service keeps, and so does every run.
 */
module MoneyChanges {
  import opened Wrappers
  import opened MoneyRecords
  import opened MoneyMachine
  import Ledger
  import Members
  import Payments
  import Fines
  import Lottery
  import Spending

  /** What a fine is for. */
  datatype Cause = Overdue | Absence(event: Fines.Event)

  function Violates(cause: Cause): Violation {
    if cause.Overdue? then MissedPayment else MissedAttendance
  }

  function Describe(cause: Cause, config: Config): string {
    match cause
    case Overdue => Fines.OverdueText(config)
    case Absence(event) => Fines.AbsenceText(event)
  }

  datatype Change =
    | Wait(wait: nat)
    | MembersTo(members: seq<Membership>)
    | OpenJoin(join: PendingPayment)
    | CloseJoin(index: nat, outcome: JoinStatus)
    | AskExpense(expense: Expense)
    | DeclineExpense(index: nat)
    | Supersede(claim: Payments.Claim)
    | OpenPayment(payment: Payment)
    | ClosePayment(index: nat, status: PaymentStatus)
    | CompletePayment(index: nat, row: nat)
    | CompleteJoin(index: nat, row: nat, config: Config)
    | AddFine(mahber: MahberId, member: UserId, cause: Cause, config: Config)
    | WaiveFine(mahber: MahberId, index: nat)
    | AwardDraw(mahber: MahberId, eligible: seq<UserId>, winner: UserId, payout: Money, seed: nat, id: string,
                since: Time)
    | PayExpense(index: nat, approver: UserId)
    | PayOut(mahber: MahberId, member: UserId, amount: Money, purpose: PayoutCategory, reason: string)

  /** Rows stay with their user, nobody who has won forgets it, and users keep to one row each. */
  ghost predicate MembersGrow(before: seq<Membership>, after: seq<Membership>) {
    && |before| <= |after|
    && (forall i :: 0 <= i < |before| ==>
          && after[i].mahber == before[i].mahber && after[i].member == before[i].member
          && (before[i].hasWon ==> after[i].hasWon))
    && (Members.OneRowEach(before) ==> Members.OneRowEach(after))
  }

  ghost predicate OfPayer(fines: seq<Fine>, ids: seq<nat>, mahber: MahberId, member: UserId) {
    forall x :: x in ids ==> x < |fines| && fines[x].mahber == mahber && fines[x].member == member
  }

  ghost predicate PositiveJoins(joins: seq<PendingPayment>) {
    forall i :: 0 <= i < |joins| ==> joins[i].amount > 0.0
  }

  /** The guards under which services make the change. */
  ghost predicate Legal(db: Db, c: Change) {
    match c
    case MembersTo(members) => MembersGrow(db.members, members)
    case OpenJoin(p) => p.status == Open && p.amount > 0.0 && Payments.FindJoin(db.joins, p.id).None?
    case CloseJoin(j, outcome) =>
      j < |db.joins| && db.joins[j].status == Open && (outcome == Lapsed || outcome == Lost)
    case OpenPayment(p) =>
      && p.status == Pending && p.amount > 0.0 && p.createdAt == db.clock
      && Payments.FindByRef(db.payments, p.txRef).None?
      && OfPayer(db.fines, p.fineIds, p.mahber, p.member)
      && forall i :: 0 <= i < |db.payments| && db.payments[i].status == Pending
                     && db.payments[i].mahber == p.mahber && db.payments[i].member == p.member ==>
           !Payments.Overlap(db.payments[i].fineIds, p.fineIds)
    case ClosePayment(i, status) =>
      && i < |db.payments| && (db.payments[i].status == Pending || db.payments[i].status == Expired)
      && (status == Failed || status == Expired)
    case CompletePayment(i, k) =>
      && i < |db.payments| && (db.payments[i].status == Pending || db.payments[i].status == Expired)
      && Members.Find(db.members, db.payments[i].mahber, db.payments[i].member) == Some(k)
    case CompleteJoin(j, k, config) =>
      && j < |db.joins| && db.joins[j].status == Open
      && Payments.FindByRef(db.payments, db.joins[j].id).None?
      && Members.Find(db.members, db.joins[j].mahber, db.joins[j].member) == Some(k)
    case AddFine(mahber, member, cause, config) =>
      if cause.Overdue? then Fines.DueForFine(db, mahber, member, config, db.clock - Fines.Period(config.frequency))
      else !Fines.Mentions(db.ledger, mahber, member, cause.event.id)
    case WaiveFine(mahber, i) => i < |db.fines| && db.fines[i].mahber == mahber
    case AwardDraw(mahber, eligible, winner, payout, seed, id, since) =>
      && winner in eligible && payout > 0.0
      && (exists k :: 0 <= k < |db.members| && Members.IsRow(db.members[k], mahber, winner) && !db.members[k].hasWon)
      && Lottery.AllPaid(db, mahber, since)
      && (var last := Lottery.LastDraw(db.draws, mahber); last.Some? ==> last.value == since)
    case AskExpense(e) => e.status == Awaiting
    case DeclineExpense(i) => i < |db.expenses| && db.expenses[i].status == Awaiting
    case PayExpense(i, approver) =>
      && i < |db.expenses| && db.expenses[i].status == Awaiting && db.expenses[i].bankCode.Code?
      && db.expenses[i].amount <= Ledger.Pool(db.ledger, db.expenses[i].mahber)
    case PayOut(mahber, member, amount, purpose, reason) => amount <= Ledger.Pool(db.ledger, mahber)
    case _ => true
  }

  ghost function Play(db: Db, c: Change): Db
    requires Legal(db, c)
  {
    match c
    case Wait(wait) => db.(clock := db.clock + wait)
    case MembersTo(members) => db.(members := members)
    case OpenJoin(p) => db.(joins := db.joins + [p])
    case CloseJoin(j, outcome) => db.(joins := db.joins[j := db.joins[j].(status := outcome)])
    case AskExpense(e) => db.(expenses := db.expenses + [e])
    case DeclineExpense(i) => db.(expenses := db.expenses[i := db.expenses[i].(status := Declined)])
    case Supersede(claim) => db.(payments := Payments.ExpireSuperseded(db.payments, claim))
    case OpenPayment(p) => db.(payments := db.payments + [p])
    case ClosePayment(i, status) => db.(payments := db.payments[i := db.payments[i].(status := status)])
    case CompletePayment(i, k) => Payments.Complete(db, i, k)
    case CompleteJoin(j, k, config) => Payments.CompleteJoin(db, j, k, config)
    case AddFine(mahber, member, cause, config) =>
      Fines.ApplyFine(db, mahber, member, Violates(cause), config, Describe(cause, config))
    case WaiveFine(_, i) => db.(fines := db.fines[i := db.fines[i].(waived := true)])
    case AwardDraw(mahber, eligible, winner, payout, seed, id, _) =>
      Lottery.Award(db, mahber, eligible, winner, payout, seed, id)
    case PayExpense(i, approver) =>
      var e := db.expenses[i];
      db.(expenses := db.expenses[i := e.(status := Paid)],
          ledger := Ledger.Post(db.ledger, db.clock, e.mahber, approver, ExpenseEntry, -e.amount,
                                "Expense: " + e.reason + " (" + e.category + ")", OfExpense(i)))
    case PayOut(mahber, member, amount, purpose, reason) =>
      db.(payouts := db.payouts + [Payout(mahber, member, amount, purpose, reason)],
          ledger := Ledger.Post(db.ledger, db.clock, mahber, member,
                                if purpose.IddirBenefit? then IddirPayoutEntry else PayoutEntry, amount,
                                "Payout: " + reason + " (" + Spending.CategoryName(purpose) + ")",
                                OfPayout(|db.payouts|)))
  }

  /** A change that neither fines, nor waives, nor awards, nor pays out. */
  predicate Plain(c: Change) {
    !c.AddFine? && !c.WaiveFine? && !c.AwardDraw? && !c.PayOut?
  }

  /** Only the two jobs fine, each for its own cause and with its own configuration; only a draw awards; and so on. */
  predicate Suits(op: Op, c: Change) {
    || Plain(c)
    || (c.AddFine? && op.FineJob? && c.mahber == op.mahber && c.config == op.config && c.cause.Overdue?)
    || (c.AddFine? && op.AttendanceJob? && c.mahber == op.mahber && c.config == op.config
        && c.cause == Absence(op.event))
    || (c.WaiveFine? && op.Waive? && c.mahber == op.mahber)
    || (c.AwardDraw? && op.ExecuteDraw?)
    || (c.PayOut? && op.CreatePayout? && c.amount == op.amount)
  }

  ghost predicate LegalAll(db: Db, cs: seq<Change>)
    decreases |cs|
  {
    cs == [] || (Legal(db, cs[0]) && LegalAll(Play(db, cs[0]), cs[1..]))
  }

  ghost function PlayAll(db: Db, cs: seq<Change>): Db
    requires LegalAll(db, cs)
    decreases |cs|
  {
    if cs == [] then db else PlayAll(Play(db, cs[0]), cs[1..])
  }

  ghost predicate Yields(db: Db, cs: seq<Change>, after: Db) {
    LegalAll(db, cs) && PlayAll(db, cs) == after
  }

  lemma YieldsNone(db: Db)
    ensures Yields(db, [], db)
  {
  }

  lemma YieldsOne(db: Db, c: Change)
    requires Legal(db, c)
    ensures Yields(db, [c], Play(db, c))
  {
    hide Legal, Play;
    var after, rest := Play(db, c), [c][1..];
    assert [c][0] == c && rest == [];
    assert LegalAll(after, rest) && PlayAll(after, rest) == after;
  }

  lemma {:induction false} YieldsBoth(db: Db, cs: seq<Change>, middle: Db, ds: seq<Change>, after: Db)
    requires Yields(db, cs, middle) && Yields(middle, ds, after)
    ensures Yields(db, cs + ds, after)
    decreases |cs|
  {
    hide Legal, Play;
    if cs == [] {
      assert cs + ds == ds;
    } else {
      YieldsBoth(Play(db, cs[0]), cs[1..], middle, ds, after);
      assert (cs + ds)[1..] == cs[1..] + ds && (cs + ds)[0] == cs[0];
    }
  }

  lemma YieldsTwo(db: Db, c: Change, d: Change)
    requires Legal(db, c) && Legal(Play(db, c), d)
    ensures Yields(db, [c, d], Play(Play(db, c), d))
  {
    hide Legal, Play, Yields;
    YieldsOne(db, c);
    YieldsOne(Play(db, c), d);
    YieldsBoth(db, [c], Play(db, c), [d], Play(Play(db, c), d));
    assert [c] + [d] == [c, d];
  }

  // ----- membership rows

  lemma RowKeepsUsers(members: seq<Membership>, k: nat, m: Membership)
    requires k < |members|
    requires m.mahber == members[k].mahber && m.member == members[k].member && m.hasWon == members[k].hasWon
    ensures MembersGrow(members, members[k := m])
  {
  }

  lemma NewRowKeepsUsers(members: seq<Membership>, m: Membership)
    requires Members.Find(members, m.mahber, m.member).None?
    ensures MembersGrow(members, members + [m])
  {
    var after := members + [m];
    forall i, j | Members.OneRowEach(members) && 0 <= i < j < |after|
      ensures !Members.IsRow(after[j], after[i].mahber, after[i].member)
    {
    }
  }

  lemma AdmitChanges(db: Db, mahber: MahberId, member: UserId, status: MembershipStatus, nextDue: Option<Time>)
    returns (cs: seq<Change>)
    ensures Yields(db, cs, AdmitMember(db, mahber, member, status, nextDue))
    ensures forall c' :: c' in cs ==> Plain(c')
  {
    cs := [];
    YieldsNone(db);
    if Members.Find(db.members, mahber, member).None? {
      var m := Membership(mahber, member, status, nextDue, false, None, None);
      NewRowKeepsUsers(db.members, m);
      cs := [MembersTo(db.members + [m])];
      YieldsOne(db, cs[0]);
    }
  }

  lemma StatusChanges(db: Db, mahber: MahberId, member: UserId, status: MembershipStatus) returns (cs: seq<Change>)
    ensures Yields(db, cs, SetStatus(db, mahber, member, status))
    ensures forall c' :: c' in cs ==> Plain(c')
  {
    cs := [];
    YieldsNone(db);
    var row := Members.Find(db.members, mahber, member);
    if row.Some? {
      var m := db.members[row.value].(status := status);
      RowKeepsUsers(db.members, row.value, m);
      cs := [MembersTo(db.members[row.value := m])];
      YieldsOne(db, cs[0]);
    }
  }

  lemma RoundKeepsUsers(db: Db, mahber: MahberId, dueDate: Option<Time>)
    ensures MembersGrow(db.members, Payments.StartRound(db, mahber, dueDate).db.members)
  {
    hide Members.ActiveRows;
  }

  lemma RoundChanges(db: Db, mahber: MahberId, dueDate: Option<Time>) returns (cs: seq<Change>)
    ensures Yields(db, cs, Payments.StartRound(db, mahber, dueDate).db)
    ensures forall c' :: c' in cs ==> Plain(c')
  {
    hide MembersGrow, Members.ActiveRows;
    var after := Payments.StartRound(db, mahber, dueDate).db;
    RoundKeepsUsers(db, mahber, dueDate);
    cs := [MembersTo(after.members)];
    YieldsOne(db, cs[0]);
  }

  lemma JoinChanges(db: Db, mahber: MahberId, user: UserId, isPublic: bool, config: Config, id: string, up: bool)
    returns (cs: seq<Change>)
    ensures Yields(db, cs, Payments.Join(db, mahber, user, isPublic, config, id, up).db)
    ensures forall c' :: c' in cs ==> Plain(c')
  {
    hide Yields;
    var after := Payments.Join(db, mahber, user, isPublic, config, id, up).db;
    var row := Members.Find(db.members, mahber, user);
    if row.Some? && after.members != db.members {
      RowKeepsUsers(db.members, row.value, after.members[row.value]);
    } else if row.None? && after.members != db.members {
      NewRowKeepsUsers(db.members, after.members[|db.members|]);
    }
    assert MembersGrow(db.members, after.members);
    if after.joins != db.joins {
      cs := [OpenJoin(after.joins[|db.joins|]), MembersTo(after.members)];
      YieldsTwo(db, cs[0], cs[1]);
    } else {
      cs := [MembersTo(after.members)];
      YieldsOne(db, cs[0]);
    }
  }

  // ----- payments

  /** After superseding, no pending payment of the payer lists any of the fines claimed. */
  lemma SupersededAreGone(payments: seq<Payment>, c: Payments.Claim, i: nat)
    requires i < |payments|
    requires var p := Payments.ExpireSuperseded(payments, c)[i];
             p.status == Pending && p.mahber == c.mahber && p.member == c.member
    ensures !Payments.Overlap(Payments.ExpireSuperseded(payments, c)[i].fineIds, c.fineIds)
  {
  }

  lemma SelectedAreOfPayer(fines: seq<Fine>, mahber: MahberId, member: UserId, ids: seq<nat>)
    ensures OfPayer(fines, Payments.Chosen(Payments.Outstanding(fines, mahber, member), ids), mahber, member)
  {
    Payments.OutstandingAreUnresolved(fines, mahber, member);
    Payments.ChosenAreBoth(Payments.Outstanding(fines, mahber, member), ids);
  }

  lemma OpenChanges(db: Db, c: Payments.Claim, p: Payment) returns (cs: seq<Change>)
    requires p.status == Pending && p.amount > 0.0 && p.createdAt == db.clock
    requires p.mahber == c.mahber && p.member == c.member && p.fineIds == c.fineIds
    requires Payments.FindByRef(Payments.ExpireSuperseded(db.payments, c), p.txRef).None?
    requires OfPayer(db.fines, c.fineIds, c.mahber, c.member)
    ensures Yields(db, cs, db.(payments := Payments.ExpireSuperseded(db.payments, c) + [p]))
    ensures forall c' :: c' in cs ==> Plain(c')
  {
    hide Yields;
    cs := [Supersede(c), OpenPayment(p)];
    var middle := Play(db, cs[0]);
    forall i | 0 <= i < |middle.payments| && middle.payments[i].status == Pending
               && middle.payments[i].mahber == p.mahber && middle.payments[i].member == p.member
      ensures !Payments.Overlap(middle.payments[i].fineIds, p.fineIds)
    {
      SupersededAreGone(db.payments, c, i);
    }
    YieldsTwo(db, cs[0], cs[1]);
  }

  /** A bill is for the payer's own fines, and its payment says so. */
  lemma BillIsForPayer(db: Db, mahber: MahberId, member: UserId, config: Config, wanted: Option<seq<nat>>,
                       txRef: string)
    requires Payments.Prepare(db, mahber, member, config, wanted, txRef).Ok?
    ensures var bill := Payments.Prepare(db, mahber, member, config, wanted, txRef).value;
            var p := bill.payment;
            && p.status == Pending && p.createdAt == db.clock && p.txRef == txRef && p.completedAt.None?
            && p.mahber == mahber == bill.claim.mahber && p.member == member == bill.claim.member
            && p.fineIds == bill.claim.fineIds
            && OfPayer(db.fines, p.fineIds, mahber, member)
  {
    hide Payments.Chosen, Payments.Outstanding, Payments.Unrepeated, Payments.SumFines,
      Payments.DueDates.AddFrequency, Payments.DueDates.ReadFrequency, OfPayer;
    var outstanding := Payments.Outstanding(db.fines, mahber, member);
    var ids := Payments.Unrepeated(if wanted.Some? && wanted.value != [] then wanted.value else outstanding);
    SelectedAreOfPayer(db.fines, mahber, member, ids);
    NoFinesAreOfPayer(db.fines, mahber, member);
  }

  lemma NoFinesAreOfPayer(fines: seq<Fine>, mahber: MahberId, member: UserId)
    ensures OfPayer(fines, [], mahber, member)
  {
  }

  lemma InitiateChanges(db: Db, mahber: MahberId, member: UserId, config: Config, wanted: Option<seq<nat>>,
                        txRef: string, up: bool)
    returns (cs: seq<Change>)
    ensures Yields(db, cs, Payments.Initiate(db, mahber, member, config, wanted, txRef, up).db)
    ensures forall c' :: c' in cs ==> Plain(c')
  {
    hide Yields, Payments.ExpireSuperseded, Payments.Prepare;
    cs := [];
    YieldsNone(db);
    var prepared := Payments.Prepare(db, mahber, member, config, wanted, txRef);
    if prepared.Ok? {
      var bill := prepared.value;
      BillIsForPayer(db, mahber, member, config, wanted, txRef);
      var kept := Payments.ExpireSuperseded(db.payments, bill.claim);
      if bill.payment.amount <= 0.0 || Payments.FindByRef(kept, txRef).Some? {
        cs := [Supersede(bill.claim)];
        YieldsOne(db, cs[0]);
      } else {
        cs := OpenChanges(db, bill.claim, bill.payment);
      }
    }
  }

  lemma WebhookChanges(db: Db, txRef: Option<string>, status: Option<string>) returns (cs: seq<Change>)
    ensures Yields(db, cs, Payments.Webhook(db, txRef, status).db)
    ensures forall c' :: c' in cs ==> Plain(c')
  {
    hide Yields, Payments.Complete, Payments.ReadNotice;
    cs := [];
    YieldsNone(db);
    if txRef.None? || txRef.value == "" { return; }
    var found := Payments.FindByRef(db.payments, txRef.value);
    if found.None? { return; }
    var i := found.value;
    var p := db.payments[i];
    if p.status == Completed || p.status == Failed { return; }
    match Payments.ReadNotice(status) {
      case SaysSuccess =>
        var row := Members.Find(db.members, p.mahber, p.member);
        if row.Some? {
          cs := [CompletePayment(i, row.value)];
          YieldsOne(db, cs[0]);
        }
      case SaysFailed =>
        cs := [ClosePayment(i, Failed)];
        YieldsOne(db, cs[0]);
      case SaysExpired =>
        cs := [ClosePayment(i, Expired)];
        YieldsOne(db, cs[0]);
      case SaysOther =>
    }
  }

  lemma RetryChanges(db: Db, mahber: MahberId, payment: nat, member: UserId, txRef: string, up: bool)
    returns (cs: seq<Change>)
    requires AmountsPositive(db)
    ensures Yields(db, cs, Payments.Retry(db, mahber, payment, member, txRef, up).db)
    ensures forall c' :: c' in cs ==> Plain(c')
  {
    hide Yields;
    cs := [];
    YieldsNone(db);
    var after := Payments.Retry(db, mahber, payment, member, txRef, up).db;
    if after != db {
      var p := after.payments[|db.payments|];
      cs := [OpenPayment(p)];
      YieldsOne(db, cs[0]);
    }
  }

  lemma CallbackChanges(db: Db, id: Option<string>, status: Option<string>, config: Config) returns (cs: seq<Change>)
    ensures Yields(db, cs, Payments.Callback(db, id, status, config).db)
    ensures forall c' :: c' in cs ==> Plain(c')
  {
    hide Yields, Payments.CompleteJoin, Payments.ReadNotice;
    cs := [];
    YieldsNone(db);
    var after := Payments.Callback(db, id, status, config).db;
    if id.None? || id.value == "" { return; }
    var found := Payments.FindJoin(db.joins, id.value);
    if found.None? { return; }
    var j := found.value;
    var p := db.joins[j];
    if p.status != Open { return; }
    if Payments.ReadNotice(status).SaysSuccess? {
      var row := Members.Find(db.members, p.mahber, p.member);
      if row.Some? && Payments.FindByRef(db.payments, p.id).None? {
        cs := [CompleteJoin(j, row.value, config)];
        YieldsOne(db, cs[0]);
      }
    } else {
      cs := [CloseJoin(j, after.joins[j].status)];
      YieldsOne(db, cs[0]);
    }
  }

  // ----- fines and jobs

  lemma FineMemberChanges(db: Db, row: nat, mahber: MahberId, config: Config, since: Time) returns (cs: seq<Change>)
    requires row < |db.members| && since == db.clock - Fines.Period(config.frequency)
    ensures Yields(db, cs, Fines.FineMember(db, row, mahber, config, since))
    ensures forall c :: c in cs ==>
              Plain(c) || (c.AddFine? && c.mahber == mahber && c.config == config && c.cause.Overdue?)
  {
    hide Yields, Fines.ApplyFine, Fines.DueForFine, Fines.ExceedsThreshold;
    var member := db.members[row].member;
    var fined := Fines.FineIfDue(db, mahber, member, config, since);
    var after := Fines.BanIfOver(fined, row, mahber, config);
    cs := [];
    YieldsNone(db);
    YieldsNone(fined);
    if Fines.DueForFine(db, mahber, member, config, since) {
      cs := [AddFine(mahber, member, Overdue, config)];
      YieldsOne(db, cs[0]);
    }
    if after != fined {
      RowKeepsUsers(fined.members, row, after.members[row]);
      YieldsOne(fined, MembersTo(after.members));
      YieldsBoth(db, cs, fined, [MembersTo(after.members)], after);
      cs := cs + [MembersTo(after.members)];
    }
  }

  lemma {:induction false} FineMembersChanges(db: Db, rows: seq<nat>, mahber: MahberId, config: Config, since: Time)
    returns (cs: seq<Change>)
    requires since == db.clock - Fines.Period(config.frequency)
    requires forall i :: 0 <= i < |rows| ==> rows[i] < |db.members|
    ensures Yields(db, cs, Fines.FineMembers(db, rows, mahber, config, since))
    ensures forall c :: c in cs ==>
              Plain(c) || (c.AddFine? && c.mahber == mahber && c.config == config && c.cause.Overdue?)
  {
    hide Yields, Fines.FineMember;
    if rows == [] {
      cs := [];
      YieldsNone(db);
    } else {
      var n := |rows| - 1;
      var before := Fines.FineMembers(db, rows[..n], mahber, config, since);
      cs := FineMembersChanges(db, rows[..n], mahber, config, since);
      var ds := FineMemberChanges(before, rows[n], mahber, config, since);
      YieldsBoth(db, cs, before, ds, Fines.FineMember(before, rows[n], mahber, config, since));
      cs := cs + ds;
    }
  }

  lemma {:induction false} AbsenteesChanges(db: Db, absent: seq<UserId>, mahber: MahberId, e: Fines.Event,
                                            config: Config)
    returns (cs: seq<Change>)
    ensures Yields(db, cs, Fines.FineAbsentees(db, absent, mahber, e, config))
    ensures forall c :: c in cs ==>
              Plain(c) || (c.AddFine? && c.mahber == mahber && c.config == config && c.cause == Absence(e))
  {
    hide Yields, Fines.ApplyFine, Fines.Mentions;
    cs := [];
    YieldsNone(db);
    if absent != [] {
      var n := |absent| - 1;
      var before := Fines.FineAbsentees(db, absent[..n], mahber, e, config);
      cs := AbsenteesChanges(db, absent[..n], mahber, e, config);
      if !Fines.Mentions(before.ledger, mahber, absent[n], e.id) {
        var c := AddFine(mahber, absent[n], Absence(e), config);
        YieldsOne(before, c);
        YieldsBoth(db, cs, before, [c], Play(before, c));
        cs := cs + [c];
      }
    }
  }

  lemma WaiveChanges(db: Db, mahber: MahberId, fine: nat) returns (cs: seq<Change>)
    ensures Yields(db, cs, Fines.Waive(db, mahber, fine).db)
    ensures forall c :: c in cs ==> Plain(c) || (c.WaiveFine? && c.mahber == mahber)
  {
    hide Yields;
    cs := [];
    YieldsNone(db);
    if Fines.Waive(db, mahber, fine).refusal.None? {
      cs := [WaiveFine(mahber, fine)];
      YieldsOne(db, cs[0]);
    }
  }

  // ----- draws and spending

  lemma {:induction false} EligibleRow(db: Db, mahber: MahberId, threshold: Money, k: nat, u: UserId) returns (i: nat)
    requires k <= |db.members| && u in Lottery.Eligible(db, mahber, threshold, k)
    ensures i < k && db.members[i].member == u && Lottery.IsEligible(db, i, mahber, threshold)
  {
    hide Fines.ExceedsThreshold;
    if Lottery.IsEligible(db, k - 1, mahber, threshold) && db.members[k - 1].member == u {
      i := k - 1;
    } else {
      i := EligibleRow(db, mahber, threshold, k - 1, u);
    }
  }

  lemma DrawChanges(db: Db, mahber: MahberId, created: Time, rate: Money, threshold: Money, seed: nat, id: string)
    returns (cs: seq<Change>)
    ensures Yields(db, cs, Lottery.ExecuteDraw(db, mahber, created, rate, threshold, seed, id).db)
    ensures forall c :: c in cs ==> c.AwardDraw?
  {
    hide Yields, Lottery.Award, Lottery.AllPaid, Lottery.Eligible, Ledger.Pool, Lottery.PayoutAmount;
    cs := [];
    YieldsNone(db);
    var out := Lottery.ExecuteDraw(db, mahber, created, rate, threshold, seed, id);
    if out.refusal.None? {
      var last := Lottery.LastDraw(db.draws, mahber);
      var eligible := Lottery.Eligible(db, mahber, threshold, |db.members|);
      var winner := eligible[seed % |eligible|];
      var payout := Lottery.PayoutAmount(Ledger.Pool(db.ledger, mahber), rate);
      var i := EligibleRow(db, mahber, threshold, |db.members|, winner);
      cs := [AwardDraw(mahber, eligible, winner, payout, seed, id, if last.Some? then last.value else created)];
      assert Members.IsRow(db.members[i], mahber, winner);
      YieldsOne(db, cs[0]);
    }
  }

  lemma RequestChanges(db: Db, mahber: MahberId, amount: Money, reason: string, category: string, bankCode: BankCode)
    returns (cs: seq<Change>)
    ensures Yields(db, cs, Spending.CreateExpense(db, mahber, amount, reason, category, bankCode))
    ensures forall c :: c in cs ==> Plain(c)
  {
    hide Yields;
    cs := [AskExpense(Expense(mahber, amount, reason, category, Awaiting, bankCode))];
    YieldsOne(db, cs[0]);
  }

  lemma ApprovalChanges(db: Db, expense: nat, mahber: MahberId, approver: UserId, up: bool) returns (cs: seq<Change>)
    ensures Yields(db, cs, Spending.ApproveExpense(db, expense, mahber, approver, up).db)
    ensures forall c :: c in cs ==> Plain(c)
  {
    hide Yields, Ledger.Post, Ledger.Pool;
    cs := [];
    YieldsNone(db);
    if Spending.ApproveExpense(db, expense, mahber, approver, up).refusal.None? {
      cs := [PayExpense(expense, approver)];
      YieldsOne(db, cs[0]);
    }
  }

  lemma RejectionChanges(db: Db, expense: nat, mahber: MahberId) returns (cs: seq<Change>)
    ensures Yields(db, cs, Spending.RejectExpense(db, expense, mahber).db)
    ensures forall c :: c in cs ==> Plain(c)
  {
    hide Yields;
    cs := [];
    YieldsNone(db);
    if Spending.RejectExpense(db, expense, mahber).refusal.None? {
      cs := [DeclineExpense(expense)];
      YieldsOne(db, cs[0]);
    }
  }

  lemma PayoutChanges(db: Db, mahber: MahberId, member: UserId, amount: Money, purpose: PayoutCategory, reason: string)
    returns (cs: seq<Change>)
    ensures Yields(db, cs, Spending.CreatePayout(db, mahber, member, amount, purpose, reason).db)
    ensures forall c :: c in cs ==> c == PayOut(mahber, member, amount, purpose, reason)
  {
    hide Yields, Ledger.Post, Ledger.Pool;
    cs := [];
    YieldsNone(db);
    if Spending.CreatePayout(db, mahber, member, amount, purpose, reason).refusal.None? {
      cs := [PayOut(mahber, member, amount, purpose, reason)];
      YieldsOne(db, cs[0]);
    }
  }

  // ----- every call

  /** Payments and open join payments are for positive amounts. */
  ghost predicate AmountsPositive(db: Db) {
    && (forall i :: 0 <= i < |db.payments| ==> db.payments[i].amount > 0.0)
    && PositiveJoins(db.joins)
  }

  /** Every call is a sequence of legal changes. */
  lemma OpChanges(db: Db, op: Op) returns (cs: seq<Change>)
    requires AmountsPositive(db)
    ensures Yields(db, cs, Apply(db, op).db)
    ensures forall c :: c in cs ==> Suits(op, c)
  {
    hide Yields, Legal, Play, Payments.Join, Payments.Initiate, Payments.Webhook, Payments.Retry, Payments.Callback,
      Payments.StartRound, Fines.Waive, Fines.FineMembers, Fines.FineAbsentees, Fines.Absent, Fines.Period,
      Lottery.ExecuteDraw, AdmitMember, SetStatus, Members.ActiveRows, Spending.CreateExpense,
      Spending.ApproveExpense, Spending.RejectExpense, Spending.CreatePayout;
    match op
    case Admit(mahber, member, status, nextDue) => cs := AdmitChanges(db, mahber, member, status, nextDue);
    case ChangeStatus(mahber, member, status) => cs := StatusChanges(db, mahber, member, status);
    case Join(mahber, member, isPublic, config, id, up) => cs := JoinChanges(db, mahber, member, isPublic, config, id,
                                                                             up);
    case Initiate(mahber, member, config, wanted, txRef, up) => cs := InitiateChanges(db, mahber, member, config,
                                                                                      wanted, txRef, up);
    case Webhook(ref, notice) => cs := WebhookChanges(db, ref, notice);
    case Retry(mahber, payment, member, txRef, up) => cs := RetryChanges(db, mahber, payment, member, txRef, up);
    case Callback(ref, notice, config) => cs := CallbackChanges(db, ref, notice, config);
    case StartRound(mahber, dueDate) => cs := RoundChanges(db, mahber, dueDate);
    case Waive(mahber, fine) => cs := WaiveChanges(db, mahber, fine);
    case FineJob(mahber, config, stop) =>
      cs := FineMembersChanges(db, Fines.Upto(Members.ActiveRows(db.members, mahber), stop), mahber, config,
                               db.clock - Fines.Period(config.frequency));
    case AttendanceJob(mahber, event, attended, config, stop) =>
      YieldsNone(db);
      cs := [];
      if event.mandatory {
        cs := AbsenteesChanges(db, Fines.Upto(Fines.Absent(db.members, mahber, attended), stop), mahber, event, config);
      }
    case ExecuteDraw(mahber, created, rate, threshold, seed, id) =>
      cs := DrawChanges(db, mahber, created, rate, threshold, seed, id);
    case CreateExpense(mahber, amount, reason, category, bankCode) =>
      cs := RequestChanges(db, mahber, amount, reason, category, bankCode);
    case ApproveExpense(expense, mahber, approver, up) => cs := ApprovalChanges(db, expense, mahber, approver, up);
    case RejectExpense(expense, mahber) => cs := RejectionChanges(db, expense, mahber);
    case CreatePayout(mahber, member, amount, purpose, reason) =>
      cs := PayoutChanges(db, mahber, member, amount, purpose, reason);
  }
}
