/** What every run of the money services keeps. */
module MoneyInvariants {
  import opened Wrappers
  import opened MoneyRecords
  import opened MoneyMachine
  import opened MoneyChanges
  import Ledger
  import Members
  import Payments
  import Fines
  import Lottery

  // ----- what only ever grows

  /** All of a payment but its status and completion time is fixed; completed and failed payments are final. */
  ghost predicate PaymentsGrow(before: seq<Payment>, after: seq<Payment>) {
    && |before| <= |after|
    && forall i :: 0 <= i < |before| ==>
         && after[i] == before[i].(status := after[i].status, completedAt := after[i].completedAt)
         && (before[i].status == Completed || before[i].status == Failed ==> after[i] == before[i])
  }

  /** A fine only ever gets waived, and stamped as paid once. */
  ghost predicate FinesGrow(before: seq<Fine>, after: seq<Fine>) {
    && |before| <= |after|
    && forall i :: 0 <= i < |before| ==>
         && after[i] == before[i].(waived := after[i].waived, paidAt := after[i].paidAt, paidBy := after[i].paidBy)
         && (before[i].waived ==> after[i].waived)
         && (before[i].paidAt.Some? ==> after[i].paidAt == before[i].paidAt && after[i].paidBy == before[i].paidBy)
  }

  /** A join payment only ever changes its status, and keeps it once it is no longer open. */
  ghost predicate JoinsGrow(before: seq<PendingPayment>, after: seq<PendingPayment>) {
    && |before| <= |after|
    && forall i :: 0 <= i < |before| ==>
         && after[i] == before[i].(status := after[i].status)
         && (before[i].status != Open ==> after[i] == before[i])
  }

  ghost predicate Grows(before: Db, after: Db) {
    && before.clock <= after.clock
    && before.ledger <= after.ledger
    && before.draws <= after.draws
    && PaymentsGrow(before.payments, after.payments)
    && FinesGrow(before.fines, after.fines)
    && MembersGrow(before.members, after.members)
    && JoinsGrow(before.joins, after.joins)
  }

  lemma GrowsRefl(db: Db)
    ensures Grows(db, db)
  {
  }

  lemma GrowsTrans(a: Db, b: Db, c: Db)
    requires Grows(a, b) && Grows(b, c)
    ensures Grows(a, c)
  {
    MembersGrowTrans(a.members, b.members, c.members);
  }

  lemma MembersGrowTrans(a: seq<Membership>, b: seq<Membership>, c: seq<Membership>)
    requires MembersGrow(a, b) && MembersGrow(b, c)
    ensures MembersGrow(a, c)
  {
    hide Members.OneRowEach;
  }

  lemma SupersedingOnlyExpires(payments: seq<Payment>, claim: Payments.Claim)
    ensures var after := Payments.ExpireSuperseded(payments, claim);
            forall i :: 0 <= i < |payments| ==>
              && after[i] == payments[i].(status := after[i].status)
              && (payments[i].status != Pending ==> after[i] == payments[i])
              && (payments[i].status == Pending ==> after[i].status == Pending || after[i].status == Expired)
  {
    hide Payments.Overlap;
  }

  lemma ChangeGrowsPayments(db: Db, c: Change)
    requires Legal(db, c)
    ensures PaymentsGrow(db.payments, Play(db, c).payments)
  {
    hide Ledger.Post, Lottery.AllPaid, Fines.DueForFine, Fines.Mentions, Payments.Overlap, Payments.Superseded,
      Payments.StampPaid, Payments.MemberAfterPayment, MembersGrow, Payments.ExpireSuperseded, OfPayer;
    if c.Supersede? {
      SupersedingOnlyExpires(db.payments, c.claim);
    }
  }

  lemma ChangeGrowsFines(db: Db, c: Change)
    requires Legal(db, c)
    ensures FinesGrow(db.fines, Play(db, c).fines)
  {
    hide Ledger.Post, Lottery.AllPaid, Fines.DueForFine, Fines.Mentions, Payments.Overlap, Payments.Superseded,
      Payments.MemberAfterPayment, MembersGrow, OfPayer;
  }

  lemma ChangeGrowsJoins(db: Db, c: Change)
    requires Legal(db, c)
    ensures JoinsGrow(db.joins, Play(db, c).joins)
  {
    hide Ledger.Post, Lottery.AllPaid, Fines.DueForFine, Fines.Mentions, Payments.Overlap, Payments.Superseded,
      Payments.StampPaid, Payments.MemberAfterPayment, MembersGrow, OfPayer, Payments.ExpireSuperseded;
  }

  lemma MembersStay(members: seq<Membership>)
    ensures MembersGrow(members, members)
  {
  }

  lemma ChangeGrowsMembers(db: Db, c: Change)
    requires Legal(db, c)
    ensures MembersGrow(db.members, Play(db, c).members)
  {
    hide Ledger.Post, Lottery.AllPaid, Fines.DueForFine, Fines.Mentions, Payments.Overlap, Payments.Superseded,
      Payments.StampPaid, MembersGrow, OfPayer, Lottery.MarkWinner;
    match c
    case CompletePayment(i, k) => RowKeepsUsers(db.members, k, Play(db, c).members[k]);
    case CompleteJoin(j, k, config) => RowKeepsUsers(db.members, k, Play(db, c).members[k]);
    case AwardDraw(mahber, eligible, winner, payout, seed, id, _) => MarkingGrows(db.members, mahber, winner);
    case MembersTo(_) =>
    case _ => MembersStay(db.members);
  }

  lemma ChangeGrowsLists(db: Db, c: Change)
    requires Legal(db, c)
    ensures var after := Play(db, c);
            db.clock <= after.clock && db.ledger <= after.ledger && db.draws <= after.draws
  {
    hide Ledger.LastBalance, Lottery.AllPaid, Fines.DueForFine, Fines.Mentions, Payments.Overlap, Payments.Superseded,
      Payments.StampPaid, MembersGrow, OfPayer, Lottery.MarkWinner;
  }

  lemma ChangePostsAtMostOne(db: Db, c: Change)
    requires Legal(db, c)
    ensures |Play(db, c).ledger| <= |db.ledger| + 1
  {
    hide Ledger.LastBalance, Lottery.AllPaid, Fines.DueForFine, Fines.Mentions, Payments.Overlap, Payments.Superseded,
      Payments.StampPaid, MembersGrow, OfPayer, Lottery.MarkWinner;
  }

  lemma ChangeGrows(db: Db, c: Change)
    requires Legal(db, c)
    ensures Grows(db, Play(db, c))
  {
    hide Legal, Play, PaymentsGrow, FinesGrow, MembersGrow, JoinsGrow;
    ChangeGrowsPayments(db, c);
    ChangeGrowsJoins(db, c);
    ChangeGrowsFines(db, c);
    ChangeGrowsMembers(db, c);
    ChangeGrowsLists(db, c);
  }

  lemma MarkingGrows(members: seq<Membership>, mahber: MahberId, winner: UserId)
    ensures MembersGrow(members, Lottery.MarkWinner(members, mahber, winner))
  {
  }

  // ----- the clock

  ghost predicate PaymentsDated(payments: seq<Payment>, now: Time) {
    forall i :: 0 <= i < |payments| ==> payments[i].createdAt <= now
  }

  ghost predicate FinesDated(fines: seq<Fine>, now: Time) {
    && (forall i :: 0 <= i < |fines| ==> fines[i].createdAt <= now)
    && (forall i, j :: 0 <= i < j < |fines| ==> fines[i].createdAt <= fines[j].createdAt)
  }

  ghost predicate DrawsDated(draws: seq<Draw>, now: Time) {
    && (forall i :: 0 <= i < |draws| ==> draws[i].createdAt <= now)
    && (forall i, j :: 0 <= i < j < |draws| ==> draws[i].createdAt <= draws[j].createdAt)
  }

  /** Nothing is dated after the clock, and fines and draws are in the order of their dates. */
  ghost predicate Dated(db: Db) {
    PaymentsDated(db.payments, db.clock) && FinesDated(db.fines, db.clock) && DrawsDated(db.draws, db.clock)
  }

  lemma ChangeDatesPayments(db: Db, c: Change)
    requires Legal(db, c) && PaymentsDated(db.payments, db.clock)
    ensures PaymentsDated(Play(db, c).payments, Play(db, c).clock)
  {
    hide Ledger.Post, Lottery.AllPaid, Fines.DueForFine, Fines.Mentions, Payments.Overlap, Payments.Superseded,
      Payments.StampPaid, MembersGrow, OfPayer, Lottery.MarkWinner;
  }

  lemma ChangeDatesFines(db: Db, c: Change)
    requires Legal(db, c) && FinesDated(db.fines, db.clock)
    ensures FinesDated(Play(db, c).fines, Play(db, c).clock)
  {
    hide Ledger.Post, Lottery.AllPaid, Fines.DueForFine, Fines.Mentions, Payments.Overlap, Payments.ExpireSuperseded,
      MembersGrow, OfPayer, Lottery.MarkWinner;
  }

  lemma ChangeDatesDraws(db: Db, c: Change)
    requires Legal(db, c) && DrawsDated(db.draws, db.clock)
    ensures DrawsDated(Play(db, c).draws, Play(db, c).clock)
  {
    hide Ledger.Post, Lottery.AllPaid, Fines.DueForFine, Fines.Mentions, Payments.Overlap, Payments.ExpireSuperseded,
      Payments.StampPaid, MembersGrow, OfPayer, Lottery.MarkWinner;
  }

  lemma ChangeKeepsDates(db: Db, c: Change)
    requires Legal(db, c) && Dated(db)
    ensures Dated(Play(db, c))
  {
    hide Legal, Play, PaymentsDated, FinesDated, DrawsDated;
    ChangeDatesPayments(db, c);
    ChangeDatesFines(db, c);
    ChangeDatesDraws(db, c);
  }

  lemma NewEntryContinues(db: Db, c: Change)
    requires Legal(db, c) && |Play(db, c).ledger| > |db.ledger|
    ensures var e := Play(db, c).ledger[|db.ledger|];
            e.createdAt == db.clock
            && e.runningBalance == Ledger.LastBalance(db.ledger, e.mahber, e.member) + e.amount
  {
    hide Ledger.LastBalance, Lottery.AllPaid, Fines.DueForFine, Fines.Mentions, Payments.Overlap,
      Payments.ExpireSuperseded, Payments.StampPaid, Payments.MemberAfterPayment, MembersGrow, OfPayer,
      Lottery.MarkWinner;
  }

  /** Whatever a change adds to the ledger is a posting at its own time. */
  lemma ChangePosts(db: Db, c: Change)
    requires Legal(db, c) && |Play(db, c).ledger| > |db.ledger|
    ensures var ledger := Play(db, c).ledger;
            var e := ledger[|db.ledger|];
            ledger == Ledger.Post(db.ledger, db.clock, e.mahber, e.member, e.kind, e.amount, e.description, e.source)
  {
    hide Legal, Play, Ledger.LastBalance;
    ChangeGrowsLists(db, c);
    ChangePostsAtMostOne(db, c);
    NewEntryContinues(db, c);
    var ledger := Play(db, c).ledger;
    assert ledger == db.ledger + [ledger[|db.ledger|]];
  }

  lemma LaterLedgerOk(ledger: seq<Entry>, now: Time, later: Time)
    requires Ledger.LedgerOk(ledger, now) && now <= later
    ensures Ledger.LedgerOk(ledger, later)
  {
    hide Ledger.RunningOk;
  }

  lemma ChangeKeepsLedger(db: Db, c: Change)
    requires Legal(db, c) && Ledger.LedgerOk(db.ledger, db.clock)
    ensures Ledger.LedgerOk(Play(db, c).ledger, Play(db, c).clock)
  {
    hide Legal, Play, Ledger.LedgerOk, Ledger.Post;
    var after := Play(db, c);
    ChangeGrowsLists(db, c);
    if |after.ledger| > |db.ledger| {
      var e := after.ledger[|db.ledger|];
      ChangePosts(db, c);
      Ledger.PostKeepsBooks(db.ledger, db.clock, e.mahber, e.member, e.kind, e.amount, e.description, e.source);
    } else {
      assert after.ledger == db.ledger;
    }
    LaterLedgerOk(after.ledger, db.clock, after.clock);
  }

  lemma ChangeKeepsAmounts(db: Db, c: Change)
    requires Legal(db, c) && AmountsPositive(db)
    ensures AmountsPositive(Play(db, c))
  {
    hide Ledger.Post, Lottery.AllPaid, Fines.DueForFine, Fines.Mentions, Payments.Overlap, Payments.Superseded,
      Payments.StampPaid;
  }

  // ----- payments and the ledger

  ghost predicate UniqueRefs(payments: seq<Payment>) {
    forall i, j :: 0 <= i < j < |payments| ==> payments[i].txRef != payments[j].txRef
  }

  lemma ChangeKeepsRefs(db: Db, c: Change)
    requires Legal(db, c) && UniqueRefs(db.payments)
    ensures UniqueRefs(Play(db, c).payments)
  {
    hide Ledger.Post, Lottery.AllPaid, Fines.DueForFine, Fines.Mentions, Payments.Overlap, Payments.Superseded,
      Payments.StampPaid;
  }

  /** How many entries refer to a row. */
  function CountOf(ledger: seq<Entry>, source: Source): nat {
    if ledger == [] then 0
    else
      var n := |ledger| - 1;
      CountOf(ledger[..n], source) + (if ledger[n].source == source then 1 else 0)
  }

  function ContributionTotal(ledger: seq<Entry>, mahber: MahberId): Money {
    if ledger == [] then 0.0
    else
      var n := |ledger| - 1;
      ContributionTotal(ledger[..n], mahber) +
      (if ledger[n].mahber == mahber && ledger[n].kind == ContributionEntry then ledger[n].amount else 0.0)
  }

  function CompletedTotal(payments: seq<Payment>, mahber: MahberId): Money {
    if payments == [] then 0.0
    else
      var n := |payments| - 1;
      CompletedTotal(payments[..n], mahber) +
      (if payments[n].mahber == mahber && payments[n].status == Completed then payments[n].amount else 0.0)
  }

  /** Contribution entries are exactly those of payments, each for the amount and the payer of a completed one. */
  ghost predicate Backed(e: Entry, payments: seq<Payment>) {
    && (e.kind == ContributionEntry <==> e.source.OfPayment?)
    && (e.source.OfPayment? ==>
          var k := e.source.id;
          && k < |payments| && payments[k].status == Completed
          && e.mahber == payments[k].mahber && e.member == payments[k].member && e.amount == payments[k].amount)
  }

  /** One entry for each completed payment, none for any other, and equal totals. */
  ghost predicate Booked(payments: seq<Payment>, ledger: seq<Entry>) {
    && (forall i :: 0 <= i < |ledger| ==> Backed(ledger[i], payments))
    && (forall k :: 0 <= k < |payments| ==>
          CountOf(ledger, OfPayment(k)) == if payments[k].status == Completed then 1 else 0)
    && (forall mahber :: ContributionTotal(ledger, mahber) == CompletedTotal(payments, mahber))
  }

  lemma CountAfter(ledger: seq<Entry>, e: Entry, source: Source, mahber: MahberId)
    ensures CountOf(ledger + [e], source) == CountOf(ledger, source) + (if e.source == source then 1 else 0)
    ensures ContributionTotal(ledger + [e], mahber) ==
            ContributionTotal(ledger, mahber) + (if e.mahber == mahber
                                                 && e.kind == ContributionEntry then e.amount else 0.0)
  {
    assert (ledger + [e])[..|ledger|] == ledger;
  }

  lemma {:induction false} NotYetCounted(ledger: seq<Entry>, payments: seq<Payment>, k: nat)
    requires k >= |payments| && forall i :: 0 <= i < |ledger| ==> Backed(ledger[i], payments)
    ensures CountOf(ledger, OfPayment(k)) == 0
  {
    if ledger != [] {
      NotYetCounted(ledger[..|ledger| - 1], payments, k);
    }
  }

  lemma {:induction false} TotalOfSame(payments: seq<Payment>, payments': seq<Payment>, mahber: MahberId)
    requires |payments| == |payments'|
    requires forall i :: 0 <= i < |payments| ==>
               && payments'[i].mahber == payments[i].mahber && payments'[i].amount == payments[i].amount
               && (payments[i].status == Completed <==> payments'[i].status == Completed)
    ensures CompletedTotal(payments', mahber) == CompletedTotal(payments, mahber)
  {
    if payments != [] {
      var n := |payments| - 1;
      TotalOfSame(payments[..n], payments'[..n], mahber);
    }
  }

  lemma {:induction false} TotalOfUpdate(payments: seq<Payment>, i: nat, p: Payment, mahber: MahberId)
    requires i < |payments| && payments[i].status != Completed && p.status == Completed
    requires p.mahber == payments[i].mahber
    ensures CompletedTotal(payments[i := p], mahber) ==
            CompletedTotal(payments, mahber) + (if p.mahber == mahber then p.amount else 0.0)
  {
    var n := |payments| - 1;
    if i < n {
      TotalOfUpdate(payments[..n], i, p, mahber);
      assert payments[i := p][..n] == payments[..n][i := p];
    } else {
      assert payments[i := p][..n] == payments[..n];
    }
  }

  lemma TotalOfAppend(payments: seq<Payment>, p: Payment, mahber: MahberId)
    ensures CompletedTotal(payments + [p], mahber) ==
            CompletedTotal(payments, mahber) + (if p.mahber == mahber && p.status == Completed then p.amount else 0.0)
  {
    assert (payments + [p])[..|payments|] == payments;
  }

  /** An entry of another service touches neither counts nor totals. */
  lemma OtherEntryBooked(payments: seq<Payment>, ledger: seq<Entry>, e: Entry)
    requires Booked(payments, ledger) && e.kind != ContributionEntry && !e.source.OfPayment?
    ensures Booked(payments, ledger + [e])
  {
    forall k | 0 <= k < |payments| {
      CountAfter(ledger, e, OfPayment(k), "");
    }
    forall mahber: MahberId ensures ContributionTotal(ledger + [e], mahber) == ContributionTotal(ledger, mahber) {
      CountAfter(ledger, e, e.source, mahber);
    }
  }

  /** Status changes that complete nothing touch nothing. */
  lemma SameCompletedBooked(payments: seq<Payment>, payments': seq<Payment>, ledger: seq<Entry>)
    requires Booked(payments, ledger) && |payments| == |payments'|
    requires forall i :: 0 <= i < |payments| ==>
               && payments'[i].mahber == payments[i].mahber && payments'[i].member == payments[i].member
               && payments'[i].amount == payments[i].amount
               && (payments[i].status == Completed <==> payments'[i].status == Completed)
    ensures Booked(payments', ledger)
  {
    forall mahber: MahberId ensures CompletedTotal(payments', mahber) == CompletedTotal(payments, mahber) {
      TotalOfSame(payments, payments', mahber);
    }
  }

  /** A payment that completes gets its one entry. */
  lemma CompletionBooked(payments: seq<Payment>, payments': seq<Payment>, ledger: seq<Entry>, i: nat, e: Entry)
    requires Booked(payments, ledger)
    requires i < |payments'| && |payments| <= |payments'| <= |payments| + 1
    requires i < |payments| ==> payments[i].status != Completed && payments' == payments[i := payments'[i]]
                                && payments'[i].mahber == payments[i].mahber
    requires i == |payments| ==> payments' == payments + [payments'[i]]
    requires |payments'| > |payments| ==> i == |payments|
    requires var p := payments'[i];
             && p.status == Completed && e.kind == ContributionEntry && e.source == OfPayment(i)
             && e.mahber == p.mahber && e.member == p.member && e.amount == p.amount
    ensures Booked(payments', ledger + [e])
  {
    var after := ledger + [e];
    if i == |payments| {
      NotYetCounted(ledger, payments, i);
    }
    forall k | 0 <= k < |payments'|
      ensures CountOf(after, OfPayment(k)) == if payments'[k].status == Completed then 1 else 0
    {
      CountAfter(ledger, e, OfPayment(k), "");
    }
    forall j | 0 <= j < |after| ensures Backed(after[j], payments') {
      if j < |ledger| {
        assert Backed(ledger[j], payments);
      }
    }
    forall mahber: MahberId ensures ContributionTotal(after, mahber) == CompletedTotal(payments', mahber) {
      CountAfter(ledger, e, e.source, mahber);
      if i < |payments| {
        TotalOfUpdate(payments, i, payments'[i], mahber);
      } else {
        TotalOfAppend(payments, payments'[i], mahber);
      }
    }
  }

  lemma PendingOpenedBooked(payments: seq<Payment>, ledger: seq<Entry>, p: Payment)
    requires Booked(payments, ledger) && p.status != Completed
    ensures Booked(payments + [p], ledger)
  {
    NotYetCounted(ledger, payments, |payments|);
    forall j | 0 <= j < |ledger| ensures Backed(ledger[j], payments + [p]) {
      assert Backed(ledger[j], payments);
    }
    forall mahber: MahberId ensures CompletedTotal(payments + [p], mahber) == CompletedTotal(payments, mahber) {
      TotalOfAppend(payments, p, mahber);
    }
  }

  lemma ChangeKeepsBooked(db: Db, c: Change)
    requires Legal(db, c) && Booked(db.payments, db.ledger)
    ensures Booked(Play(db, c).payments, Play(db, c).ledger)
  {
    hide Booked, Ledger.LastBalance, Lottery.AllPaid, Fines.DueForFine, Fines.Mentions, Payments.Overlap,
      Payments.Superseded, Payments.StampPaid;
    var after := Play(db, c);
    match c
    case Supersede(claim) =>
      SupersedingOnlyExpires(db.payments, claim);
      SameCompletedBooked(db.payments, after.payments, db.ledger);
    case ClosePayment(i, status) => SameCompletedBooked(db.payments, after.payments, db.ledger);
    case OpenPayment(p) => PendingOpenedBooked(db.payments, db.ledger, p);
    case CompletePayment(i, k) =>
      CompletionBooked(db.payments, after.payments, db.ledger, i, after.ledger[|db.ledger|]);
    case CompleteJoin(j, k, config) =>
      CompletionBooked(db.payments, after.payments, db.ledger, |db.payments|, after.ledger[|db.ledger|]);
    case AddFine(_, _, _, _) => OtherEntryBooked(db.payments, db.ledger, after.ledger[|db.ledger|]);
    case AwardDraw(_, _, _, _, _, _, _) => OtherEntryBooked(db.payments, db.ledger, after.ledger[|db.ledger|]);
    case PayExpense(_, _) => OtherEntryBooked(db.payments, db.ledger, after.ledger[|db.ledger|]);
    case PayOut(_, _, _, _, _) => OtherEntryBooked(db.payments, db.ledger, after.ledger[|db.ledger|]);
    case _ =>
  }

  // ----- join payments

  ghost predicate UniqueJoins(joins: seq<PendingPayment>) {
    forall i, j :: 0 <= i < j < |joins| ==> joins[i].id != joins[j].id
  }

  /** A completed payment of the same user for the same amount, under the join payment's identifier. */
  ghost predicate JoinPaid(p: PendingPayment, payments: seq<Payment>) {
    exists k :: 0 <= k < |payments| && payments[k].txRef == p.id && payments[k].status == Completed
                && payments[k].mahber == p.mahber && payments[k].member == p.member && payments[k].amount == p.amount
  }

  ghost predicate JoinsBooked(joins: seq<PendingPayment>, payments: seq<Payment>) {
    && UniqueJoins(joins)
    && forall j :: 0 <= j < |joins| && joins[j].status == Done ==> JoinPaid(joins[j], payments)
  }

  lemma JoinPaidStays(p: PendingPayment, before: seq<Payment>, after: seq<Payment>)
    requires PaymentsGrow(before, after) && JoinPaid(p, before)
    ensures JoinPaid(p, after)
  {
    var k :| 0 <= k < |before| && before[k].txRef == p.id && before[k].status == Completed
             && before[k].mahber == p.mahber && before[k].member == p.member && before[k].amount == p.amount;
    assert after[k] == before[k];
  }

  lemma ChangeKeepsJoins(db: Db, c: Change)
    requires Legal(db, c) && JoinsBooked(db.joins, db.payments)
    ensures JoinsBooked(Play(db, c).joins, Play(db, c).payments)
  {
    hide Ledger.Post, Lottery.AllPaid, Fines.DueForFine, Fines.Mentions, Payments.Overlap, Payments.Superseded,
      Payments.StampPaid, Payments.MemberAfterPayment, MembersGrow, OfPayer, Payments.ExpireSuperseded, JoinPaid,
      PaymentsGrow;
    var after := Play(db, c);
    ChangeGrowsPayments(db, c);
    forall j | 0 <= j < |db.joins| && db.joins[j].status == Done ensures JoinPaid(db.joins[j], after.payments) {
      JoinPaidStays(db.joins[j], db.payments, after.payments);
    }
    if c.CompleteJoin? {
      JoinJustPaid(db, c);
    }
  }

  lemma JoinJustPaid(db: Db, c: Change)
    requires Legal(db, c) && c.CompleteJoin?
    ensures JoinPaid(Play(db, c).joins[c.index], Play(db, c).payments)
  {
    hide Ledger.Post, Payments.DueDates.NextDue;
    var p := Play(db, c).payments[|db.payments|];
    assert p.txRef == db.joins[c.index].id;
  }

  // ----- fines and the payments that list them

  ghost predicate StampOk(fines: seq<Fine>, x: nat, payments: seq<Payment>)
    requires x < |fines|
  {
    var f := fines[x];
    && (f.paidAt.Some? <==> f.paidBy.Some?)
    && (f.paidBy.Some? ==>
          var k := f.paidBy.value;
          && k < |payments| && payments[k].status == Completed
          && payments[k].mahber == f.mahber && payments[k].member == f.member && x in payments[k].fineIds)
  }

  ghost predicate AllPaidUp(fines: seq<Fine>, ids: seq<nat>) {
    forall x :: x in ids ==> x < |fines| && fines[x].paidAt.Some?
  }

  /**
   Payments list fines of their own payer; pending ones list no fine twice between them; a
   stamp names a completed payment that lists the fine; and all fines of a completed
   payment are paid.
   */
  ghost predicate FinesBooked(fines: seq<Fine>, payments: seq<Payment>) {
    && (forall i :: 0 <= i < |payments| ==> OfPayer(fines, payments[i].fineIds, payments[i].mahber, payments[i].member))
    && (forall i, j :: 0 <= i < j < |payments| && payments[i].status == Pending && payments[j].status == Pending ==>
          !Payments.Overlap(payments[i].fineIds, payments[j].fineIds))
    && (forall x :: 0 <= x < |fines| ==> StampOk(fines, x, payments))
    && (forall i :: 0 <= i < |payments| && payments[i].status == Completed ==> AllPaidUp(fines, payments[i].fineIds))
  }

  lemma DifferentPayersShareNothing(fines: seq<Fine>, p: Payment, q: Payment)
    requires OfPayer(fines, p.fineIds, p.mahber, p.member) && OfPayer(fines, q.fineIds, q.mahber, q.member)
    requires p.mahber != q.mahber || p.member != q.member
    ensures !Payments.Overlap(p.fineIds, q.fineIds)
  {
    forall i | 0 <= i < |p.fineIds| ensures p.fineIds[i] !in q.fineIds {
      assert p.fineIds[i] in p.fineIds;
    }
  }

  lemma NewFineBooked(fines: seq<Fine>, f: Fine, payments: seq<Payment>)
    requires FinesBooked(fines, payments) && f.paidAt.None? && f.paidBy.None?
    ensures FinesBooked(fines + [f], payments)
  {
    hide Payments.Overlap;
    forall x | 0 <= x < |fines| + 1 ensures StampOk(fines + [f], x, payments) {
      if x < |fines| {
        assert StampOk(fines, x, payments);
      }
    }
  }

  lemma WaivedFineBooked(fines: seq<Fine>, i: nat, payments: seq<Payment>)
    requires FinesBooked(fines, payments) && i < |fines|
    ensures FinesBooked(fines[i := fines[i].(waived := true)], payments)
  {
    hide Payments.Overlap;
    var after := fines[i := fines[i].(waived := true)];
    forall x | 0 <= x < |fines| ensures StampOk(after, x, payments) {
      assert StampOk(fines, x, payments);
    }
  }

  /** Closing and superseding payments leaves fewer pending ones and no stamp behind. */
  lemma ClosedBooked(fines: seq<Fine>, payments: seq<Payment>, payments': seq<Payment>)
    requires FinesBooked(fines, payments) && |payments| == |payments'|
    requires forall i :: 0 <= i < |payments| ==>
               && payments'[i] == payments[i].(status := payments'[i].status)
               && (payments'[i].status == Pending ==> payments[i].status == Pending)
               && (payments[i].status == Completed <==> payments'[i].status == Completed)
    ensures FinesBooked(fines, payments')
  {
    hide Payments.Overlap;
    forall x | 0 <= x < |fines| ensures StampOk(fines, x, payments') {
      assert StampOk(fines, x, payments);
    }
  }

  lemma OpenedBooked(fines: seq<Fine>, payments: seq<Payment>, p: Payment)
    requires FinesBooked(fines, payments) && p.status == Pending
    requires OfPayer(fines, p.fineIds, p.mahber, p.member)
    requires forall i :: 0 <= i < |payments| && payments[i].status == Pending
                         && payments[i].mahber == p.mahber && payments[i].member == p.member ==>
               !Payments.Overlap(payments[i].fineIds, p.fineIds)
    ensures FinesBooked(fines, payments + [p])
  {
    hide Payments.Overlap;
    var after := payments + [p];
    forall i | 0 <= i < |payments| && payments[i].status == Pending
      ensures !Payments.Overlap(payments[i].fineIds, p.fineIds)
    {
      if payments[i].mahber != p.mahber || payments[i].member != p.member {
        DifferentPayersShareNothing(fines, payments[i], p);
      }
    }
    forall x | 0 <= x < |fines| ensures StampOk(fines, x, after) {
      assert StampOk(fines, x, payments);
    }
  }

  /** Completing payment `i` stamps what it lists and is still unpaid. */
  lemma StampedBooked(fines: seq<Fine>, payments: seq<Payment>, i: nat, p: Payment, now: Time)
    requires FinesBooked(fines, payments) && i < |payments| && payments[i].status != Completed
    requires p == payments[i].(status := Completed, completedAt := p.completedAt)
    ensures FinesBooked(Payments.StampPaid(fines, p.fineIds, p.mahber, p.member, i, now), payments[i := p])
  {
    hide Payments.Overlap;
    var stamped := Payments.StampPaid(fines, p.fineIds, p.mahber, p.member, i, now);
    var after := payments[i := p];
    forall x | 0 <= x < |fines| ensures StampOk(stamped, x, after) {
      assert StampOk(fines, x, payments);
    }
    forall j | 0 <= j < |after| && after[j].status == Completed ensures AllPaidUp(stamped, after[j].fineIds) {
      assert OfPayer(fines, payments[j].fineIds, payments[j].mahber, payments[j].member);
    }
  }

  lemma JoinedBooked(fines: seq<Fine>, payments: seq<Payment>, p: Payment)
    requires FinesBooked(fines, payments) && p.status == Completed && p.fineIds == []
    ensures FinesBooked(fines, payments + [p])
  {
    hide Payments.Overlap;
    forall x | 0 <= x < |fines| ensures StampOk(fines, x, payments + [p]) {
      assert StampOk(fines, x, payments);
    }
  }

  lemma ChangeKeepsFinesBooked(db: Db, c: Change)
    requires Legal(db, c) && FinesBooked(db.fines, db.payments)
    ensures FinesBooked(Play(db, c).fines, Play(db, c).payments)
  {
    hide FinesBooked, Ledger.Post, Lottery.AllPaid, Fines.DueForFine, Fines.Mentions, Payments.Overlap,
      Payments.Superseded, Payments.StampPaid, OfPayer;
    var after := Play(db, c);
    match c
    case Supersede(claim) =>
      SupersedingOnlyExpires(db.payments, claim);
      ClosedBooked(db.fines, db.payments, after.payments);
    case ClosePayment(i, status) => ClosedBooked(db.fines, db.payments, after.payments);
    case OpenPayment(p) => OpenedBooked(db.fines, db.payments, p);
    case CompletePayment(i, k) => StampedBooked(db.fines, db.payments, i, after.payments[i], db.clock);
    case CompleteJoin(j, k, config) => JoinedBooked(db.fines, db.payments, after.payments[|db.payments|]);
    case AddFine(_, _, _, _) => NewFineBooked(db.fines, after.fines[|db.fines|], db.payments);
    case WaiveFine(_, i) => WaivedFineBooked(db.fines, i, db.payments);
    case _ =>
  }

  // ----- winners

  ghost predicate HasWonRow(members: seq<Membership>, mahber: MahberId, member: UserId) {
    exists k :: 0 <= k < |members| && Members.IsRow(members[k], mahber, member) && members[k].hasWon
  }

  /** Users have one row each, winners are marked, and nobody wins twice in a mahber. */
  ghost predicate WinnersOk(members: seq<Membership>, draws: seq<Draw>) {
    && Members.OneRowEach(members)
    && (forall i :: 0 <= i < |draws| ==> HasWonRow(members, draws[i].mahber, draws[i].winner))
    && (forall i, j :: 0 <= i < j < |draws| && draws[i].mahber == draws[j].mahber ==>
        draws[i].winner != draws[j].winner)
  }

  lemma HasWonRowStays(before: seq<Membership>, after: seq<Membership>, mahber: MahberId, member: UserId)
    requires MembersGrow(before, after) && HasWonRow(before, mahber, member)
    ensures HasWonRow(after, mahber, member)
  {
    var k :| 0 <= k < |before| && Members.IsRow(before[k], mahber, member) && before[k].hasWon;
    assert Members.IsRow(after[k], mahber, member) && after[k].hasWon;
  }

  lemma ChangeKeepsWinners(db: Db, c: Change)
    requires Legal(db, c) && WinnersOk(db.members, db.draws)
    ensures WinnersOk(Play(db, c).members, Play(db, c).draws)
  {
    hide Ledger.Post, Lottery.AllPaid, Fines.DueForFine, Fines.Mentions, Payments.Overlap, Payments.Superseded,
      Payments.StampPaid, Grows, HasWonRow;
    hide Payments.MemberAfterPayment;
    var after := Play(db, c);
    ChangeGrows(db, c);
    GrowsMembers(db, after);
    forall i | 0 <= i < |db.draws| ensures HasWonRow(after.members, db.draws[i].mahber, db.draws[i].winner) {
      HasWonRowStays(db.members, after.members, db.draws[i].mahber, db.draws[i].winner);
    }
    if c.AwardDraw? {
      NewWinnerIsNew(db, c);
    }
  }

  lemma GrowsMembers(db: Db, after: Db)
    requires Grows(db, after)
    ensures MembersGrow(db.members, after.members)
  {
  }

  lemma NewWinnerIsNew(db: Db, c: Change)
    requires c.AwardDraw? && Legal(db, c) && Members.OneRowEach(db.members)
    ensures !HasWonRow(db.members, c.mahber, c.winner)
    ensures HasWonRow(Play(db, c).members, c.mahber, c.winner)
  {
    hide Ledger.Post, Lottery.AllPaid;
    var k :| 0 <= k < |db.members| && Members.IsRow(db.members[k], c.mahber, c.winner) && !db.members[k].hasWon;
    assert Members.IsRow(Play(db, c).members[k], c.mahber, c.winner) && Play(db, c).members[k].hasWon;
    forall j | 0 <= j < |db.members| && Members.IsRow(db.members[j], c.mahber, c.winner)
      ensures !db.members[j].hasWon
    {
      assert !(j < k) && !(k < j);
    }
  }

  // ----- every run

  ghost predicate Inv(db: Db) {
    && Dated(db)
    && Ledger.LedgerOk(db.ledger, db.clock)
    && AmountsPositive(db)
    && UniqueRefs(db.payments)
    && Booked(db.payments, db.ledger)
    && FinesBooked(db.fines, db.payments)
    && JoinsBooked(db.joins, db.payments)
    && WinnersOk(db.members, db.draws)
  }

  lemma EmptyIsFine(clock: Time)
    ensures Inv(EmptyDb(clock))
  {
  }

  lemma ChangeKeepsAll(db: Db, c: Change)
    requires Legal(db, c) && Inv(db)
    ensures Inv(Play(db, c)) && Grows(db, Play(db, c))
  {
    hide Legal, Play, Dated, Ledger.LedgerOk, AmountsPositive, UniqueRefs, Booked, FinesBooked, JoinsBooked, WinnersOk,
      Grows;
    ChangeKeepsDates(db, c);
    ChangeKeepsLedger(db, c);
    ChangeKeepsAmounts(db, c);
    ChangeKeepsRefs(db, c);
    ChangeKeepsBooked(db, c);
    ChangeKeepsFinesBooked(db, c);
    ChangeKeepsJoins(db, c);
    ChangeKeepsWinners(db, c);
    ChangeGrows(db, c);
  }

  lemma {:induction false} ChangesKeepAll(db: Db, cs: seq<Change>)
    requires LegalAll(db, cs) && Inv(db)
    ensures Inv(PlayAll(db, cs)) && Grows(db, PlayAll(db, cs))
    decreases |cs|
  {
    hide Legal, Play, Inv, Grows;
    if cs == [] {
      GrowsRefl(db);
    } else {
      ChangeKeepsAll(db, cs[0]);
      ChangesKeepAll(Play(db, cs[0]), cs[1..]);
      GrowsTrans(db, Play(db, cs[0]), PlayAll(db, cs));
    }
  }

  lemma AtIsFine(db: Db, t: Tick)
    requires Inv(db)
    ensures Inv(At(db, t)) && Grows(db, At(db, t))
  {
    hide Booked, FinesBooked, WinnersOk;
    var c := Wait(t.wait);
    assert Legal(db, c) && Play(db, c) == At(db, t);
    ChangeKeepsAll(db, c);
  }

  lemma InvHasAmounts(db: Db)
    requires Inv(db)
    ensures AmountsPositive(db)
  {
  }

  /** Every call of every service keeps the books, and only lets the store grow. */
  lemma DoKeepsAll(db: Db, t: Tick)
    requires Inv(db)
    ensures Inv(Do(db, t)) && Grows(db, Do(db, t))
  {
    hide Inv, Grows, Apply, LegalAll, PlayAll, At;
    AtIsFine(db, t);
    var now := At(db, t);
    InvHasAmounts(now);
    var cs := OpChanges(now, t.op);
    ChangesKeepAll(now, cs);
    GrowsTrans(db, now, Do(db, t));
  }

  lemma {:induction false} RunKeepsAll(db: Db, ticks: seq<Tick>)
    requires Inv(db)
    ensures Inv(Run(db, ticks)) && Grows(db, Run(db, ticks))
  {
    hide Inv, Grows, Do;
    if ticks == [] {
      GrowsRefl(db);
    } else {
      var n := |ticks| - 1;
      RunKeepsAll(db, ticks[..n]);
      DoKeepsAll(Run(db, ticks[..n]), ticks[n]);
      GrowsTrans(db, Run(db, ticks[..n]), Run(db, ticks));
    }
  }
}
