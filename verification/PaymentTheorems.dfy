/** What the payment protocol guarantees over every run, from an empty store or any store a run can reach. */
module PaymentTheorems {
  import opened Wrappers
  import opened MoneyRecords
  import opened MoneyMachine
  import opened MoneyChanges
  import opened MoneyInvariants
  import Ledger
  import Members
  import Payments
  import DueDates
  import FineTheorems

  // ----- the books

  /**
   In every reachable state a payment has exactly one ledger entry if it is completed and
   none otherwise, and a mahber's contribution entries add up to its completed payments.
   */
  lemma OneEntryPerCompletedPayment(clock: Time, ticks: seq<Tick>, k: nat, mahber: MahberId)
    ensures var db := Run(EmptyDb(clock), ticks);
            && (k < |db.payments| ==>
                  CountOf(db.ledger, OfPayment(k)) == if db.payments[k].status == Completed then 1 else 0)
            && ContributionTotal(db.ledger, mahber) == CompletedTotal(db.payments, mahber)
  {
    hide Run, Grows;
    EmptyIsFine(clock);
    RunKeepsAll(EmptyDb(clock), ticks);
  }

  /** Every running balance is the sum of the member's amounts so far, and the last ones add up to the pool. */
  lemma BalancesAgree(clock: Time, ticks: seq<Tick>, mahber: MahberId, members: seq<UserId>, i: nat)
    requires var db := Run(EmptyDb(clock), ticks);
             NoDup(members) && forall e :: e in db.ledger && e.mahber == mahber ==> e.member in members
    ensures var db := Run(EmptyDb(clock), ticks);
            && (i < |db.ledger| ==>
                  db.ledger[i].runningBalance ==
                  Ledger.MemberBalance(db.ledger[..i + 1], db.ledger[i].mahber, db.ledger[i].member))
            && (forall u :: Ledger.LastBalance(db.ledger, mahber, u) == Ledger.MemberBalance(db.ledger, mahber, u))
            && Ledger.SumOfLastBalances(members, db.ledger, mahber) == Ledger.Pool(db.ledger, mahber)
  {
    hide Run, Grows, Booked, FinesBooked, WinnersOk;
    EmptyIsFine(clock);
    RunKeepsAll(EmptyDb(clock), ticks);
    var db := Run(EmptyDb(clock), ticks);
    forall u ensures Ledger.LastBalance(db.ledger, mahber, u) == Ledger.MemberBalance(db.ledger, mahber, u) {
      Ledger.LastBalanceIsMemberBalance(db.ledger, db.clock, mahber, u);
    }
    Ledger.LastBalancesAddUpToPool(members, db.ledger, db.clock, mahber);
  }

  /** Completed and failed are final: whatever calls follow, the payment row never changes again. */
  lemma FinalPaymentsStay(db: Db, ticks: seq<Tick>, k: nat)
    requires Inv(db) && k < |db.payments|
    requires db.payments[k].status == Completed || db.payments[k].status == Failed
    ensures var after := Run(db, ticks);
            k < |after.payments| && after.payments[k] == db.payments[k]
  {
    hide Run, Inv;
    RunKeepsAll(db, ticks);
  }

  // ----- repeated notices

  ghost predicate Final(payments: seq<Payment>, ref: string) {
    var found := Payments.FindByRef(payments, ref);
    found.Some? && (payments[found.value].status == Completed || payments[found.value].status == Failed)
  }

  /** The run with every notice for `ref` replaced by one that names no payment. */
  function Silenced(ticks: seq<Tick>, ref: string): seq<Tick> {
    seq(|ticks|, i requires 0 <= i < |ticks| =>
      if ticks[i].op.Webhook? && ticks[i].op.ref == Some(ref) then Tick(ticks[i].wait, Webhook(None, None))
        else ticks[i])
  }

  lemma FinalStays(before: Db, after: Db, ref: string)
    requires Grows(before, after) && UniqueRefs(after.payments) && Final(before.payments, ref)
    ensures Final(after.payments, ref)
  {
    hide FinesGrow, MembersGrow;
    var k := Payments.FindByRef(before.payments, ref).value;
    var found := Payments.FindByRef(after.payments, ref);
    assert after.payments[k] == before.payments[k];
    assert found.Some? && !(found.value < k) && !(k < found.value);
  }

  lemma FinalNoticeDoesNothing(db: Db, t: Tick, ref: string)
    requires Final(db.payments, ref) && t.op.Webhook? && t.op.ref == Some(ref)
    ensures Do(db, t) == At(db, t) == Do(db, Tick(t.wait, Webhook(None, None)))
  {
  }

  lemma InvHasUniqueRefs(db: Db)
    requires Inv(db)
    ensures UniqueRefs(db.payments)
  {
  }

  /**
   Webhook idempotence: once a payment is completed or failed, any number of further
   notices for it, of any status and mixed with any other calls, leave no trace at all.
   */
  lemma {:induction false} RepeatedNoticesLeaveNoTrace(db: Db, ticks: seq<Tick>, ref: string)
    requires Inv(db) && Final(db.payments, ref)
    ensures Run(db, ticks) == Run(db, Silenced(ticks, ref))
    decreases |ticks|
  {
    hide Do, Inv, Final, Grows, UniqueRefs;
    var quiet := Silenced(ticks, ref);
    if ticks != [] {
      var n := |ticks| - 1;
      assert quiet[..n] == Silenced(ticks[..n], ref);
      RepeatedNoticesLeaveNoTrace(db, ticks[..n], ref);
      var before := Run(db, ticks[..n]);
      RunKeepsAll(db, ticks[..n]);
      InvHasUniqueRefs(before);
      FinalStays(db, before, ref);
      if ticks[n].op.Webhook? && ticks[n].op.ref == Some(ref) {
        FinalNoticeDoesNothing(before, ticks[n], ref);
      }
    }
  }

  /** A successful notice for an open payment of a known member makes it final, so delivering it twice equals once. */
  lemma SuccessIsFinal(db: Db, ref: string, status: string)
    requires Inv(db) && Payments.ReadNotice(Some(status)) == Payments.SaysSuccess && ref != ""
    requires Payments.FindByRef(db.payments, ref).Some?
    requires var p := db.payments[Payments.FindByRef(db.payments, ref).value];
             Members.Find(db.members, p.mahber, p.member).Some?
    ensures var after := Payments.Webhook(db, Some(ref), Some(status)).db;
            && Final(after.payments, ref)
            && Payments.Webhook(after, Some(ref), Some(status)).db == after
  {
    hide Inv, Payments.StampPaid, Payments.MemberAfterPayment, Ledger.Post, Payments.ReadNotice;
    InvHasUniqueRefs(db);
    var i := Payments.FindByRef(db.payments, ref).value;
    var after := Payments.Webhook(db, Some(ref), Some(status)).db;
    var found := Payments.FindByRef(after.payments, ref);
    assert after.payments[i].txRef == ref;
    assert found.Some? && after.payments[found.value].txRef == db.payments[found.value].txRef;
    assert !(found.value < i) && !(i < found.value);
  }

  // ----- repeated callbacks

  ghost predicate Settled(joins: seq<PendingPayment>, id: string) {
    var found := Payments.FindJoin(joins, id);
    found.Some? && joins[found.value].status != Open
  }

  /** The run with every callback for the join payment `id` replaced by one that names none. */
  function SilencedJoin(ticks: seq<Tick>, id: string): seq<Tick> {
    seq(|ticks|, i requires 0 <= i < |ticks| =>
      if ticks[i].op.Callback? && ticks[i].op.ref == Some(id)
      then Tick(ticks[i].wait, Callback(None, None, ticks[i].op.config)) else ticks[i])
  }

  lemma SettledStays(before: Db, after: Db, id: string)
    requires Grows(before, after) && UniqueJoins(after.joins) && Settled(before.joins, id)
    ensures Settled(after.joins, id)
  {
    hide FinesGrow, MembersGrow, PaymentsGrow;
    var k := Payments.FindJoin(before.joins, id).value;
    var found := Payments.FindJoin(after.joins, id);
    assert after.joins[k] == before.joins[k];
    assert found.Some? && !(found.value < k) && !(k < found.value);
  }

  lemma SettledCallbackDoesNothing(db: Db, t: Tick, id: string)
    requires Settled(db.joins, id) && t.op.Callback? && t.op.ref == Some(id)
    ensures Do(db, t) == At(db, t) == Do(db, Tick(t.wait, Callback(None, None, t.op.config)))
  {
  }

  lemma InvHasUniqueJoins(db: Db)
    requires Inv(db)
    ensures UniqueJoins(db.joins)
  {
  }

  /**
   The same for the callback path: once a join payment is completed, failed or expired, any
   number of further callbacks for it, mixed with any other calls, leave no trace at all.
   */
  lemma {:induction false} RepeatedCallbacksLeaveNoTrace(db: Db, ticks: seq<Tick>, id: string)
    requires Inv(db) && Settled(db.joins, id)
    ensures Run(db, ticks) == Run(db, SilencedJoin(ticks, id))
    decreases |ticks|
  {
    hide Do, Inv, Settled, Grows, UniqueJoins;
    var quiet := SilencedJoin(ticks, id);
    if ticks != [] {
      var n := |ticks| - 1;
      assert quiet[..n] == SilencedJoin(ticks[..n], id);
      RepeatedCallbacksLeaveNoTrace(db, ticks[..n], id);
      var before := Run(db, ticks[..n]);
      RunKeepsAll(db, ticks[..n]);
      InvHasUniqueJoins(before);
      SettledStays(db, before, id);
      if ticks[n].op.Callback? && ticks[n].op.ref == Some(id) {
        SettledCallbackDoesNothing(before, ticks[n], id);
      }
    }
  }

  /** A settled join payment stays as it is over every run, and a completed one has exactly one payment to show. */
  lemma SettledJoinsStay(db: Db, ticks: seq<Tick>, j: nat)
    requires Inv(db) && j < |db.joins| && db.joins[j].status != Open
    ensures var after := Run(db, ticks);
            && j < |after.joins| && after.joins[j] == db.joins[j]
            && (db.joins[j].status == Done ==>
                  exists k :: 0 <= k < |after.payments| && after.payments[k].status == Completed
                    && after.payments[k].amount == db.joins[j].amount
                    && forall i :: 0 <= i < |after.payments| ==>
                         (after.payments[i].txRef == db.joins[j].id <==> i == k))
  {
    hide Run, Inv, MembersGrow, PaymentsGrow, FinesGrow;
    RunKeepsAll(db, ticks);
    JoinHasOnePayment(Run(db, ticks), j);
  }

  lemma JoinHasOnePayment(db: Db, j: nat)
    requires Inv(db) && j < |db.joins|
    ensures db.joins[j].status == Done ==>
              exists k :: 0 <= k < |db.payments| && db.payments[k].status == Completed
                && db.payments[k].amount == db.joins[j].amount
                && forall i :: 0 <= i < |db.payments| ==> (db.payments[i].txRef == db.joins[j].id <==> i == k)
  {
    hide Dated, Ledger.LedgerOk, AmountsPositive, Booked, FinesBooked, WinnersOk;
    if db.joins[j].status == Done {
      assert JoinPaid(db.joins[j], db.payments);
      var p := db.joins[j];
      var k :| 0 <= k < |db.payments| && db.payments[k].txRef == p.id && db.payments[k].status == Completed
               && db.payments[k].mahber == p.mahber && db.payments[k].member == p.member
               && db.payments[k].amount == p.amount;
      forall i | 0 <= i < |db.payments| ensures db.payments[i].txRef == p.id <==> i == k {
        assert i < k ==> db.payments[i].txRef != db.payments[k].txRef;
        assert k < i ==> db.payments[k].txRef != db.payments[i].txRef;
      }
    }
  }

  // ----- fines and payments

  /**
   In every reachable state, pending payments list disjoint sets of fines, a paid fine names
   a completed payment of its own member that lists it, and a completed payment's fines
   are all paid.
   */
  lemma FinesPaidOnce(clock: Time, ticks: seq<Tick>, i: nat, j: nat, x: nat)
    ensures var db := Run(EmptyDb(clock), ticks);
            && (i < j < |db.payments| && db.payments[i].status == Pending && db.payments[j].status == Pending ==>
                  forall f :: f in db.payments[i].fineIds ==> f !in db.payments[j].fineIds)
            && (x < |db.fines| && db.fines[x].paidAt.Some? ==>
                  && db.fines[x].paidBy.Some?
                  && var k := db.fines[x].paidBy.value;
                     && k < |db.payments| && db.payments[k].status == Completed
                     && db.payments[k].mahber == db.fines[x].mahber && db.payments[k].member == db.fines[x].member
                     && x in db.payments[k].fineIds)
            && (i < |db.payments| && db.payments[i].status == Completed && x in db.payments[i].fineIds ==>
                  x < |db.fines| && db.fines[x].paidAt.Some?)
  {
    hide Run, Grows, Dated, Ledger.LedgerOk, AmountsPositive, UniqueRefs, Booked, WinnersOk;
    EmptyIsFine(clock);
    RunKeepsAll(EmptyDb(clock), ticks);
    var db := Run(EmptyDb(clock), ticks);
    if i < j < |db.payments| && db.payments[i].status == Pending && db.payments[j].status == Pending {
      assert !Payments.Overlap(db.payments[i].fineIds, db.payments[j].fineIds);
    }
    if x < |db.fines| {
      assert StampOk(db.fines, x, db.payments);
    }
  }

  /** A stamp is never replaced: who paid a fine, and when, is fixed from then on. */
  lemma StampsStay(db: Db, ticks: seq<Tick>, x: nat)
    requires Inv(db) && x < |db.fines| && db.fines[x].paidAt.Some?
    ensures var after := Run(db, ticks);
            && x < |after.fines| && after.fines[x].paidAt == db.fines[x].paidAt
               && after.fines[x].paidBy == db.fines[x].paidBy
  {
    hide Run, Inv, PaymentsGrow, MembersGrow;
    RunKeepsAll(db, ticks);
  }

  // ----- bills

  lemma {:induction false} UnrepeatedIsSet(ids: seq<nat>)
    ensures NoDup(Payments.Unrepeated(ids))
    ensures forall x :: x in Payments.Unrepeated(ids) <==> x in ids
  {
    if ids != [] {
      var n := |ids| - 1;
      UnrepeatedIsSet(ids[..n]);
      assert ids == ids[..n] + [ids[n]];
    }
  }

  lemma {:induction false} ChosenIsDistinct(outstanding: seq<nat>, wanted: seq<nat>)
    requires NoDup(outstanding)
    ensures NoDup(Payments.Chosen(outstanding, wanted))
  {
    if outstanding != [] {
      var n := |outstanding| - 1;
      ChosenIsDistinct(outstanding[..n], wanted);
      Payments.ChosenAreBoth(outstanding[..n], wanted);
    }
  }

  lemma {:induction false} OutstandingIsOrdered(fines: seq<Fine>, mahber: MahberId, member: UserId)
    ensures var rows := Payments.Outstanding(fines, mahber, member);
            && NoDup(rows) && (forall i, j :: 0 <= i < j < |rows| ==> rows[i] < rows[j])
            && forall i :: 0 <= i < |rows| ==> rows[i] < |fines|
  {
    if fines != [] {
      OutstandingIsOrdered(fines[..|fines| - 1], mahber, member);
    }
  }

  ghost function Elements(s: seq<nat>): set<nat> {
    set x | x in s
  }

  lemma {:induction false} DistinctCount(s: seq<nat>)
    requires NoDup(s)
    ensures |Elements(s)| == |s|
  {
    if s != [] {
      var n := |s| - 1;
      DistinctCount(s[..n]);
      assert Elements(s) == Elements(s[..n]) + {s[n]};
      assert s[n] !in Elements(s[..n]);
    } else {
      assert Elements(s) == {};
    }
  }

  lemma SubsetOfSameSize(a: set<nat>, b: set<nat>)
    requires a <= b
    ensures |a| <= |b| && (|a| == |b| <==> a == b)
  {
    assert b == a + (b - a);
  }

  /** As many fines are selected as were asked for exactly when all of those are outstanding. */
  lemma AllSelectedExactly(outstanding: seq<nat>, ids: seq<nat>)
    requires NoDup(outstanding) && NoDup(ids)
    ensures |Payments.Chosen(outstanding, ids)| == |ids| <==> forall x :: x in ids ==> x in outstanding
  {
    hide Payments.Chosen;
    var chosen := Payments.Chosen(outstanding, ids);
    ChosenIsDistinct(outstanding, ids);
    Payments.ChosenAreBoth(outstanding, ids);
    if forall x :: x in ids ==> x in outstanding {
      assert Elements(ids) == Elements(chosen);
    } else {
      var x :| x in ids && x !in outstanding;
      assert x in Elements(ids) && x !in Elements(chosen);
    }
    DistinctCount(chosen);
    DistinctCount(ids);
    SubsetOfSameSize(Elements(chosen), Elements(ids));
  }

  /** The fines asked for; all outstanding ones if none were named. */
  ghost predicate Asked(db: Db, mahber: MahberId, member: UserId, wanted: Option<seq<nat>>, x: nat) {
    if wanted.Some? && wanted.value != [] then x in wanted.value
    else x < |db.fines| && Payments.IsUnresolved(db.fines[x], mahber, member)
  }

  /**
   A bill lists exactly the fines asked for, each once, and is refused exactly when one of
   them is not the member's own, or is already paid or waived.
   */
  lemma BillCoversExactly(db: Db, mahber: MahberId, member: UserId, config: Config, wanted: Option<seq<nat>>,
                          txRef: string)
    requires var row := Members.Find(db.members, mahber, member);
             row.Some? && (db.members[row.value].status == Active || db.members[row.value].status == PaymentRequired)
    ensures var bill := Payments.Prepare(db, mahber, member, config, wanted, txRef);
            && (bill.Err? <==> exists x: nat :: Asked(db, mahber, member, wanted, x)
                                                && !(x < |db.fines| && Payments.IsUnresolved(db.fines[x], mahber,
                                                                                             member)))
            && (bill.Ok? ==>
                  && NoDup(bill.value.payment.fineIds)
                  && forall x: nat :: x in bill.value.payment.fineIds <==> Asked(db, mahber, member, wanted, x))
  {
    hide Payments.Outstanding, Payments.Unrepeated, Payments.Chosen, Payments.SumFines, DueDates.AddFrequency,
      DueDates.ReadFrequency, Members.Find, Payments.IsUnresolved;
    var outstanding := Payments.Outstanding(db.fines, mahber, member);
    OutstandingIsOrdered(db.fines, mahber, member);
    Payments.OutstandingAreUnresolved(db.fines, mahber, member);
    var asked := if wanted.Some? && wanted.value != [] then wanted.value else outstanding;
    var ids := Payments.Unrepeated(asked);
    UnrepeatedIsSet(asked);
    AllSelectedExactly(outstanding, ids);
    ChosenIsDistinct(outstanding, ids);
    Payments.ChosenAreBoth(outstanding, ids);
    forall x: nat ensures Asked(db, mahber, member, wanted, x) <==> x in ids {
    }
  }

  lemma {:induction false} UnrepeatedOfDistinct(ids: seq<nat>)
    requires NoDup(ids)
    ensures Payments.Unrepeated(ids) == ids
  {
    if ids != [] {
      var n := |ids| - 1;
      UnrepeatedOfDistinct(ids[..n]);
      assert ids == ids[..n] + [ids[n]];
    }
  }

  lemma {:induction false} ChosenOfAll(outstanding: seq<nat>, wanted: seq<nat>)
    requires forall x :: x in outstanding ==> x in wanted
    ensures Payments.Chosen(outstanding, wanted) == outstanding
  {
    if outstanding != [] {
      var n := |outstanding| - 1;
      assert outstanding == outstanding[..n] + [outstanding[n]];
      ChosenOfAll(outstanding[..n], wanted);
    }
  }

  lemma {:induction false} SumIgnoresLater(fines: seq<Fine>, f: Fine, ids: seq<nat>)
    requires forall i :: 0 <= i < |ids| ==> ids[i] < |fines|
    ensures Payments.SumFines(fines + [f], ids) == Payments.SumFines(fines, ids)
  {
    if ids != [] {
      SumIgnoresLater(fines, f, ids[..|ids| - 1]);
    }
  }

  lemma SumOfOneMore(fines: seq<Fine>, ids: seq<nat>, id: nat)
    requires id < |fines|
    ensures Payments.SumFines(fines, ids + [id]) == Payments.SumFines(fines, ids) + fines[id].amount
  {
    assert (ids + [id])[..|ids|] == ids;
  }

  lemma SumOfNone(fines: seq<Fine>)
    ensures Payments.SumFines(fines, []) == 0.0
  {
  }

  lemma {:induction false} SumOfOutstanding(fines: seq<Fine>, mahber: MahberId, member: UserId)
    ensures Payments.SumFines(fines, Payments.Outstanding(fines, mahber, member)) ==
            FineTheorems.UnpaidTotal(fines, mahber, member)
  {
    hide Payments.SumFines;
    if fines == [] {
      assert Payments.Outstanding(fines, mahber, member) == [];
      SumOfNone(fines);
    } else {
      var n := |fines| - 1;
      var before := Payments.Outstanding(fines[..n], mahber, member);
      SumOfOutstanding(fines[..n], mahber, member);
      OutstandingIsOrdered(fines[..n], mahber, member);
      assert fines == fines[..n] + [fines[n]];
      SumIgnoresLater(fines[..n], fines[n], before);
      if Payments.IsUnresolved(fines[n], mahber, member) {
        SumOfOneMore(fines, before, n);
      } else {
        assert before + [] == before;
      }
    }
  }

  /**
   A bill that names no fines is never refused and asks for everything owed: the contribution
   if it is due, the join fee if it is, and the total of the member's unpaid fines.
   */
  lemma BillForEverything(db: Db, mahber: MahberId, member: UserId, config: Config, txRef: string, k: nat)
    requires Members.Find(db.members, mahber, member) == Some(k)
    requires db.members[k].status == Active || db.members[k].status == PaymentRequired
    ensures var bill := Payments.Prepare(db, mahber, member, config, None, txRef);
            && bill.Ok?
            && bill.value.payment.amount ==
               (if Payments.ContributionDue(db.members[k], config, db.clock) then config.contributionAmount else 0.0)
               + (if Payments.JoinFeeDue(db.members[k], config) then config.joinFeeAmount else 0.0)
               + FineTheorems.UnpaidTotal(db.fines, mahber, member)
  {
    hide Payments.Outstanding, Payments.Unrepeated, Payments.Chosen, DueDates.AddFrequency, DueDates.ReadFrequency,
      FineTheorems.UnpaidTotal;
    var outstanding := Payments.Outstanding(db.fines, mahber, member);
    OutstandingIsOrdered(db.fines, mahber, member);
    UnrepeatedOfDistinct(outstanding);
    ChosenOfAll(outstanding, outstanding);
    SumOfOutstanding(db.fines, mahber, member);
  }

  /**
   Opening a payment leaves the member no other pending one for any of the same fines, for
   the same contribution cycle, or for the join fee; all other payments stay as they were.
   */
  lemma OpeningSupersedes(db: Db, mahber: MahberId, member: UserId, config: Config, wanted: Option<seq<nat>>,
                          txRef: string, k: nat, i: nat)
    requires Payments.Initiate(db, mahber, member, config, wanted, txRef, true).refusal.None?
    requires Members.Find(db.members, mahber, member) == Some(k) && i < |db.payments|
    ensures var after := Payments.Initiate(db, mahber, member, config, wanted, txRef, true).db.payments;
            && |after| == |db.payments| + 1
            && var p, q := after[|db.payments|], after[i];
               && (q == db.payments[i] || q == db.payments[i].(status := Expired))
               && (db.payments[i].mahber != mahber || db.payments[i].member != member ==> q == db.payments[i])
               && (q.status == Pending && q.mahber == mahber && q.member == member ==>
                     && !Payments.Overlap(q.fineIds, p.fineIds)
                     && (Payments.ContributionDue(db.members[k], config, db.clock) && q.kind == Contribution ==>
                           q.periodEnd.Some? && q.periodEnd != p.periodEnd)
                     && (Payments.JoinFeeDue(db.members[k], config) ==> q.kind != JoinFee))
  {
    hide Payments.Outstanding, Payments.Unrepeated, Payments.Chosen, Payments.SumFines, DueDates.AddFrequency,
      DueDates.ReadFrequency, Members.Find, Payments.FindByRef;
  }

  /** What a call that opens a payment leaves behind. */
  lemma Opened(db: Db, mahber: MahberId, member: UserId, config: Config, wanted: Option<seq<nat>>, txRef: string)
    requires Payments.Initiate(db, mahber, member, config, wanted, txRef, true).refusal.None?
    ensures var begun := Payments.Initiate(db, mahber, member, config, wanted, txRef, true).db;
            var bill := Payments.Prepare(db, mahber, member, config, wanted, txRef);
            && bill.Ok? && begun == db.(payments := begun.payments)
            && |begun.payments| == |db.payments| + 1 && begun.payments[|db.payments|] == bill.value.payment
            && Payments.FindByRef(begun.payments, txRef) == Some(|db.payments|)
  {
    hide Payments.Prepare, Payments.Superseded;
    BillIsForPayer(db, mahber, member, config, wanted, txRef);
  }

  lemma BillNeedsMember(db: Db, mahber: MahberId, member: UserId, config: Config, wanted: Option<seq<nat>>,
                        txRef: string)
    requires Payments.Prepare(db, mahber, member, config, wanted, txRef).Ok?
    ensures var row := Members.Find(db.members, mahber, member);
            row.Some? && (db.members[row.value].status == Active || db.members[row.value].status == PaymentRequired)
  {
    hide Payments.Outstanding, Payments.Unrepeated, Payments.Chosen, Payments.SumFines, DueDates.AddFrequency,
      DueDates.ReadFrequency, Members.Find;
  }

  /**
   Paying a bill settles exactly what was asked for: after the success notice of a payment
   just opened, the member's unresolved fines are those of before without the ones asked
   for, nobody else's change, and the pool has grown by the amount billed.
   */
  lemma PayingSettlesExactly(db: Db, mahber: MahberId, member: UserId, config: Config, wanted: Option<seq<nat>>,
                             txRef: string, status: string, u: UserId)
    requires Payments.Initiate(db, mahber, member, config, wanted, txRef, true).refusal.None?
    requires txRef != "" && Payments.ReadNotice(Some(status)) == Payments.SaysSuccess
    ensures var bill := Payments.Prepare(db, mahber, member, config, wanted, txRef);
            var begun := Payments.Initiate(db, mahber, member, config, wanted, txRef, true).db;
            var after := Payments.Webhook(begun, Some(txRef), Some(status)).db;
            && |after.fines| == |db.fines| && bill.Ok?
            && (forall x :: 0 <= x < |db.fines| ==>
                  (Payments.IsUnresolved(after.fines[x], mahber, u) <==>
                   Payments.IsUnresolved(db.fines[x], mahber, u)
                     && !(u == member && Asked(db, mahber, member, wanted, x))))
            && Ledger.Pool(after.ledger, mahber) == Ledger.Pool(db.ledger, mahber) + bill.value.payment.amount
  {
    hide Payments.Initiate, Payments.Prepare, Payments.ReadNotice, Asked, Ledger.LastBalance, Ledger.Pool,
      Payments.StampPaid, Payments.MemberAfterPayment, Payments.FindByRef, Members.Find;
    Opened(db, mahber, member, config, wanted, txRef);
    BillNeedsMember(db, mahber, member, config, wanted, txRef);
    BillCoversExactly(db, mahber, member, config, wanted, txRef);
    BillIsForPayer(db, mahber, member, config, wanted, txRef);
    var begun := Payments.Initiate(db, mahber, member, config, wanted, txRef, true).db;
    var after := Payments.Webhook(begun, Some(txRef), Some(status)).db;
    Ledger.BalanceAfter(begun.ledger, after.ledger[|begun.ledger|], mahber, member);
  }

  /**
   A retried payment forgets what it was for. Completing it stamps no fine, so it settles what
   the original would have settled exactly when that lists no unpaid fine; and it covers no
   period, so it changes the member exactly when it is a join fee still required: a retried
   contribution, once paid, is still due.
   */
  lemma RetryForgetsFines(db: Db, mahber: MahberId, payment: nat, member: UserId, txRef: string, row: nat)
    requires Payments.Retry(db, mahber, payment, member, txRef, true).refusal.None? && row < |db.members|
    ensures var after := Payments.Retry(db, mahber, payment, member, txRef, true).db;
            var k, p := |db.payments|, db.payments[payment];
            && |after.payments| == k + 1 && after.members == db.members && payment < k
            && after.payments[k].amount == p.amount
            && var done := Payments.Complete(after, k, row);
               && done.fines == db.fines
               && (Payments.Complete(db, payment, row).fines == db.fines <==>
                     forall x: nat :: x in p.fineIds && x < |db.fines|
                                      && db.fines[x].mahber == mahber && db.fines[x].member == member ==>
                                        db.fines[x].paidAt.Some?)
               && (p.kind == Contribution ==> done.members == db.members)
               && (p.kind == JoinFee ==>
                     (done.members[row].status != db.members[row].status <==>
                      db.members[row].status == PaymentRequired))
  {
    hide Ledger.Post;
    var stamped := Payments.Complete(db, payment, row).fines;
    if x: nat :| x in db.payments[payment].fineIds && x < |db.fines|
                 && db.fines[x].mahber == mahber && db.fines[x].member == member && db.fines[x].paidAt.None? {
      assert stamped[x] != db.fines[x];
    }
  }

  /**
   A success completes every open payment, also an expired one. It makes the member active,
   even a banned or suspended one, exactly when the payment covers a period or is the join
   fee still required; it moves the due date back exactly when the covered period ends
   before the date already reached; and it leaves alone the fines that another payment has
   already paid, though their amount is credited again.
   */
  lemma SuccessReopens(db: Db, ref: string, status: string, i: nat, k: nat)
    requires ref != "" && Payments.FindByRef(db.payments, ref) == Some(i)
    requires db.payments[i].status == Pending || db.payments[i].status == Expired
    requires Members.Find(db.members, db.payments[i].mahber, db.payments[i].member) == Some(k)
    requires Payments.ReadNotice(Some(status)) == Payments.SaysSuccess
    ensures var after := Payments.Webhook(db, Some(ref), Some(status)).db;
            var p, m, m' := db.payments[i], db.members[k], after.members[k];
            && after.payments[i].status == Completed
            && Ledger.Pool(after.ledger, p.mahber) == Ledger.Pool(db.ledger, p.mahber) + p.amount
            && (m'.status == Active <==>
                  m.status == Active || p.periodEnd.Some? || (m.status == PaymentRequired && p.kind == JoinFee))
            && (m.nextDue.Some? ==>
                  m'.nextDue.Some?
                  && (m'.nextDue.value < m.nextDue.value <==> p.periodEnd.Some? && p.periodEnd.value < m.nextDue.value))
            && (forall x :: 0 <= x < |db.fines| && db.fines[x].paidAt.Some? ==> after.fines[x] == db.fines[x])
  {
    hide Ledger.LastBalance, Ledger.Pool, Payments.ReadNotice, Payments.StampPaid;
    var p := db.payments[i];
    var after := Payments.Webhook(db, Some(ref), Some(status)).db;
    Ledger.BalanceAfter(db.ledger, after.ledger[|db.ledger|], p.mahber, p.member);
  }

  // ----- a run in which that happens

  lemma AlreadyLower(s: string)
    requires forall i :: 0 <= i < |s| ==> !('A' <= s[i] <= 'Z')
    ensures DueDates.Lower(s) == s
  {
  }

  lemma NoticesRead()
    ensures Payments.ReadNotice(Some("success")) == Payments.SaysSuccess
    ensures Payments.ReadNotice(Some("expired")) == Payments.SaysExpired
  {
    AlreadyLower("success");
    AlreadyLower("expired");
  }

  lemma RunOneMore(db: Db, ticks: seq<Tick>, t: Tick)
    ensures Run(db, ticks + [t]) == Do(Run(db, ticks), t)
  {
    hide Do;
    assert (ticks + [t])[..|ticks|] == ticks;
  }

  /** A store with one member, their payments and no fines. */
  ghost predicate OneMember(db: Db, clock: Time, m: Membership, payments: seq<Payment>) {
    db.clock == clock && db.members == [m] && db.payments == payments && db.fines == []
  }

  lemma OneMemberFound(m: Membership)
    ensures Members.Find([m], m.mahber, m.member) == Some(0)
  {
  }

  lemma OnePaymentFound(p: Payment)
    ensures Payments.FindByRef([p], p.txRef) == Some(0)
  {
  }

  lemma BillsContribution(db: Db, clock: Time, m: Membership, config: Config, ref: string)
    requires OneMember(db, clock, m, []) && m.status == Active && m.nextDue == Some(clock)
    requires config.contributionAmount > 0.0
    ensures var due := DueDates.AddFrequency(clock, DueDates.ReadFrequency(config.frequency));
            var p := Payment(ref, m.mahber, m.member, config.contributionAmount, Contribution, Pending, [], Some(due),
                             clock, None);
            OneMember(Payments.Initiate(db, m.mahber, m.member, config, None, ref, true).db, clock, m, [p])
  {
    hide DueDates.AddFrequency, DueDates.ReadFrequency;
    OneMemberFound(m);
    assert Payments.Outstanding(db.fines, m.mahber, m.member) == [];
    assert Payments.Unrepeated([]) == [] && Payments.SumFines(db.fines, []) == 0.0;
  }

  lemma ExpiresPayment(db: Db, clock: Time, m: Membership, p: Payment)
    requires OneMember(db, clock, m, [p]) && p.status == Pending && p.txRef != ""
    ensures OneMember(Payments.Webhook(db, Some(p.txRef), Some("expired")).db, clock, m, [p.(status := Expired)])
  {
    hide Payments.ReadNotice;
    NoticesRead();
    OnePaymentFound(p);
  }

  lemma RoundThenBan(db: Db, clock: Time, m: Membership, payments: seq<Payment>, later: Time)
    requires OneMember(db, clock, m, payments) && m.status == Active
    ensures var round := Payments.StartRound(db, m.mahber, Some(later)).db;
            && OneMember(round, clock, m.(nextDue := Some(later)), payments)
            && OneMember(SetStatus(round, m.mahber, m.member, Banned), clock,
                         m.(nextDue := Some(later), status := Banned), payments)
  {
    OneMemberFound(m.(nextDue := Some(later)));
    Members.ActiveRowsComplete(db.members, m.mahber, 0);
  }

  /** A contribution is opened and expires, a round sets a later date, the member is banned; then success arrives. */
  function LateSuccessRun(mahber: MahberId, user: UserId, config: Config, ref: string, clock: Time,
                          later: Time): seq<Tick>
  {
    [Tick(0, Admit(mahber, user, Active, Some(clock))),
     Tick(0, Initiate(mahber, user, config, None, ref, true)),
     Tick(0, Webhook(Some(ref), Some("expired"))),
     Tick(0, StartRound(mahber, Some(later))),
     Tick(0, ChangeStatus(mahber, user, Banned)),
     Tick(0, Webhook(Some(ref), Some("success")))]
  }

  /**
   A run from an empty store that ends so: a member banned while a contribution was expired is
   active again by its late success, and due before the date a round had set meanwhile.
   */
  lemma LateSuccessReactivates(mahber: MahberId, user: UserId, config: Config, ref: string, clock: Time, later: Time)
    requires config.contributionAmount > 0.0 && ref != ""
    requires later > DueDates.AddFrequency(clock, DueDates.ReadFrequency(config.frequency))
    ensures var ticks := LateSuccessRun(mahber, user, config, ref, clock, later);
            var before, after := Run(EmptyDb(clock), ticks[..5]), Run(EmptyDb(clock), ticks);
            && |before.members| == |after.members| == 1
            && before.members[0].status == Banned && after.members[0].status == Active
            && before.members[0].nextDue == Some(later)
            && after.members[0].nextDue.Some? && after.members[0].nextDue.value < later
  {
    hide Run, Do, DueDates.AddFrequency, DueDates.ReadFrequency, OneMember;
    var ticks := LateSuccessRun(mahber, user, config, ref, clock, later);
    var p := LateSuccessBefore(mahber, user, config, ref, clock, later);
    var before := Run(EmptyDb(clock), ticks[..5]);
    assert ticks == ticks[..5] + [ticks[5]];
    RunOneMore(EmptyDb(clock), ticks[..5], ticks[5]);
    LateSuccessStep(before, clock, Membership(mahber, user, Banned, Some(later), false, None, None), p);
  }

  lemma LateSuccessStep(db: Db, clock: Time, m: Membership, p: Payment)
    requires OneMember(db, clock, m, [p]) && p.status == Expired && p.txRef != ""
    requires p.mahber == m.mahber && p.member == m.member
    requires p.periodEnd.Some? && m.nextDue.Some? && p.periodEnd.value < m.nextDue.value
    ensures var after := Do(db, Tick(0, Webhook(Some(p.txRef), Some("success"))));
            && |after.members| == |db.members| == 1 && db.members[0] == m
            && after.members[0].status == Active
            && after.members[0].nextDue.Some? && after.members[0].nextDue.value < m.nextDue.value
  {
    hide Payments.ReadNotice, Payments.StampPaid, Ledger.Post, Payments.Webhook;
    NoticesRead();
    OneMemberFound(m);
    OnePaymentFound(p);
    SuccessReopens(db, p.txRef, "success", 0, 0);
    assert At(db, Tick(0, Webhook(Some(p.txRef), Some("success")))) == db;
    WebhookKeepsRows(db, Some(p.txRef), Some("success"));
  }

  lemma WebhookKeepsRows(db: Db, ref: Option<string>, status: Option<string>)
    ensures |Payments.Webhook(db, ref, status).db.members| == |db.members|
  {
    hide Ledger.Post, Payments.StampPaid, Payments.ReadNotice;
  }

  lemma LateSuccessBefore(mahber: MahberId, user: UserId, config: Config, ref: string, clock: Time, later: Time)
    returns (p: Payment)
    requires config.contributionAmount > 0.0 && ref != ""
    ensures var ticks := LateSuccessRun(mahber, user, config, ref, clock, later);
            OneMember(Run(EmptyDb(clock), ticks[..5]), clock,
                      Membership(mahber, user, Banned, Some(later), false, None, None), [p])
    ensures p.txRef == ref && p.mahber == mahber && p.member == user && p.status == Expired
    ensures p.periodEnd == Some(DueDates.AddFrequency(clock, DueDates.ReadFrequency(config.frequency)))
  {
    hide Run, DueDates.AddFrequency, DueDates.ReadFrequency, Payments.Initiate, Payments.Webhook, Payments.StartRound,
      SetStatus, Members.Find;
    var ticks := LateSuccessRun(mahber, user, config, ref, clock, later);
    var m := Membership(mahber, user, Active, Some(clock), false, None, None);
    var empty := EmptyDb(clock);
    var s1 := Do(empty, ticks[0]);
    var s2 := Do(s1, ticks[1]);
    var s3 := Do(s2, ticks[2]);
    var s4 := Do(s3, ticks[3]);
    var s5 := Do(s4, ticks[4]);
    assert OneMember(s1, clock, m, []) by {
      AdmitsOne(empty, m);
    }
    BillsContribution(s1, clock, m, config, ref);
    assert s2 == Payments.Initiate(s1, mahber, user, config, None, ref, true).db;
    p := s2.payments[0];
    ExpiresPayment(s2, clock, m, p);
    p := p.(status := Expired);
    assert s3 == Payments.Webhook(s2, Some(ref), Some("expired")).db;
    RoundThenBan(s3, clock, m, [p], later);
    assert s4 == Payments.StartRound(s3, mahber, Some(later)).db;
    assert s5 == SetStatus(s4, mahber, user, Banned);
    FiveSteps(empty, ticks);
  }

  lemma AdmitsOne(db: Db, m: Membership)
    requires db == EmptyDb(db.clock) && !m.hasWon && m.joinedAt.None? && m.activatedAt.None?
    ensures OneMember(AdmitMember(db, m.mahber, m.member, m.status, m.nextDue), db.clock, m, [])
  {
  }

  lemma FiveSteps(db: Db, ticks: seq<Tick>)
    requires |ticks| >= 5
    ensures Run(db, ticks[..5]) == Do(Do(Do(Do(Do(db, ticks[0]), ticks[1]), ticks[2]), ticks[3]), ticks[4])
  {
    hide Do, Run;
    RunOne(db, ticks[0]);
    assert ticks[..1] == [ticks[0]];
    assert forall i :: 0 <= i < 5 ==> ticks[..i + 1] == ticks[..i] + [ticks[i]];
    RunOneMore(db, ticks[..1], ticks[1]);
    RunOneMore(db, ticks[..2], ticks[2]);
    RunOneMore(db, ticks[..3], ticks[3]);
    RunOneMore(db, ticks[..4], ticks[4]);
  }

  lemma RunOne(db: Db, t: Tick)
    ensures Run(db, [t]) == Do(db, t)
  {
    hide Do;
    assert [t][..0] == [];
  }

  /** The period a bill covers, if it covers one; a bill with nothing else due is for its fines alone. */
  lemma BillPeriod(db: Db, mahber: MahberId, member: UserId, config: Config, wanted: Option<seq<nat>>, txRef: string,
                   k: nat)
    requires Payments.Prepare(db, mahber, member, config, wanted, txRef).Ok?
    requires Members.Find(db.members, mahber, member) == Some(k)
    ensures var p := Payments.Prepare(db, mahber, member, config, wanted, txRef).value.payment;
            var m, frequency := db.members[k], DueDates.ReadFrequency(config.frequency);
            var joinFee := Payments.JoinFeeDue(m, config);
            && p.periodEnd == (if m.nextDue.Some? then Some(DueDates.AddFrequency(m.nextDue.value, frequency))
                               else if joinFee then Some(DueDates.AddFrequency(db.clock, frequency))
                               else None)
            && (p.kind == JoinFee ==> joinFee)
            && (!Payments.ContributionDue(m, config, db.clock) && !joinFee ==>
                  p.amount == Payments.SumFines(db.fines, p.fineIds))
  {
    hide Payments.Outstanding, Payments.Unrepeated, Payments.Chosen, Payments.SumFines, DueDates.AddFrequency,
      DueDates.ReadFrequency, Members.Find;
  }

  /** Opening a payment and then its success notice. */
  function OpenAndPay(db: Db, mahber: MahberId, member: UserId, config: Config, wanted: Option<seq<nat>>, txRef: string,
                      status: string): Db
  {
    var begun := Payments.Initiate(db, mahber, member, config, wanted, txRef, true).db;
    Payments.Webhook(begun, Some(txRef), Some(status)).db
  }

  /**
   Any payment moves the due date on, also one for fines alone. Once a bill is opened and
   paid, the member's due date is one period later if there was one, and one period from now
   if the join fee was paid. So it stays as it was exactly when there was none and no join
   fee was due; a payment for nothing but fines leaves it alone exactly when there was none.
   */
  lemma FinePaymentMovesDueDate(db: Db, mahber: MahberId, member: UserId, config: Config, wanted: Option<seq<nat>>,
                                txRef: string, status: string, k: nat)
    requires Payments.Initiate(db, mahber, member, config, wanted, txRef, true).refusal.None?
    requires Members.Find(db.members, mahber, member) == Some(k)
    requires txRef != "" && Payments.ReadNotice(Some(status)) == Payments.SaysSuccess
    ensures var after := OpenAndPay(db, mahber, member, config, wanted, txRef, status);
            var m, frequency := db.members[k], DueDates.ReadFrequency(config.frequency);
            var joinFee := Payments.JoinFeeDue(m, config);
            && |after.members| == |db.members|
            && var m' := after.members[k];
               && m'.nextDue == (if m.nextDue.Some? then Some(DueDates.AddFrequency(m.nextDue.value, frequency))
                                 else if joinFee then Some(DueDates.AddFrequency(db.clock, frequency))
                                 else None)
               && (m'.nextDue == m.nextDue <==> m.nextDue.None? && !joinFee)
               && (!Payments.ContributionDue(m, config, db.clock) && !joinFee ==>
                     (m'.nextDue == m.nextDue <==> m.nextDue.None?))
  {
    hide Payments.Initiate, Payments.Prepare, Payments.ReadNotice, Ledger.Post, Payments.StampPaid,
      Payments.FindByRef, Members.Find, DueDates.AddFrequency, DueDates.ReadFrequency, Payments.JoinFeeDue,
      Payments.ContributionDue;
    Opened(db, mahber, member, config, wanted, txRef);
    BillIsForPayer(db, mahber, member, config, wanted, txRef);
    BillPeriod(db, mahber, member, config, wanted, txRef, k);
    var m := db.members[k];
    if m.nextDue.Some? {
      DueDates.FrequencyStepsForward(m.nextDue.value, DueDates.ReadFrequency(config.frequency));
    }
  }

  // ----- joining and rounds

  /** The membership row of a user, or the one joining adds. */
  function RowOf(db: Db, mahber: MahberId, user: UserId): nat {
    var row := Members.Find(db.members, mahber, user);
    if row.Some? then row.value else |db.members|
  }

  /** Asking to join with a fee leaves the user on a row and one open join payment. */
  lemma JoiningBegins(db: Db, mahber: MahberId, user: UserId, isPublic: bool, config: Config, id: string)
    requires config.joinFeeRequired && config.joinFeeAmount > 0.0
    requires Payments.Join(db, mahber, user, isPublic, config, id, true).refusal.None?
    ensures var begun := Payments.Join(db, mahber, user, isPublic, config, id, true).db;
            var k := RowOf(db, mahber, user);
            && begun == db.(joins := begun.joins, members := begun.members)
            && begun.joins == db.joins + [PendingPayment(id, mahber, user, config.joinFeeAmount, Open)]
            && Payments.FindJoin(begun.joins, id) == Some(|db.joins|)
            && Members.Find(begun.members, mahber, user) == Some(k)
            && begun.members == if k < |db.members| then db.members else
                                  db.members + [Membership(mahber, user, PaymentRequired, None, false, None, None)]
  {
    var begun := Payments.Join(db, mahber, user, isPublic, config, id, true).db;
    FoundLast(db.joins, begun.joins[|db.joins|]);
    if Members.Find(db.members, mahber, user).None? {
      NewMemberFound(db.members, begun.members[|db.members|]);
    }
  }

  /** The success callback of an open join payment. */
  lemma CallbackCompletes(db: Db, j: nat, k: nat, id: string, config: Config, status: string)
    requires id != "" && Payments.FindJoin(db.joins, id) == Some(j) && db.joins[j].status == Open
    requires Members.Find(db.members, db.joins[j].mahber, db.joins[j].member) == Some(k)
    requires Payments.FindByRef(db.payments, id).None?
    requires Payments.ReadNotice(Some(status)) == Payments.SaysSuccess
    ensures Payments.Callback(db, Some(id), Some(status), config) ==
            Effect(Payments.CompleteJoin(db, j, k, config), None)
    ensures var p := db.joins[j];
            Ledger.Pool(Payments.CompleteJoin(db, j, k, config).ledger, p.mahber) ==
            Ledger.Pool(db.ledger, p.mahber) + p.amount
  {
    hide Ledger.LastBalance, Ledger.Pool, Payments.ReadNotice, DueDates.NextDue, DueDates.ReadFrequency,
      Payments.FindJoin, Payments.FindByRef, Members.Find;
    var done := Payments.CompleteJoin(db, j, k, config);
    Ledger.BalanceAfter(db.ledger, done.ledger[|db.ledger|], db.joins[j].mahber, db.joins[j].member);
  }

  /**
   Joining with a fee, for a new user or one already on a row: once the success notice for
   the join payment arrives, the user is active with the first due date after the one they
   had, or after now; one completed payment of the fee stands in the books, a join fee if it
   was still required; nobody else's row changes; and the join payment is settled.
   */
  lemma JoiningCompletes(db: Db, mahber: MahberId, user: UserId, isPublic: bool, config: Config, id: string,
                         status: string)
    requires config.joinFeeRequired && config.joinFeeAmount > 0.0 && id != ""
    requires Payments.Join(db, mahber, user, isPublic, config, id, true).refusal.None?
    requires Payments.FindByRef(db.payments, id).None?
    requires Payments.ReadNotice(Some(status)) == Payments.SaysSuccess
    ensures var begun := Payments.Join(db, mahber, user, isPublic, config, id, true).db;
            var done := Payments.Callback(begun, Some(id), Some(status), config);
            var k := RowOf(db, mahber, user);
            && done.refusal.None? && k < |begun.members| == |done.db.members| && |db.members| <= |begun.members|
            && (forall i :: 0 <= i < |db.members| && i != k ==> done.db.members[i] == db.members[i])
            && var m, m' := begun.members[k], done.db.members[k];
               var from := if m.nextDue.Some? then m.nextDue.value else db.clock;
               var kind := if m.status == PaymentRequired then JoinFee else Contribution;
               && m'.mahber == mahber && m'.member == user && m'.status == Active
               && m'.nextDue ==
                  Some(DueDates.NextDue(from, DueDates.ReadFrequency(config.frequency), config.paymentDay))
               && done.db.payments ==
                  db.payments + [Payment(id, mahber, user, config.joinFeeAmount, kind, Completed, [], None, db.clock,
                                         Some(db.clock))]
               && Ledger.Pool(done.db.ledger, mahber) == Ledger.Pool(db.ledger, mahber) + config.joinFeeAmount
               && Settled(done.db.joins, id)
  {
    hide Ledger.Post, Ledger.Pool, Payments.ReadNotice, DueDates.NextDue, DueDates.ReadFrequency, Payments.Join,
      Payments.Callback, Payments.FindByRef, Members.Find, RowOf, Payments.FindJoin;
    JoiningBegins(db, mahber, user, isPublic, config, id);
    var begun := Payments.Join(db, mahber, user, isPublic, config, id, true).db;
    CallbackCompletes(begun, |db.joins|, RowOf(db, mahber, user), id, config, status);
    var done := Payments.Callback(begun, Some(id), Some(status), config).db;
    assert done.joins == db.joins + [done.joins[|db.joins|]];
    FoundLast(db.joins, done.joins[|db.joins|]);
  }

  lemma FoundLast(joins: seq<PendingPayment>, p: PendingPayment)
    ensures Payments.FindJoin(joins + [p], p.id) == Some(|joins|)
  {
  }

  lemma NewMemberFound(members: seq<Membership>, m: Membership)
    requires Members.Find(members, m.mahber, m.member).None?
    ensures Members.Find(members + [m], m.mahber, m.member) == Some(|members|)
  {
    assert (members + [m])[..|members|] == members;
  }

  lemma RoundKeepsRows(db: Db, mahber: MahberId, dueDate: Option<Time>)
    requires Payments.StartRound(db, mahber, dueDate).refusal.None?
    ensures var after := Payments.StartRound(db, mahber, dueDate).db;
            var due := if dueDate.Some? then dueDate.value else db.clock;
            && after == db.(members := after.members) && |after.members| == |db.members|
            && forall k :: 0 <= k < |db.members| ==>
                 after.members[k] == if db.members[k].mahber == mahber && db.members[k].status == Active
                                     then db.members[k].(nextDue := Some(due)) else db.members[k]
  {
    hide Members.ActiveRows;
  }

  lemma {:induction false} SameRowsFound(before: seq<Membership>, after: seq<Membership>, mahber: MahberId,
                                         user: UserId)
    requires |before| == |after|
    requires forall k :: 0 <= k < |before| ==>
               before[k].mahber == after[k].mahber && before[k].member == after[k].member
    ensures Members.Find(after, mahber, user) == Members.Find(before, mahber, user)
  {
    if before != [] {
      var n := |before| - 1;
      SameRowsFound(before[..n], after[..n], mahber, user);
    }
  }

  /**
   A payment round makes every active member's contribution due: whoever is billed from its
   date on (now, if it names none) is asked for the contribution, if there is one, and all
   unpaid fines, before that for the fines alone. Nobody else's row changes.
   */
  lemma RoundMakesDue(db: Db, mahber: MahberId, dueDate: Option<Time>, config: Config, k: nat, now: Time, txRef: string)
    requires Payments.StartRound(db, mahber, dueDate).refusal.None?
    requires k < |db.members| && Members.Find(db.members, mahber, db.members[k].member) == Some(k)
    ensures var after := Payments.StartRound(db, mahber, dueDate).db;
            var m, due := db.members[k], if dueDate.Some? then dueDate.value else db.clock;
            && |after.members| == |db.members|
            && (forall i :: 0 <= i < |db.members| ==>
                  || after.members[i] == db.members[i]
                  || (db.members[i].mahber == mahber && db.members[i].status == Active))
            && (m.status == Active ==>
                  var bill := Payments.Prepare(after.(clock := now), mahber, m.member, config, None, txRef);
                  && bill.Ok?
                  && bill.value.payment.amount ==
                     (if now >= due && config.contributionAmount > 0.0 then config.contributionAmount else 0.0)
                     + FineTheorems.UnpaidTotal(db.fines, mahber, m.member))
  {
    hide Payments.StartRound, Payments.Prepare, FineTheorems.UnpaidTotal;
    RoundKeepsRows(db, mahber, dueDate);
    var after := Payments.StartRound(db, mahber, dueDate).db;
    var m := db.members[k];
    SameRowsFound(db.members, after.members, mahber, m.member);
    if m.status == Active {
      BillForEverything(after.(clock := now), mahber, m.member, config, txRef, k);
    }
  }
}
