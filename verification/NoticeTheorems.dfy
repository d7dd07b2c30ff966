/** What each notice of the gateway does, exactly, and when retries, joins and rounds go through. */
module NoticeTheorems {
  import opened Wrappers
  import opened MoneyRecords
  import opened MoneyMachine
  import opened MoneyChanges
  import opened MoneyInvariants
  import DueDates
  import Ledger
  import LotteryTheorems
  import Members
  import PaymentTheorems
  import Payments

  // ----- reading a notice

  /** A status is read as one of the three words in any case; anything else, or nothing, is none of them. */
  predicate Says(status: Option<string>, word: string) {
    status.Some? && DueDates.SameText(status.value, word)
  }

  lemma NoticeRead(status: Option<string>)
    ensures Payments.ReadNotice(status) == Payments.SaysSuccess <==> Says(status, "success")
    ensures Payments.ReadNotice(status) == Payments.SaysFailed <==> Says(status, "failed")
    ensures Payments.ReadNotice(status) == Payments.SaysExpired <==> Says(status, "expired")
  {
    hide DueDates.Lower, DueDates.SameText;
    if status.Some? {
      DueDates.LowerIsSameText(status.value, "success");
      DueDates.LowerIsSameText(status.value, "failed");
      DueDates.LowerIsSameText(status.value, "expired");
    }
  }

  /** A payment a notice can still change. */
  predicate IsUnsettled(payments: seq<Payment>, i: nat, ref: string) {
    ref != "" && Payments.FindByRef(payments, ref) == Some(i) && i < |payments|
    && (payments[i].status == Pending || payments[i].status == Expired)
  }

  /**
   A notice that names no payment, or a final one, or says nothing known, changes nothing. One
   that says failed makes an unsettled payment Failed, one that says expired Expired, and
   nothing else changes.
   */
  lemma NoticeEndsPayment(db: Db, ref: Option<string>, status: Option<string>)
    ensures var out := Payments.Webhook(db, ref, status);
            && ((ref.None? || forall i: nat :: !IsUnsettled(db.payments, i, ref.value)) ==> out == Effect(db, None))
            && (!Says(status, "success") && !Says(status, "failed") && !Says(status, "expired") ==>
                  out == Effect(db, None))
            && (forall i: nat :: ref.Some? && IsUnsettled(db.payments, i, ref.value) ==>
                  && (Says(status, "failed") ==>
                        out == Effect(db.(payments := db.payments[i := db.payments[i].(status := Failed)]), None))
                  && (Says(status, "expired") ==>
                        out == Effect(db.(payments := db.payments[i := db.payments[i].(status := Expired)]), None)))
  {
    hide Payments.ReadNotice, Payments.Complete, Says, Members.Find, Payments.FindByRef;
    NoticeRead(status);
    if ref.Some? && ref.value != "" {
      var found := Payments.FindByRef(db.payments, ref.value);
      assert found.Some? ==>
          (IsUnsettled(db.payments, found.value, ref.value) <==>
           db.payments[found.value].status == Pending || db.payments[found.value].status == Expired);
    }
  }

  /**
   One that says success completes it, unless the payer has no membership row: the payment is
   Completed as of now; its unpaid fines of the payer are stamped; the payer's ledger gains one
   contribution entry of its amount; and of all memberships only the payer's changes, which
   keeps the dates of its first activation and joining.
   */
  lemma NoticeCompletesPayment(db: Db, ref: string, status: Option<string>, i: nat)
    requires IsUnsettled(db.payments, i, ref) && Says(status, "success")
    ensures var out, p := Payments.Webhook(db, Some(ref), status), db.payments[i];
            var row := Members.Find(db.members, p.mahber, p.member);
            && (row.None? ==> out == Effect(db, Some(NotFound)))
            && (row.Some? ==>
                  var after, n := out.db, |db.ledger|;
                  && out.refusal.None?
                  && after == db.(payments := after.payments, fines := after.fines, ledger := after.ledger,
                                  members := after.members)
                  && after.payments == db.payments[i := p.(status := Completed, completedAt := Some(db.clock))]
                  && |after.fines| == |db.fines|
                  && (forall x :: 0 <= x < |db.fines| ==>
                        after.fines[x] ==
                        if x in p.fineIds && db.fines[x].mahber == p.mahber && db.fines[x].member == p.member
                           && db.fines[x].paidAt.None?
                        then db.fines[x].(paidAt := Some(db.clock), paidBy := Some(i)) else db.fines[x])
                  && |after.ledger| == n + 1 && after.ledger[..n] == db.ledger
                  && (var e := after.ledger[n];
                      && e.mahber == p.mahber && e.member == p.member && e.kind == ContributionEntry
                      && e.amount == p.amount && e.source == OfPayment(i) && e.createdAt == db.clock
                      && e.description == (if p.kind == JoinFee then "JoinFee" else "Contribution")
                                          + " payment via Chapa (tx_ref: " + p.txRef + ")")
                  && |after.members| == |db.members|
                  && forall k :: 0 <= k < |db.members| ==>
                       var m, m' := db.members[k], after.members[k];
                       if k != row.value || (p.periodEnd.None? && !(m.status == PaymentRequired && p.kind == JoinFee))
                       then m' == m
                       else
                         && m' == m.(status := Active, activatedAt := m'.activatedAt, joinedAt := m'.joinedAt,
                                     nextDue := m'.nextDue)
                         && m'.activatedAt == (if m.activatedAt.Some? then m.activatedAt else Some(db.clock))
                         && m'.joinedAt == (if m.joinedAt.Some? then m.joinedAt else Some(db.clock))
                         && m'.nextDue ==
                            if p.periodEnd.Some? then p.periodEnd
                            else if m.nextDue.Some? then m.nextDue
                            else Some(DueDates.AddFrequency(db.clock, DueDates.Monthly)))
  {
    hide Payments.ReadNotice, Says, Members.Find, Payments.FindByRef, Ledger.LastBalance, DueDates.AddFrequency;
    NoticeRead(status);
  }

  // ----- a failed payment over runs

  lemma NoticeKeepsInv(db: Db, ref: Option<string>, status: Option<string>)
    requires Inv(db)
    ensures Inv(Payments.Webhook(db, ref, status).db)
  {
    hide Inv, Payments.Webhook;
    var t := Tick(0, Webhook(ref, status));
    assert At(db, t) == db;
    DoKeepsAll(db, t);
  }

  lemma NotCompletedNotBooked(db: Db, i: nat)
    requires Inv(db) && i < |db.payments| && db.payments[i].status != Completed
    ensures CountOf(db.ledger, OfPayment(i)) == 0
  {
    hide Dated, Ledger.LedgerOk, AmountsPositive, FinesBooked, WinnersOk, JoinsBooked;
  }

  /**
   A payment reported as failed is never credited: whatever calls follow, a success notice for
   it included, it stays Failed and no ledger entry is ever made for it.
   */
  lemma FailedIsNeverCredited(db: Db, ref: string, status: Option<string>, i: nat, ticks: seq<Tick>)
    requires Inv(db) && IsUnsettled(db.payments, i, ref) && Says(status, "failed")
    ensures var after := Run(Payments.Webhook(db, Some(ref), status).db, ticks);
            && i < |after.payments| && after.payments[i] == db.payments[i].(status := Failed)
            && CountOf(after.ledger, OfPayment(i)) == 0
  {
    hide Run, Inv, Payments.Webhook, Says, Grows;
    NoticeEndsPayment(db, Some(ref), status);
    NoticeKeepsInv(db, Some(ref), status);
    var failed := Payments.Webhook(db, Some(ref), status).db;
    PaymentTheorems.FinalPaymentsStay(failed, ticks, i);
    RunKeepsAll(failed, ticks);
    NotCompletedNotBooked(Run(failed, ticks), i);
  }

  // ----- retries

  /**
   A retry is refused for a payment that is not the member's, is completed or still pending,
   when the gateway fails, or when the reference is taken; otherwise exactly one pending
   payment of the same amount and kind is added.
   */
  lemma RetryAnswersExactly(db: Db, mahber: MahberId, payment: nat, member: UserId, txRef: string, up: bool)
    ensures var out := Payments.Retry(db, mahber, payment, member, txRef, up);
            var own := payment < |db.payments| && db.payments[payment].mahber == mahber
                       && db.payments[payment].member == member;
            var ended := own && (db.payments[payment].status == Failed || db.payments[payment].status == Expired);
            var used := exists j :: 0 <= j < |db.payments| && db.payments[j].txRef == txRef;
            && (out.refusal == Some(NotFound) <==> !own)
            && (out.refusal == Some(AlreadyCompleted) <==> own && db.payments[payment].status == Completed)
            && (out.refusal == Some(StillPending) <==> own && db.payments[payment].status == Pending)
            && (out.refusal == Some(GatewayDown) <==> ended && !up)
            && (out.refusal == Some(ReferenceTaken) <==> ended && up && used)
            && (out.refusal.None? <==> ended && up && !used)
            && (out.refusal.Some? ==> out.db == db)
            && (out.refusal.None? ==>
                  out.db == db.(payments := db.payments +
                    [Payment(txRef, mahber, member, db.payments[payment].amount, db.payments[payment].kind, Pending,
                             [], None, db.clock, None)]))
  {
    hide Payments.FindByRef;
    var found := Payments.FindByRef(db.payments, txRef);
    if found.Some? {
      assert db.payments[found.value].txRef == txRef;
    }
  }

  // ----- joining

  /**
   Asking to join is refused for an active or banned member, and for a stranger to a private
   mahber. Then, with a join fee, an open join payment is recorded under a new reference, and
   a stranger gets a row only if the gateway answers.
   */
  lemma JoinAnswersExactly(db: Db, mahber: MahberId, user: UserId, isPublic: bool, config: Config, id: string, up: bool)
    ensures var out, row := Payments.Join(db, mahber, user, isPublic, config, id, up),
                            Members.Find(db.members, mahber, user);
            var fee := config.joinFeeRequired && config.joinFeeAmount > 0.0;
            var admitted := if row.Some? then db.members[row.value].status !in {Active, Banned} else isPublic;
            var used := exists j :: 0 <= j < |db.joins| && db.joins[j].id == id;
            && (out.refusal == Some(AlreadyActive) <==> row.Some? && db.members[row.value].status == Active)
            && (out.refusal == Some(MemberBanned) <==> row.Some? && db.members[row.value].status == Banned)
            && (out.refusal == Some(PrivateMahber) <==> row.None? && !isPublic)
            && (out.refusal == Some(ReferenceTaken) <==> admitted && fee && used)
            && (out.refusal == Some(GatewayDown) <==> admitted && fee && !used && !up)
            && (out.refusal.None? <==> admitted && (fee ==> !used && up))
            && (out.refusal.Some? && out.refusal != Some(GatewayDown) ==> out.db == db)
            && (out.refusal == Some(GatewayDown) ==>
                  out.db == db.(joins := db.joins + [PendingPayment(id, mahber, user, config.joinFeeAmount, Open)]))
  {
    hide Members.Find, Payments.FindJoin, DueDates.NextDue, DueDates.ReadFrequency;
    var found := Payments.FindJoin(db.joins, id);
    if found.Some? {
      assert db.joins[found.value].id == id;
    }
  }

  /**
   Without a join fee the user is active at once, joined and activated now and first due by the
   configured schedule from now; nothing is charged and nobody else's row changes.
   */
  lemma JoiningFree(db: Db, mahber: MahberId, user: UserId, isPublic: bool, config: Config, id: string, up: bool)
    requires !(config.joinFeeRequired && config.joinFeeAmount > 0.0)
    requires Payments.Join(db, mahber, user, isPublic, config, id, up).refusal.None?
    ensures var after := Payments.Join(db, mahber, user, isPublic, config, id, up).db;
            var k := PaymentTheorems.RowOf(db, mahber, user);
            && after == db.(members := after.members)
            && |after.members| == (if k < |db.members| then |db.members| else |db.members| + 1) && k < |after.members|
            && (forall i :: 0 <= i < |db.members| && i != k ==> after.members[i] == db.members[i])
            && var m := after.members[k];
               && m.mahber == mahber && m.member == user && m.status == Active
               && m.joinedAt == Some(db.clock) && m.activatedAt == Some(db.clock)
               && m.nextDue ==
                  Some(DueDates.NextDue(db.clock, DueDates.ReadFrequency(config.frequency), config.paymentDay))
               && m.hasWon == (k < |db.members| && db.members[k].hasWon)
  {
    hide Members.Find, DueDates.NextDue, DueDates.ReadFrequency;
  }

  /**
   A callback that names no join payment is refused; one for a settled one changes nothing. For
   an open one success completes it, unless the user has no row or its reference is taken by a
   payment; expired makes it expired; and any other status at all makes it failed.
   */
  lemma CallbackAnswersExactly(db: Db, id: Option<string>, status: Option<string>, config: Config)
    ensures var out := Payments.Callback(db, id, status, config);
            var j := if id.Some? && id.value != "" then Payments.FindJoin(db.joins, id.value) else None;
            && (j.None? ==> out == Effect(db, Some(NotFound)))
            && (j.Some? ==>
                  var p := db.joins[j.value];
                  var row := Members.Find(db.members, p.mahber, p.member);
                  var used := exists i :: 0 <= i < |db.payments| && db.payments[i].txRef == p.id;
                  if p.status != Open then out == Effect(db, None)
                  else if Says(status, "success") then
                    && (out.refusal == Some(NotFound) <==> row.None?)
                    && (out.refusal == Some(ReferenceTaken) <==> row.Some? && used)
                    && (out.refusal.None? <==> row.Some? && !used)
                    && (out.refusal.Some? ==> out.db == db)
                    && (out.refusal.None? ==> out.db.joins == db.joins[j.value := p.(status := Done)])
                  else
                    var end := if Says(status, "expired") then Lapsed else Lost;
                    out == Effect(db.(joins := db.joins[j.value := p.(status := end)]), None))
  {
    hide Payments.ReadNotice, Says, Members.Find, Payments.FindJoin, DueDates.NextDue, DueDates.ReadFrequency,
      Ledger.Post, DueDates.SameText, Payments.FindByRef;
    NoticeRead(status);
    OneWordOnly(status);
    if id.Some? && id.value != "" {
      var j := Payments.FindJoin(db.joins, id.value);
      if j.Some? {
        var used := Payments.FindByRef(db.payments, db.joins[j.value].id);
        if used.Some? {
          assert db.payments[used.value].txRef == db.joins[j.value].id;
        }
      }
    }
  }

  lemma OneWordOnly(status: Option<string>)
    ensures !(Says(status, "success") && Says(status, "expired"))
  {
    hide DueDates.SameText, Payments.ReadNotice;
    NoticeRead(status);
  }

  // ----- rounds

  /** A payment round is refused exactly when nobody is active, and then changes nothing. */
  lemma RoundRefusedExactly(db: Db, mahber: MahberId, dueDate: Option<Time>)
    ensures var out := Payments.StartRound(db, mahber, dueDate);
            && (out.refusal == Some(NoMembers) <==> !LotteryTheorems.AnyActive(db.members, mahber))
            && (out.refusal.Some? ==> out.refusal == Some(NoMembers) && out.db == db)
  {
    hide Members.ActiveRows, LotteryTheorems.AnyActive;
    LotteryTheorems.AnyActiveExactly(db.members, mahber);
  }
}
