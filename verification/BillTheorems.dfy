/** What a member is billed: the amount, the refusals, and what opening the payment does to the others. */
module BillTheorems {
  import opened Wrappers
  import opened MoneyRecords
  import opened MoneyChanges
  import DueDates
  import Members
  import PaymentTheorems
  import Payments

  // ----- the amount

  /** The amounts of the fines listed, added up over the table. */
  function ListedTotal(fines: seq<Fine>, ids: seq<nat>): Money {
    if fines == [] then 0.0
    else
      var n := |fines| - 1;
      ListedTotal(fines[..n], ids) + (if n in ids then fines[n].amount else 0.0)
  }

  lemma {:induction false} NoneListed(fines: seq<Fine>)
    ensures ListedTotal(fines, []) == 0.0
  {
    if fines != [] {
      NoneListed(fines[..|fines| - 1]);
    }
  }

  lemma {:induction false} OneMoreListed(fines: seq<Fine>, ids: seq<nat>, x: nat)
    requires x !in ids
    ensures ListedTotal(fines, ids + [x]) ==
            ListedTotal(fines, ids) + (if x < |fines| then fines[x].amount else 0.0)
  {
    if fines != [] {
      OneMoreListed(fines[..|fines| - 1], ids, x);
    }
  }

  lemma {:induction false} SumIsListed(fines: seq<Fine>, ids: seq<nat>)
    requires NoDup(ids)
    ensures Payments.SumFines(fines, ids) == ListedTotal(fines, ids)
  {
    if ids == [] {
      NoneListed(fines);
    } else {
      var n := |ids| - 1;
      SumIsListed(fines, ids[..n]);
      assert ids == ids[..n] + [ids[n]];
      OneMoreListed(fines, ids[..n], ids[n]);
    }
  }

  /** What a bill claims and asks for, part by part. */
  lemma BillParts(db: Db, mahber: MahberId, member: UserId, config: Config, wanted: Option<seq<nat>>, txRef: string,
                  k: nat)
    requires Members.Find(db.members, mahber, member) == Some(k)
    requires Payments.Prepare(db, mahber, member, config, wanted, txRef).Ok?
    ensures var bill, m := Payments.Prepare(db, mahber, member, config, wanted, txRef).value, db.members[k];
            var contribution := m.status == Active && config.contributionAmount > 0.0
                                && m.nextDue.Some? && m.nextDue.value <= db.clock;
            var joinFee := m.status == PaymentRequired && config.joinFeeRequired && config.joinFeeAmount > 0.0;
            var c, p := bill.claim, bill.payment;
            && c.contribution == contribution && c.joinFee == joinFee && c.fineIds == p.fineIds
            && c.mahber == mahber && c.member == member
            && (m.nextDue.Some? ==>
                  c.cycleEnd ==
                  Some(DueDates.AddFrequency(m.nextDue.value, DueDates.ReadFrequency(config.frequency))))
            && p.amount == (if contribution then config.contributionAmount else 0.0)
                           + (if joinFee then config.joinFeeAmount else 0.0)
                           + Payments.SumFines(db.fines, p.fineIds)
            && (p.kind == JoinFee <==> joinFee)
  {
    hide Payments.Outstanding, Payments.Unrepeated, Payments.Chosen, Payments.SumFines, DueDates.AddFrequency,
      DueDates.ReadFrequency, Members.Find;
  }

  /**
   Whatever fines are named, a bill asks for the sum of three parts: the contribution, if the
   member is active and it has fallen due; the join fee, if it is still required; and the
   fines listed. It is a join fee exactly when that is due, and is for one cycle from the due
   date, or from now if only the join fee is due.
   */
  lemma BillAddsUp(db: Db, mahber: MahberId, member: UserId, config: Config, wanted: Option<seq<nat>>, txRef: string,
                   k: nat)
    requires Members.Find(db.members, mahber, member) == Some(k)
    requires Payments.Prepare(db, mahber, member, config, wanted, txRef).Ok?
    ensures var p, m := Payments.Prepare(db, mahber, member, config, wanted, txRef).value.payment, db.members[k];
            var contribution := m.status == Active && config.contributionAmount > 0.0
                                && m.nextDue.Some? && m.nextDue.value <= db.clock;
            var joinFee := m.status == PaymentRequired && config.joinFeeRequired && config.joinFeeAmount > 0.0;
            var frequency := DueDates.ReadFrequency(config.frequency);
            && p.amount == (if contribution then config.contributionAmount else 0.0)
                           + (if joinFee then config.joinFeeAmount else 0.0)
                           + ListedTotal(db.fines, p.fineIds)
            && p.kind == (if joinFee then JoinFee else Contribution)
            && p.periodEnd == (if m.nextDue.Some? then Some(DueDates.AddFrequency(m.nextDue.value, frequency))
                               else if joinFee then Some(DueDates.AddFrequency(db.clock, frequency))
                               else None)
            && p.mahber == mahber && p.member == member && p.txRef == txRef && p.status == Pending
            && p.createdAt == db.clock && p.completedAt == None
  {
    hide Payments.Prepare, Payments.SumFines, ListedTotal, DueDates.AddFrequency, DueDates.ReadFrequency,
      Members.Find;
    BillParts(db, mahber, member, config, wanted, txRef, k);
    BillIsForPayer(db, mahber, member, config, wanted, txRef);
    PaymentTheorems.BillNeedsMember(db, mahber, member, config, wanted, txRef);
    PaymentTheorems.BillCoversExactly(db, mahber, member, config, wanted, txRef);
    PaymentTheorems.BillPeriod(db, mahber, member, config, wanted, txRef, k);
    var p := Payments.Prepare(db, mahber, member, config, wanted, txRef).value.payment;
    SumIsListed(db.fines, p.fineIds);
  }

  predicate Increasing(s: seq<nat>) {
    forall i, j :: 0 <= i < j < |s| ==> s[i] < s[j]
  }

  lemma {:induction false} ChosenIncreases(outstanding: seq<nat>, wanted: seq<nat>)
    requires Increasing(outstanding)
    ensures Increasing(Payments.Chosen(outstanding, wanted))
  {
    if outstanding != [] {
      var n := |outstanding| - 1;
      var before := Payments.Chosen(outstanding[..n], wanted);
      ChosenIncreases(outstanding[..n], wanted);
      Payments.ChosenAreBoth(outstanding[..n], wanted);
      forall i | 0 <= i < |before| ensures before[i] < outstanding[n] {
        assert before[i] in outstanding[..n];
      }
    }
  }

  /** A bill lists its fines oldest first, in whatever order they were named. */
  lemma BillListsOldestFirst(db: Db, mahber: MahberId, member: UserId, config: Config, wanted: Option<seq<nat>>,
                             txRef: string)
    requires Payments.Prepare(db, mahber, member, config, wanted, txRef).Ok?
    ensures Increasing(Payments.Prepare(db, mahber, member, config, wanted, txRef).value.payment.fineIds)
  {
    hide Payments.Outstanding, Payments.Unrepeated, Payments.Chosen, Payments.SumFines, DueDates.AddFrequency,
      DueDates.ReadFrequency, Members.Find;
    var outstanding := Payments.Outstanding(db.fines, mahber, member);
    var asked := if wanted.Some? && wanted.value != [] then wanted.value else outstanding;
    PaymentTheorems.OutstandingIsOrdered(db.fines, mahber, member);
    ChosenIncreases(outstanding, Payments.Unrepeated(asked));
  }

  /**
   A bill is refused for an unknown user, else for one neither active nor still to pay the join
   fee, else exactly when a fine asked for is not an open fine of the member; never otherwise.
   */
  lemma BillRefusedExactly(db: Db, mahber: MahberId, member: UserId, config: Config, wanted: Option<seq<nat>>,
                           txRef: string)
    ensures var bill, row := Payments.Prepare(db, mahber, member, config, wanted, txRef),
                             Members.Find(db.members, mahber, member);
            var known := exists i :: 0 <= i < |db.members| && Members.IsRow(db.members[i], mahber, member);
            && (known <==> row.Some?)
            && (bill == Err(NotFound) <==> !known)
            && (row.Some? ==>
                  var status := db.members[row.value].status;
                  && (bill == Err(NotActive) <==> status != Active && status != PaymentRequired)
                  && (bill == Err(InvalidFines) <==>
                        && (status == Active || status == PaymentRequired)
                        && exists x: nat :: PaymentTheorems.Asked(db, mahber, member, wanted, x)
                             && !(x < |db.fines| && Payments.IsUnresolved(db.fines[x], mahber, member))))
            && (bill.Err? ==> bill.error in {NotFound, NotActive, InvalidFines})
  {
    hide Payments.Outstanding, Payments.Unrepeated, Payments.Chosen, Payments.SumFines, DueDates.AddFrequency,
      DueDates.ReadFrequency, PaymentTheorems.Asked, Payments.IsUnresolved, Payments.ContributionDue,
      Payments.JoinFeeDue;
    var row := Members.Find(db.members, mahber, member);
    if row.Some? {
      var status := db.members[row.value].status;
      if status == Active || status == PaymentRequired {
        PaymentTheorems.BillCoversExactly(db, mahber, member, config, wanted, txRef);
      }
    }
  }

  // ----- opening

  /** A pending payment of the member for what is now billed again: the same cycle, join fee or some of the fines. */
  predicate IsReplaced(q: Payment, p: Payment, contribution: bool, joinFee: bool) {
    && q.status == Pending && q.mahber == p.mahber && q.member == p.member
    && (|| (contribution && q.kind == Contribution && (q.periodEnd.None? || q.periodEnd == p.periodEnd))
        || (joinFee && q.kind == JoinFee)
        || (exists i :: 0 <= i < |q.fineIds| && q.fineIds[i] in p.fineIds))
  }

  lemma ReplacedIsSuperseded(q: Payment, p: Payment, c: Payments.Claim)
    requires c.mahber == p.mahber && c.member == p.member && c.fineIds == p.fineIds
    requires c.contribution ==> c.cycleEnd.Some? && c.cycleEnd == p.periodEnd
    ensures Payments.Superseded(q, c) <==> IsReplaced(q, p, c.contribution, c.joinFee)
  {
  }

  lemma UsedExactly(payments: seq<Payment>, txRef: string)
    ensures Payments.FindByRef(payments, txRef).Some? <==>
            exists j :: 0 <= j < |payments| && payments[j].txRef == txRef
  {
    hide Payments.FindByRef;
    var found := Payments.FindByRef(payments, txRef);
    if found.Some? {
      assert payments[found.value].txRef == txRef;
    }
  }

  /** What initiating a payment does once the bill is made. */
  lemma InitiatingABill(db: Db, mahber: MahberId, member: UserId, config: Config, wanted: Option<seq<nat>>,
                        txRef: string, up: bool)
    ensures var out, bill := Payments.Initiate(db, mahber, member, config, wanted, txRef, up),
                             Payments.Prepare(db, mahber, member, config, wanted, txRef);
            && (bill.Err? ==> out == Effect(db, Some(bill.error)))
            && (bill.Ok? ==>
                  var kept := Payments.ExpireSuperseded(db.payments, bill.value.claim);
                  var due := bill.value.payment.amount > 0.0;
                  var used := Payments.FindByRef(kept, txRef).Some?;
                  && out.db == db.(payments := kept + if due && !used then [bill.value.payment] else [])
                  && out.refusal == (if !due then Some(NothingDue) else if used then Some(ReferenceTaken)
                                     else if !up then Some(GatewayDown) else None))
  {
    hide Payments.Prepare, Payments.ExpireSuperseded, Payments.FindByRef;
    var bill := Payments.Prepare(db, mahber, member, config, wanted, txRef);
    if bill.Ok? {
      var kept := Payments.ExpireSuperseded(db.payments, bill.value.claim);
      assert kept + [] == kept;
    }
  }

  /**
   What initiating a payment answers and changes. A refused bill changes nothing. Otherwise
   exactly the member's pending payments for anything now billed expire, even if the answer is
   that nothing is due or that the reference is taken; the payment billed is opened exactly
   when something is due and the reference is new, also when the gateway then fails.
   */
  lemma InitiatingAnswersExactly(db: Db, mahber: MahberId, member: UserId, config: Config, wanted: Option<seq<nat>>,
                                 txRef: string, up: bool, k: nat)
    requires Members.Find(db.members, mahber, member) == Some(k)
    ensures var out, bill := Payments.Initiate(db, mahber, member, config, wanted, txRef, up),
                             Payments.Prepare(db, mahber, member, config, wanted, txRef);
            var m, n := db.members[k], |db.payments|;
            var contribution := m.status == Active && config.contributionAmount > 0.0
                                && m.nextDue.Some? && m.nextDue.value <= db.clock;
            var joinFee := m.status == PaymentRequired && config.joinFeeRequired && config.joinFeeAmount > 0.0;
            var used := exists j :: 0 <= j < n && db.payments[j].txRef == txRef;
            && (bill.Err? ==> out == Effect(db, Some(bill.error)))
            && (bill.Ok? ==>
                  var p := bill.value.payment;
                  var opens := p.amount > 0.0 && !used;
                  && (out.refusal == Some(NothingDue) <==> p.amount <= 0.0)
                  && (out.refusal == Some(ReferenceTaken) <==> p.amount > 0.0 && used)
                  && (out.refusal == Some(GatewayDown) <==> opens && !up)
                  && (out.refusal.None? <==> opens && up)
                  && out.db == db.(payments := out.db.payments)
                  && |out.db.payments| == n + (if opens then 1 else 0)
                  && (opens ==> out.db.payments[n] == p)
                  && forall i :: 0 <= i < n ==>
                       out.db.payments[i] == if IsReplaced(db.payments[i], p, contribution, joinFee)
                                             then db.payments[i].(status := Expired) else db.payments[i])
  {
    hide Payments.Prepare, Payments.Initiate, Payments.FindByRef, Payments.Superseded, IsReplaced, Payments.SumFines,
      DueDates.AddFrequency, DueDates.ReadFrequency, Members.Find, ListedTotal;
    InitiatingABill(db, mahber, member, config, wanted, txRef, up);
    var bill := Payments.Prepare(db, mahber, member, config, wanted, txRef);
    if bill.Ok? {
      BillParts(db, mahber, member, config, wanted, txRef, k);
      BillAddsUp(db, mahber, member, config, wanted, txRef, k);
      var kept := Payments.ExpireSuperseded(db.payments, bill.value.claim);
      UsedExactly(kept, txRef);
      assert forall j :: 0 <= j < |kept| ==> kept[j].txRef == db.payments[j].txRef;
      forall i | 0 <= i < |db.payments|
        ensures Payments.Superseded(db.payments[i], bill.value.claim) <==>
                IsReplaced(db.payments[i], bill.value.payment, bill.value.claim.contribution, bill.value.claim.joinFee)
      {
        ReplacedIsSuperseded(db.payments[i], bill.value.payment, bill.value.claim);
      }
    }
  }
}
