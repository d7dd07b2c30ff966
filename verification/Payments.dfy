/** Payments: initiating, completing by webhook or callback, retrying, and payment rounds. */
module Payments {
  import opened Wrappers
  import opened MoneyRecords
  import DueDates
  import Ledger
  import Members

  // ----- rows

  predicate IsUnresolved(f: Fine, mahber: MahberId, member: UserId) {
    f.mahber == mahber && f.member == member && !f.waived && f.paidAt.None?
  }

  /** The member's fines that are neither waived nor paid, oldest first. */
  function Outstanding(fines: seq<Fine>, mahber: MahberId, member: UserId): seq<nat> {
    if fines == [] then []
    else
      var n := |fines| - 1;
      Outstanding(fines[..n], mahber, member) + (if IsUnresolved(fines[n], mahber, member) then [n] else [])
  }

  /** First occurrences only. */
  function Unrepeated(ids: seq<nat>): seq<nat> {
    if ids == [] then []
    else
      var n := |ids| - 1;
      var before := Unrepeated(ids[..n]);
      if ids[n] in before then before else before + [ids[n]]
  }

  function Chosen(outstanding: seq<nat>, wanted: seq<nat>): seq<nat> {
    if outstanding == [] then []
    else
      var n := |outstanding| - 1;
      Chosen(outstanding[..n], wanted) + (if outstanding[n] in wanted then [outstanding[n]] else [])
  }

  function SumFines(fines: seq<Fine>, ids: seq<nat>): Money {
    if ids == [] then 0.0
    else
      var id := ids[|ids| - 1];
      SumFines(fines, ids[..|ids| - 1]) + (if id < |fines| then fines[id].amount else 0.0)
  }

  lemma {:induction false} OutstandingAreUnresolved(fines: seq<Fine>, mahber: MahberId, member: UserId)
    ensures forall x: nat :: x in Outstanding(fines, mahber, member) <==>
                             x < |fines| && IsUnresolved(fines[x], mahber, member)
  {
    if fines != [] {
      OutstandingAreUnresolved(fines[..|fines| - 1], mahber, member);
    }
  }

  lemma {:induction false} ChosenAreBoth(outstanding: seq<nat>, wanted: seq<nat>)
    ensures forall x :: x in Chosen(outstanding, wanted) <==> x in outstanding && x in wanted
  {
    if outstanding != [] {
      var n := |outstanding| - 1;
      assert outstanding == outstanding[..n] + [outstanding[n]];
      ChosenAreBoth(outstanding[..n], wanted);
    }
  }

  function FindByRef(payments: seq<Payment>, txRef: string): (r: Option<nat>)
    ensures r.Some? ==> r.value < |payments| && payments[r.value].txRef == txRef
    ensures r.None? ==> forall i :: 0 <= i < |payments| ==> payments[i].txRef != txRef
  {
    if payments == [] then None
    else
      var n := |payments| - 1;
      if payments[n].txRef == txRef then Some(n) else FindByRef(payments[..n], txRef)
  }

  function FindJoin(joins: seq<PendingPayment>, id: string): (r: Option<nat>)
    ensures r.Some? ==> r.value < |joins| && joins[r.value].id == id
    ensures r.None? ==> forall i :: 0 <= i < |joins| ==> joins[i].id != id
  {
    if joins == [] then None
    else
      var n := |joins| - 1;
      if joins[n].id == id then Some(n) else FindJoin(joins[..n], id)
  }

  // ----- initiating

  /** What the new payment is for; an earlier pending payment for any of it is superseded. */
  datatype Claim = Claim(mahber: MahberId, member: UserId, contribution: bool, cycleEnd: Option<Time>, joinFee: bool,
                         fineIds: seq<nat>)

  predicate Overlap(xs: seq<nat>, ys: seq<nat>) {
    exists i :: 0 <= i < |xs| && xs[i] in ys
  }

  predicate Superseded(p: Payment, c: Claim) {
    && p.mahber == c.mahber && p.member == c.member && p.status == Pending
    && (|| (c.contribution && p.kind == Contribution
            && (c.cycleEnd.None? || p.periodEnd.None? || p.periodEnd == c.cycleEnd))
        || (c.joinFee && p.kind == JoinFee)
        || (c.fineIds != [] && Overlap(p.fineIds, c.fineIds)))
  }

  function ExpireSuperseded(payments: seq<Payment>, c: Claim): (r: seq<Payment>)
    ensures |r| == |payments|
    ensures forall i :: 0 <= i < |r| ==>
              r[i] == if Superseded(payments[i], c) then payments[i].(status := Expired) else payments[i]
  {
    seq(|payments|, i requires 0 <= i < |payments| =>
      if Superseded(payments[i], c) then payments[i].(status := Expired) else payments[i])
  }

  function ContributionDue(m: Membership, config: Config, now: Time): bool {
    m.status == Active && config.contributionAmount > 0.0 && m.nextDue.Some? && m.nextDue.value <= now
  }

  function JoinFeeDue(m: Membership, config: Config): bool {
    m.status == PaymentRequired && config.joinFeeRequired && config.joinFeeAmount > 0.0
  }

  /** What a member is asked to pay: what it is for, and the payment that would be opened. */
  datatype Bill = Bill(claim: Claim, payment: Payment)

  function Prepare(db: Db, mahber: MahberId, member: UserId, config: Config, wanted: Option<seq<nat>>,
                   txRef: string): Result<Bill, Refusal> {
    var row := Members.Find(db.members, mahber, member);
    if row.None? then Err(NotFound)
    else
      var m := db.members[row.value];
      if m.status != Active && m.status != PaymentRequired then Err(NotActive)
      else
        var outstanding := Outstanding(db.fines, mahber, member);
        var ids := Unrepeated(if wanted.Some? && wanted.value != [] then wanted.value else outstanding);
        var selected := if ids == [] then [] else Chosen(outstanding, ids);
        if ids != [] && |selected| != |ids| then Err(InvalidFines)
        else
          var contribution := ContributionDue(m, config, db.clock);
          var joinFee := JoinFeeDue(m, config);
          var frequency := DueDates.ReadFrequency(config.frequency);
          var cycleEnd := if m.nextDue.Some? then Some(DueDates.AddFrequency(m.nextDue.value, frequency)) else None;
          var joinEnd := if joinFee then Some(DueDates.AddFrequency(db.clock, frequency)) else None;
          var amount := (if contribution then config.contributionAmount else 0.0)
                        + (if joinFee then config.joinFeeAmount else 0.0) + SumFines(db.fines, selected);
          Ok(Bill(Claim(mahber, member, contribution, cycleEnd, joinFee, selected),
                  Payment(txRef, mahber, member, amount, if !contribution && joinFee then JoinFee else Contribution,
                          Pending, selected, if cycleEnd.Some? then cycleEnd else joinEnd, db.clock, None)))
  }

  /** Superseded payments are expired even when nothing turns out to be owed or the new payment cannot be opened. */
  function Initiate(db: Db, mahber: MahberId, member: UserId, config: Config, wanted: Option<seq<nat>>,
                    txRef: string, gatewayUp: bool): Effect
  {
    match Prepare(db, mahber, member, config, wanted, txRef)
    case Err(why) => Effect(db, Some(why))
    case Ok(bill) =>
      var kept := ExpireSuperseded(db.payments, bill.claim);
      if bill.payment.amount <= 0.0 then Effect(db.(payments := kept), Some(NothingDue))
      else if FindByRef(kept, txRef).Some? then Effect(db.(payments := kept), Some(ReferenceTaken))
      else Effect(db.(payments := kept + [bill.payment]), if gatewayUp then None else Some(GatewayDown))
  }

  // ----- completing

  function OrElse<T>(a: Option<T>, b: T): Option<T> {
    if a.Some? then a else Some(b)
  }

  function Activated(m: Membership, nextDue: Time, now: Time): Membership {
    m.(status := Active, activatedAt := OrElse(m.activatedAt, now), joinedAt := OrElse(m.joinedAt, now),
       nextDue := Some(nextDue))
  }

  /** Unpaid fines among `ids` that belong to the payer are stamped with the payment. */
  function StampPaid(fines: seq<Fine>, ids: seq<nat>, mahber: MahberId, member: UserId, payment: nat,
                     now: Time): (r: seq<Fine>)
    ensures |r| == |fines|
    ensures forall i :: 0 <= i < |r| ==>
              r[i] == if i in ids && fines[i].mahber == mahber && fines[i].member == member && fines[i].paidAt.None?
                      then fines[i].(paidAt := Some(now), paidBy := Some(payment)) else fines[i]
  {
    seq(|fines|, i requires 0 <= i < |fines| =>
      if i in ids && fines[i].mahber == mahber && fines[i].member == member && fines[i].paidAt.None?
      then fines[i].(paidAt := Some(now), paidBy := Some(payment)) else fines[i])
  }

  datatype Notice = SaysSuccess | SaysFailed | SaysExpired | SaysOther

  function ReadNotice(status: Option<string>): Notice {
    var s := if status.None? then "" else DueDates.Lower(status.value);
    if s == "success" then SaysSuccess
    else if s == "failed" then SaysFailed
    else if s == "expired" then SaysExpired
    else SaysOther
  }

  function KindName(kind: PaymentType): string {
    if kind == Contribution then "Contribution" else "JoinFee"
  }

  function MemberAfterPayment(m: Membership, p: Payment, now: Time): Membership {
    if p.periodEnd.Some? then Activated(m, p.periodEnd.value, now)
    else if m.status == PaymentRequired && p.kind == JoinFee then
      Activated(m, if m.nextDue.Some? then m.nextDue.value else DueDates.AddFrequency(now, DueDates.Monthly), now)
    else m
  }

  /** The success transaction of the webhook for payment `i` of the member in row `k`. */
  function Complete(db: Db, i: nat, k: nat): Db
    requires i < |db.payments| && k < |db.members|
  {
    var p := db.payments[i];
    db.(payments := db.payments[i := p.(status := Completed, completedAt := Some(db.clock))],
        fines := StampPaid(db.fines, p.fineIds, p.mahber, p.member, i, db.clock),
        ledger := Ledger.Post(db.ledger, db.clock, p.mahber, p.member, ContributionEntry, p.amount,
                              KindName(p.kind) + " payment via Chapa (tx_ref: " + p.txRef + ")", OfPayment(i)),
        members := db.members[k := MemberAfterPayment(db.members[k], p, db.clock)])
  }

  /** A notice for a completed, failed or unknown payment changes nothing; an expired payment still completes. */
  function Webhook(db: Db, txRef: Option<string>, status: Option<string>): Effect {
    if txRef.None? || txRef.value == "" then Effect(db, None)
    else
      var found := FindByRef(db.payments, txRef.value);
      if found.None? then Effect(db, None)
      else
        var i := found.value;
        var p := db.payments[i];
        if p.status == Completed || p.status == Failed then Effect(db, None)
        else
          match ReadNotice(status)
          case SaysSuccess =>
            var row := Members.Find(db.members, p.mahber, p.member);
            if row.None? then Effect(db, Some(NotFound)) else Effect(Complete(db, i, row.value), None)
          case SaysFailed => Effect(db.(payments := db.payments[i := p.(status := Failed)]), None)
          case SaysExpired => Effect(db.(payments := db.payments[i := p.(status := Expired)]), None)
          case SaysOther => Effect(db, None)
  }

  /** A retry repeats amount and kind only: it lists no fines and covers no period. */
  function Retry(db: Db, mahber: MahberId, payment: nat, member: UserId, txRef: string, gatewayUp: bool): Effect {
    if payment >= |db.payments| || db.payments[payment].mahber != mahber || db.payments[payment].member != member
    then Effect(db, Some(NotFound))
    else
      var p := db.payments[payment];
      if p.status == Completed then Effect(db, Some(AlreadyCompleted))
      else if p.status == Pending then Effect(db, Some(StillPending))
      else if !gatewayUp then Effect(db, Some(GatewayDown))
      else if FindByRef(db.payments, txRef).Some? then Effect(db, Some(ReferenceTaken))
      else Effect(db.(payments := db.payments + [Payment(txRef, mahber, member, p.amount, p.kind, Pending, [], None,
                                                         db.clock, None)]), None)
  }

  // ----- the join path

  /** Asking to join: with a fee a join payment is opened, without one the membership is active at once. */
  function Join(db: Db, mahber: MahberId, user: UserId, isPublic: bool, config: Config, id: string,
                gatewayUp: bool): Effect {
    var row := Members.Find(db.members, mahber, user);
    if row.Some? && db.members[row.value].status == Active then Effect(db, Some(AlreadyActive))
    else if row.Some? && db.members[row.value].status == Banned then Effect(db, Some(MemberBanned))
    else if row.None? && !isPublic then Effect(db, Some(PrivateMahber))
    else if config.joinFeeRequired && config.joinFeeAmount > 0.0 then
      if FindJoin(db.joins, id).Some? then Effect(db, Some(ReferenceTaken))
      else
        var begun := db.(joins := db.joins + [PendingPayment(id, mahber, user, config.joinFeeAmount, Open)]);
        if !gatewayUp then Effect(begun, Some(GatewayDown))
        else if row.Some? then Effect(begun, None)
        else Effect(begun.(members := db.members + [Membership(mahber, user, PaymentRequired, None, false, None,
                                                               None)]), None)
    else
      var due := DueDates.NextDue(db.clock, DueDates.ReadFrequency(config.frequency), config.paymentDay);
      if row.Some? then
        var m := db.members[row.value];
        Effect(db.(members := db.members[row.value :=
          m.(status := Active, joinedAt := Some(db.clock), activatedAt := Some(db.clock), nextDue := Some(due))]), None)
      else
        Effect(db.(members := db.members +
          [Membership(mahber, user, Active, Some(due), false, Some(db.clock), Some(db.clock))]), None)
  }

  /** The success transaction of the callback for join payment `j` of the member in row `k`. */
  function CompleteJoin(db: Db, j: nat, k: nat, config: Config): Db
    requires j < |db.joins| && k < |db.members|
  {
    var p := db.joins[j];
    var m := db.members[k];
    var kind := if m.status == PaymentRequired then JoinFee else Contribution;
    var from := if m.nextDue.Some? then m.nextDue.value else db.clock;
    var due := DueDates.NextDue(from, DueDates.ReadFrequency(config.frequency), config.paymentDay);
    db.(joins := db.joins[j := p.(status := Done)],
        payments := db.payments + [Payment(p.id, p.mahber, p.member, p.amount, kind, Completed, [], None, db.clock,
                                           Some(db.clock))],
        ledger := Ledger.Post(db.ledger, db.clock, p.mahber, p.member, ContributionEntry, p.amount,
                              KindName(kind) + " payment via Chapa callback (tx_ref: " + p.id + ")",
                              OfPayment(|db.payments|)),
        members := db.members[k := Activated(m, due, db.clock)])
  }

  /** The callback of a join payment; anything but a success ends it as expired or failed. */
  function Callback(db: Db, id: Option<string>, status: Option<string>, config: Config): Effect {
    if id.None? || id.value == "" then Effect(db, Some(NotFound))
    else
      var found := FindJoin(db.joins, id.value);
      if found.None? then Effect(db, Some(NotFound))
      else
        var j := found.value;
        var p := db.joins[j];
        if p.status != Open then Effect(db, None)
        else
          match ReadNotice(status)
          case SaysSuccess =>
            var row := Members.Find(db.members, p.mahber, p.member);
            if row.None? then Effect(db, Some(NotFound))
            else if FindByRef(db.payments, p.id).Some? then Effect(db, Some(ReferenceTaken))
            else Effect(CompleteJoin(db, j, row.value, config), None)
          case SaysExpired => Effect(db.(joins := db.joins[j := p.(status := Lapsed)]), None)
          case _ => Effect(db.(joins := db.joins[j := p.(status := Lost)]), None)
  }

  /** An administrator makes the contribution of every active member due at one date. */
  function StartRound(db: Db, mahber: MahberId, dueDate: Option<Time>): Effect {
    if Members.ActiveRows(db.members, mahber) == [] then Effect(db, Some(NoMembers))
    else
      var due := if dueDate.Some? then dueDate.value else db.clock;
      Effect(db.(members := seq(|db.members|, i requires 0 <= i < |db.members| =>
        if db.members[i].mahber == mahber && db.members[i].status == Active
        then db.members[i].(nextDue := Some(due)) else db.members[i])), None)
  }
}
