/**
 The money services as they run: one object whose fields are the tables, changed row by row
 inside loops and transactions. Every method is proved to take the whole store to exactly
 the state, and to give exactly the answer, that its step of the state machine says.
 */
module MoneyService {
  import opened Wrappers
  import opened MoneyRecords
  import DueDates
  import Ledger
  import Members
  import Payments
  import Fines
  import Lottery
  import Spending
  import opened MoneyMachine
  import MoneyInvariants
  import LotteryTheorems

  class Store {
    var clock: Time
    var members: seq<Membership>
    var payments: seq<Payment>
    var joins: seq<PendingPayment>
    var fines: seq<Fine>
    var ledger: seq<Entry>
    var draws: seq<Draw>
    var expenses: seq<Expense>
    var payouts: seq<Payout>

    function Snapshot(): Db
      reads this
    {
      Db(clock, members, payments, joins, fines, ledger, draws, expenses, payouts)
    }

    constructor (now: Time)
      ensures Snapshot() == EmptyDb(now)
    {
      clock, members, payments, joins, fines := now, [], [], [], [];
      ledger, draws, expenses, payouts := [], [], [], [];
    }

    method Wait(ms: nat)
      modifies this
      ensures Snapshot() == old(Snapshot()).(clock := old(clock) + ms)
    {
      clock := clock + ms;
    }

    // ----- ledger

    method CreateLedgerEntry(mahber: MahberId, member: UserId, kind: EntryKind, amount: Money, description: string,
                             source: Source)
      modifies this`ledger
      ensures ledger == Ledger.Post(old(ledger), clock, mahber, member, kind, amount, description, source)
    {
      var last := Ledger.Latest(ledger, mahber, member);
      var previous := 0.0;
      if last.Some? {
        previous := ledger[last.value].runningBalance;
      }
      ledger := ledger + [Entry(mahber, member, kind, amount, previous + amount, description, source, clock)];
    }

    /** Adds up the member's amounts. */
    method GetMemberBalance(mahber: MahberId, member: UserId) returns (sum: Money)
      ensures sum == Ledger.MemberBalance(ledger, mahber, member)
    {
      sum := 0.0;
      for i := 0 to |ledger|
        invariant sum == Ledger.MemberBalance(ledger[..i], mahber, member)
      {
        assert ledger[..i + 1][..i] == ledger[..i];
        if Ledger.Concerns(ledger[i], mahber, member) {
          sum := sum + ledger[i].amount;
        }
      }
      assert ledger[..|ledger|] == ledger;
    }

    // ----- payments

    /** The pending payments of a member, in table order. */
    method PendingOf(mahber: MahberId, member: UserId) returns (rows: seq<nat>)
      ensures forall i, j :: 0 <= i < j < |rows| ==> rows[i] < rows[j]
      ensures forall k: nat :: k in rows <==>
                k < |payments| && payments[k].mahber == mahber && payments[k].member == member
                  && payments[k].status == Pending
    {
      rows := [];
      for k := 0 to |payments|
        invariant forall i :: 0 <= i < |rows| ==> rows[i] < k
        invariant forall i, j :: 0 <= i < j < |rows| ==> rows[i] < rows[j]
        invariant forall j: nat :: j in rows <==>
                    j < k && payments[j].mahber == mahber && payments[j].member == member
                      && payments[j].status == Pending
      {
        if payments[k].mahber == mahber && payments[k].member == member && payments[k].status == Pending {
          rows := rows + [k];
        }
      }
    }

    /** Expires, one by one, every pending payment that the claim supersedes. */
    method ExpireEach(claim: Payments.Claim)
      modifies this`payments
      ensures payments == Payments.ExpireSuperseded(old(payments), claim)
    {
      var pending := PendingOf(claim.mahber, claim.member);
      for i := 0 to |pending|
        invariant |payments| == |old(payments)|
        invariant forall k :: 0 <= k < |payments| ==>
                    payments[k] == if k in pending[..i] && Payments.Superseded(old(payments)[k], claim)
                                   then old(payments)[k].(status := Expired) else old(payments)[k]
      {
        var k := pending[i];
        assert k in pending;
        assert pending[..i + 1] == pending[..i] + [k];
        var p := payments[k];
        var sameCycle := claim.contribution && p.kind == Contribution
                         && (claim.cycleEnd.None? || p.periodEnd.None? || p.periodEnd == claim.cycleEnd);
        var sameJoinFee := claim.joinFee && p.kind == JoinFee;
        var sameFines := claim.fineIds != [] && Payments.Overlap(p.fineIds, claim.fineIds);
        if sameCycle || sameJoinFee || sameFines {
          payments := payments[k := p.(status := Expired)];
        }
      }
      assert pending[..|pending|] == pending;
      assert payments == Payments.ExpireSuperseded(old(payments), claim);
    }

    method InitiatePayment(mahber: MahberId, member: UserId, config: Config, wanted: Option<seq<nat>>, txRef: string,
                           gatewayUp: bool)
      returns (refusal: Option<Refusal>)
      modifies this`payments
      ensures Payments.Initiate(old(Snapshot()), mahber, member, config, wanted, txRef, gatewayUp) ==
              Effect(Snapshot(), refusal)
    {
      hide Payments.Prepare, Payments.ExpireSuperseded, Payments.FindByRef;
      var prepared := Payments.Prepare(Snapshot(), mahber, member, config, wanted, txRef);
      if prepared.Err? { return Some(prepared.error); }
      var bill := prepared.value;
      ExpireEach(bill.claim);
      if bill.payment.amount <= 0.0 { return Some(NothingDue); }
      if Payments.FindByRef(payments, txRef).Some? { return Some(ReferenceTaken); }
      payments := payments + [bill.payment];
      return if gatewayUp then None else Some(GatewayDown);
    }

    /** The success transaction of the webhook. */
    method CompletePayment(i: nat, row: nat)
      requires i < |payments| && row < |members|
      modifies this`payments, this`fines, this`ledger, this`members
      ensures Snapshot() == Payments.Complete(old(Snapshot()), i, row)
    {
      hide Ledger.Post, Payments.StampPaid, DueDates.AddFrequency;
      var p := payments[i];
      payments := payments[i := p.(status := Completed, completedAt := Some(clock))];
      fines := Payments.StampPaid(fines, p.fineIds, p.mahber, p.member, i, clock);
      CreateLedgerEntry(p.mahber, p.member, ContributionEntry, p.amount,
                        Payments.KindName(p.kind) + " payment via Chapa (tx_ref: " + p.txRef + ")", OfPayment(i));
      var m := members[row];
      if p.periodEnd.Some? {
        m := m.(status := Active, activatedAt := Payments.OrElse(m.activatedAt, clock),
                joinedAt := Payments.OrElse(m.joinedAt, clock), nextDue := p.periodEnd);
      } else if m.status == PaymentRequired && p.kind == JoinFee {
        var due := if m.nextDue.Some? then m.nextDue.value else DueDates.AddFrequency(clock, DueDates.Monthly);
        m := m.(status := Active, activatedAt := Payments.OrElse(m.activatedAt, clock),
                joinedAt := Payments.OrElse(m.joinedAt, clock), nextDue := Some(due));
      }
      members := members[row := m];
    }

    method ProcessWebhook(txRef: Option<string>, status: Option<string>) returns (refusal: Option<Refusal>)
      modifies this`payments, this`fines, this`ledger, this`members
      ensures Payments.Webhook(old(Snapshot()), txRef, status) == Effect(Snapshot(), refusal)
    {
      hide Payments.Complete, Payments.ReadNotice, Payments.FindByRef, Members.Find;
      if txRef.None? || txRef.value == "" { return None; }
      var found := Payments.FindByRef(payments, txRef.value);
      if found.None? { return None; }
      var i := found.value;
      var p := payments[i];
      if p.status == Completed || p.status == Failed { return None; }
      match Payments.ReadNotice(status) {
        case SaysSuccess =>
          var row := Members.Find(members, p.mahber, p.member);
          if row.None? { return Some(NotFound); }
          CompletePayment(i, row.value);
        case SaysFailed => payments := payments[i := p.(status := Failed)];
        case SaysExpired => payments := payments[i := p.(status := Expired)];
        case SaysOther =>
      }
      return None;
    }

    method RetryPayment(mahber: MahberId, payment: nat, member: UserId, txRef: string, gatewayUp: bool)
      returns (refusal: Option<Refusal>)
      modifies this
      ensures Payments.Retry(old(Snapshot()), mahber, payment, member, txRef, gatewayUp) == Effect(Snapshot(), refusal)
    {
      if payment >= |payments| || payments[payment].mahber != mahber || payments[payment].member != member {
        return Some(NotFound);
      }
      var original := payments[payment];
      if original.status == Completed { return Some(AlreadyCompleted); }
      if original.status == Pending { return Some(StillPending); }
      if !gatewayUp { return Some(GatewayDown); }
      if Payments.FindByRef(payments, txRef).Some? { return Some(ReferenceTaken); }
      payments := payments + [Payment(txRef, mahber, member, original.amount, original.kind, Pending, [], None, clock,
                                      None)];
      return None;
    }

    method JoinMahber(mahber: MahberId, user: UserId, isPublic: bool, config: Config, id: string, gatewayUp: bool)
      returns (refusal: Option<Refusal>)
      modifies this
      ensures Payments.Join(old(Snapshot()), mahber, user, isPublic, config, id, gatewayUp) ==
              Effect(Snapshot(), refusal)
    {
      var row := Members.Find(members, mahber, user);
      if row.Some? {
        if members[row.value].status == Active { return Some(AlreadyActive); }
        if members[row.value].status == Banned { return Some(MemberBanned); }
      } else if !isPublic {
        return Some(PrivateMahber);
      }
      if config.joinFeeRequired && config.joinFeeAmount > 0.0 {
        if Payments.FindJoin(joins, id).Some? { return Some(ReferenceTaken); }
        joins := joins + [PendingPayment(id, mahber, user, config.joinFeeAmount, Open)];
        if !gatewayUp { return Some(GatewayDown); }
        if row.None? {
          members := members + [Membership(mahber, user, PaymentRequired, None, false, None, None)];
        }
      } else {
        var due := DueDates.NextDue(clock, DueDates.ReadFrequency(config.frequency), config.paymentDay);
        if row.Some? {
          members := members[row.value := members[row.value].(
            status := Active, joinedAt := Some(clock), activatedAt := Some(clock), nextDue := Some(due))];
        } else {
          members := members + [Membership(mahber, user, Active, Some(due), false, Some(clock), Some(clock))];
        }
      }
      return None;
    }

    /** The success transaction of the callback. */
    method CompleteJoin(j: nat, row: nat, config: Config)
      requires j < |joins| && row < |members|
      modifies this`joins, this`payments, this`ledger, this`members
      ensures Snapshot() == Payments.CompleteJoin(old(Snapshot()), j, row, config)
    {
      hide Ledger.Post, DueDates.NextDue, DueDates.ReadFrequency;
      var p := joins[j];
      var m := members[row];
      var kind := if m.status == PaymentRequired then JoinFee else Contribution;
      joins := joins[j := p.(status := Done)];
      payments := payments + [Payment(p.id, p.mahber, p.member, p.amount, kind, Completed, [], None, clock,
                                      Some(clock))];
      CreateLedgerEntry(p.mahber, p.member, ContributionEntry, p.amount,
                        Payments.KindName(kind) + " payment via Chapa callback (tx_ref: " + p.id + ")",
                        OfPayment(|payments| - 1));
      var from := if m.nextDue.Some? then m.nextDue.value else clock;
      var due := DueDates.NextDue(from, DueDates.ReadFrequency(config.frequency), config.paymentDay);
      members := members[row := m.(status := Active, joinedAt := Payments.OrElse(m.joinedAt, clock),
                                   activatedAt := Payments.OrElse(m.activatedAt, clock), nextDue := Some(due))];
    }

    method HandleChapaCallback(id: Option<string>, status: Option<string>,
                               config: Config) returns (refusal: Option<Refusal>)
      modifies this`joins, this`payments, this`ledger, this`members
      ensures Payments.Callback(old(Snapshot()), id, status, config) == Effect(Snapshot(), refusal)
    {
      hide Payments.CompleteJoin, Payments.ReadNotice, Payments.FindByRef, Payments.FindJoin, Members.Find;
      if id.None? || id.value == "" { return Some(NotFound); }
      var found := Payments.FindJoin(joins, id.value);
      if found.None? { return Some(NotFound); }
      var j := found.value;
      var p := joins[j];
      if p.status != Open { return None; }
      var notice := Payments.ReadNotice(status);
      if notice.SaysSuccess? {
        var row := Members.Find(members, p.mahber, p.member);
        if row.None? { return Some(NotFound); }
        if Payments.FindByRef(payments, p.id).Some? { return Some(ReferenceTaken); }
        CompleteJoin(j, row.value, config);
      } else {
        joins := joins[j := p.(status := if notice.SaysExpired? then Lapsed else Lost)];
      }
      return None;
    }

    /** An administrator makes every active member's contribution due. */
    method InitiatePaymentRound(mahber: MahberId, dueDate: Option<Time>) returns (refusal: Option<Refusal>)
      modifies this`members
      ensures Payments.StartRound(old(Snapshot()), mahber, dueDate) == Effect(Snapshot(), refusal)
    {
      hide Members.ActiveRows;
      if Members.ActiveRows(members, mahber) == [] { return Some(NoMembers); }
      var due := if dueDate.Some? then dueDate.value else clock;
      for k := 0 to |members|
        invariant |members| == |old(members)|
        invariant forall i :: 0 <= i < |members| ==>
                    members[i] == if i < k && old(members)[i].mahber == mahber && old(members)[i].status == Active
                                  then old(members)[i].(nextDue := Some(due)) else old(members)[i]
      {
        if members[k].mahber == mahber && members[k].status == Active {
          members := members[k := members[k].(nextDue := Some(due))];
        }
      }
      assert members == Payments.StartRound(old(Snapshot()), mahber, dueDate).db.members;
      return None;
    }

    // ----- fines

    method ApplyFine(mahber: MahberId, member: UserId, violation: Violation, config: Config, description: string)
      modifies this`fines, this`ledger
      ensures Snapshot() == Fines.ApplyFine(old(Snapshot()), mahber, member, violation, config, description)
    {
      var amount := Fines.CalculateFine(config.penaltyRate, config.contributionAmount, config.penaltyMode);
      fines := fines + [Fine(mahber, member, violation, amount, false, None, None, clock)];
      CreateLedgerEntry(mahber, member, FineEntry, -amount, description, OfFine(|fines| - 1));
    }

    method WaiveFine(mahber: MahberId, fine: nat) returns (refusal: Option<Refusal>)
      modifies this`fines
      ensures Fines.Waive(old(Snapshot()), mahber, fine) == Effect(Snapshot(), refusal)
    {
      if fine >= |fines| || fines[fine].mahber != mahber { return Some(NotFound); }
      if fines[fine].waived { return Some(AlreadyWaived); }
      fines := fines[fine := fines[fine].(waived := true)];
      return None;
    }

    /** Sums the fines that count against the member and compares. */
    method HasUnpaidFinesExceedingThreshold(mahber: MahberId, member: UserId, threshold: Money) returns (exceeds: bool)
      ensures exceeds == Fines.ExceedsThreshold(fines, mahber, member, threshold)
    {
      var total := 0.0;
      for i := 0 to |fines|
        invariant total == Fines.FineTotal(fines[..i], mahber, member)
      {
        assert fines[..i + 1][..i] == fines[..i];
        if Fines.CountsAgainst(fines[i], mahber, member) {
          total := total + fines[i].amount;
        }
      }
      assert fines[..|fines|] == fines;
      return total > threshold;
    }

    /** What the daily job does for one active member: fine if due, then ban if over the cap. */
    method ProcessMember(row: nat, mahber: MahberId, config: Config, since: Time)
      requires row < |members|
      modifies this`members, this`fines, this`ledger
      ensures Snapshot() == Fines.FineMember(old(Snapshot()), row, mahber, config, since)
    {
      hide Fines.ApplyFine, Fines.PaidSince, Fines.LatestFine, Fines.ReadInterval, Fines.ExceedsThreshold,
        Fines.OverdueText;
      var member := members[row].member;
      if !Fines.PaidSince(ledger, mahber, member, since) {
        var existing := Fines.LatestFine(fines, mahber, member, since);
        if existing.None? || clock - existing.value >= Fines.ReadInterval(config.penaltyInterval) {
          ApplyFine(mahber, member, MissedPayment, config, Fines.OverdueText(config));
        }
      }
      assert Snapshot() == Fines.FineIfDue(old(Snapshot()), mahber, member, config, since);
      if config.maxFineTotal > 0.0 {
        var exceeds := HasUnpaidFinesExceedingThreshold(mahber, member, config.maxFineTotal);
        if exceeds {
          members := members[row := members[row].(status := Banned)];
        }
      }
    }

    /** One run of the daily fine job over a mahber; it may stop after `stop` members. */
    method ProcessMahber(mahber: MahberId, config: Config, stop: nat)
      modifies this`members, this`fines, this`ledger
      ensures Snapshot() == Fines.FineJob(old(Snapshot()), mahber, config, stop)
    {
      hide Fines.FineMember, Fines.Period, Members.ActiveRows;
      var since := clock - Fines.Period(config.frequency);
      var rows := Fines.Upto(Members.ActiveRows(members, mahber), stop);
      for i := 0 to |rows|
        invariant clock == old(clock) && |members| == |old(members)|
        invariant Snapshot() == Fines.FineMembers(old(Snapshot()), rows[..i], mahber, config, since)
      {
        assert rows[..i + 1][..i] == rows[..i];
        ProcessMember(rows[i], mahber, config, since);
      }
      assert rows[..|rows|] == rows;
    }

    /** The active members without a record. */
    method AbsentMembers(mahber: MahberId, attended: set<UserId>) returns (absent: seq<UserId>)
      ensures absent == Fines.Absent(members, mahber, attended)
    {
      absent := [];
      for k := 0 to |members|
        invariant absent == Fines.Absent(members[..k], mahber, attended)
      {
        assert members[..k + 1][..k] == members[..k];
        if members[k].mahber == mahber && members[k].status == Active && members[k].member !in attended {
          absent := absent + [members[k].member];
        }
      }
      assert members[..|members|] == members;
    }

    /** One run of the attendance job; it may stop after `stop` absentees. */
    method ProcessEventAttendance(mahber: MahberId, e: Fines.Event, attended: set<UserId>, config: Config, stop: nat)
      returns (finesApplied: nat)
      modifies this`fines, this`ledger
      ensures Snapshot() == Fines.AttendanceJob(old(Snapshot()), mahber, e, attended, config, stop)
      ensures |fines| == |old(fines)| + finesApplied
    {
      hide Fines.Absent, Fines.Mentions, Fines.AbsenceText, Fines.CalculateFine, Ledger.Post;
      finesApplied := 0;
      var absent := AbsentMembers(mahber, attended);
      if !e.mandatory || absent == [] { return; }
      var reached := Fines.Upto(absent, stop);
      for i := 0 to |reached|
        invariant members == old(members)
        invariant Snapshot() == Fines.FineAbsentees(old(Snapshot()), reached[..i], mahber, e, config)
        invariant |fines| == |old(fines)| + finesApplied
      {
        assert reached[..i + 1][..i] == reached[..i];
        var alreadyFined := Fines.Mentions(ledger, mahber, reached[i], e.id);
        if !alreadyFined {
          ApplyFine(mahber, reached[i], MissedAttendance, config, Fines.AbsenceText(e));
          finesApplied := finesApplied + 1;
        }
      }
      assert reached[..|reached|] == reached;
    }

    // ----- lottery

    /** Members who have not contributed since the date, among the active. */
    method UnpaidSince(mahber: MahberId, since: Time) returns (unpaid: seq<UserId>)
      ensures forall u :: u in unpaid <==>
                && Spending.IsActiveMember(members, mahber, u)
                && forall k :: 0 <= k < |payments| && payments[k].mahber == mahber && payments[k].member == u
                               && payments[k].kind == Contribution && payments[k].status == Completed ==>
                     payments[k].createdAt < since
      ensures unpaid == [] <==> Lottery.AllPaid(Snapshot(), mahber, since)
    {
      unpaid := [];
      var active := Members.ActiveRows(members, mahber);
      for i := 0 to |active|
        invariant forall u :: u in unpaid <==>
                    exists j :: 0 <= j < i && members[active[j]].member == u
                                && !Lottery.HasPaid(payments, mahber, u, since)
      {
        var paid := Lottery.HasPaid(payments, mahber, members[active[i]].member, since);
        if !paid {
          unpaid := unpaid + [members[active[i]].member];
        }
      }
      forall k | 0 <= k < |members| && members[k].mahber == mahber && members[k].status == Active
        ensures k in active
      {
        Members.ActiveRowsComplete(members, mahber, k);
      }
      forall u
        ensures Lottery.HasPaid(payments, mahber, u, since) <==>
                exists k :: 0 <= k < |payments| && payments[k].mahber == mahber && payments[k].member == u
                  && payments[k].kind == Contribution && payments[k].status == Completed
                  && payments[k].createdAt >= since
      {
        LotteryTheorems.HasPaidExactly(payments, mahber, u, since);
      }
      if unpaid != [] {
        assert unpaid[0] in unpaid;
      }
    }

    method EligibleMembers(mahber: MahberId, threshold: Money) returns (eligible: seq<UserId>)
      ensures eligible == Lottery.Eligible(Snapshot(), mahber, threshold, |members|)
    {
      eligible := [];
      for k := 0 to |members|
        invariant eligible == Lottery.Eligible(Snapshot(), mahber, threshold, k)
      {
        var m := members[k];
        if m.mahber == mahber && m.status == Active && !m.hasWon {
          var ineligible := HasUnpaidFinesExceedingThreshold(mahber, m.member, threshold);
          if !ineligible {
            eligible := eligible + [m.member];
          }
        }
      }
    }

    /** The transaction that records the draw, pays the winner and marks them. */
    method RecordDraw(mahber: MahberId, eligible: seq<UserId>, winner: UserId, payout: Money, seed: nat, id: string)
      modifies this`draws, this`ledger, this`expenses, this`members
      ensures Snapshot() == Lottery.Award(old(Snapshot()), mahber, eligible, winner, payout, seed, id)
    {
      hide Ledger.Post, Lottery.MarkWinner;
      draws := draws + [Draw(id, mahber, winner, eligible, seed, payout, clock)];
      CreateLedgerEntry(mahber, winner, EqubPayoutEntry, -payout, "Equb payout from lottery draw " + id,
                        OfDraw(|draws| - 1));
      expenses := expenses + [Expense(mahber, payout, "Equb lottery payout to " + winner + " (draw " + id + ")",
                                      "Equb_Payout", Paid, NoCode)];
      members := Lottery.MarkWinner(members, mahber, winner);
    }

    method ExecuteLottery(mahber: MahberId, mahberCreated: Time, rate: Money, threshold: Money, seed: nat, id: string)
      returns (refusal: Option<Refusal>)
      modifies this`draws, this`ledger, this`expenses, this`members
      ensures Lottery.ExecuteDraw(old(Snapshot()), mahber, mahberCreated, rate, threshold, seed, id) ==
              Effect(Snapshot(), refusal)
    {
      hide Lottery.Award, Lottery.AllPaid, Lottery.Eligible, Lottery.LastDraw, Members.ActiveRows, Ledger.Pool;
      if Members.ActiveRows(members, mahber) == [] { return Some(NoMembers); }
      var last := Lottery.LastDraw(draws, mahber);
      var unpaid := UnpaidSince(mahber, if last.Some? then last.value else mahberCreated);
      if unpaid != [] { return Some(NotPaidUp); }
      var eligible := EligibleMembers(mahber, threshold);
      if eligible == [] { return Some(NobodyEligible); }
      var winner := eligible[seed % |eligible|];
      var balance := Ledger.Pool(ledger, mahber);
      if balance <= 0.0 { return Some(InsufficientBalance); }
      var operationalCost := balance * rate / 100.0;
      var payout := balance - operationalCost;
      assert payout == Lottery.PayoutAmount(balance, rate);
      hide Lottery.PayoutAmount;
      if payout <= 0.0 { return Some(RateTooHigh); }
      RecordDraw(mahber, eligible, winner, payout, seed, id);
      return None;
    }

    // ----- spending

    method CreateExpense(mahber: MahberId, amount: Money, reason: string, category: string, bankCode: BankCode)
      modifies this`expenses
      ensures Snapshot() == Spending.CreateExpense(old(Snapshot()), mahber, amount, reason, category, bankCode)
    {
      expenses := expenses + [Expense(mahber, amount, reason, category, Awaiting, bankCode)];
    }

    method ApproveExpense(expense: nat, mahber: MahberId, approver: UserId,
                          gatewayUp: bool) returns (refusal: Option<Refusal>)
      modifies this`expenses, this`ledger
      ensures Spending.ApproveExpense(old(Snapshot()), expense, mahber, approver, gatewayUp) ==
              Effect(Snapshot(), refusal)
    {
      if expense >= |expenses| || expenses[expense].mahber != mahber { return Some(NotFound); }
      var e := expenses[expense];
      if e.status != Awaiting { return Some(NotPending); }
      if Ledger.Pool(ledger, mahber) < e.amount { return Some(InsufficientBalance); }
      if e.bankCode.NoCode? { return Some(NoBankCode); }
      if e.bankCode.BadCode? { return Some(InvalidBankCode); }
      if !gatewayUp { return Some(GatewayDown); }
      expenses := expenses[expense := e.(status := Paid)];
      CreateLedgerEntry(mahber, approver, ExpenseEntry, -e.amount, "Expense: " + e.reason + " (" + e.category + ")",
                        OfExpense(expense));
      return None;
    }

    method RejectExpense(expense: nat, mahber: MahberId) returns (refusal: Option<Refusal>)
      modifies this`expenses
      ensures Spending.RejectExpense(old(Snapshot()), expense, mahber) == Effect(Snapshot(), refusal)
    {
      if expense >= |expenses| || expenses[expense].mahber != mahber { return Some(NotFound); }
      if expenses[expense].status != Awaiting { return Some(NotPending); }
      expenses := expenses[expense := expenses[expense].(status := Declined)];
      return None;
    }

    method CreatePayout(mahber: MahberId, member: UserId, amount: Money, category: PayoutCategory, reason: string)
      returns (refusal: Option<Refusal>)
      modifies this`payouts, this`ledger
      ensures Spending.CreatePayout(old(Snapshot()), mahber, member, amount, category, reason) ==
              Effect(Snapshot(), refusal)
    {
      if !Spending.IsActiveMember(members, mahber, member) { return Some(NotActive); }
      if Ledger.Pool(ledger, mahber) < amount { return Some(InsufficientBalance); }
      payouts := payouts + [Payout(mahber, member, amount, category, reason)];
      var kind := if category.IddirBenefit? then IddirPayoutEntry else PayoutEntry;
      CreateLedgerEntry(mahber, member, kind, amount,
                        "Payout: " + reason + " (" + Spending.CategoryName(category) + ")", OfPayout(|payouts| - 1));
      return None;
    }

    // ----- any call

    /** Memberships made by other services. */
    method Admit(mahber: MahberId, member: UserId, status: MembershipStatus, nextDue: Option<Time>)
      modifies this`members
      ensures Snapshot() == AdmitMember(old(Snapshot()), mahber, member, status, nextDue)
    {
      if Members.Find(members, mahber, member).None? {
        members := members + [Membership(mahber, member, status, nextDue, false, None, None)];
      }
    }

    /** Statuses set by other services. */
    method ChangeStatus(mahber: MahberId, member: UserId, status: MembershipStatus)
      modifies this`members
      ensures Snapshot() == SetStatus(old(Snapshot()), mahber, member, status)
    {
      var row := Members.Find(members, mahber, member);
      if row.Some? {
        members := members[row.value := members[row.value].(status := status)];
      }
    }

    /** Takes any call of the state machine to the service that answers it. */
    method Perform(op: Op) returns (refusal: Option<Refusal>)
      modifies this
      ensures Apply(old(Snapshot()), op) == Effect(Snapshot(), refusal)
    {
      hide Payments.Join, Payments.Initiate, Payments.Webhook, Payments.Retry, Payments.Callback, Payments.StartRound,
        Fines.FineJob, Fines.AttendanceJob, Fines.Waive, Lottery.ExecuteDraw, AdmitMember, SetStatus,
        Spending.CreateExpense, Spending.ApproveExpense, Spending.RejectExpense, Spending.CreatePayout;
      refusal := None;
      match op
      case Admit(mahber, member, status, nextDue) => Admit(mahber, member, status, nextDue);
      case ChangeStatus(mahber, member, status) => ChangeStatus(mahber, member, status);
      case Join(mahber, member, isPublic, config, id, up) => refusal := JoinMahber(mahber, member, isPublic, config,
                                                                                   id, up);
      case Initiate(mahber, member, config, wanted, txRef, up) =>
        refusal := InitiatePayment(mahber, member, config, wanted, txRef, up);
      case Webhook(ref, notice) => refusal := ProcessWebhook(ref, notice);
      case Retry(mahber, payment, member, txRef, up) => refusal := RetryPayment(mahber, payment, member, txRef, up);
      case Callback(ref, notice, config) => refusal := HandleChapaCallback(ref, notice, config);
      case StartRound(mahber, dueDate) => refusal := InitiatePaymentRound(mahber, dueDate);
      case Waive(mahber, fine) => refusal := WaiveFine(mahber, fine);
      case FineJob(mahber, config, stop) => ProcessMahber(mahber, config, stop);
      case AttendanceJob(mahber, event, attended, config, stop) =>
        var finesApplied := ProcessEventAttendance(mahber, event, attended, config, stop);
      case ExecuteDraw(mahber, created, rate, threshold, seed, id) =>
        refusal := ExecuteLottery(mahber, created, rate, threshold, seed, id);
      case CreateExpense(mahber, amount, reason, category, bankCode) => CreateExpense(mahber, amount, reason, category,
                                                                                      bankCode);
      case ApproveExpense(expense, mahber, approver, up) => refusal := ApproveExpense(expense, mahber, approver, up);
      case RejectExpense(expense, mahber) => refusal := RejectExpense(expense, mahber);
      case CreatePayout(mahber, member, amount, purpose, reason) => refusal := CreatePayout(mahber, member, amount,
                                                                                            purpose, reason);
    }

    /**
     A whole run on the one mutable store ends in the state the machine's run ends in, so
     every theorem about runs is a theorem about this object; its books are kept throughout.
     */
    method Serve(ticks: seq<Tick>)
      requires MoneyInvariants.Inv(Snapshot())
      modifies this
      ensures Snapshot() == Run(old(Snapshot()), ticks)
      ensures MoneyInvariants.Inv(Snapshot()) && MoneyInvariants.Grows(old(Snapshot()), Snapshot())
    {
      hide MoneyInvariants.Inv, MoneyInvariants.Grows, Apply;
      for i := 0 to |ticks|
        invariant Snapshot() == Run(old(Snapshot()), ticks[..i])
      {
        assert ticks[..i + 1][..i] == ticks[..i];
        Wait(ticks[i].wait);
        var refusal := Perform(ticks[i].op);
      }
      assert ticks[..|ticks|] == ticks;
      MoneyInvariants.RunKeepsAll(old(Snapshot()), ticks);
    }
  }
}
