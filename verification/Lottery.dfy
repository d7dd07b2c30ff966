/** The Equb lottery draw. */
module Lottery {
  import opened Wrappers
  import opened MoneyRecords
  import Ledger
  import Members
  import Fines

  /** The time of the mahber's latest draw. */
  function LastDraw(draws: seq<Draw>, mahber: MahberId): (r: Option<Time>)
    ensures r.None? ==> forall i :: 0 <= i < |draws| ==> draws[i].mahber != mahber
    ensures r.Some? ==> forall i :: 0 <= i < |draws| && draws[i].mahber == mahber ==> draws[i].createdAt <= r.value
    ensures r.Some? ==> exists i :: 0 <= i < |draws| && draws[i].mahber == mahber && draws[i].createdAt == r.value
  {
    if draws == [] then None
    else
      var n := |draws| - 1;
      var before := LastDraw(draws[..n], mahber);
      if draws[n].mahber == mahber && (before.None? || draws[n].createdAt >= before.value)
      then Some(draws[n].createdAt) else before
  }

  /** A completed contribution of the member, created since the given time. */
  predicate Qualifies(p: Payment, mahber: MahberId, member: UserId, since: Time) {
    p.mahber == mahber && p.member == member && p.kind == Contribution && p.status == Completed && p.createdAt >= since
  }

  predicate HasPaid(payments: seq<Payment>, mahber: MahberId, member: UserId, since: Time) {
    exists i :: 0 <= i < |payments| && Qualifies(payments[i], mahber, member, since)
  }

  predicate AllPaid(db: Db, mahber: MahberId, since: Time) {
    forall i :: 0 <= i < |db.members| && db.members[i].mahber == mahber && db.members[i].status == Active ==>
      HasPaid(db.payments, mahber, db.members[i].member, since)
  }

  predicate IsEligible(db: Db, i: nat, mahber: MahberId, threshold: Money)
    requires i < |db.members|
  {
    var m := db.members[i];
    m.mahber == mahber && m.status == Active && !m.hasWon
      && !Fines.ExceedsThreshold(db.fines, mahber, m.member, threshold)
  }

  /** Active members who have not won and are within the fine threshold, in table order; first `k` rows only. */
  function Eligible(db: Db, mahber: MahberId, threshold: Money, k: nat): seq<UserId>
    requires k <= |db.members|
  {
    if k == 0 then []
    else Eligible(db, mahber, threshold, k - 1) +
         (if IsEligible(db, k - 1, mahber, threshold) then [db.members[k - 1].member] else [])
  }

  function MarkWinner(members: seq<Membership>, mahber: MahberId, winner: UserId): (r: seq<Membership>)
    ensures |r| == |members|
    ensures forall i :: 0 <= i < |r| ==>
              r[i] == if Members.IsRow(members[i], mahber, winner) then members[i].(hasWon := true) else members[i]
  {
    seq(|members|, i requires 0 <= i < |members| =>
      if Members.IsRow(members[i], mahber, winner) then members[i].(hasWon := true) else members[i])
  }

  function PayoutAmount(balance: Money, rate: Money): Money {
    balance - balance * rate / 100.0
  }

  /** The transaction that records a draw. */
  function Award(db: Db, mahber: MahberId, eligible: seq<UserId>, winner: UserId, payout: Money, seed: nat,
                 id: string): Db {
    db.(draws := db.draws + [Draw(id, mahber, winner, eligible, seed, payout, db.clock)],
        ledger := Ledger.Post(db.ledger, db.clock, mahber, winner, EqubPayoutEntry, -payout,
                              "Equb payout from lottery draw " + id, OfDraw(|db.draws|)),
        expenses := db.expenses + [Expense(mahber, payout, "Equb lottery payout to " + winner + " (draw " + id + ")",
                                           "Equb_Payout", Paid, NoCode)],
        members := MarkWinner(db.members, mahber, winner))
  }

  /** `since` is the time of the last draw, or of the mahber's creation before the first. */
  function ExecuteDraw(db: Db, mahber: MahberId, mahberCreated: Time, rate: Money, threshold: Money, seed: nat,
                       id: string): Effect {
    if Members.ActiveRows(db.members, mahber) == [] then Effect(db, Some(NoMembers))
    else
      var last := LastDraw(db.draws, mahber);
      var since := if last.Some? then last.value else mahberCreated;
      if !AllPaid(db, mahber, since) then Effect(db, Some(NotPaidUp))
      else
        var eligible := Eligible(db, mahber, threshold, |db.members|);
        if eligible == [] then Effect(db, Some(NobodyEligible))
        else
          var winner := eligible[seed % |eligible|];
          var balance := Ledger.Pool(db.ledger, mahber);
          if balance <= 0.0 then Effect(db, Some(InsufficientBalance))
          else
            var payout := PayoutAmount(balance, rate);
            if payout <= 0.0 then Effect(db, Some(RateTooHigh))
            else Effect(Award(db, mahber, eligible, winner, payout, seed, id), None)
  }
}
