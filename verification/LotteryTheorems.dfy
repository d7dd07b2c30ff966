/** The lottery over whole runs: who can win, how often, who has paid, and how fair the choice is. */
module LotteryTheorems {
  import opened Wrappers
  import opened MoneyRecords
  import opened MoneyMachine
  import opened MoneyChanges
  import opened MoneyInvariants
  import Ledger
  import Members
  import Fines
  import Lottery
  import Spending
  import PoolTheorems

  // ----- winners

  ghost function DrawsOf(draws: seq<Draw>, mahber: MahberId): set<nat> {
    set i: nat | i < |draws| && draws[i].mahber == mahber
  }

  ghost function RowsOf(members: seq<Membership>, mahber: MahberId): set<nat> {
    set i: nat | i < |members| && members[i].mahber == mahber
  }

  /** If every number has a partner and no two share one, there are at least as many partners. */
  lemma {:induction false} Pigeonhole(xs: set<nat>, ys: set<nat>, partner: map<nat, nat>)
    requires forall x :: x in xs ==> x in partner && partner[x] in ys
    requires forall x, x' :: x in xs && x' in xs && x != x' ==> partner[x] != partner[x']
    ensures |xs| <= |ys|
  {
    if xs != {} {
      var x :| x in xs;
      Pigeonhole(xs - {x}, ys - {partner[x]}, partner);
    }
  }

  /**
   No winner wins twice, over any run: winners of a mahber's draws are pairwise different,
   so a mahber never holds more draws than it has members; the cycle is never started anew.
   */
  lemma WinnersAreDifferent(clock: Time, ticks: seq<Tick>, mahber: MahberId)
    ensures var db := Run(EmptyDb(clock), ticks);
            && (forall i, j :: 0 <= i < j < |db.draws| && db.draws[i].mahber == db.draws[j].mahber ==>
                  db.draws[i].winner != db.draws[j].winner)
            && |DrawsOf(db.draws, mahber)| <= |RowsOf(db.members, mahber)|
  {
    hide Run, Grows, Dated, Ledger.LedgerOk, Booked, FinesBooked;
    EmptyIsFine(clock);
    RunKeepsAll(EmptyDb(clock), ticks);
    var db := Run(EmptyDb(clock), ticks);
    DrawsNeedMembers(db.members, db.draws, mahber);
  }

  lemma DrawsNeedMembers(members: seq<Membership>, draws: seq<Draw>, mahber: MahberId)
    requires WinnersOk(members, draws)
    ensures |DrawsOf(draws, mahber)| <= |RowsOf(members, mahber)|
  {
    forall d | d in DrawsOf(draws, mahber)
      ensures Members.Find(members, mahber, draws[d].winner).Some?
      ensures Members.Find(members, mahber, draws[d].winner).value in RowsOf(members, mahber)
    {
      assert HasWonRow(members, draws[d].mahber, draws[d].winner);
    }
    var partner := map d | d in DrawsOf(draws, mahber) :: Members.Find(members, mahber, draws[d].winner).value;
    forall d, e | d in DrawsOf(draws, mahber) && e in DrawsOf(draws, mahber)
      && d != e ensures partner[d] != partner[e] {
      assert draws[d].winner != draws[e].winner by {
        assert d < e || e < d;
      }
    }
    Pigeonhole(DrawsOf(draws, mahber), RowsOf(members, mahber), partner);
  }

  // ----- every draw was paid for

  /** The call draws the mahber's lottery and is not refused. */
  predicate DrawsNow(db: Db, t: Tick, mahber: MahberId) {
    t.op.ExecuteDraw? && t.op.mahber == mahber && Apply(At(db, t), t.op).refusal.None?
  }

  /** The draws of a run that found the member active. */
  function DrawsWhileActive(db: Db, ticks: seq<Tick>, mahber: MahberId, member: UserId): nat {
    if ticks == [] then 0
    else
      var n := |ticks| - 1;
      var before := Run(db, ticks[..n]);
      DrawsWhileActive(db, ticks[..n], mahber, member) +
      (if DrawsNow(before, ticks[n], mahber) && Spending.IsActiveMember(before.members, mahber, member) then 1 else 0)
  }

  predicate IsContribution(p: Payment, mahber: MahberId, member: UserId) {
    p.mahber == mahber && p.member == member && p.kind == Contribution && p.status == Completed
  }

  /** The member's completed contributions. */
  ghost function Contributions(payments: seq<Payment>, mahber: MahberId, member: UserId): set<nat> {
    set i: nat | i < |payments| && IsContribution(payments[i], mahber, member)
  }

  /** Contributions made by the latest draw: those that draws so far could count. */
  ghost function Counted(payments: seq<Payment>, draws: seq<Draw>, mahber: MahberId, member: UserId): set<nat> {
    var last := Lottery.LastDraw(draws, mahber);
    set i: nat | i < |payments| && IsContribution(payments[i], mahber, member)
                 && last.Some? && payments[i].createdAt <= last.value
  }

  /** The member has contributed nothing since the latest draw, not counting its own moment. */
  predicate NothingSince(payments: seq<Payment>, draws: seq<Draw>, mahber: MahberId, member: UserId) {
    var last := Lottery.LastDraw(draws, mahber);
    last.Some? && forall i :: 0 <= i < |payments| && IsContribution(payments[i], mahber, member) ==>
                     payments[i].createdAt <= last.value
  }

  /** The draws of a run that found the member active although nothing was contributed since the draw before. */
  function DrawsReusing(db: Db, ticks: seq<Tick>, mahber: MahberId, member: UserId): nat {
    if ticks == [] then 0
    else
      var n := |ticks| - 1;
      var before := Run(db, ticks[..n]);
      DrawsReusing(db, ticks[..n], mahber, member) +
      (if DrawsNow(before, ticks[n], mahber) && Spending.IsActiveMember(before.members, mahber, member)
          && NothingSince(before.payments, before.draws, mahber, member) then 1 else 0)
  }

  /** None of the member's contributions was made at the very moment of a draw of the mahber. */
  ghost predicate NoTies(payments: seq<Payment>, draws: seq<Draw>, mahber: MahberId, member: UserId) {
    forall i, j :: 0 <= i < |payments| && IsContribution(payments[i], mahber, member)
                   && 0 <= j < |draws| && draws[j].mahber == mahber ==>
      payments[i].createdAt != draws[j].createdAt
  }

  /** Contributions stay, and so does having been made by the latest draw. */
  lemma CountedGrows(before: Db, after: Db, mahber: MahberId, member: UserId)
    requires Grows(before, after)
    ensures Counted(before.payments, before.draws, mahber, member)
            <= Counted(after.payments, after.draws, mahber, member)
  {
    hide MembersGrow, FinesGrow;
    LastDrawGrows(before.draws, after.draws, mahber);
  }

  lemma LastDrawGrows(before: seq<Draw>, after: seq<Draw>, mahber: MahberId)
    requires before <= after
    ensures var last := Lottery.LastDraw(before, mahber);
            last.Some? ==> Lottery.LastDraw(after, mahber).Some? && Lottery.LastDraw(after, mahber).value >= last.value
  {
    var last := Lottery.LastDraw(before, mahber);
    if last.Some? {
      var i :| 0 <= i < |before| && before[i].mahber == mahber && before[i].createdAt == last.value;
      assert after[i] == before[i];
    }
  }

  /** What a draw that goes through found and leaves behind. */
  lemma DrawFacts(db: Db, op: Op)
    requires op.ExecuteDraw? && Apply(db, op).refusal.None?
    ensures var after := Apply(db, op).db;
            var last := Lottery.LastDraw(db.draws, op.mahber);
            && Lottery.AllPaid(db, op.mahber, if last.Some? then last.value else op.mahberCreated)
            && after.payments == db.payments && |after.draws| == |db.draws| + 1 && db.draws <= after.draws
            && after.draws[|db.draws|].mahber == op.mahber && after.draws[|db.draws|].createdAt == db.clock
  {
    hide Ledger.Post, Ledger.Pool, Lottery.Eligible, Lottery.AllPaid, Lottery.MarkWinner;
  }

  /** An active member's contribution that lets a draw through. */
  lemma DrawFindsContribution(db: Db, t: Tick, mahber: MahberId, member: UserId) returns (i: nat)
    requires DrawsNow(db, t, mahber) && Spending.IsActiveMember(db.members, mahber, member)
    ensures i < |db.payments| && IsContribution(db.payments[i], mahber, member)
    ensures var last := Lottery.LastDraw(db.draws, mahber); last.Some? ==> db.payments[i].createdAt >= last.value
  {
    hide Apply;
    var now := At(db, t);
    DrawFacts(now, t.op);
    var last := Lottery.LastDraw(db.draws, mahber);
    var since := if last.Some? then last.value else t.op.mahberCreated;
    var k :| 0 <= k < |db.members| && Members.IsRow(db.members[k], mahber, member) && db.members[k].status == Active;
    assert Lottery.HasPaid(now.payments, mahber, now.members[k].member, since);
    i :| i < |now.payments| && Lottery.Qualifies(now.payments[i], mahber, member, since);
  }

  /** A draw makes everything contributed so far counted. */
  lemma AllCountedNow(db: Db, t: Tick, mahber: MahberId, member: UserId)
    requires Inv(db) && DrawsNow(db, t, mahber)
    ensures Contributions(db.payments, mahber, member) <= Counted(Do(db, t).payments, Do(db, t).draws, mahber, member)
  {
    hide Apply, Grows, Ledger.LedgerOk, Booked, FinesBooked, WinnersOk, JoinsBooked;
    DoKeepsAll(db, t);
    DrawFacts(At(db, t), t.op);
    var after := Do(db, t);
    assert after.draws[|db.draws|].mahber == mahber && after.draws[|db.draws|].createdAt == after.clock by {
      DoKeepsClock(db, t);
    }
    assert Lottery.LastDraw(after.draws, mahber).Some?;
    assert Dated(db);
  }

  lemma DoKeepsClock(db: Db, t: Tick)
    requires t.op.ExecuteDraw?
    ensures Do(db, t).clock == At(db, t).clock
  {
    hide Ledger.Post, Ledger.Pool, Lottery.Eligible, Lottery.AllPaid, Lottery.MarkWinner, Lottery.PayoutAmount;
  }

  /** Unless it reuses, a draw needs a contribution that no earlier draw could count. */
  lemma DrawCountsAnother(db: Db, t: Tick, mahber: MahberId, member: UserId)
    requires Inv(db) && DrawsNow(db, t, mahber) && Spending.IsActiveMember(db.members, mahber, member)
    requires !NothingSince(db.payments, db.draws, mahber, member)
    ensures |Counted(Do(db, t).payments, Do(db, t).draws, mahber, member)|
            >= |Counted(db.payments, db.draws, mahber, member)| + 1
  {
    hide Do, Inv, Grows, DrawsNow, Spending.IsActiveMember;
    AllCountedNow(db, t, mahber, member);
    var i := DrawFindsContribution(db, t, mahber, member);
    var last := Lottery.LastDraw(db.draws, mahber);
    if last.Some? {
      i :| 0 <= i < |db.payments| && IsContribution(db.payments[i], mahber, member)
           && db.payments[i].createdAt > last.value;
    }
    assert i in Contributions(db.payments, mahber, member) && i !in Counted(db.payments, db.draws, mahber, member);
    var after := Do(db, t);
    CountedGrows(db, after, mahber, member) by {
      DoKeepsAll(db, t);
    }
    AddsOne(Counted(db.payments, db.draws, mahber, member), Counted(after.payments, after.draws, mahber, member), i);
  }

  /** A draw reuses only contributions made at the very moment of the draw before. */
  lemma ReuseNeedsTie(db: Db, t: Tick, mahber: MahberId, member: UserId)
    requires DrawsNow(db, t, mahber) && Spending.IsActiveMember(db.members, mahber, member)
    requires NothingSince(db.payments, db.draws, mahber, member)
    ensures !NoTies(db.payments, db.draws, mahber, member)
  {
    hide DrawsNow, Spending.IsActiveMember;
    var i := DrawFindsContribution(db, t, mahber, member);
    var last := Lottery.LastDraw(db.draws, mahber);
    var j :| 0 <= j < |db.draws| && db.draws[j].mahber == mahber && db.draws[j].createdAt == last.value;
    assert db.payments[i].createdAt == db.draws[j].createdAt;
  }

  lemma AddsOne(before: set<nat>, after: set<nat>, x: nat)
    requires before <= after && x in after && x !in before
    ensures |after| >= |before| + 1
  {
    SubsetIsSmaller(before + {x}, after);
  }

  lemma {:induction false} SubsetIsSmaller(a: set<nat>, b: set<nat>)
    requires a <= b
    ensures |a| <= |b|
  {
    if a != {} {
      var x :| x in a;
      SubsetIsSmaller(a - {x}, b - {x});
    }
  }

  lemma NoTiesBefore(before: Db, after: Db, mahber: MahberId, member: UserId)
    requires Grows(before, after) && NoTies(after.payments, after.draws, mahber, member)
    ensures NoTies(before.payments, before.draws, mahber, member)
  {
    hide MembersGrow, FinesGrow;
    forall i, j | 0 <= i < |before.payments| && IsContribution(before.payments[i], mahber, member)
                  && 0 <= j < |before.draws| && before.draws[j].mahber == mahber
      ensures before.payments[i].createdAt != before.draws[j].createdAt
    {
      assert after.payments[i] == before.payments[i];
      assert after.draws[j] == before.draws[j];
    }
  }

  lemma {:induction false} CountedCoversDraws(db: Db, ticks: seq<Tick>, mahber: MahberId, member: UserId)
    requires Inv(db)
    ensures var after := Run(db, ticks);
            |Counted(after.payments, after.draws, mahber, member)| + DrawsReusing(db, ticks, mahber, member)
            >= DrawsWhileActive(db, ticks, mahber, member)
  {
    hide Inv, Do, Grows, DrawsNow, Counted, NothingSince, Spending.IsActiveMember;
    if ticks != [] {
      var n := |ticks| - 1;
      var before, after := Run(db, ticks[..n]), Run(db, ticks);
      RunKeepsAll(db, ticks[..n]);
      DoKeepsAll(before, ticks[n]);
      CountedCoversDraws(db, ticks[..n], mahber, member);
      CountedGrows(before, after, mahber, member);
      SubsetIsSmaller(Counted(before.payments, before.draws, mahber, member),
                      Counted(after.payments, after.draws, mahber, member));
      if DrawsNow(before, ticks[n], mahber) && Spending.IsActiveMember(before.members, mahber, member)
         && !NothingSince(before.payments, before.draws, mahber, member) {
        DrawCountsAnother(before, ticks[n], mahber, member);
      }
    }
  }

  lemma {:induction false} NoTiesNoReuse(db: Db, ticks: seq<Tick>, mahber: MahberId, member: UserId)
    requires Inv(db) && NoTies(Run(db, ticks).payments, Run(db, ticks).draws, mahber, member)
    ensures DrawsReusing(db, ticks, mahber, member) == 0
  {
    hide Inv, Do, Grows, DrawsNow, NoTies, NothingSince, Spending.IsActiveMember;
    if ticks != [] {
      var n := |ticks| - 1;
      var before := Run(db, ticks[..n]);
      RunKeepsAll(db, ticks[..n]);
      DoKeepsAll(before, ticks[n]);
      NoTiesBefore(before, Run(db, ticks), mahber, member);
      NoTiesNoReuse(db, ticks[..n], mahber, member);
      if DrawsNow(before, ticks[n], mahber) && Spending.IsActiveMember(before.members, mahber, member)
         && NothingSince(before.payments, before.draws, mahber, member) {
        ReuseNeedsTie(before, ticks[n], mahber, member);
      }
    }
  }

  /**
   One contribution for each draw: over any run, a member who was active at k draws has at
   least k different completed contributions, less one for each draw that found nothing new
   and went through on contributions made at the very moment of the draw before. If none of
   the member's contributions was made at such a moment, no payment counts towards two draws.
   */
  lemma EveryDrawIsPaidFor(clock: Time, ticks: seq<Tick>, mahber: MahberId, member: UserId)
    ensures var db := Run(EmptyDb(clock), ticks);
            var own := |Contributions(db.payments, mahber, member)|;
            && own + DrawsReusing(EmptyDb(clock), ticks, mahber, member)
               >= DrawsWhileActive(EmptyDb(clock), ticks, mahber, member)
            && (NoTies(db.payments, db.draws, mahber, member) ==>
                  own >= DrawsWhileActive(EmptyDb(clock), ticks, mahber, member))
  {
    hide Inv, Run, DrawsNow, NoTies, DrawsReusing;
    EmptyIsFine(clock);
    CountedCoversDraws(EmptyDb(clock), ticks, mahber, member);
    var db := Run(EmptyDb(clock), ticks);
    SubsetIsSmaller(Counted(db.payments, db.draws, mahber, member), Contributions(db.payments, mahber, member));
    if NoTies(db.payments, db.draws, mahber, member) {
      NoTiesNoReuse(EmptyDb(clock), ticks, mahber, member);
    }
  }

  // ----- who can win

  /** An active member who has not won and whose fines do not exceed the threshold. */
  predicate IsCandidate(m: Membership, fines: seq<Fine>, mahber: MahberId, threshold: Money) {
    m.mahber == mahber && m.status == Active && !m.hasWon && Fines.FineTotal(fines, mahber, m.member) <= threshold
  }

  /** The eligible list names exactly the active members who have not won and whose fines are within the threshold. */
  lemma {:induction false} EligibleExactly(db: Db, mahber: MahberId, threshold: Money, k: nat, u: UserId)
    requires k <= |db.members|
    ensures u in Lottery.Eligible(db, mahber, threshold, k) <==>
            exists i :: 0 <= i < k && IsCandidate(db.members[i], db.fines, mahber, threshold)
              && db.members[i].member == u
  {
    hide Fines.FineTotal;
    if k > 0 {
      EligibleExactly(db, mahber, threshold, k - 1, u);
    }
  }

  /** With one row for each user, nobody is listed twice. */
  lemma {:induction false} EligibleOnce(db: Db, mahber: MahberId, threshold: Money, k: nat)
    requires k <= |db.members| && Members.OneRowEach(db.members)
    ensures NoDup(Lottery.Eligible(db, mahber, threshold, k))
  {
    hide Fines.ExceedsThreshold;
    if k > 0 {
      EligibleOnce(db, mahber, threshold, k - 1);
      EligibleExactly(db, mahber, threshold, k - 1, db.members[k - 1].member);
    }
  }

  // ----- fairness

  /** How many of the seeds below `seeds` select position `i` of `n`. */
  function SeedsFor(seeds: nat, n: nat, i: nat): nat
    requires n > 0
  {
    if seeds == 0 then 0 else SeedsFor(seeds - 1, n, i) + (if (seeds - 1) % n == i then 1 else 0)
  }

  /** An even share of the seeds, and one of the odd ones for the first positions. */
  function Share(seeds: nat, n: nat, i: nat): nat
    requires n > 0
  {
    seeds / n + (if i < seeds % n then 1 else 0)
  }

  lemma NoShareYet(n: nat, i: nat)
    requires n > 0
    ensures Share(0, n, i) == 0
  {
    DivMod(0, n, 0, 0);
  }

  lemma ShareStep(s: nat, n: nat, i: nat)
    requires n > 0 && i < n
    ensures Share(s + 1, n, i) == Share(s, n, i) + (if s % n == i then 1 else 0)
  {
    NextQuotient(s, n);
  }

  lemma {:induction false} SeedsForExactly(seeds: nat, n: nat, i: nat)
    requires n > 0 && i < n
    ensures SeedsFor(seeds, n, i) == Share(seeds, n, i)
  {
    hide Share;
    if seeds == 0 {
      NoShareYet(n, i);
    } else {
      SeedsForExactly(seeds - 1, n, i);
      ShareStep(seeds - 1, n, i);
    }
  }

  lemma NextQuotient(s: nat, n: nat)
    requires n > 0
    ensures if s % n == n - 1 then (s + 1) / n == s / n + 1 && (s + 1) % n == 0
            else (s + 1) / n == s / n && (s + 1) % n == s % n + 1
  {
    var q, r := s / n, s % n;
    assert s == q * n + r;
    if r == n - 1 {
      assert s + 1 == (q + 1) * n;
      DivMod(s + 1, n, q + 1, 0);
    } else {
      DivMod(s + 1, n, q, r + 1);
    }
  }

  lemma DivMod(s: nat, n: nat, q: nat, r: nat)
    requires n > 0 && r < n && s == q * n + r
    ensures s / n == q && s % n == r
  {
    var q', r' := s / n, s % n;
    assert s == q' * n + r';
    MultiplesApart(q, q', n);
    MultiplesApart(q', q, n);
  }

  lemma {:induction false} MultiplesApart(a: nat, b: nat, n: nat)
    ensures a < b ==> a * n + n <= b * n
  {
    if a < b {
      MultiplesApart(a, b - 1, n);
      assert b * n == (b - 1) * n + n;
    }
  }

  /** How many of the seeds below `seeds` point at `u` in the list. */
  function SeedsAt(eligible: seq<UserId>, u: UserId, seeds: nat): nat
    requires eligible != []
  {
    if seeds == 0 then 0
    else SeedsAt(eligible, u, seeds - 1) + (if eligible[(seeds - 1) % |eligible|] == u then 1 else 0)
  }

  lemma {:induction false} SeedsAtPlace(eligible: seq<UserId>, i: nat, seeds: nat)
    requires NoDup(eligible) && i < |eligible|
    ensures SeedsAt(eligible, eligible[i], seeds) == Share(seeds, |eligible|, i)
  {
    SeedsForExactly(seeds, |eligible|, i);
    SeedsAtIsSeedsFor(eligible, i, seeds);
  }

  lemma {:induction false} SeedsAtIsSeedsFor(eligible: seq<UserId>, i: nat, seeds: nat)
    requires NoDup(eligible) && i < |eligible|
    ensures SeedsAt(eligible, eligible[i], seeds) == SeedsFor(seeds, |eligible|, i)
  {
    if seeds > 0 {
      SeedsAtIsSeedsFor(eligible, i, seeds - 1);
      var j := (seeds - 1) % |eligible|;
      assert eligible[j] == eligible[i] <==> j == i;
    }
  }

  lemma {:induction false} NoSeedsOutside(eligible: seq<UserId>, u: UserId, seeds: nat)
    requires eligible != [] && u !in eligible
    ensures SeedsAt(eligible, u, seeds) == 0
  {
    if seeds > 0 {
      NoSeedsOutside(eligible, u, seeds - 1);
    }
  }

  /** The arguments of a draw but its seed. */
  datatype Terms = Terms(mahber: MahberId, created: Time, rate: Money, threshold: Money, id: string)

  function Execute(db: Db, t: Terms, seed: nat): Effect {
    Lottery.ExecuteDraw(db, t.mahber, t.created, t.rate, t.threshold, seed, t.id)
  }

  /** How many of the seeds below `seeds` let `u` win the draw. */
  ghost function SeedsWonBy(db: Db, t: Terms, u: UserId, seeds: nat): nat {
    if seeds == 0 then 0
    else
      SeedsWonBy(db, t, u, seeds - 1) +
      (if WonBy(db, Execute(db, t, seeds - 1), u) then 1 else 0)
  }

  ghost predicate WonBy(db: Db, out: Effect, u: UserId) {
    out.refusal.None? && |out.db.draws| == |db.draws| + 1 && out.db.draws[|db.draws|].winner == u
  }

  /** Whether a draw goes through does not depend on the seed; who wins is the seed's place in the eligible list. */
  lemma SeedPicks(db: Db, t: Terms, seed: nat, other: nat)
    requires Execute(db, t, other).refusal.None?
    ensures var eligible := Lottery.Eligible(db, t.mahber, t.threshold, |db.members|);
            && eligible != [] && Execute(db, t, seed).refusal.None?
            && forall u :: WonBy(db, Execute(db, t, seed), u) <==> u == eligible[seed % |eligible|]
  {
    hide Ledger.Post, Ledger.Pool, Lottery.Eligible, Lottery.AllPaid, Lottery.MarkWinner;
  }

  lemma {:induction false} SeedsWonAreSeedsAt(db: Db, t: Terms, u: UserId, seeds: nat, other: nat)
    requires Execute(db, t, other).refusal.None?
    ensures var eligible := Lottery.Eligible(db, t.mahber, t.threshold, |db.members|);
            eligible != [] && SeedsWonBy(db, t, u, seeds) == SeedsAt(eligible, u, seeds)
  {
    hide Execute, WonBy, Lottery.Eligible;
    SeedPicks(db, t, 0, other);
    if seeds > 0 {
      SeedsWonAreSeedsAt(db, t, u, seeds - 1, other);
      SeedPicks(db, t, seeds - 1, other);
    }
  }

  ghost predicate MayWin(db: Db, t: Terms, u: UserId) {
    exists i :: 0 <= i < |db.members| && IsCandidate(db.members[i], db.fines, t.mahber, t.threshold)
                && db.members[i].member == u
  }

  /**
   Fairness: of a number of equally likely seeds, those that let one eligible member win and
   those that let another win differ by at most one, and they are equally many for everybody
   exactly when the seeds are a multiple of the eligible members. Nobody else ever wins.
   */
  lemma DrawIsFair(db: Db, t: Terms, seeds: nat, other: nat)
    requires Execute(db, t, other).refusal.None? && Members.OneRowEach(db.members)
    ensures forall u, v :: MayWin(db, t, u) && MayWin(db, t, v) ==>
              SeedsWonBy(db, t, u, seeds) <= SeedsWonBy(db, t, v, seeds) + 1
    ensures forall u :: !MayWin(db, t, u) ==> SeedsWonBy(db, t, u, seeds) == 0
    ensures var n := |Lottery.Eligible(db, t.mahber, t.threshold, |db.members|)|;
            && n > 0
            && ((forall u, v :: MayWin(db, t, u) && MayWin(db, t, v) ==>
                   SeedsWonBy(db, t, u, seeds) == SeedsWonBy(db, t, v, seeds))
                <==> seeds % n == 0)
  {
    hide Execute, Lottery.Eligible, SeedsWonBy, MayWin, SeedsAt, IsCandidate;
    var eligible := Lottery.Eligible(db, t.mahber, t.threshold, |db.members|);
    SeedsWonAreSeedsAt(db, t, "", seeds, other);
    EligibleOnce(db, t.mahber, t.threshold, |db.members|);
    forall u ensures MayWin(db, t, u) <==> u in eligible {
      MayWinIsListed(db, t, u);
    }
    forall i | 0 <= i < |eligible|
      ensures SeedsWonBy(db, t, eligible[i], seeds) == Share(seeds, |eligible|, i)
    {
      SeedsWonAreSeedsAt(db, t, eligible[i], seeds, other);
      SeedsAtPlace(eligible, i, seeds);
    }
    forall u | u !in eligible ensures SeedsWonBy(db, t, u, seeds) == 0 {
      SeedsWonAreSeedsAt(db, t, u, seeds, other);
      NoSeedsOutside(eligible, u, seeds);
    }
    if seeds % |eligible| != 0 {
      var first, last := eligible[0], eligible[|eligible| - 1];
      assert MayWin(db, t, first) && MayWin(db, t, last);
      assert SeedsWonBy(db, t, first, seeds) != SeedsWonBy(db, t, last, seeds);
    }
  }

  lemma MayWinIsListed(db: Db, t: Terms, u: UserId)
    ensures MayWin(db, t, u) <==> u in Lottery.Eligible(db, t.mahber, t.threshold, |db.members|)
  {
    hide Lottery.Eligible, IsCandidate;
    EligibleExactly(db, t.mahber, t.threshold, |db.members|, u);
  }

  // ----- seeds of 256 bits

  function Pow2(k: nat): nat {
    if k == 0 then 1 else 2 * Pow2(k - 1)
  }

  lemma DoubledHalves(q: nat, h: nat, r: nat)
    ensures 2 * (q * h + r) == q * (2 * h) + 2 * r
  {
  }

  lemma DoubledQuotient(q: nat, n: nat, r: nat)
    ensures 2 * (q * n + r) == (2 * q) * n + 2 * r == (2 * q + 1) * n + (2 * r - n)
  {
  }

  lemma HalveBoth(m: nat, h: nat)
    requires h > 0
    ensures (2 * m) % (2 * h) == 0 <==> m % h == 0
  {
    var q, r := m / h, m % h;
    DoubledHalves(q, h, r);
    DivMod(2 * m, 2 * h, q, 2 * r);
  }

  lemma OddKeepsOut(m: nat, n: nat)
    requires n % 2 == 1
    ensures (2 * m) % n == 0 <==> m % n == 0
  {
    var q, r := m / n, m % n;
    DoubledQuotient(q, n, r);
    if 2 * r < n {
      DivMod(2 * m, n, 2 * q, 2 * r);
    } else {
      DivMod(2 * m, n, 2 * q + 1, 2 * r - n);
    }
  }

  ghost predicate IsPow2(n: nat, k: nat) {
    exists j: nat :: j <= k && n == Pow2(j)
  }

  lemma OddPow2(n: nat, k: nat)
    requires n % 2 == 1
    ensures IsPow2(n, k) <==> n == 1
  {
    assert Pow2(0) == 1;
  }

  lemma EvenPow2(h: nat, k: nat)
    requires k > 0
    ensures IsPow2(2 * h, k) <==> IsPow2(h, k - 1)
  {
    if j: nat :| j <= k - 1 && h == Pow2(j) {
      assert 2 * h == Pow2(j + 1);
    }
    if j: nat :| j <= k && 2 * h == Pow2(j) {
      assert j > 0 && h == Pow2(j - 1);
    }
  }

  lemma DivisorOfOne(n: nat)
    requires n > 0
    ensures 1 % n == 0 <==> n == 1
  {
    if n > 1 {
      DivMod(1, n, 0, 1);
    }
  }

  lemma OnlyOneBelowTwo(n: nat)
    ensures IsPow2(n, 0) <==> n == 1
  {
    assert Pow2(0) == 1;
  }

  /** The divisors of a power of two are the smaller powers of two. */
  lemma {:induction false} DivisorsOfPow2(k: nat, n: nat)
    requires n > 0
    ensures Pow2(k) % n == 0 <==> IsPow2(n, k)
  {
    hide IsPow2;
    if k == 0 {
      DivisorOfOne(n);
      OnlyOneBelowTwo(n);
    } else if n % 2 == 1 {
      OddKeepsOut(Pow2(k - 1), n);
      DivisorsOfPow2(k - 1, n);
      OddPow2(n, k - 1);
      OddPow2(n, k);
    } else {
      HalveBoth(Pow2(k - 1), n / 2);
      DivisorsOfPow2(k - 1, n / 2);
      EvenPow2(n / 2, k);
    }
  }

  /**
   The seeds are the numbers of 256 bits, so all eligible members have the same chance
   exactly when their number is a power of two.
   */
  lemma EvenChancesExactly(db: Db, t: Terms, other: nat)
    requires Execute(db, t, other).refusal.None? && Members.OneRowEach(db.members)
    ensures var n := |Lottery.Eligible(db, t.mahber, t.threshold, |db.members|)|;
            (forall u, v :: MayWin(db, t, u) && MayWin(db, t, v) ==>
               SeedsWonBy(db, t, u, Pow2(256)) == SeedsWonBy(db, t, v, Pow2(256)))
            <==> IsPow2(n, 256)
  {
    hide Execute, Lottery.Eligible, SeedsWonBy, MayWin, Pow2, IsPow2;
    DrawIsFair(db, t, Pow2(256), other);
    DivisorsOfPow2(256, |Lottery.Eligible(db, t.mahber, t.threshold, |db.members|)|);
  }

  // ----- when a draw goes through

  /** Contributions count from the mahber's latest draw on, before the first from its creation. */
  ghost predicate CountFrom(draws: seq<Draw>, mahber: MahberId, created: Time, since: Time) {
    if exists i :: 0 <= i < |draws| && draws[i].mahber == mahber then
      && (exists i :: 0 <= i < |draws| && draws[i].mahber == mahber && draws[i].createdAt == since)
      && (forall i :: 0 <= i < |draws| && draws[i].mahber == mahber ==> draws[i].createdAt <= since)
    else since == created
  }

  lemma CountFromLast(draws: seq<Draw>, mahber: MahberId, created: Time, since: Time)
    requires CountFrom(draws, mahber, created, since)
    ensures var last := Lottery.LastDraw(draws, mahber); since == if last.Some? then last.value else created
  {
  }

  /** Somebody is active. */
  predicate AnyActive(members: seq<Membership>, mahber: MahberId) {
    exists i :: 0 <= i < |members| && members[i].mahber == mahber && members[i].status == Active
  }

  lemma AnyActiveExactly(members: seq<Membership>, mahber: MahberId)
    ensures AnyActive(members, mahber) <==> Members.ActiveRows(members, mahber) != []
  {
    hide Members.ActiveRows;
    var rows := Members.ActiveRows(members, mahber);
    if rows != [] {
      assert members[rows[0]].status == Active;
    }
    if k :| 0 <= k < |members| && members[k].mahber == mahber && members[k].status == Active {
      Members.ActiveRowsComplete(members, mahber, k);
    }
  }

  /** Every active member has a completed contribution created at the date or later. */
  predicate EverybodyPaid(db: Db, mahber: MahberId, since: Time) {
    forall i :: 0 <= i < |db.members| && db.members[i].mahber == mahber && db.members[i].status == Active ==>
      exists k :: 0 <= k < |db.payments| && IsContribution(db.payments[k], mahber, db.members[i].member)
                  && db.payments[k].createdAt >= since
  }

  lemma EverybodyPaidExactly(db: Db, mahber: MahberId, since: Time)
    ensures EverybodyPaid(db, mahber, since) <==> Lottery.AllPaid(db, mahber, since)
  {
    forall u: UserId
      ensures Lottery.HasPaid(db.payments, mahber, u, since) <==>
              exists k :: 0 <= k < |db.payments| && IsContribution(db.payments[k], mahber, u)
                && db.payments[k].createdAt >= since
    {
      HasPaidExactly(db.payments, mahber, u, since);
    }
  }

  lemma HasPaidExactly(payments: seq<Payment>, mahber: MahberId, u: UserId, since: Time)
    ensures Lottery.HasPaid(payments, mahber, u, since) <==>
            exists k :: 0 <= k < |payments| && IsContribution(payments[k], mahber, u) && payments[k].createdAt >= since
  {
    if Lottery.HasPaid(payments, mahber, u, since) {
      var k :| 0 <= k < |payments| && Lottery.Qualifies(payments[k], mahber, u, since);
      assert IsContribution(payments[k], mahber, u);
    }
    if k :| 0 <= k < |payments| && IsContribution(payments[k], mahber, u) && payments[k].createdAt >= since {
      assert Lottery.Qualifies(payments[k], mahber, u, since);
    }
  }

  predicate AnyCandidate(db: Db, mahber: MahberId, threshold: Money) {
    exists i :: 0 <= i < |db.members| && IsCandidate(db.members[i], db.fines, mahber, threshold)
  }

  lemma AnyCandidateExactly(db: Db, mahber: MahberId, threshold: Money)
    ensures AnyCandidate(db, mahber, threshold) <==> Lottery.Eligible(db, mahber, threshold, |db.members|) != []
  {
    hide Lottery.Eligible, IsCandidate;
    var eligible := Lottery.Eligible(db, mahber, threshold, |db.members|);
    if eligible != [] {
      EligibleExactly(db, mahber, threshold, |db.members|, eligible[0]);
    }
    if i :| 0 <= i < |db.members| && IsCandidate(db.members[i], db.fines, mahber, threshold) {
      EligibleExactly(db, mahber, threshold, |db.members|, db.members[i].member);
    }
  }

  /** The answer of a draw in terms of what it computes. */
  lemma AnswerOfDraw(db: Db, t: Terms, seed: nat)
    ensures var last := Lottery.LastDraw(db.draws, t.mahber);
            var pool := Ledger.Pool(db.ledger, t.mahber);
            var out := Execute(db, t, seed);
            && out.refusal ==
               (if Members.ActiveRows(db.members, t.mahber) == [] then Some(NoMembers)
                else if !Lottery.AllPaid(db, t.mahber, if last.Some? then last.value else t.created)
                then Some(NotPaidUp)
                else if Lottery.Eligible(db, t.mahber, t.threshold, |db.members|) == [] then Some(NobodyEligible)
                else if pool <= 0.0 then Some(InsufficientBalance)
                else if Lottery.PayoutAmount(pool, t.rate) <= 0.0 then Some(RateTooHigh)
                else None)
            && (out.refusal.Some? ==> out.db == db)
  {
    hide Lottery.PayoutAmount, Lottery.Award, Lottery.LastDraw, Ledger.Post, Ledger.Pool, Lottery.Eligible,
      Lottery.AllPaid, Lottery.MarkWinner, Members.ActiveRows;
  }

  /**
   What a draw answers, from the rows: it is refused because nobody is active; else because
   some active member has no completed contribution since the last draw (or the mahber's
   creation); else because nobody active, yet to win and within the threshold is left; else
   because the pool is empty; else because nothing of it would be paid out. Otherwise it goes
   through: once everybody has paid, nothing else stands in its way.
   */
  lemma DrawAnswersExactly(db: Db, t: Terms, seed: nat, since: Time)
    requires CountFrom(db.draws, t.mahber, t.created, since)
    ensures var out := Execute(db, t, seed);
            var active, paid := AnyActive(db.members, t.mahber), EverybodyPaid(db, t.mahber, since);
            var ready := active && paid && AnyCandidate(db, t.mahber, t.threshold);
            var pool := Ledger.Pool(db.ledger, t.mahber);
            && (out.refusal == Some(NoMembers) <==> !active)
            && (out.refusal == Some(NotPaidUp) <==> active && !paid)
            && (out.refusal == Some(NobodyEligible) <==> active && paid && !ready)
            && (out.refusal == Some(InsufficientBalance) <==> ready && pool <= 0.0)
            && (out.refusal == Some(RateTooHigh) <==> ready && pool > 0.0 && t.rate >= 100.0)
            && (out.refusal.None? <==> ready && pool > 0.0 && t.rate < 100.0)
            && (out.refusal.Some? ==> out.db == db)
  {
    hide Execute, Lottery.AllPaid, Lottery.Eligible, Lottery.LastDraw, Lottery.PayoutAmount, Ledger.Pool,
      Members.ActiveRows, CountFrom, AnyActive, EverybodyPaid, AnyCandidate;
    AnswerOfDraw(db, t, seed);
    CountFromLast(db.draws, t.mahber, t.created, since);
    AnyActiveExactly(db.members, t.mahber);
    EverybodyPaidExactly(db, t.mahber, since);
    AnyCandidateExactly(db, t.mahber, t.threshold);
    if Ledger.Pool(db.ledger, t.mahber) > 0.0 {
      PaysOutBelow(Ledger.Pool(db.ledger, t.mahber), t.rate);
    }
  }

  /**
   What a draw that goes through records: the draw itself, the winner's debit, an expense
   already paid, all for the same amount, and the winner's mark on each of their rows.
   */
  lemma DrawRecords(db: Db, t: Terms, seed: nat)
    requires Execute(db, t, seed).refusal.None?
    ensures var after := Execute(db, t, seed).db;
            var n, k, x := |db.draws|, |db.ledger|, |db.expenses|;
            && after == db.(draws := after.draws, ledger := after.ledger, expenses := after.expenses,
                            members := after.members)
            && |after.draws| == n + 1 && after.draws[..n] == db.draws
            && |after.ledger| == k + 1 && after.ledger[..k] == db.ledger
            && |after.expenses| == x + 1 && after.expenses[..x] == db.expenses
            && |after.members| == |db.members|
            && var d, e, spent := after.draws[n], after.ledger[k], after.expenses[x];
               && d.mahber == t.mahber && d.createdAt == db.clock && d.seed == seed && d.id == t.id
               && d.winner in d.eligible && MayWin(db, t, d.winner)
               && (forall u :: u in d.eligible <==> MayWin(db, t, u))
               && e.mahber == t.mahber && e.member == d.winner && e.kind == EqubPayoutEntry
               && e.amount == -d.payout && e.source == OfDraw(n) && e.createdAt == db.clock
               && e.description == "Equb payout from lottery draw " + t.id
               && spent.mahber == t.mahber && spent.amount == d.payout && spent.status == Paid
               && spent.category == "Equb_Payout" && spent.bankCode == NoCode
               && forall i :: 0 <= i < |db.members| ==>
                    after.members[i] ==
                    if db.members[i].mahber == t.mahber && db.members[i].member == d.winner
                    then db.members[i].(hasWon := true) else db.members[i]
  {
    hide Lottery.Eligible, Lottery.AllPaid, Lottery.PayoutAmount, Ledger.Pool, Ledger.LastBalance, MayWin;
    var d := Execute(db, t, seed).db.draws[|db.draws|];
    forall u ensures u in d.eligible <==> MayWin(db, t, u) {
      MayWinIsListed(db, t, u);
    }
  }

  // ----- two draws on the same contributions

  /** What a draw that goes through leaves for the next. */
  lemma AfterDraw(db: Db, t: Terms, seed: nat, winner: UserId)
    requires Execute(db, t, seed).refusal.None? && WonBy(db, Execute(db, t, seed), winner)
    ensures var after := Execute(db, t, seed).db;
            && after.payments == db.payments && after.clock == db.clock && after.fines == db.fines
            && after.members == Lottery.MarkWinner(db.members, t.mahber, winner)
            && after.draws == db.draws + [after.draws[|db.draws|]]
            && after.draws[|db.draws|].mahber == t.mahber && after.draws[|db.draws|].createdAt == db.clock
  {
    hide Ledger.Post, Ledger.Pool, Lottery.Eligible, Lottery.AllPaid, Lottery.MarkWinner;
  }

  /** Everyone active made a contribution at this very moment. */
  predicate AllPaidNow(db: Db, mahber: MahberId) {
    forall i :: 0 <= i < |db.members| && db.members[i].mahber == mahber && db.members[i].status == Active ==>
      exists k :: 0 <= k < |db.payments| && IsContribution(db.payments[k], mahber, db.members[i].member)
                  && db.payments[k].createdAt == db.clock
  }

  lemma PaidAgainIsPaidNow(db: Db, after: Db, mahber: MahberId, winner: UserId)
    requires Dated(db) && after.payments == db.payments
    requires after.members == Lottery.MarkWinner(db.members, mahber, winner)
    ensures Lottery.AllPaid(after, mahber, db.clock) <==> AllPaidNow(db, mahber)
  {
    forall u: UserId
      ensures Lottery.HasPaid(after.payments, mahber, u, db.clock) <==>
              exists k :: 0 <= k < |db.payments| && IsContribution(db.payments[k], mahber, u)
                && db.payments[k].createdAt == db.clock
    {
      if Lottery.HasPaid(after.payments, mahber, u, db.clock) {
        var k :| 0 <= k < |db.payments| && Lottery.Qualifies(db.payments[k], mahber, u, db.clock);
        assert IsContribution(db.payments[k], mahber, u) && db.payments[k].createdAt == db.clock;
      }
      if k :| && 0 <= k < |db.payments|
              && IsContribution(db.payments[k], mahber, u) && db.payments[k].createdAt == db.clock {
        assert Lottery.Qualifies(after.payments[k], mahber, u, db.clock);
      }
    }
    assert forall i :: 0 <= i < |db.members| ==>
      && after.members[i].mahber == db.members[i].mahber && after.members[i].member == db.members[i].member
      && after.members[i].status == db.members[i].status;
  }

  lemma LeftToWin(db: Db, after: Db, t: Terms, winner: UserId)
    requires after.fines == db.fines && after.members == Lottery.MarkWinner(db.members, t.mahber, winner)
    ensures Lottery.Eligible(after, t.mahber, t.threshold, |after.members|) != [] <==>
            exists u :: u != winner && MayWin(db, t, u)
  {
    hide Fines.FineTotal, Lottery.Eligible;
    var left := Lottery.Eligible(after, t.mahber, t.threshold, |after.members|);
    forall i | 0 <= i < |db.members|
      ensures IsCandidate(after.members[i], after.fines, t.mahber, t.threshold) <==>
              IsCandidate(db.members[i], db.fines, t.mahber, t.threshold) && db.members[i].member != winner
    {
      assert after.members[i].status == db.members[i].status;
    }
    forall u ensures u in left <==> u != winner && MayWin(db, t, u) {
      EligibleExactly(after, t.mahber, t.threshold, |after.members|, u);
    }
    if left != [] {
      assert left[0] in left;
    }
  }

  lemma ActiveStaysActive(db: Db, after: Db, mahber: MahberId, winner: UserId)
    requires after.members == Lottery.MarkWinner(db.members, mahber, winner)
    requires Members.ActiveRows(db.members, mahber) != []
    ensures Members.ActiveRows(after.members, mahber) != []
  {
    var k := Members.ActiveRows(db.members, mahber)[0];
    Members.ActiveRowsComplete(after.members, mahber, k);
  }

  lemma DrawNeedsActive(db: Db, t: Terms, seed: nat)
    requires Execute(db, t, seed).refusal.None?
    ensures Members.ActiveRows(db.members, t.mahber) != []
  {
  }

  lemma LatestIsNow(draws: seq<Draw>, d: Draw, now: Time)
    requires d.createdAt == now && forall i :: 0 <= i < |draws| ==> draws[i].createdAt <= now
    ensures Lottery.LastDraw(draws + [d], d.mahber) == Some(now)
  {
    assert (draws + [d])[|draws|] == d;
  }

  /**
   Exactly when contributions count twice: after a draw, another one with no payment in
   between, at once or any time later and on whatever terms, goes through if and only if some
   of the pool was kept and not all of it is now, every active member contributed at the very
   moment of the first draw, and somebody else may still win.
   */
  lemma SecondDrawReusesExactly(db: Db, t: Terms, seed: nat, winner: UserId, wait: nat, t': Terms, again: nat)
    requires Inv(db) && Execute(db, t, seed).refusal.None? && WonBy(db, Execute(db, t, seed), winner)
    requires t'.mahber == t.mahber
    ensures var first := Execute(db, t, seed).db;
            Execute(first.(clock := first.clock + wait), t', again).refusal.None? <==>
            && t.rate > 0.0 && t'.rate < 100.0 && AllPaidNow(db, t.mahber)
            && exists u :: u != winner && MayWin(db, t', u)
  {
    hide Execute, WonBy, Lottery.Eligible, MayWin, AllPaidNow, Lottery.AllPaid, Ledger.Pool, Ledger.LedgerOk, Booked,
      FinesBooked, WinnersOk, JoinsBooked, Lottery.MarkWinner, Members.ActiveRows, Lottery.LastDraw,
      Lottery.PayoutAmount;
    var first := Execute(db, t, seed).db;
    var after := first.(clock := first.clock + wait);
    AfterDraw(db, t, seed, winner);
    DrawNeedsActive(db, t, seed);
    ActiveStaysActive(db, after, t.mahber, winner);
    LatestIsNow(db.draws, after.draws[|db.draws|], db.clock);
    PaidAgainIsPaidNow(db, after, t.mahber, winner);
    LeftToWin(db, after, t', winner);
    AnswerOfDraw(after, t', again);
    KeptSuffices(db, t, seed, t'.rate);
  }

  /** What is kept of the pool suffices for another payout if anything is kept and not all is to be kept. */
  lemma KeptSuffices(db: Db, t: Terms, seed: nat, rate: Money)
    requires Execute(db, t, seed).refusal.None?
    ensures var share := Ledger.Pool(Execute(db, t, seed).db.ledger, t.mahber);
            (share > 0.0 && Lottery.PayoutAmount(share, rate) > 0.0) <==> t.rate > 0.0 && rate < 100.0
  {
    hide Lottery.ExecuteDraw, Ledger.Pool, Lottery.PayoutAmount;
    PoolTheorems.DrawLeavesOperationalShare(db, t.mahber, t.created, t.rate, t.threshold, seed, t.id, t.mahber);
    var pool, share := Ledger.Pool(db.ledger, t.mahber), Ledger.Pool(Execute(db, t, seed).db.ledger, t.mahber);
    ShareOfShare(pool, t.rate, share, rate);
  }

  lemma SignOfProduct(a: Money, b: Money)
    requires a > 0.0
    ensures a * b > 0.0 <==> b > 0.0
  {
  }

  lemma PaysOutBelow(pool: Money, rate: Money)
    requires pool > 0.0
    ensures Lottery.PayoutAmount(pool, rate) > 0.0 <==> rate < 100.0
  {
    var kept := 100.0 - rate;
    SignOfProduct(pool, kept);
    assert pool * kept == pool * 100.0 - pool * rate;
  }

  lemma ShareOfShare(pool: Money, rate: Money, share: Money, next: Money)
    requires pool > 0.0 && share == pool * rate / 100.0
    ensures (share > 0.0 && Lottery.PayoutAmount(share, next) > 0.0) <==> rate > 0.0 && next < 100.0
  {
    SignOfProduct(pool, rate);
    if share > 0.0 {
      PaysOutBelow(share, next);
    }
  }
}
