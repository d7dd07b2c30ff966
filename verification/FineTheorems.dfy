/** Fines over whole runs: how often the daily job fines, what it leaves behind, and what clears a fine. */
module FineTheorems {
  import opened Wrappers
  import opened MoneyRecords
  import opened MoneyMachine
  import opened MoneyChanges
  import opened MoneyInvariants
  import Ledger
  import Members
  import Payments
  import Fines
  import Lottery
  import Spending
  import DueDates

  // ----- what a fine is

  /** The penalty: the configured rate, or that many percent of the contribution. */
  predicate IsPenalty(amount: Money, config: Config) {
    match config.penaltyMode
    case Fixed => amount == config.penaltyRate
    case Percentage => 100.0 * amount == config.penaltyRate * config.contributionAmount
  }

  /** An unpaid fine of today for the configured penalty. */
  predicate IsFreshFine(f: Fine, mahber: MahberId, member: UserId, violation: Violation, config: Config, now: Time) {
    && f.mahber == mahber && f.member == member && f.violation == violation && f.createdAt == now
    && !f.waived && f.paidAt.None? && f.paidBy.None? && IsPenalty(f.amount, config)
  }

  /** A fine is a new row for the penalty and a debit of the same amount on the member's running balance. */
  lemma FineIsDebited(db: Db, mahber: MahberId, member: UserId, violation: Violation, config: Config, text: string)
    requires Ledger.LedgerOk(db.ledger, db.clock)
    ensures var after := Fines.ApplyFine(db, mahber, member, violation, config, text);
            var n, k := |db.fines|, |db.ledger|;
            && after == db.(fines := after.fines, ledger := after.ledger)
            && |after.fines| == n + 1 && after.fines[..n] == db.fines
            && IsFreshFine(after.fines[n], mahber, member, violation, config, db.clock)
            && |after.ledger| == k + 1 && after.ledger[..k] == db.ledger
            && var e := after.ledger[k];
               && e.mahber == mahber && e.member == member && e.kind == FineEntry && e.source == OfFine(n)
               && e.amount == -after.fines[n].amount && e.createdAt == db.clock && e.description == text
               && e.runningBalance == Ledger.MemberBalance(db.ledger, mahber, member) - after.fines[n].amount
  {
    hide Ledger.LastBalance, Ledger.MemberBalance, Ledger.LedgerOk;
    Ledger.LastBalanceIsMemberBalance(db.ledger, db.clock, mahber, member);
  }

  // ----- who is due for one

  /** The period a contribution has to fall in, by the text of the frequency. */
  lemma PeriodRead(text: Option<string>)
    ensures Fines.Period(text) ==
            if text.Some? && DueDates.SameText(text.value, "daily") then 86_400_000
            else if text.Some? && DueDates.SameText(text.value, "weekly") then 604_800_000
            else if text.Some? && DueDates.SameText(text.value, "quarterly") then 7_776_000_000
            else 2_592_000_000
  {
    hide DueDates.ReadFrequency, DueDates.SameText;
    DueDates.FrequencyRead(text);
  }

  function Digit(d: nat): (c: char)
    requires d < 10
    ensures Fines.IsDigit(c) && c as int == '0' as int + d
  {
    ('0' as int + d) as char
  }

  /** The decimal digits of a number. */
  function Decimal(n: nat): string {
    (if n < 10 then "" else Decimal(n / 10)) + [Digit(n % 10)]
  }

  lemma ReadOneMore(s: string, c: char)
    requires Fines.AllDigits(s) && Fines.IsDigit(c)
    ensures Fines.AllDigits(s + [c]) && Fines.ReadNat(s + [c]) == 10 * Fines.ReadNat(s) + (c as int - '0' as int)
  {
    assert (s + [c])[..|s|] == s;
  }

  lemma {:induction false} DecimalReadsBack(n: nat)
    ensures Decimal(n) != "" && Fines.AllDigits(Decimal(n)) && Fines.ReadNat(Decimal(n)) == n
  {
    hide Digit, Fines.AllDigits, Fines.IsDigit;
    if n < 10 {
      NothingRead();
      ReadOneMore("", Digit(n));
      assert Decimal(n) == "" + [Digit(n)];
    } else {
      DecimalReadsBack(n / 10);
      ReadOneMore(Decimal(n / 10), Digit(n % 10));
      assert n == 10 * (n / 10) + n % 10;
    }
  }

  lemma NothingRead()
    ensures Fines.AllDigits("") && Fines.ReadNat("") == 0
  {
  }

  /** The decimal digits of a number after any number of zeros. */
  function Digits(zeros: nat, n: nat): string {
    if zeros == 0 then Decimal(n) else "0" + Digits(zeros - 1, n)
  }

  lemma {:induction false} LeadingZero(s: string)
    requires Fines.AllDigits(s)
    ensures Fines.AllDigits("0" + s) && Fines.ReadNat("0" + s) == Fines.ReadNat(s)
  {
    if s == "" {
      assert "0" + s == "0" && "0"[..0] == "";
    } else {
      var n := |s| - 1;
      LeadingZero(s[..n]);
      assert ("0" + s)[..n + 1] == "0" + s[..n];
    }
  }

  lemma {:induction false} DigitsReadBack(zeros: nat, n: nat)
    ensures Digits(zeros, n) != "" && Fines.AllDigits(Digits(zeros, n)) && Fines.ReadNat(Digits(zeros, n)) == n
  {
    hide Decimal, Fines.AllDigits, Fines.ReadNat;
    if zeros == 0 {
      DecimalReadsBack(n);
    } else {
      DigitsReadBack(zeros - 1, n);
      LeadingZero(Digits(zeros - 1, n));
    }
  }

  /** A number and then d, h or m, for days, hours or minutes. */
  lemma IntervalRead(zeros: nat, n: nat)
    ensures Fines.ReadInterval(Some(Digits(zeros, n) + "d")) == n * 86_400_000
    ensures Fines.ReadInterval(Some(Digits(zeros, n) + "h")) == n * 3_600_000
    ensures Fines.ReadInterval(Some(Digits(zeros, n) + "m")) == n * 60_000
  {
    hide Digits, Fines.ReadNat, Fines.AllDigits;
    DigitsReadBack(zeros, n);
    var digits := Digits(zeros, n);
    assert (digits + "d")[..|digits|] == (digits + "h")[..|digits|] == (digits + "m")[..|digits|] == digits;
  }

  /** Any other text is thirty days, and so is none. */
  lemma IntervalOtherwise(text: Option<string>)
    requires text.None? || |text.value| < 2 || text.value[|text.value| - 1] !in "dhm"
             || exists i :: 0 <= i < |text.value| - 1 && !('0' <= text.value[i] <= '9')
    ensures Fines.ReadInterval(text) == 2_592_000_000
  {
    if text.Some? {
      var s := text.value;
      if i :| 0 <= i < |s| - 1 && !('0' <= s[i] <= '9') {
        assert s[..|s| - 1][i] == s[i];
      }
    }
  }

  /**
   Overdue, as the tables stand: no contribution of the member is entered in the period up to
   now, and every fine for a missed payment in it is as old as the interval.
   */
  ghost predicate Overdue(db: Db, mahber: MahberId, member: UserId, period: int, interval: int) {
    && (forall i :: 0 <= i < |db.ledger| && db.ledger[i].mahber == mahber && db.ledger[i].member == member
                    && db.ledger[i].kind == ContributionEntry ==>
          db.ledger[i].createdAt < db.clock - period)
    && (forall i :: 0 <= i < |db.fines| && db.fines[i].mahber == mahber && db.fines[i].member == member
                    && db.fines[i].violation == MissedPayment && db.fines[i].createdAt >= db.clock - period ==>
          db.clock - db.fines[i].createdAt >= interval)
  }

  /** Whom the job finds due: exactly those overdue. */
  lemma DueExactly(db: Db, mahber: MahberId, member: UserId, config: Config)
    ensures var period := Fines.Period(config.frequency);
            Fines.DueForFine(db, mahber, member, config, db.clock - period) <==>
            Overdue(db, mahber, member, period, Fines.ReadInterval(config.penaltyInterval))
  {
    hide Fines.Period, Fines.ReadInterval;
    var period, interval := Fines.Period(config.frequency), Fines.ReadInterval(config.penaltyInterval);
    var since := db.clock - period;
    if Fines.PaidSince(db.ledger, mahber, member, since) {
      var i :| 0 <= i < |db.ledger| && Fines.IsRecentContribution(db.ledger[i], mahber, member, since);
      assert !Overdue(db, mahber, member, period, interval);
    }
    forall i | 0 <= i < |db.ledger| && db.ledger[i].mahber == mahber && db.ledger[i].member == member
               && db.ledger[i].kind == ContributionEntry && db.ledger[i].createdAt >= since
      ensures Fines.PaidSince(db.ledger, mahber, member, since)
    {
      assert Fines.IsRecentContribution(db.ledger[i], mahber, member, since);
    }
    forall i | 0 <= i < |db.fines|
      ensures Fines.IsMissedPayment(db.fines[i], mahber, member) <==>
              db.fines[i].mahber == mahber && db.fines[i].member == member && db.fines[i].violation == MissedPayment
    {
    }
  }

  // ----- spacing

  /** The shorter of the payment period and the penalty interval. */
  function Gap(config: Config): int {
    var period, interval := Fines.Period(config.frequency), Fines.ReadInterval(config.penaltyInterval);
    if period < interval then period else interval
  }

  /** Any two missed-payment fines of the member are at least `gap` apart. */
  ghost predicate Spaced(fines: seq<Fine>, mahber: MahberId, member: UserId, gap: int) {
    forall i, j :: 0 <= i < j < |fines| && Fines.IsMissedPayment(fines[i], mahber, member)
                   && Fines.IsMissedPayment(fines[j], mahber, member) ==>
      fines[j].createdAt - fines[i].createdAt >= gap
  }

  /** Every run of the mahber's fine job has a period and an interval of at least `gap`. */
  predicate JobsAllow(op: Op, mahber: MahberId, gap: int) {
    op.FineJob? && op.mahber == mahber ==> gap <= Gap(op.config)
  }

  /** A member due for a fine has had none for as long as the gap. */
  lemma DueMeansWaited(db: Db, mahber: MahberId, member: UserId, config: Config, i: nat)
    requires Fines.DueForFine(db, mahber, member, config, db.clock - Fines.Period(config.frequency))
    requires i < |db.fines| && Fines.IsMissedPayment(db.fines[i], mahber, member)
    ensures db.clock - db.fines[i].createdAt >= Gap(config)
  {
    hide Fines.Period, Fines.ReadInterval, Fines.PaidSince;
  }

  lemma SameFinesSpaced(fines: seq<Fine>, fines': seq<Fine>, mahber: MahberId, member: UserId, gap: int)
    requires Spaced(fines, mahber, member, gap) && FinesGrow(fines, fines') && |fines'| == |fines|
    ensures Spaced(fines', mahber, member, gap)
  {
  }

  lemma OnlyAddingAdds(db: Db, c: Change)
    requires Legal(db, c)
    ensures |Play(db, c).fines| == |db.fines| + if c.AddFine? then 1 else 0
  {
    hide Ledger.Post, Lottery.AllPaid, Fines.DueForFine, Fines.Mentions, Payments.Overlap, Payments.Superseded,
      Payments.MemberAfterPayment, MembersGrow, OfPayer;
  }

  lemma ChangeKeepsSpacing(db: Db, c: Change, mahber: MahberId, member: UserId, gap: int)
    requires Legal(db, c) && Spaced(db.fines, mahber, member, gap)
    requires c.AddFine? && c.cause.Overdue? && c.mahber == mahber ==> gap <= Gap(c.config)
    ensures Spaced(Play(db, c).fines, mahber, member, gap)
  {
    hide Legal, Gap, Fines.DueForFine, Ledger.Post, FinesGrow, Fines.CalculateFine;
    if c.AddFine? {
      var n := |db.fines|;
      var after := Play(db, c).fines;
      assert after[..n] == db.fines;
      if Fines.IsMissedPayment(after[n], mahber, member) {
        LegalFineIsDue(db, c);
        forall i | 0 <= i < n && Fines.IsMissedPayment(after[i], mahber, member)
          ensures after[n].createdAt - after[i].createdAt >= gap
        {
          DueMeansWaited(db, mahber, member, c.config, i);
        }
      }
    } else {
      OnlyAddingAdds(db, c);
      ChangeGrowsFines(db, c);
      SameFinesSpaced(db.fines, Play(db, c).fines, mahber, member, gap);
    }
  }

  lemma LegalFineIsDue(db: Db, c: Change)
    requires Legal(db, c) && c.AddFine? && c.cause.Overdue?
    ensures Fines.DueForFine(db, c.mahber, c.member, c.config, db.clock - Fines.Period(c.config.frequency))
  {
  }

  lemma {:induction false} ChangesKeepSpacing(db: Db, cs: seq<Change>, op: Op, mahber: MahberId, member: UserId,
                                              gap: int)
    requires LegalAll(db, cs) && Spaced(db.fines, mahber, member, gap)
    requires JobsAllow(op, mahber, gap) && forall c :: c in cs ==> Suits(op, c)
    ensures Spaced(PlayAll(db, cs).fines, mahber, member, gap)
    decreases |cs|
  {
    hide Legal, Play, Spaced, Gap;
    if cs != [] {
      assert Suits(op, cs[0]);
      ChangeKeepsSpacing(db, cs[0], mahber, member, gap);
      ChangesKeepSpacing(Play(db, cs[0]), cs[1..], op, mahber, member, gap);
    }
  }

  lemma DoKeepsSpacing(db: Db, t: Tick, mahber: MahberId, member: UserId, gap: int)
    requires Inv(db) && Spaced(db.fines, mahber, member, gap) && JobsAllow(t.op, mahber, gap)
    ensures Spaced(Do(db, t).fines, mahber, member, gap)
  {
    hide Inv, Apply, LegalAll, PlayAll, Spaced, JobsAllow, Suits;
    AtIsFine(db, t);
    var now := At(db, t);
    InvHasAmounts(now);
    var cs := OpChanges(now, t.op);
    ChangesKeepSpacing(now, cs, t.op, mahber, member, gap);
  }

  /**
   Over any run of any services, two missed-payment fines of a member are at least as far
   apart as the shorter of payment period and penalty interval, however often the job runs,
   stops halfway or is retried.
   */
  lemma {:induction false} FinesAreSpaced(db: Db, ticks: seq<Tick>, mahber: MahberId, member: UserId, gap: int)
    requires Inv(db) && Spaced(db.fines, mahber, member, gap)
    requires forall t :: t in ticks ==> JobsAllow(t.op, mahber, gap)
    ensures Spaced(Run(db, ticks).fines, mahber, member, gap)
  {
    hide Inv, Do, Spaced, JobsAllow, Grows;
    if ticks != [] {
      var n := |ticks| - 1;
      FinesAreSpaced(db, ticks[..n], mahber, member, gap);
      RunKeepsAll(db, ticks[..n]);
      DoKeepsSpacing(Run(db, ticks[..n]), ticks[n], mahber, member, gap);
    }
  }

  /** The member's missed-payment fines, among the first `n`, dated within a window. */
  ghost function MissedWithin(fines: seq<Fine>, n: nat, mahber: MahberId, member: UserId, from: Time,
                              to: Time): set<nat> {
    set i: nat | i < n && i < |fines| && Fines.IsMissedPayment(fines[i], mahber, member)
      && from <= fines[i].createdAt <= to
  }

  /** Dropping the last fine from the window closes it one gap earlier. */
  lemma LastInWindow(fines: seq<Fine>, n: nat, mahber: MahberId, member: UserId, from: Time, to: Time, gap: int)
    requires 0 < n <= |fines| && gap > 0 && Spaced(fines, mahber, member, gap)
    requires Fines.IsMissedPayment(fines[n - 1], mahber, member) && from <= fines[n - 1].createdAt <= to
    ensures |MissedWithin(fines, n, mahber, member, from, to)| ==
            |MissedWithin(fines, n - 1, mahber, member, from, fines[n - 1].createdAt - gap)| + 1
  {
    var rest := MissedWithin(fines, n - 1, mahber, member, from, fines[n - 1].createdAt - gap);
    assert MissedWithin(fines, n, mahber, member, from, to) == rest + {n - 1};
  }

  lemma OneMore(k: nat, gap: int)
    requires k > 0
    ensures k * gap == (k - 1) * gap + gap
  {
  }

  lemma {:induction false} WindowBound(fines: seq<Fine>, n: nat, mahber: MahberId, member: UserId, from: Time,
                                       to: Time, gap: int)
    requires n <= |fines| && gap > 0 && Spaced(fines, mahber, member, gap)
    ensures var count := |MissedWithin(fines, n, mahber, member, from, to)|;
            count > 0 ==> from + (count - 1) * gap <= to
  {
    hide Spaced, Fines.IsMissedPayment;
    if n == 0 {
      assert MissedWithin(fines, n, mahber, member, from, to) == {};
    } else if Fines.IsMissedPayment(fines[n - 1], mahber, member) && from <= fines[n - 1].createdAt <= to {
      var earlier := fines[n - 1].createdAt - gap;
      WindowBound(fines, n - 1, mahber, member, from, earlier, gap);
      LastInWindow(fines, n, mahber, member, from, to, gap);
      var k := |MissedWithin(fines, n - 1, mahber, member, from, earlier)|;
      if k > 0 {
        OneMore(k, gap);
      }
    } else {
      WindowBound(fines, n - 1, mahber, member, from, to, gap);
      assert MissedWithin(fines, n, mahber, member, from, to) == MissedWithin(fines, n - 1, mahber, member, from, to);
    }
  }

  /** So any stretch of time of length w holds at most 1 + w / gap of them. */
  lemma FinesPerWindow(clock: Time, ticks: seq<Tick>, mahber: MahberId, member: UserId, gap: int, from: Time, to: Time)
    requires gap > 0 && from <= to && forall t :: t in ticks ==> JobsAllow(t.op, mahber, gap)
    ensures var fines := Run(EmptyDb(clock), ticks).fines;
            |MissedWithin(fines, |fines|, mahber, member, from, to)| <= 1 + (to - from) / gap
  {
    hide Run, Inv, JobsAllow;
    EmptyIsFine(clock);
    FinesAreSpaced(EmptyDb(clock), ticks, mahber, member, gap);
    var fines := Run(EmptyDb(clock), ticks).fines;
    WindowBound(fines, |fines|, mahber, member, from, to, gap);
    var count := |MissedWithin(fines, |fines|, mahber, member, from, to)|;
    if count > 0 {
      QuotientAtLeast(count - 1, gap, to - from);
    }
  }

  lemma QuotientAtLeast(k: nat, gap: int, w: nat)
    requires gap > 0 && k * gap <= w
    ensures k <= w / gap
  {
    var q := w / gap;
    if q < k {
      assert (q + 1) * gap <= k * gap by {
        ScaleUp(q + 1, k, gap);
      }
      assert false;
    }
  }

  lemma ScaleUp(a: nat, b: nat, n: int)
    requires a <= b && n > 0
    ensures a * n <= b * n
  {
  }

  // ----- what a pass leaves behind

  lemma FineTotalAfter(fines: seq<Fine>, f: Fine, mahber: MahberId, member: UserId)
    ensures Fines.FineTotal(fines + [f], mahber, member) ==
            Fines.FineTotal(fines, mahber, member) + (if Fines.CountsAgainst(f, mahber, member) then f.amount else 0.0)
  {
    assert (fines + [f])[..|fines|] == fines;
  }

  /** What the job does for one member touches neither row nor fines of anybody else. */
  lemma FineMemberIsLocal(db: Db, row: nat, mahber: MahberId, config: Config, since: Time, other: nat)
    requires row < |db.members| && other < |db.members| && other != row
             && db.members[other].member != db.members[row].member
    ensures var after := Fines.FineMember(db, row, mahber, config, since);
            && after.members[other] == db.members[other]
            && Fines.FineTotal(after.fines, mahber, db.members[other].member) ==
               Fines.FineTotal(db.fines, mahber, db.members[other].member)
  {
    hide Ledger.Post, Fines.DueForFine, Fines.FineTotal, Fines.CalculateFine;
    var after := Fines.FineMember(db, row, mahber, config, since);
    if |after.fines| > |db.fines| {
      FineTotalAfter(db.fines, after.fines[|db.fines|], mahber, db.members[other].member);
    }
  }

  /** The member's own row is banned exactly if the fines now exceed a positive cap; no other row changes. */
  lemma FineMemberRows(db: Db, row: nat, mahber: MahberId, config: Config, since: Time)
    requires row < |db.members|
    ensures var after := Fines.FineMember(db, row, mahber, config, since);
            forall i :: 0 <= i < |db.members| ==>
              after.members[i] ==
              if i == row && IsOver(after.fines, mahber, db.members[i].member, config)
              then db.members[i].(status := Banned) else db.members[i]
  {
    hide Ledger.Post, Fines.DueForFine, Fines.FineTotal, Fines.ApplyFine;
  }

  predicate IsOver(fines: seq<Fine>, mahber: MahberId, member: UserId, config: Config) {
    config.maxFineTotal > 0.0 && Fines.ExceedsThreshold(fines, mahber, member, config.maxFineTotal)
  }

  lemma {:induction false} PassBansThoseOver(db: Db, rows: seq<nat>, mahber: MahberId, config: Config, since: Time)
    requires Members.OneRowEach(db.members)
    requires forall i :: 0 <= i < |rows| ==> rows[i] < |db.members| && db.members[rows[i]].mahber == mahber
    requires forall i, j :: 0 <= i < j < |rows| ==> rows[i] < rows[j]
    ensures var after := Fines.FineMembers(db, rows, mahber, config, since);
            forall k :: 0 <= k < |db.members| ==>
              after.members[k] ==
              if k in rows && IsOver(after.fines, mahber, db.members[k].member, config)
              then db.members[k].(status := Banned) else db.members[k]
  {
    hide Fines.FineMember, IsOver;
    if rows != [] {
      var n := |rows| - 1;
      assert rows == rows[..n] + [rows[n]];
      PassBansThoseOver(db, rows[..n], mahber, config, since);
      var before := Fines.FineMembers(db, rows[..n], mahber, config, since);
      var after := Fines.FineMembers(db, rows, mahber, config, since);
      FineMemberRows(before, rows[n], mahber, config, since);
      forall k | 0 <= k < |db.members| && k in rows[..n]
        ensures IsOver(after.fines, mahber, db.members[k].member, config) <==>
                IsOver(before.fines, mahber, db.members[k].member, config)
      {
        assert !Members.IsRow(db.members[rows[n]], mahber, db.members[k].member);
        OverIsLocal(before, rows[n], mahber, config, since, k);
      }
    }
  }

  lemma OverIsLocal(db: Db, row: nat, mahber: MahberId, config: Config, since: Time, other: nat)
    requires row < |db.members| && other < |db.members| && other != row
             && db.members[other].member != db.members[row].member
    ensures var after := Fines.FineMember(db, row, mahber, config, since);
            IsOver(after.fines, mahber, db.members[other].member, config) <==>
            IsOver(db.fines, mahber, db.members[other].member, config)
  {
    hide Fines.FineMember, Fines.FineTotal;
    FineMemberIsLocal(db, row, mahber, config, since, other);
  }

  /**
   After a full run of the job, exactly the active members whose fines exceed a positive cap
   are banned, so nobody still active is over it, and no other row has changed.
   */
  lemma {:induction false} JobBansExactlyThoseOver(db: Db, mahber: MahberId, config: Config, stop: nat, k: nat)
    requires Members.OneRowEach(db.members) && k < |db.members|
    requires stop >= |Members.ActiveRows(db.members, mahber)|
    ensures var after := Fines.FineJob(db, mahber, config, stop);
            var m := db.members[k];
            after.members[k] ==
            if m.mahber == mahber && m.status == Active && IsOver(after.fines, mahber, m.member, config)
            then m.(status := Banned) else m
  {
    hide Fines.FineMembers, IsOver, Fines.Period, Members.ActiveRows;
    var rows := Members.ActiveRows(db.members, mahber);
    assert Fines.Upto(rows, stop) == rows;
    PassBansThoseOver(db, rows, mahber, config, db.clock - Fines.Period(config.frequency));
    if db.members[k].mahber == mahber && db.members[k].status == Active {
      Members.ActiveRowsComplete(db.members, mahber, k);
    }
  }

  // ----- whom a pass fines

  function MissedFines(fines: seq<Fine>, mahber: MahberId, member: UserId): nat {
    if fines == [] then 0
    else
      var n := |fines| - 1;
      MissedFines(fines[..n], mahber, member) + (if Fines.IsMissedPayment(fines[n], mahber, member) then 1 else 0)
  }

  lemma FineAppended(fines: seq<Fine>, f: Fine, mahber: MahberId, member: UserId, since: Time)
    ensures MissedFines(fines + [f], mahber, member) ==
            MissedFines(fines, mahber, member) + (if Fines.IsMissedPayment(f, mahber, member) then 1 else 0)
    ensures !Fines.IsMissedPayment(f, mahber, member) ==>
              Fines.LatestFine(fines + [f], mahber, member, since) == Fines.LatestFine(fines, mahber, member, since)
  {
    assert (fines + [f])[..|fines|] == fines;
  }

  lemma DebitIsNoContribution(ledger: seq<Entry>, e: Entry, mahber: MahberId, member: UserId, since: Time)
    requires e.kind != ContributionEntry
    ensures Fines.PaidSince(ledger + [e], mahber, member, since) <==> Fines.PaidSince(ledger, mahber, member, since)
  {
    var after := ledger + [e];
    if Fines.PaidSince(ledger, mahber, member, since) {
      var i :| 0 <= i < |ledger| && Fines.IsRecentContribution(ledger[i], mahber, member, since);
      assert after[i] == ledger[i];
    }
  }

  /** Due for a fine at a time, as things stand now. */
  predicate DueAt(db: Db, mahber: MahberId, member: UserId, config: Config, at: Time) {
    Fines.DueForFine(db.(clock := at), mahber, member, config, at - Fines.Period(config.frequency))
  }

  lemma DueAtExactly(db: Db, mahber: MahberId, member: UserId, config: Config, at: Time)
    ensures DueAt(db, mahber, member, config, at) <==>
            Overdue(db.(clock := at), mahber, member, Fines.Period(config.frequency),
                    Fines.ReadInterval(config.penaltyInterval))
  {
    DueExactly(db.(clock := at), mahber, member, config);
  }

  /** Who is due stays due until something happens. */
  lemma DueLater(db: Db, mahber: MahberId, member: UserId, config: Config, at: Time, later: Time)
    requires DueAt(db, mahber, member, config, at) && at <= later
    ensures DueAt(db, mahber, member, config, later)
  {
    hide Fines.LatestFine, Fines.Period, Fines.ReadInterval;
    var period := Fines.Period(config.frequency);
    forall i | 0 <= i < |db.ledger|
      ensures !Fines.IsRecentContribution(db.ledger[i], mahber, member, later - period)
    {
      assert !Fines.IsRecentContribution(db.ledger[i], mahber, member, at - period);
    }
  }

  /** A fresh fine keeps its member from being due again within the gap. */
  lemma NotDueWithinGap(db: Db, mahber: MahberId, member: UserId, config: Config, i: nat, at: Time)
    requires i < |db.fines| && Fines.IsMissedPayment(db.fines[i], mahber, member)
    requires db.fines[i].createdAt <= at < db.fines[i].createdAt + Gap(config)
    ensures !DueAt(db, mahber, member, config, at)
  {
    hide Fines.LatestFine, Fines.Period, Fines.ReadInterval, Fines.PaidSince;
  }

  /** What the job does for one member decides nothing for anybody else, at any time. */
  lemma FineMemberDecidesAlone(db: Db, row: nat, mahber: MahberId, config: Config, since: Time, u: UserId, at: Time)
    requires row < |db.members|
    ensures var after := Fines.FineMember(db, row, mahber, config, since);
            var fined := u == db.members[row].member && Fines.DueForFine(db, mahber, u, config, since);
            && MissedFines(after.fines, mahber, u) == MissedFines(db.fines, mahber, u) + (if fined then 1 else 0)
            && (!fined ==> (DueAt(after, mahber, u, config, at) <==> DueAt(db, mahber, u, config, at)))
            && (u != db.members[row].member ==>
                  (Fines.DueForFine(after, mahber, u, config, since)
                   <==> Fines.DueForFine(db, mahber, u, config, since)))
            && (fined && db.clock <= at < db.clock + Gap(config) ==> !DueAt(after, mahber, u, config, at))
  {
    hide Ledger.LastBalance, Fines.PaidSince, Fines.LatestFine, MissedFines, Fines.ReadInterval, Fines.Period, Gap,
      Fines.ExceedsThreshold, Fines.CalculateFine, Fines.OverdueText;
    var after := Fines.FineMember(db, row, mahber, config, since);
    if Fines.DueForFine(db, mahber, db.members[row].member, config, since) {
      var window := at - Fines.Period(config.frequency);
      FineAppended(db.fines, after.fines[|db.fines|], mahber, u, since);
      DebitIsNoContribution(db.ledger, after.ledger[|db.ledger|], mahber, u, since);
      FineAppended(db.fines, after.fines[|db.fines|], mahber, u, window);
      DebitIsNoContribution(db.ledger, after.ledger[|db.ledger|], mahber, u, window);
      if u == db.members[row].member && db.clock <= at < db.clock + Gap(config) {
        NotDueWithinGap(after, mahber, u, config, |db.fines|, at);
      }
    }
  }

  /** Users stay on their rows. */
  lemma {:induction false} PassKeepsUsers(db: Db, rows: seq<nat>, mahber: MahberId, config: Config, since: Time)
    requires forall i :: 0 <= i < |rows| ==> rows[i] < |db.members|
    ensures var after := Fines.FineMembers(db, rows, mahber, config, since);
            forall i :: 0 <= i < |db.members| ==> after.members[i].member == db.members[i].member
  {
    hide Fines.FineMember;
    if rows != [] {
      var n := |rows| - 1;
      PassKeepsUsers(db, rows[..n], mahber, config, since);
      FineMemberRows(Fines.FineMembers(db, rows[..n], mahber, config, since), rows[n], mahber, config, since);
    }
  }

  ghost predicate Reached(members: seq<Membership>, rows: seq<nat>, u: UserId) {
    exists i :: 0 <= i < |rows| && rows[i] < |members| && members[rows[i]].member == u
  }

  lemma {:induction false} PassFinesThoseDue(db: Db, rows: seq<nat>, mahber: MahberId, config: Config, since: Time,
                                             u: UserId, at: Time)
    requires Members.OneRowEach(db.members)
    requires forall i :: 0 <= i < |rows| ==> rows[i] < |db.members| && db.members[rows[i]].mahber == mahber
    requires forall i, j :: 0 <= i < j < |rows| ==> rows[i] < rows[j]
    ensures var after := Fines.FineMembers(db, rows, mahber, config, since);
            var fined := Reached(db.members, rows, u) && Fines.DueForFine(db, mahber, u, config, since);
            && MissedFines(after.fines, mahber, u) == MissedFines(db.fines, mahber, u) + (if fined then 1 else 0)
            && (!fined ==> (DueAt(after, mahber, u, config, at) <==> DueAt(db, mahber, u, config, at)))
            && (!Reached(db.members, rows, u) ==>
                  (Fines.DueForFine(after, mahber, u, config, since)
                   <==> Fines.DueForFine(db, mahber, u, config, since)))
            && (fined && db.clock <= at < db.clock + Gap(config) ==> !DueAt(after, mahber, u, config, at))
  {
    hide Fines.FineMember, MissedFines, Fines.DueForFine, DueAt, Gap, Members.OneRowEach;
    if rows == [] {
      assert !Reached(db.members, rows, u);
    } else {
      var n := |rows| - 1;
      var before := Fines.FineMembers(db, rows[..n], mahber, config, since);
      PassFinesThoseDue(db, rows[..n], mahber, config, since, u, at);
      PassKeepsUsers(db, rows[..n], mahber, config, since);
      FineMemberDecidesAlone(before, rows[n], mahber, config, since, u, at);
      ReachedNext(db.members, rows, mahber, u);
    }
  }

  lemma ReachedNext(members: seq<Membership>, rows: seq<nat>, mahber: MahberId, u: UserId)
    requires rows != [] && Members.OneRowEach(members)
    requires forall i :: 0 <= i < |rows| ==> rows[i] < |members| && members[rows[i]].mahber == mahber
    requires forall i, j :: 0 <= i < j < |rows| ==> rows[i] < rows[j]
    ensures var n := |rows| - 1;
            && (Reached(members, rows, u) <==> Reached(members, rows[..n], u) || members[rows[n]].member == u)
            && (members[rows[n]].member == u ==> !Reached(members, rows[..n], u))
  {
    var n := |rows| - 1;
    if Reached(members, rows, u) && members[rows[n]].member != u {
      var i :| 0 <= i < |rows| && members[rows[i]].member == u;
      assert rows[..n][i] == rows[i];
    }
    if Reached(members, rows[..n], u) {
      var i :| 0 <= i < n && members[rows[..n][i]].member == u;
      assert rows[..n][i] == rows[i];
      assert !Members.IsRow(members[rows[n]], members[rows[i]].mahber, members[rows[i]].member);
    }
  }

  /** The rows a step adds are all fresh fines of the mahber for the violation. */
  ghost predicate AddsFreshFines(before: seq<Fine>, after: seq<Fine>, mahber: MahberId, violation: Violation,
                                 config: Config, now: Time)
  {
    && |before| <= |after| && after[..|before|] == before
    && forall x :: |before| <= x < |after| ==> IsFreshFine(after[x], mahber, after[x].member, violation, config, now)
  }

  lemma FineMemberAddsFresh(db: Db, row: nat, mahber: MahberId, config: Config, since: Time)
    requires row < |db.members|
    ensures AddsFreshFines(db.fines, Fines.FineMember(db, row, mahber, config, since).fines, mahber, MissedPayment,
                           config, db.clock)
  {
    hide Ledger.Post, Fines.DueForFine, Fines.ExceedsThreshold, Fines.OverdueText;
  }

  lemma {:induction false} PassAddsFresh(db: Db, rows: seq<nat>, mahber: MahberId, config: Config, since: Time)
    requires forall i :: 0 <= i < |rows| ==> rows[i] < |db.members|
    ensures AddsFreshFines(db.fines, Fines.FineMembers(db, rows, mahber, config, since).fines, mahber, MissedPayment,
                           config, db.clock)
  {
    hide Fines.FineMember, IsPenalty;
    if rows != [] {
      var n := |rows| - 1;
      var before := Fines.FineMembers(db, rows[..n], mahber, config, since);
      PassAddsFresh(db, rows[..n], mahber, config, since);
      FineMemberAddsFresh(before, rows[n], mahber, config, since);
      AddsFreshTwice(db.fines, before.fines, Fines.FineMembers(db, rows, mahber, config, since).fines, mahber,
                     MissedPayment, config, db.clock);
    }
  }

  lemma AddsFreshTwice(a: seq<Fine>, b: seq<Fine>, c: seq<Fine>, mahber: MahberId, violation: Violation,
                       config: Config, now: Time)
    requires AddsFreshFines(a, b, mahber, violation, config, now)
    requires AddsFreshFines(b, c, mahber, violation, config, now)
    ensures AddsFreshFines(a, c, mahber, violation, config, now)
  {
    hide IsFreshFine;
    assert c[..|a|] == c[..|b|][..|a|];
    forall x | |a| <= x < |c| ensures IsFreshFine(c[x], mahber, c[x].member, violation, config, now) {
      if x < |b| {
        assert c[x] == c[..|b|][x];
      }
    }
  }

  /**
   A full run of the job fines exactly the active members who are overdue, once each for the
   configured penalty, and nobody else.
   */
  lemma JobFinesExactlyThoseDue(db: Db, mahber: MahberId, config: Config, stop: nat, u: UserId)
    requires Members.OneRowEach(db.members) && stop >= |Members.ActiveRows(db.members, mahber)|
    ensures var after := Fines.FineJob(db, mahber, config, stop);
            var period, interval := Fines.Period(config.frequency), Fines.ReadInterval(config.penaltyInterval);
            && MissedFines(after.fines, mahber, u) - MissedFines(db.fines, mahber, u) ==
               (if Spending.IsActiveMember(db.members, mahber, u) && Overdue(db, mahber, u, period, interval) then 1
                else 0)
            && AddsFreshFines(db.fines, after.fines, mahber, MissedPayment, config, db.clock)
  {
    hide Fines.FineMembers, MissedFines, Fines.DueForFine, Fines.Period, Fines.ReadInterval, Members.ActiveRows,
      Members.OneRowEach, Overdue, AddsFreshFines;
    var rows := Members.ActiveRows(db.members, mahber);
    assert Fines.Upto(rows, stop) == rows;
    PassFinesThoseDue(db, rows, mahber, config, db.clock - Fines.Period(config.frequency), u, db.clock);
    PassAddsFresh(db, rows, mahber, config, db.clock - Fines.Period(config.frequency));
    DueExactly(db, mahber, u, config);
    if k :| 0 <= k < |db.members| && Members.IsRow(db.members[k], mahber, u) && db.members[k].status == Active {
      Members.ActiveRowsComplete(db.members, mahber, k);
      assert Reached(db.members, rows, u);
    }
  }

  // ----- stopping and running again

  /** Rows stay with their users, and no status changes but to banned. */
  ghost predicate OnlyBans(before: seq<Membership>, after: seq<Membership>) {
    && |before| == |after|
    && forall k :: 0 <= k < |before| ==> after[k] == before[k] || after[k] == before[k].(status := Banned)
  }

  lemma {:induction false} ActiveRowsShrink(before: seq<Membership>, after: seq<Membership>, mahber: MahberId)
    requires OnlyBans(before, after)
    ensures |Members.ActiveRows(after, mahber)| <= |Members.ActiveRows(before, mahber)|
  {
    if before != [] {
      var n := |before| - 1;
      ActiveRowsShrink(before[..n], after[..n], mahber);
    }
  }

  lemma BansKeepOneRowEach(before: seq<Membership>, after: seq<Membership>)
    requires OnlyBans(before, after) && Members.OneRowEach(before)
    ensures Members.OneRowEach(after)
  {
    forall i, j | 0 <= i < j < |after| ensures !Members.IsRow(after[j], after[i].mahber, after[i].member) {
      assert !Members.IsRow(before[j], before[i].mahber, before[i].member);
    }
  }

  function DeliverFines(db: Db, mahber: MahberId, config: Config, a: Attempt): Db {
    Do(db, Tick(a.wait, FineJob(mahber, config, a.stop)))
  }

  lemma DeliveryIsJob(db: Db, mahber: MahberId, config: Config, a: Attempt)
    ensures DeliverFines(db, mahber, config, a) ==
            Fines.FineJob(db.(clock := db.clock + a.wait), mahber, config, a.stop)
  {
    hide Fines.FineJob;
  }

  /** The rows a delivery gets through. */
  function RowsReached(db: Db, mahber: MahberId, a: Attempt): seq<nat> {
    Fines.Upto(Members.ActiveRows(db.members, mahber), a.stop)
  }

  lemma DeliveryRows(db: Db, mahber: MahberId, config: Config, a: Attempt)
    requires Members.OneRowEach(db.members)
    ensures var after := DeliverFines(db, mahber, config, a);
            && after.clock == db.clock + a.wait && OnlyBans(db.members, after.members)
            && (forall k :: 0 <= k < |db.members| && k !in RowsReached(db, mahber, a) ==>
                  after.members[k] == db.members[k])
            && Members.OneRowEach(after.members)
            && |Members.ActiveRows(after.members, mahber)| <= |Members.ActiveRows(db.members, mahber)|
  {
    hide Fines.FineMembers, Fines.Period, Members.ActiveRows, Members.OneRowEach, IsOver, DeliverFines;
    var start := db.(clock := db.clock + a.wait);
    DeliveryIsJob(db, mahber, config, a);
    PassBansThoseOver(start, RowsReached(db, mahber, a), mahber, config, start.clock - Fines.Period(config.frequency));
    var after := DeliverFines(db, mahber, config, a);
    ActiveRowsShrink(db.members, after.members, mahber);
    BansKeepOneRowEach(db.members, after.members);
  }

  lemma ReachedAreActive(db: Db, mahber: MahberId, a: Attempt, u: UserId)
    requires Reached(db.members, RowsReached(db, mahber, a), u)
    ensures Spending.IsActiveMember(db.members, mahber, u)
  {
    hide Members.ActiveRows;
    var rows := RowsReached(db, mahber, a);
    var i :| 0 <= i < |rows| && rows[i] < |db.members| && db.members[rows[i]].member == u;
    assert Members.IsRow(db.members[rows[i]], mahber, u);
  }

  lemma OnlyActiveStayActive(before: seq<Membership>, after: seq<Membership>, mahber: MahberId, u: UserId)
    requires OnlyBans(before, after) && Spending.IsActiveMember(after, mahber, u)
    ensures Spending.IsActiveMember(before, mahber, u)
  {
    var k :| 0 <= k < |after| && Members.IsRow(after[k], mahber, u) && after[k].status == Active;
    assert Members.IsRow(before[k], mahber, u) && before[k].status == Active;
  }

  lemma NotReachedStayActive(db: Db, after: seq<Membership>, mahber: MahberId, a: Attempt, u: UserId)
    requires !Reached(db.members, RowsReached(db, mahber, a), u) && Spending.IsActiveMember(db.members, mahber, u)
    requires |after| == |db.members|
    requires forall k :: 0 <= k < |db.members| && k !in RowsReached(db, mahber, a) ==> after[k] == db.members[k]
    ensures Spending.IsActiveMember(after, mahber, u) && a.stop < |Members.ActiveRows(db.members, mahber)|
  {
    hide Members.ActiveRows;
    var rows := RowsReached(db, mahber, a);
    var k :| 0 <= k < |db.members| && Members.IsRow(db.members[k], mahber, u) && db.members[k].status == Active;
    Members.ActiveRowsComplete(db.members, mahber, k);
    assert k !in rows;
    assert Members.IsRow(after[k], mahber, u) && after[k].status == Active;
  }

  /** Whom a delivery reaches is active; whom it does not stays so, and it stopped before them. */
  lemma DeliveryReaches(db: Db, mahber: MahberId, config: Config, a: Attempt, u: UserId)
    requires Members.OneRowEach(db.members)
    ensures var after := DeliverFines(db, mahber, config, a);
            var reached := Reached(db.members, RowsReached(db, mahber, a), u);
            && (reached ==> Spending.IsActiveMember(db.members, mahber, u))
            && (Spending.IsActiveMember(after.members, mahber, u) ==> Spending.IsActiveMember(db.members, mahber, u))
            && (!reached && Spending.IsActiveMember(db.members, mahber, u) ==>
                  && Spending.IsActiveMember(after.members, mahber, u)
                  && a.stop < |Members.ActiveRows(db.members, mahber)|)
  {
    hide DeliverFines, Members.ActiveRows, Members.OneRowEach, Spending.IsActiveMember, Reached, RowsReached;
    var after := DeliverFines(db, mahber, config, a);
    DeliveryRows(db, mahber, config, a);
    if Reached(db.members, RowsReached(db, mahber, a), u) {
      ReachedAreActive(db, mahber, a, u);
    } else if Spending.IsActiveMember(db.members, mahber, u) {
      NotReachedStayActive(db, after.members, mahber, a, u);
    }
    if Spending.IsActiveMember(after.members, mahber, u) {
      OnlyActiveStayActive(db.members, after.members, mahber, u);
    }
  }

  /** A delivery fines whom it reaches if they are due, and then they are not due again within the gap. */
  lemma DeliveryFines(db: Db, mahber: MahberId, config: Config, a: Attempt, u: UserId, at: Time)
    requires Members.OneRowEach(db.members)
    ensures var after := DeliverFines(db, mahber, config, a);
            var now := db.clock + a.wait;
            var fined := Reached(db.members, RowsReached(db, mahber, a), u) && DueAt(db, mahber, u, config, now);
            && MissedFines(after.fines, mahber, u) == MissedFines(db.fines, mahber, u) + (if fined then 1 else 0)
            && (!fined ==> (DueAt(after, mahber, u, config, at) <==> DueAt(db, mahber, u, config, at)))
            && (fined && now <= at < now + Gap(config) ==> !DueAt(after, mahber, u, config, at))
  {
    hide Fines.FineMembers, MissedFines, Fines.DueForFine, Fines.Period, Members.ActiveRows, Members.OneRowEach, Gap,
      Reached, DeliverFines;
    var start := db.(clock := db.clock + a.wait);
    DeliveryIsJob(db, mahber, config, a);
    var since := start.clock - Fines.Period(config.frequency);
    PassFinesThoseDue(start, RowsReached(db, mahber, a), mahber, config, since, u, at);
    SameNow(db, start, mahber, config, u, at);
  }

  /** Being due at a time does not depend on the clock. */
  lemma SameNow(db: Db, start: Db, mahber: MahberId, config: Config, u: UserId, at: Time)
    requires start == db.(clock := start.clock)
    ensures DueAt(start, mahber, u, config, at) <==> DueAt(db, mahber, u, config, at)
  {
    hide Fines.PaidSince, Fines.LatestFine, Fines.Period, Fines.ReadInterval;
  }

  /** Whoever is not active, or not even due at the end, is not fined now and stays so. */
  lemma NotFinedNow(db: Db, mahber: MahberId, config: Config, a: Attempt, u: UserId, end: Time)
    requires Members.OneRowEach(db.members) && db.clock + a.wait <= end
    requires !Spending.IsActiveMember(db.members, mahber, u) || !DueAt(db, mahber, u, config, end)
    ensures var after := DeliverFines(db, mahber, config, a);
            && MissedFines(after.fines, mahber, u) == MissedFines(db.fines, mahber, u)
            && (!Spending.IsActiveMember(after.members, mahber, u) || !DueAt(after, mahber, u, config, end))
  {
    hide DeliverFines, DueAt, MissedFines, Spending.IsActiveMember, Members.OneRowEach, RowsReached, Reached, Gap;
    var now := db.clock + a.wait;
    DeliveryReaches(db, mahber, config, a, u);
    DeliveryFines(db, mahber, config, a, u, end);
    if DueAt(db, mahber, u, config, now) {
      DueLater(db, mahber, u, config, now, end);
    }
  }

  function DeliverAllFines(db: Db, mahber: MahberId, config: Config, attempts: seq<Attempt>): Db
    decreases |attempts|
  {
    if attempts == [] then db
    else DeliverAllFines(DeliverFines(db, mahber, config, attempts[0]), mahber, config, attempts[1..])
  }

  function Waited(attempts: seq<Attempt>): nat {
    if attempts == [] then 0 else attempts[0].wait + Waited(attempts[1..])
  }

  lemma {:induction false} NobodyElseFined(db: Db, mahber: MahberId, config: Config, attempts: seq<Attempt>, u: UserId)
    requires Members.OneRowEach(db.members)
    requires !Spending.IsActiveMember(db.members, mahber, u)
             || !DueAt(db, mahber, u, config, db.clock + Waited(attempts))
    ensures MissedFines(DeliverAllFines(db, mahber, config, attempts).fines, mahber, u) ==
            MissedFines(db.fines, mahber, u)
    decreases |attempts|
  {
    hide DeliverFines, DueAt, MissedFines, Spending.IsActiveMember, Members.OneRowEach, Members.ActiveRows, OnlyBans;
    if attempts != [] {
      NotFinedNow(db, mahber, config, attempts[0], u, db.clock + Waited(attempts));
      DeliveryRows(db, mahber, config, attempts[0]);
      NobodyElseFined(DeliverFines(db, mahber, config, attempts[0]), mahber, config, attempts[1..], u);
    }
  }

  lemma {:induction false} DueFinedOnce(db: Db, mahber: MahberId, config: Config, attempts: seq<Attempt>, u: UserId)
    requires Members.OneRowEach(db.members) && attempts != []
    requires attempts[|attempts| - 1].stop >= |Members.ActiveRows(db.members, mahber)|
    requires Waited(attempts[1..]) < Gap(config)
    requires Spending.IsActiveMember(db.members, mahber, u)
             && DueAt(db, mahber, u, config, db.clock + attempts[0].wait)
    ensures MissedFines(DeliverAllFines(db, mahber, config, attempts).fines, mahber, u) ==
            MissedFines(db.fines, mahber, u) + 1
    decreases |attempts|
  {
    hide DeliverFines, DueAt, MissedFines, Gap, Spending.IsActiveMember, Members.OneRowEach, Members.ActiveRows,
      RowsReached, Reached, OnlyBans;
    var now, end := db.clock + attempts[0].wait, db.clock + Waited(attempts);
    var next := DeliverFines(db, mahber, config, attempts[0]);
    DeliveryRows(db, mahber, config, attempts[0]);
    DeliveryReaches(db, mahber, config, attempts[0], u);
    if Reached(db.members, RowsReached(db, mahber, attempts[0]), u) {
      DeliveryFines(db, mahber, config, attempts[0], u, end);
      NobodyElseFined(next, mahber, config, attempts[1..], u);
    } else {
      var rest := attempts[1..];
      assert rest != [] && rest[|rest| - 1] == attempts[|attempts| - 1];
      DeliveryFines(db, mahber, config, attempts[0], u, now + rest[0].wait);
      DueLater(db, mahber, u, config, now, now + rest[0].wait);
      DueFinedOnce(next, mahber, config, rest, u);
    }
  }

  /**
   However often the fine job stops between members and is run again within the gap, once
   some run gets through everybody, each member active and overdue when it first ran has
   exactly one new fine, and nobody has any who is not active or not even overdue at the end.
   Unless somebody fell due in between, these are the fines of one full run.
   */
  lemma RetriedJobFinesOnce(db: Db, mahber: MahberId, config: Config, attempts: seq<Attempt>, last: Attempt, u: UserId)
    requires Members.OneRowEach(db.members) && last.stop >= |Members.ActiveRows(db.members, mahber)|
    requires Waited((attempts + [last])[1..]) < Gap(config)
    ensures var all := attempts + [last];
            var after := DeliverAllFines(db, mahber, config, all);
            var added := MissedFines(after.fines, mahber, u) - MissedFines(db.fines, mahber, u);
            var once := DeliverFines(db, mahber, config, Attempt(all[0].wait, last.stop));
            var active := Spending.IsActiveMember(db.members, mahber, u);
            var period, interval := Fines.Period(config.frequency), Fines.ReadInterval(config.penaltyInterval);
            var first := Overdue(db.(clock := db.clock + all[0].wait), mahber, u, period, interval);
            var end := Overdue(db.(clock := db.clock + Waited(all)), mahber, u, period, interval);
            && (active && first ==> added == 1)
            && (!active || !end ==> added == 0)
            && ((first <==> end) ==> added == MissedFines(once.fines, mahber, u) - MissedFines(db.fines, mahber, u))
  {
    hide DeliverFines, DeliverAllFines, DueAt, MissedFines, Gap, Spending.IsActiveMember, Members.OneRowEach,
      Members.ActiveRows, RowsReached, Reached, Overdue, Fines.Period, Fines.ReadInterval;
    var all := attempts + [last];
    DueAtExactly(db, mahber, u, config, db.clock + all[0].wait);
    DueAtExactly(db, mahber, u, config, db.clock + Waited(all));
    if Spending.IsActiveMember(db.members, mahber, u) && DueAt(db, mahber, u, config, db.clock + all[0].wait) {
      DueFinedOnce(db, mahber, config, all, u);
    }
    if !Spending.IsActiveMember(db.members, mahber, u) || !DueAt(db, mahber, u, config, db.clock + Waited(all)) {
      NobodyElseFined(db, mahber, config, all, u);
    }
    DeliveryReaches(db, mahber, config, Attempt(all[0].wait, last.stop), u);
    DeliveryFines(db, mahber, config, Attempt(all[0].wait, last.stop), u, db.clock);
  }

  // ----- what clears a fine

  function UnpaidTotal(fines: seq<Fine>, mahber: MahberId, member: UserId): Money {
    if fines == [] then 0.0
    else
      var n := |fines| - 1;
      var f := fines[n];
      UnpaidTotal(fines[..n], mahber, member) +
      (if f.mahber == mahber && f.member == member && !f.waived && f.paidAt.None? then f.amount else 0.0)
  }

  function PaidTotal(fines: seq<Fine>, mahber: MahberId, member: UserId): Money {
    if fines == [] then 0.0
    else
      var n := |fines| - 1;
      var f := fines[n];
      PaidTotal(fines[..n], mahber, member) +
      (if f.mahber == mahber && f.member == member && !f.waived && f.paidAt.Some? then f.amount else 0.0)
  }

  lemma {:induction false} TotalIsUnpaidAndPaid(fines: seq<Fine>, mahber: MahberId, member: UserId)
    ensures Fines.FineTotal(fines, mahber, member) == UnpaidTotal(fines, mahber, member) +
            PaidTotal(fines, mahber, member)
  {
    if fines != [] {
      TotalIsUnpaidAndPaid(fines[..|fines| - 1], mahber, member);
    }
  }

  /**
   The threshold is meant for unpaid fines but counts paid ones too: the two readings differ
   exactly when paid fines carry the sum over the threshold, or negative ones carry it under.
   */
  lemma ThresholdMistakenExactly(fines: seq<Fine>, mahber: MahberId, member: UserId, threshold: Money)
    ensures var unpaid, paid := UnpaidTotal(fines, mahber, member), PaidTotal(fines, mahber, member);
            (Fines.ExceedsThreshold(fines, mahber, member, threshold) <==> unpaid > threshold) <==>
            !(unpaid <= threshold < unpaid + paid) && !(unpaid + paid <= threshold < unpaid)
  {
    TotalIsUnpaidAndPaid(fines, mahber, member);
  }

  /** They agree whatever the threshold exactly when the paid fines add up to nothing. */
  lemma ThresholdRightExactly(fines: seq<Fine>, mahber: MahberId, member: UserId)
    ensures (forall threshold :: Fines.ExceedsThreshold(fines, mahber, member, threshold) <==>
                                 UnpaidTotal(fines, mahber, member) > threshold)
            <==> PaidTotal(fines, mahber, member) == 0.0
  {
    TotalIsUnpaidAndPaid(fines, mahber, member);
    var unpaid, paid := UnpaidTotal(fines, mahber, member), PaidTotal(fines, mahber, member);
    var between := if paid > 0.0 then unpaid else unpaid + paid;
    assert paid != 0.0 ==> !(Fines.ExceedsThreshold(fines, mahber, member, between) <==> unpaid > between);
  }

  ghost predicate SameCounting(fines: seq<Fine>, fines': seq<Fine>, mahber: MahberId, member: UserId) {
    && |fines| == |fines'|
    && forall i :: 0 <= i < |fines| ==>
         && (Fines.CountsAgainst(fines[i], mahber, member) <==> Fines.CountsAgainst(fines'[i], mahber, member))
         && fines[i].amount == fines'[i].amount
  }

  lemma {:induction false} SameTotal(fines: seq<Fine>, fines': seq<Fine>, mahber: MahberId, member: UserId)
    requires SameCounting(fines, fines', mahber, member)
    ensures Fines.FineTotal(fines, mahber, member) == Fines.FineTotal(fines', mahber, member)
  {
    if fines != [] {
      var n := |fines| - 1;
      SameTotal(fines[..n], fines'[..n], mahber, member);
    }
  }

  predicate NeverWaives(op: Op, mahber: MahberId) {
    op.Waive? ==> op.mahber != mahber
  }

  /** No fine of the mahber was waived in between. */
  ghost predicate NoneWaived(before: seq<Fine>, after: seq<Fine>, mahber: MahberId) {
    && |before| <= |after|
    && forall x :: 0 <= x < |before| && before[x].mahber == mahber ==>
         after[x].mahber == mahber && after[x].waived == before[x].waived
  }

  lemma ChangeWaivesNone(db: Db, c: Change, mahber: MahberId)
    requires Legal(db, c) && (c.WaiveFine? ==> c.mahber != mahber)
    ensures NoneWaived(db.fines, Play(db, c).fines, mahber)
  {
    hide Ledger.Post, Lottery.AllPaid, Fines.DueForFine, Fines.Mentions, Payments.Overlap, Payments.Superseded,
      Payments.MemberAfterPayment, MembersGrow, OfPayer;
  }

  lemma {:induction false} ChangesWaiveNone(db: Db, cs: seq<Change>, op: Op, mahber: MahberId)
    requires LegalAll(db, cs) && NeverWaives(op, mahber) && forall c :: c in cs ==> Suits(op, c)
    ensures NoneWaived(db.fines, PlayAll(db, cs).fines, mahber)
    decreases |cs|
  {
    hide Legal, Play;
    if cs != [] {
      assert Suits(op, cs[0]);
      ChangeWaivesNone(db, cs[0], mahber);
      ChangesWaiveNone(Play(db, cs[0]), cs[1..], op, mahber);
    }
  }

  lemma DoWaivesNone(db: Db, t: Tick, mahber: MahberId)
    requires Inv(db) && NeverWaives(t.op, mahber)
    ensures NoneWaived(db.fines, Do(db, t).fines, mahber)
  {
    hide Inv, Apply, LegalAll, PlayAll, NoneWaived, NeverWaives, Suits;
    AtIsFine(db, t);
    var now := At(db, t);
    InvHasAmounts(now);
    var cs := OpChanges(now, t.op);
    ChangesWaiveNone(now, cs, t.op, mahber);
  }

  lemma {:induction false} RunWaivesNone(db: Db, ticks: seq<Tick>, mahber: MahberId)
    requires Inv(db) && forall t :: t in ticks ==> NeverWaives(t.op, mahber)
    ensures NoneWaived(db.fines, Run(db, ticks).fines, mahber)
  {
    hide Inv, Do, NeverWaives, Grows;
    if ticks != [] {
      var n := |ticks| - 1;
      RunWaivesNone(db, ticks[..n], mahber);
      RunKeepsAll(db, ticks[..n]);
      DoWaivesNone(Run(db, ticks[..n]), ticks[n], mahber);
    }
  }

  lemma {:induction false} TotalSplits(first: seq<Fine>, rest: seq<Fine>, mahber: MahberId, member: UserId)
    ensures Fines.FineTotal(first + rest, mahber, member) ==
            Fines.FineTotal(first, mahber, member) + Fines.FineTotal(rest, mahber, member)
  {
    if rest == [] {
      assert first + rest == first;
    } else {
      var n := |rest| - 1;
      TotalSplits(first, rest[..n], mahber, member);
      assert (first + rest)[..|first| + n] == first + rest[..n];
    }
  }

  lemma TotalGrowsByNew(before: seq<Fine>, after: seq<Fine>, mahber: MahberId, member: UserId)
    requires FinesGrow(before, after) && NoneWaived(before, after, mahber)
    ensures Fines.FineTotal(after, mahber, member) ==
            Fines.FineTotal(before, mahber, member) + Fines.FineTotal(after[|before|..], mahber, member)
  {
    hide Fines.FineTotal;
    var old' := after[..|before|];
    assert SameCounting(before, old', mahber, member);
    SameTotal(before, old', mahber, member);
    assert after == old' + after[|before|..];
    TotalSplits(old', after[|before|..], mahber, member);
  }

  /**
   Payment never clears a fine: over every run without a waiver, what counts against a
   member changes by exactly the fines added meanwhile, whatever is paid. A member above the
   threshold stays above it, and out of every eligible list, unless new fines are negative.
   */
  lemma PayingNeverClears(db: Db, ticks: seq<Tick>, mahber: MahberId, member: UserId, threshold: Money)
    requires Inv(db) && forall t :: t in ticks ==> NeverWaives(t.op, mahber)
    ensures var after := Run(db, ticks);
            && |db.fines| <= |after.fines|
            && var added := Fines.FineTotal(after.fines[|db.fines|..], mahber, member);
               && Fines.FineTotal(after.fines, mahber, member) == Fines.FineTotal(db.fines, mahber, member) + added
               && (Fines.ExceedsThreshold(db.fines, mahber, member, threshold) && added >= 0.0 ==>
                     && Fines.ExceedsThreshold(after.fines, mahber, member, threshold)
                     && member !in Lottery.Eligible(after, mahber, threshold, |after.members|))
  {
    hide Run, Inv, Fines.FineTotal, NeverWaives, NoneWaived, FinesGrow, Lottery.Eligible, MembersGrow, PaymentsGrow;
    var after := Run(db, ticks);
    RunKeepsAll(db, ticks);
    RunWaivesNone(db, ticks, mahber);
    FinesOnlyGrow(db.fines, after.fines);
    TotalGrowsByNew(db.fines, after.fines, mahber, member);
    if member in Lottery.Eligible(after, mahber, threshold, |after.members|) {
      var i := EligibleRow(after, mahber, threshold, |after.members|, member);
    }
  }

  lemma FinesOnlyGrow(before: seq<Fine>, after: seq<Fine>)
    requires FinesGrow(before, after)
    ensures |before| <= |after|
  {
  }

  /** A waiver is refused exactly for a fine that is not the mahber's or already waived, and then changes nothing. */
  lemma WaiverRefusedExactly(db: Db, mahber: MahberId, fine: nat)
    ensures var out := Fines.Waive(db, mahber, fine);
            && (out.refusal == Some(NotFound) <==> !(fine < |db.fines| && db.fines[fine].mahber == mahber))
            && (out.refusal == Some(AlreadyWaived) <==>
                  fine < |db.fines| && db.fines[fine].mahber == mahber && db.fines[fine].waived)
            && (out.refusal.Some? ==> out.db == db && out.refusal.value in {NotFound, AlreadyWaived})
            && (out.refusal.None? ==>
                  && out.db == db.(fines := out.db.fines) && |out.db.fines| == |db.fines|
                  && forall x :: 0 <= x < |db.fines| ==>
                       out.db.fines[x] == if x == fine then db.fines[x].(waived := true) else db.fines[x])
  {
  }

  /** Only a waiver does: it takes exactly the fine's amount off, and cannot be repeated. */
  lemma WaiverTakesOff(db: Db, mahber: MahberId, fine: nat)
    requires Fines.Waive(db, mahber, fine).refusal.None?
    ensures var after := Fines.Waive(db, mahber, fine).db;
            var member := db.fines[fine].member;
            && Fines.FineTotal(after.fines, mahber, member) ==
               Fines.FineTotal(db.fines, mahber, member) - db.fines[fine].amount
            && after.ledger == db.ledger
            && Fines.Waive(after, mahber, fine).refusal == Some(AlreadyWaived)
  {
    hide Fines.FineTotal;
    TotalOfWaived(db.fines, fine);
  }

  lemma {:induction false} TotalOfWaived(fines: seq<Fine>, x: nat)
    requires x < |fines| && !fines[x].waived
    ensures var f := fines[x];
            Fines.FineTotal(fines[x := f.(waived := true)], f.mahber, f.member) ==
              Fines.FineTotal(fines, f.mahber, f.member) - f.amount
  {
    var n := |fines| - 1;
    var f := fines[x];
    if x < n {
      TotalOfWaived(fines[..n], x);
      assert fines[x := f.(waived := true)][..n] == fines[..n][x := f.(waived := true)];
    } else {
      assert fines[x := f.(waived := true)][..n] == fines[..n];
    }
  }
}
