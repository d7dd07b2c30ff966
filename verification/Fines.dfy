/** Fines: calculating, applying and waiving them, and the two background jobs that apply them. */
module Fines {
  import opened Wrappers
  import opened MoneyRecords
  import DueDates
  import Ledger
  import Members

  const DAY_MS: int := 24 * 60 * 60 * 1000
  const HOUR_MS: int := 60 * 60 * 1000
  const MINUTE_MS: int := 60 * 1000

  function CalculateFine(rate: Money, contribution: Money, mode: PenaltyMode): Money {
    if mode == Percentage then contribution * rate / 100.0 else rate
  }

  /** A fine row and its debit entry. */
  function ApplyFine(db: Db, mahber: MahberId, member: UserId, violation: Violation, config: Config,
                     description: string): (after: Db)
    ensures after.members == db.members && after.clock == db.clock
  {
    var amount := CalculateFine(config.penaltyRate, config.contributionAmount, config.penaltyMode);
    db.(fines := db.fines + [Fine(mahber, member, violation, amount, false, None, None, db.clock)],
        ledger := Ledger.Post(db.ledger, db.clock, mahber, member, FineEntry, -amount, description, OfFine(|db.fines|)))
  }

  function Waive(db: Db, mahber: MahberId, fine: nat): Effect {
    if fine >= |db.fines| || db.fines[fine].mahber != mahber then Effect(db, Some(NotFound))
    else if db.fines[fine].waived then Effect(db, Some(AlreadyWaived))
    else Effect(db.(fines := db.fines[fine := db.fines[fine].(waived := true)]), None)
  }

  predicate CountsAgainst(f: Fine, mahber: MahberId, member: UserId) {
    f.mahber == mahber && f.member == member && !f.waived
  }

  /** The sum of the member's fines that were not waived, paid ones included. */
  function FineTotal(fines: seq<Fine>, mahber: MahberId, member: UserId): Money {
    if fines == [] then 0.0
    else
      var n := |fines| - 1;
      FineTotal(fines[..n], mahber, member) + (if CountsAgainst(fines[n], mahber, member) then fines[n].amount else 0.0)
  }

  predicate ExceedsThreshold(fines: seq<Fine>, mahber: MahberId, member: UserId, threshold: Money) {
    FineTotal(fines, mahber, member) > threshold
  }

  // ----- the penalty interval

  predicate IsDigit(c: char) {
    '0' <= c <= '9'
  }

  predicate AllDigits(s: string) {
    forall i :: 0 <= i < |s| ==> IsDigit(s[i])
  }

  function ReadNat(s: string): nat
    requires AllDigits(s)
  {
    if s == "" then 0
    else
      assert IsDigit(s[|s| - 1]);
      10 * ReadNat(s[..|s| - 1]) + (s[|s| - 1] as int - '0' as int)
  }

  /** Digits followed by d, h or m; anything else is thirty days. */
  function ReadInterval(interval: Option<string>): nat {
    if interval.None? then 30 * DAY_MS
    else
      var s := interval.value;
      var n := |s| - 1;
      if n < 1 || !AllDigits(s[..n]) then 30 * DAY_MS
      else if s[n] == 'd' then ReadNat(s[..n]) * DAY_MS
      else if s[n] == 'h' then ReadNat(s[..n]) * HOUR_MS
      else if s[n] == 'm' then ReadNat(s[..n]) * MINUTE_MS
      else 30 * DAY_MS
  }

  function Period(frequency: Option<string>): int {
    match DueDates.ReadFrequency(frequency)
    case Daily => DAY_MS
    case Weekly => 7 * DAY_MS
    case Quarterly => 90 * DAY_MS
    case _ => 30 * DAY_MS
  }

  // ----- missed payments

  predicate IsRecentContribution(e: Entry, mahber: MahberId, member: UserId, since: Time) {
    Ledger.Concerns(e, mahber, member) && e.kind == ContributionEntry && e.createdAt >= since
  }

  predicate PaidSince(ledger: seq<Entry>, mahber: MahberId, member: UserId, since: Time) {
    exists i :: 0 <= i < |ledger| && IsRecentContribution(ledger[i], mahber, member, since)
  }

  predicate IsMissedPayment(f: Fine, mahber: MahberId, member: UserId) {
    f.mahber == mahber && f.member == member && f.violation == MissedPayment
  }

  /** The time of the member's latest missed-payment fine since a date. */
  function LatestFine(fines: seq<Fine>, mahber: MahberId, member: UserId, since: Time): (r: Option<Time>)
    ensures r.None? ==> forall i :: 0 <= i < |fines| && IsMissedPayment(fines[i], mahber, member) ==>
            fines[i].createdAt < since
    ensures r.Some? ==> forall i :: 0 <= i < |fines| && IsMissedPayment(fines[i], mahber, member) ==>
            fines[i].createdAt <= r.value
    ensures r.Some? ==> r.value >= since
    ensures r.Some? ==> exists i :: 0 <= i < |fines| && IsMissedPayment(fines[i], mahber, member)
                                    && fines[i].createdAt == r.value
  {
    if fines == [] then None
    else
      var n := |fines| - 1;
      var before := LatestFine(fines[..n], mahber, member, since);
      if IsMissedPayment(fines[n], mahber, member) && fines[n].createdAt >= since
         && (before.None? || fines[n].createdAt >= before.value)
      then Some(fines[n].createdAt) else before
  }

  predicate DueForFine(db: Db, mahber: MahberId, member: UserId, config: Config, since: Time) {
    && !PaidSince(db.ledger, mahber, member, since)
    && var latest := LatestFine(db.fines, mahber, member, since);
       latest.None? || db.clock - latest.value >= ReadInterval(config.penaltyInterval)
  }

  function FrequencyName(config: Config): string {
    if config.frequency.Some? then config.frequency.value else "Monthly"
  }

  function OverdueText(config: Config): string {
    "Missed contribution payment (frequency: " + FrequencyName(config) + ")"
  }

  function FineIfDue(db: Db, mahber: MahberId, member: UserId, config: Config, since: Time): (after: Db)
    ensures after.members == db.members && after.clock == db.clock
  {
    if DueForFine(db, mahber, member, config, since)
    then ApplyFine(db, mahber, member, MissedPayment, config, OverdueText(config))
    else db
  }

  function BanIfOver(db: Db, row: nat, mahber: MahberId, config: Config): Db
    requires row < |db.members|
  {
    if config.maxFineTotal > 0.0 && ExceedsThreshold(db.fines, mahber, db.members[row].member, config.maxFineTotal)
    then db.(members := db.members[row := db.members[row].(status := Banned)])
    else db
  }

  /** What the job does for one active member. */
  function FineMember(db: Db, row: nat, mahber: MahberId, config: Config, since: Time): (after: Db)
    requires row < |db.members|
    ensures |after.members| == |db.members| && after.clock == db.clock
  {
    BanIfOver(FineIfDue(db, mahber, db.members[row].member, config, since), row, mahber, config)
  }

  function FineMembers(db: Db, rows: seq<nat>, mahber: MahberId, config: Config, since: Time): (after: Db)
    requires forall i :: 0 <= i < |rows| ==> rows[i] < |db.members|
    ensures |after.members| == |db.members| && after.clock == db.clock
  {
    if rows == [] then db
    else
      var n := |rows| - 1;
      FineMember(FineMembers(db, rows[..n], mahber, config, since), rows[n], mahber, config, since)
  }

  function Upto<T>(s: seq<T>, stop: nat): seq<T> {
    if stop <= |s| then s[..stop] else s
  }

  /** One run of the daily job over a mahber, which may stop after `stop` members. */
  function FineJob(db: Db, mahber: MahberId, config: Config, stop: nat): Db {
    var since := db.clock - Period(config.frequency);
    FineMembers(db, Upto(Members.ActiveRows(db.members, mahber), stop), mahber, config, since)
  }

  // ----- missed attendance

  predicate Contains(text: string, part: string) {
    exists i :: 0 <= i <= |text| - |part| && text[i..][..|part|] == part
  }

  predicate Mentions(ledger: seq<Entry>, mahber: MahberId, member: UserId, eventId: string) {
    exists i :: 0 <= i < |ledger| && Ledger.Concerns(ledger[i], mahber, member)
      && Contains(ledger[i].description, eventId)
  }

  datatype Event = Event(id: string, title: string, mandatory: bool)

  function AbsenceText(e: Event): string {
    "Absent from mandatory event: " + e.title + " (" + e.id + ")"
  }

  function FineAbsentee(db: Db, mahber: MahberId, member: UserId, e: Event, config: Config): Db {
    if Mentions(db.ledger, mahber, member, e.id) then db
    else ApplyFine(db, mahber, member, MissedAttendance, config, AbsenceText(e))
  }

  function FineAbsentees(db: Db, absent: seq<UserId>, mahber: MahberId, e: Event, config: Config): Db {
    if absent == [] then db
    else
      var n := |absent| - 1;
      FineAbsentee(FineAbsentees(db, absent[..n], mahber, e, config), mahber, absent[n], e, config)
  }

  /** Active members without an attendance record, in table order. */
  function Absent(members: seq<Membership>, mahber: MahberId, attended: set<UserId>): seq<UserId> {
    if members == [] then []
    else
      var n := |members| - 1;
      Absent(members[..n], mahber, attended) +
      (if members[n].mahber == mahber && members[n].status == Active && members[n].member !in attended
       then [members[n].member] else [])
  }

  /** One run of the attendance job for an event, which may stop after `stop` absentees. */
  function AttendanceJob(db: Db, mahber: MahberId, e: Event, attended: set<UserId>, config: Config, stop: nat): Db {
    if !e.mandatory then db
    else FineAbsentees(db, Upto(Absent(db.members, mahber, attended), stop), mahber, e, config)
  }
}
