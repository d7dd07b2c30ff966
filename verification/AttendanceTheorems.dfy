/** Absence fines under a job that is delivered at least once and may stop between any two members. */
module AttendanceTheorems {
  import opened MoneyRecords
  import opened MoneyMachine
  import opened MoneyChanges
  import opened MoneyInvariants
  import FineTheorems
  import Ledger
  import Members
  import Fines

  predicate IsAbsenceFine(f: Fine, mahber: MahberId, member: UserId) {
    f.mahber == mahber && f.member == member && f.violation == MissedAttendance
  }

  function AbsenceFines(fines: seq<Fine>, mahber: MahberId, member: UserId): nat {
    if fines == [] then 0
    else
      var n := |fines| - 1;
      AbsenceFines(fines[..n], mahber, member) + (if IsAbsenceFine(fines[n], mahber, member) then 1 else 0)
  }

  lemma AbsenceFinesAfter(fines: seq<Fine>, f: Fine, mahber: MahberId, member: UserId)
    ensures AbsenceFines(fines + [f], mahber, member) ==
            AbsenceFines(fines, mahber, member) + (if IsAbsenceFine(f, mahber, member) then 1 else 0)
  {
    assert (fines + [f])[..|fines|] == fines;
  }

  // ----- one member

  /** The text of an absence fine contains the event's id. */
  lemma AbsenceTextNamesEvent(e: Fines.Event)
    ensures Fines.Contains(Fines.AbsenceText(e), e.id)
  {
    var head := "Absent from mandatory event: " + e.title + " (";
    var text := Fines.AbsenceText(e);
    assert text == head + (e.id + ")");
    assert text[|head|..] == e.id + ")";
    assert text[|head|..][..|e.id|] == e.id;
  }

  lemma MentionsAfter(ledger: seq<Entry>, e: Entry, mahber: MahberId, member: UserId, id: string)
    ensures Fines.Mentions(ledger + [e], mahber, member, id) <==>
            Fines.Mentions(ledger, mahber, member, id)
            || (Ledger.Concerns(e, mahber, member) && Fines.Contains(e.description, id))
  {
    hide Fines.Contains;
    var after := ledger + [e];
    if Fines.Mentions(ledger, mahber, member, id) {
      var i :| 0 <= i < |ledger| && Ledger.Concerns(ledger[i], mahber, member)
        && Fines.Contains(ledger[i].description, id);
      assert after[i] == ledger[i];
    }
    assert after[|ledger|] == e;
  }

  lemma MentionsStay(before: seq<Entry>, after: seq<Entry>, mahber: MahberId, member: UserId, id: string)
    requires before <= after && Fines.Mentions(before, mahber, member, id)
    ensures Fines.Mentions(after, mahber, member, id)
  {
    hide Fines.Contains;
    var i :| 0 <= i < |before| && Ledger.Concerns(before[i], mahber, member)
      && Fines.Contains(before[i].description, id);
    assert after[i] == before[i];
  }

  /** What the job does for one absentee, seen from any member. */
  lemma FineAbsenteeFacts(db: Db, mahber: MahberId, absentee: UserId, e: Fines.Event, config: Config, member: UserId)
    ensures var after := Fines.FineAbsentee(db, mahber, absentee, e, config);
            var mentioned := Fines.Mentions(db.ledger, mahber, member, e.id);
            && (Fines.Mentions(after.ledger, mahber, member, e.id) <==> mentioned || member == absentee)
            && AbsenceFines(after.fines, mahber, member) ==
               AbsenceFines(db.fines, mahber, member) + (if member == absentee && !mentioned then 1 else 0)
            && after.members == db.members
  {
    hide Ledger.LastBalance, Fines.Mentions, AbsenceFines, Fines.Contains, Fines.CalculateFine, Fines.AbsenceText;
    var after := Fines.FineAbsentee(db, mahber, absentee, e, config);
    if !Fines.Mentions(db.ledger, mahber, absentee, e.id) {
      AbsenceTextNamesEvent(e);
      MentionsAfter(db.ledger, after.ledger[|db.ledger|], mahber, member, e.id);
      AbsenceFinesAfter(db.fines, after.fines[|db.fines|], mahber, member);
    }
  }

  /** A pass over a list of absentees fines exactly those on it who were not yet mentioned, once each. */
  lemma {:induction false} FineAbsenteesFacts(db: Db, absent: seq<UserId>, mahber: MahberId, e: Fines.Event,
                                              config: Config, member: UserId)
    ensures var after := Fines.FineAbsentees(db, absent, mahber, e, config);
            var mentioned := Fines.Mentions(db.ledger, mahber, member, e.id);
            && (Fines.Mentions(after.ledger, mahber, member, e.id) <==> mentioned || member in absent)
            && AbsenceFines(after.fines, mahber, member) ==
               AbsenceFines(db.fines, mahber, member) + (if member in absent && !mentioned then 1 else 0)
            && after.members == db.members
  {
    hide Fines.FineAbsentee, Fines.Mentions, AbsenceFines;
    if absent != [] {
      var n := |absent| - 1;
      assert absent == absent[..n] + [absent[n]];
      FineAbsenteesFacts(db, absent[..n], mahber, e, config, member);
      FineAbsenteeFacts(Fines.FineAbsentees(db, absent[..n], mahber, e, config), mahber, absent[n], e, config, member);
    }
  }

  lemma {:induction false} AbsenteesAddFresh(db: Db, absent: seq<UserId>, mahber: MahberId, e: Fines.Event,
                                             config: Config)
    ensures FineTheorems.AddsFreshFines(db.fines, Fines.FineAbsentees(db, absent, mahber, e, config).fines, mahber,
                                        MissedAttendance, config, db.clock)
    ensures Fines.FineAbsentees(db, absent, mahber, e, config).clock == db.clock
  {
    hide Fines.Mentions, Ledger.Post, Fines.AbsenceText;
    if absent != [] {
      var n := |absent| - 1;
      AbsenteesAddFresh(db, absent[..n], mahber, e, config);
      var before, after := Fines.FineAbsentees(db, absent[..n], mahber, e, config).fines,
          Fines.FineAbsentees(db, absent, mahber, e, config).fines;
      FineTheorems.AddsFreshTwice(db.fines, before, after, mahber, MissedAttendance, config, db.clock);
    }
  }

  // ----- at most once, over every run

  predicate ProcessesEvent(op: Op, mahber: MahberId, eventId: string) {
    op.AttendanceJob? && op.mahber == mahber && op.event.id == eventId
  }

  /** The absence fines a member was given by all runs of the job for one event. */
  function FinedForEvent(db: Db, ticks: seq<Tick>, mahber: MahberId, member: UserId, eventId: string): int {
    if ticks == [] then 0
    else
      var n := |ticks| - 1;
      var before := Run(db, ticks[..n]);
      FinedForEvent(db, ticks[..n], mahber, member, eventId) +
      (if ProcessesEvent(ticks[n].op, mahber, eventId)
       then AbsenceFines(Do(before, ticks[n]).fines, mahber, member) - AbsenceFines(before.fines, mahber, member)
       else 0)
  }

  lemma JobStep(db: Db, t: Tick, mahber: MahberId, member: UserId, eventId: string)
    requires ProcessesEvent(t.op, mahber, eventId)
    ensures var after := Do(db, t);
            var mentioned := Fines.Mentions(db.ledger, mahber, member, eventId);
            var fined := AbsenceFines(after.fines, mahber, member) - AbsenceFines(db.fines, mahber, member);
            && 0 <= fined <= 1
            && (fined == 1 ==> !mentioned && Fines.Mentions(after.ledger, mahber, member, eventId))
            && (mentioned ==> Fines.Mentions(after.ledger, mahber, member, eventId))
  {
    hide Fines.FineAbsentees, Fines.Mentions, AbsenceFines, Fines.Absent;
    var op, now := t.op, At(db, t);
    FineAbsenteesFacts(now, Fines.Upto(Fines.Absent(now.members, mahber, op.attended), op.stop), mahber, op.event,
                       op.config, member);
  }

  lemma StepKeepsMentions(db: Db, t: Tick, mahber: MahberId, member: UserId, eventId: string)
    requires Inv(db) && Fines.Mentions(db.ledger, mahber, member, eventId)
    ensures Fines.Mentions(Do(db, t).ledger, mahber, member, eventId)
  {
    hide Inv, Do, Fines.Mentions, MembersGrow, PaymentsGrow, FinesGrow;
    DoKeepsAll(db, t);
    MentionsStay(db.ledger, Do(db, t).ledger, mahber, member, eventId);
  }

  /**
   At most one fine for each member and event: over every run, with the job delivered,
   stopped and retried any number of times among any other calls, all its runs for an event
   fine a member at most once, and never if an earlier entry already mentioned the event.
   */
  lemma {:induction false} AtMostOneAbsenceFine(db: Db, ticks: seq<Tick>, mahber: MahberId, member: UserId,
                                                eventId: string)
    requires Inv(db)
    ensures 0 <= FinedForEvent(db, ticks, mahber, member, eventId) <= 1
    ensures FinedForEvent(db, ticks, mahber, member, eventId) == 1 ==>
              && !Fines.Mentions(db.ledger, mahber, member, eventId)
              && Fines.Mentions(Run(db, ticks).ledger, mahber, member, eventId)
    ensures Fines.Mentions(db.ledger, mahber, member, eventId) ==>
              Fines.Mentions(Run(db, ticks).ledger, mahber, member, eventId)
  {
    hide Inv, Do, Fines.Mentions, AbsenceFines, Grows;
    if ticks != [] {
      var n := |ticks| - 1;
      var before := Run(db, ticks[..n]);
      AtMostOneAbsenceFine(db, ticks[..n], mahber, member, eventId);
      RunKeepsAll(db, ticks[..n]);
      if ProcessesEvent(ticks[n].op, mahber, eventId) {
        JobStep(before, ticks[n], mahber, member, eventId);
      } else if Fines.Mentions(before.ledger, mahber, member, eventId) {
        StepKeepsMentions(before, ticks[n], mahber, member, eventId);
      }
    }
  }

  // ----- stopping and running again

  datatype Job = Job(mahber: MahberId, event: Fines.Event, attended: set<UserId>, config: Config)

  function Deliver(db: Db, job: Job, a: Attempt): Db {
    Do(db, Tick(a.wait, AttendanceJob(job.mahber, job.event, job.attended, job.config, a.stop)))
  }

  function DeliverAll(db: Db, job: Job, attempts: seq<Attempt>): Db
    decreases |attempts|
  {
    if attempts == [] then db
    else DeliverAll(Deliver(db, job, attempts[0]), job, attempts[1..])
  }

  predicate IsAbsent(db: Db, job: Job, member: UserId) {
    member in Fines.Absent(db.members, job.mahber, job.attended)
  }

  predicate WasMentioned(db: Db, job: Job, member: UserId) {
    Fines.Mentions(db.ledger, job.mahber, member, job.event.id)
  }

  function NewFines(before: Db, after: Db, job: Job, member: UserId): int {
    AbsenceFines(after.fines, job.mahber, member) - AbsenceFines(before.fines, job.mahber, member)
  }

  /** Absentees are the active members without a record. */
  lemma {:induction false} AbsentExactly(members: seq<Membership>, mahber: MahberId, attended: set<UserId>, u: UserId)
    ensures u in Fines.Absent(members, mahber, attended) <==>
            exists i :: 0 <= i < |members| && Members.IsRow(members[i], mahber, u) && members[i].status == Active
              && u !in attended
  {
    if members != [] {
      var n := |members| - 1;
      AbsentExactly(members[..n], mahber, attended, u);
      assert members == members[..n] + [members[n]];
    }
  }

  /** A delivery of the job adds only fresh fines for the absence, and none at all unless the event is mandatory. */
  lemma OnlyMandatoryFines(db: Db, job: Job, a: Attempt)
    ensures var after := Deliver(db, job, a);
            && FineTheorems.AddsFreshFines(db.fines, after.fines, job.mahber, MissedAttendance, job.config,
                                           db.clock + a.wait)
            && (!job.event.mandatory ==> after == db.(clock := db.clock + a.wait))
  {
    hide Fines.FineAbsentees, Fines.Absent;
    var now := db.(clock := db.clock + a.wait);
    var all := Fines.Absent(db.members, job.mahber, job.attended);
    AbsenteesAddFresh(now, Fines.Upto(all, a.stop), job.mahber, job.event, job.config);
  }

  /** An attempt fines some of those due, each once; one that is not stopped fines all of them. */
  lemma OneAttempt(db: Db, job: Job, a: Attempt, member: UserId)
    requires job.event.mandatory
    ensures var after := Deliver(db, job, a);
            && after.members == db.members
            && (WasMentioned(db, job, member) ==>
                  NewFines(db, after, job, member) == 0 && WasMentioned(after, job, member))
            && (!WasMentioned(db, job, member) ==>
                  NewFines(db, after, job, member) == if WasMentioned(after, job, member) then 1 else 0)
            && (WasMentioned(after, job, member) ==> WasMentioned(db, job, member) || IsAbsent(db, job, member))
            && (a.stop >= |Fines.Absent(db.members, job.mahber, job.attended)| && IsAbsent(db, job, member) ==>
                  WasMentioned(after, job, member))
  {
    hide Fines.FineAbsentees, Fines.Mentions, AbsenceFines, Fines.Absent;
    var now := db.(clock := db.clock + a.wait);
    var all := Fines.Absent(db.members, job.mahber, job.attended);
    var reached := Fines.Upto(all, a.stop);
    FineAbsenteesFacts(now, reached, job.mahber, job.event, job.config, member);
  }

  /**
   Exactly once: however often the job stops between members and is run again, once some
   run gets through everybody, each active member without a record has exactly one new fine
   if no entry of theirs mentioned the event before, and none otherwise; nobody else has any.
   One full run alone does exactly the same.
   */
  lemma {:induction false} RetriesFineExactlyOnce(db: Db, job: Job, attempts: seq<Attempt>, last: Attempt,
                                                  member: UserId)
    requires job.event.mandatory && last.stop >= |Fines.Absent(db.members, job.mahber, job.attended)|
    ensures var after := DeliverAll(db, job, attempts + [last]);
            var once := Deliver(db, job, last);
            && NewFines(db, after, job, member) ==
               (if IsAbsent(db, job, member) && !WasMentioned(db, job, member) then 1 else 0)
            && NewFines(db, after, job, member) == NewFines(db, once, job, member)
    decreases |attempts|
  {
    hide Deliver, IsAbsent, WasMentioned, NewFines;
    OneAttempt(db, job, last, member);
    if attempts == [] {
      assert (attempts + [last])[0] == last && (attempts + [last])[1..] == [];
    } else {
      var a := attempts[0];
      var next := Deliver(db, job, a);
      OneAttempt(db, job, a, member);
      AbsentSame(db, next, job, member);
      RetriesFineExactlyOnce(next, job, attempts[1..], last, member);
      assert (attempts + [last])[0] == a && (attempts + [last])[1..] == attempts[1..] + [last];
      NewFinesAdd(db, next, DeliverAll(db, job, attempts + [last]), job, member);
    }
  }

  lemma AbsentSame(db: Db, next: Db, job: Job, member: UserId)
    requires next.members == db.members
    ensures IsAbsent(next, job, member) <==> IsAbsent(db, job, member)
  {
  }

  lemma NewFinesAdd(a: Db, b: Db, c: Db, job: Job, member: UserId)
    ensures NewFines(a, c, job, member) == NewFines(a, b, job, member) + NewFines(b, c, job, member)
  {
  }

  /** Every absentee ends up fined exactly when no absentee had an entry that already mentioned the event's id. */
  lemma {:induction false} EveryAbsenteeFinedExactly(db: Db, job: Job, attempts: seq<Attempt>, last: Attempt)
    requires job.event.mandatory && last.stop >= |Fines.Absent(db.members, job.mahber, job.attended)|
    ensures (forall u :: IsAbsent(db, job, u) ==> NewFines(db, DeliverAll(db, job, attempts + [last]), job, u) == 1)
            <==> (forall u :: IsAbsent(db, job, u) ==> !WasMentioned(db, job, u))
  {
    hide DeliverAll, Deliver, IsAbsent, WasMentioned, NewFines;
    forall u: UserId
      ensures NewFines(db, DeliverAll(db, job, attempts + [last]), job, u) ==
              (if IsAbsent(db, job, u) && !WasMentioned(db, job, u) then 1 else 0)
    {
      RetriesFineExactlyOnce(db, job, attempts, last, u);
    }
  }
}
