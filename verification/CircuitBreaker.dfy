/** The circuit breaker in front of the payment gateway. */
module CircuitBreaker {
  import opened Wrappers

  type Time = int

  const FAILURE_THRESHOLD: nat := 5
  const OPEN_DURATION_MS: int := 60_000

  datatype Breaker = Breaker(consecutiveFailures: nat, circuitOpenedAt: Option<Time>)

  const FRESH: Breaker := Breaker(0, None)

  /** How the gateway answers a request; a malformed answer fails after it was taken for a success. */
  datatype Reply = Good | Malformed | Error

  datatype Verdict = Rejected | Succeeded | Failed

  // ----- the three operations on values

  predicate Blocks(b: Breaker, now: Time) {
    b.circuitOpenedAt.Some? && now - b.circuitOpenedAt.value < OPEN_DURATION_MS
  }

  /** Asking whether the circuit is open closes it again once its time has passed. */
  function AfterAsking(b: Breaker, now: Time): Breaker {
    if Blocks(b, now) then b else b.(circuitOpenedAt := None)
  }

  function AfterFailure(b: Breaker, now: Time): Breaker {
    var n := b.consecutiveFailures + 1;
    Breaker(n, if n >= FAILURE_THRESHOLD then Some(now) else b.circuitOpenedAt)
  }

  /** One request to the gateway: asked at `begin`, answered at `end`. */
  datatype Call = Call(begin: Time, end: Time, reply: Reply)

  function AfterCall(b: Breaker, c: Call): Breaker {
    if Blocks(b, c.begin) then b
    else
      match c.reply
      case Good => FRESH
      case Malformed => AfterFailure(FRESH, c.end)
      case Error => AfterFailure(AfterAsking(b, c.begin), c.end)
  }

  class Gateway {
    var consecutiveFailures: nat
    var circuitOpenedAt: Option<Time>

    function State(): Breaker
      reads this
    {
      Breaker(consecutiveFailures, circuitOpenedAt)
    }

    constructor ()
      ensures State() == FRESH
    {
      consecutiveFailures, circuitOpenedAt := 0, None;
    }

    method IsCircuitOpen(now: Time) returns (open: bool)
      modifies this
      ensures open == Blocks(old(State()), now)
      ensures State() == AfterAsking(old(State()), now)
    {
      if circuitOpenedAt.None? {
        return false;
      }
      var elapsed := now - circuitOpenedAt.value;
      if elapsed >= OPEN_DURATION_MS {
        circuitOpenedAt := None;
        return false;
      }
      open := true;
    }

    method RecordSuccess()
      modifies this
      ensures State() == FRESH
    {
      consecutiveFailures := 0;
      circuitOpenedAt := None;
    }

    method RecordFailure(now: Time)
      modifies this
      ensures State() == AfterFailure(old(State()), now)
    {
      consecutiveFailures := consecutiveFailures + 1;
      if consecutiveFailures >= FAILURE_THRESHOLD {
        circuitOpenedAt := Some(now);
      }
    }

    /** The pattern every gateway operation follows around its HTTP request. */
    method Perform(c: Call) returns (verdict: Verdict)
      modifies this
      ensures State() == AfterCall(old(State()), c)
      ensures verdict == if Blocks(old(State()), c.begin) then Rejected else if c.reply.Good? then Succeeded else Failed
    {
      var open := IsCircuitOpen(c.begin);
      if open {
        return Rejected;
      }
      match c.reply {
        case Good =>
          RecordSuccess();
          verdict := Succeeded;
        case Malformed =>
          RecordSuccess();
          RecordFailure(c.end);
          verdict := Failed;
        case Error =>
          RecordFailure(c.end);
          verdict := Failed;
      }
    }
  }

  // ----- sequential runs

  function After(b: Breaker, calls: seq<Call>): Breaker {
    if calls == [] then b else AfterCall(After(b, calls[..|calls| - 1]), calls[|calls| - 1])
  }

  /** The calls that reach the gateway. */
  function Reached(b: Breaker, calls: seq<Call>): seq<Call> {
    if calls == [] then []
    else
      var n := |calls| - 1;
      Reached(b, calls[..n]) + (if Blocks(After(b, calls[..n]), calls[n].begin) then [] else [calls[n]])
  }

  /** One call ends before the next begins. */
  ghost predicate Sequential(calls: seq<Call>) {
    && (forall i :: 0 <= i < |calls| ==> calls[i].begin <= calls[i].end)
    && (forall i, j :: 0 <= i < j < |calls| ==> calls[i].end <= calls[j].begin)
  }

  /** Failures at the end of a list of calls, since the last good one; a malformed answer counts as the first. */
  function TrailingFailures(reached: seq<Call>): nat {
    if reached == [] then 0
    else
      var n := |reached| - 1;
      match reached[n].reply
      case Good => 0
      case Malformed => 1
      case Error => TrailingFailures(reached[..n]) + 1
  }

  /** Between calls the circuit is open exactly after five or more failures in a row. */
  ghost predicate Settled(b: Breaker) {
    b.circuitOpenedAt.Some? <==> b.consecutiveFailures >= 5
  }

  lemma OneMoreFailure(reached: seq<Call>, c: Call)
    ensures TrailingFailures(reached + [c]) ==
            match c.reply
            case Good => 0
            case Malformed => 1
            case Error => TrailingFailures(reached) + 1
  {
    assert (reached + [c])[..|reached|] == reached;
  }

  /** The counter is the number of gateway failures in a row, and it alone decides whether the circuit is open. */
  lemma {:induction false} OpenMeansFiveFailures(calls: seq<Call>)
    ensures var b := After(FRESH, calls);
            && Settled(b)
            && b.consecutiveFailures == TrailingFailures(Reached(FRESH, calls))
  {
    hide TrailingFailures;
    if calls != [] {
      var n := |calls| - 1;
      OpenMeansFiveFailures(calls[..n]);
      var before := Reached(FRESH, calls[..n]);
      if Blocks(After(FRESH, calls[..n]), calls[n].begin) {
        assert Reached(FRESH, calls) == before;
      } else {
        OneMoreFailure(before, calls[n]);
      }
    } else {
      NoFailureYet();
    }
  }

  lemma NoFailureYet()
    ensures TrailingFailures([]) == 0
  {
  }

  /** An open circuit dates from the end of the last call that reached the gateway. */
  lemma {:induction false} OpenSinceLastFailure(calls: seq<Call>)
    ensures var r := Reached(FRESH, calls);
            var b := After(FRESH, calls);
            b.circuitOpenedAt.Some? ==> r != [] && b.circuitOpenedAt == Some(r[|r| - 1].end)
  {
    if calls != [] {
      OpenSinceLastFailure(calls[..|calls| - 1]);
    }
  }

  /**
   Which calls are turned away, over every sequence of calls: exactly those that come less than
   60 s after the last call that reached the gateway ended, when the last five or more that
   reached it failed in a row.
   */
  lemma TurnedAwayExactly(calls: seq<Call>, c: Call)
    ensures var r := Reached(FRESH, calls);
            Reached(FRESH, calls + [c]) == r <==>
            r != [] && TrailingFailures(r) >= 5 && c.begin < r[|r| - 1].end + 60_000
  {
    OpenMeansFiveFailures(calls);
    OpenSinceLastFailure(calls);
    assert (calls + [c])[..|calls|] == calls;
  }

  ghost predicate NoSuccess(calls: seq<Call>) {
    forall i :: 0 <= i < |calls| ==> calls[i].reply.Error?
  }

  lemma FailingPrefix(calls: seq<Call>)
    requires Sequential(calls) && NoSuccess(calls) && calls != []
    ensures var n := |calls| - 1; Sequential(calls[..n]) && NoSuccess(calls[..n]) && calls[n].reply.Error?
  {
  }

  /**
   The state of a failing run: the counter counts every call that got through, and an open
   circuit dates from the last.
   */
  lemma {:induction false} FailingRun(b: Breaker, calls: seq<Call>)
    requires Settled(b) && Sequential(calls) && NoSuccess(calls)
    ensures var r := Reached(b, calls);
            var now := After(b, calls);
            && Settled(now)
            && now.consecutiveFailures == b.consecutiveFailures + |r|
            && (forall k :: 0 <= k < |r| ==> r[k] in calls)
            && (r == [] ==> now.circuitOpenedAt == b.circuitOpenedAt)
            && (r != [] && now.circuitOpenedAt.Some? ==> now.circuitOpenedAt.value == r[|r| - 1].end)
  {
    hide Sequential, NoSuccess;
    if calls != [] {
      var n := |calls| - 1;
      FailingPrefix(calls);
      FailingRun(b, calls[..n]);
      assert calls[n] in calls;
    }
  }

  /** In a run without a success, calls that get through after five failures are at least 60 s apart. */
  lemma {:induction false} ProbesAreSpaced(b: Breaker, calls: seq<Call>, k: nat)
    requires Settled(b) && Sequential(calls) && NoSuccess(calls)
    requires 1 <= k < |Reached(b, calls)| && b.consecutiveFailures + k >= 5
    ensures var r := Reached(b, calls);
            r[k - 1].begin + 60_000 <= r[k].begin
  {
    var n := |calls| - 1;
    FailingRun(b, calls[..n]);
    var before := Reached(b, calls[..n]);
    if k < |before| {
      ProbesAreSpaced(b, calls[..n], k);
    } else {
      assert before[k - 1] in calls[..n];
    }
  }

  lemma {:induction false} ProbesSpread(b: Breaker, calls: seq<Call>, i: nat, j: nat)
    requires Settled(b) && Sequential(calls) && NoSuccess(calls)
    requires i <= j < |Reached(b, calls)| && b.consecutiveFailures + i + 1 >= 5
    ensures var r := Reached(b, calls);
            r[i].begin + (j - i) * 60_000 <= r[j].begin
    decreases j
  {
    if i < j {
      ProbesSpread(b, calls, i, j - 1);
      ProbesAreSpaced(b, calls, j);
    }
  }

  lemma {:induction false} ReachedInOrder(b: Breaker, calls: seq<Call>, i: nat, j: nat)
    requires Sequential(calls)
    requires i <= j < |Reached(b, calls)|
    ensures var r := Reached(b, calls);
            r[i] in calls && r[j] in calls && r[i].begin <= r[j].begin
  {
    var n := |calls| - 1;
    var before := Reached(b, calls[..n]);
    assert calls[n] in calls;
    if j < |before| {
      ReachedInOrder(b, calls[..n], i, j);
    } else if i < |before| {
      ReachedInOrder(b, calls[..n], i, i);
    }
  }

  /** While the gateway keeps failing, any `span` milliseconds hold at most 5 + span / 60000 calls to it. */
  lemma FailingCallsBounded(b: Breaker, calls: seq<Call>, i: nat, j: nat, span: nat)
    requires Settled(b) && Sequential(calls) && NoSuccess(calls)
    requires i <= j < |Reached(b, calls)|
    requires Reached(b, calls)[j].begin - Reached(b, calls)[i].begin <= span
    ensures j - i + 1 <= 5 + span / 60_000
  {
    var r := Reached(b, calls);
    var first := if i <= 4 then 4 else i;
    if j > first {
      ReachedInOrder(b, calls, i, first);
      ProbesSpread(b, calls, first, j);
      assert (j - first) * 60_000 <= span;
    }
  }

  // ----- interleaved requests

  /** The same operations when requests overlap: admissions, answers and failures in any order. */
  datatype Event = Asked(now: Time) | Answered | Broke(now: Time)

  function Handle(b: Breaker, e: Event): Breaker {
    match e
    case Asked(now) => AfterAsking(b, now)
    case Answered => FRESH
    case Broke(now) => AfterFailure(b, now)
  }

  function HandleAll(b: Breaker, events: seq<Event>): Breaker {
    if events == [] then b else Handle(HandleAll(b, events[..|events| - 1]), events[|events| - 1])
  }

  /** Failures reported since the last answer. */
  function BrokenSinceAnswer(events: seq<Event>): nat {
    if events == [] then 0
    else
      var n := |events| - 1;
      match events[n]
      case Asked(_) => BrokenSinceAnswer(events[..n])
      case Answered => 0
      case Broke(_) => BrokenSinceAnswer(events[..n]) + 1
  }

  /** However requests overlap, the counter is the failures since the last answer, and an open circuit has five. */
  lemma {:induction false} OpenNeedsFailures(events: seq<Event>)
    ensures var b := HandleAll(FRESH, events);
            && b.consecutiveFailures == BrokenSinceAnswer(events)
            && (b.circuitOpenedAt.Some? ==> BrokenSinceAnswer(events) >= 5)
  {
    if events != [] {
      OpenNeedsFailures(events[..|events| - 1]);
    }
  }

  // ----- the half-open window

  /** Whatever is asked or fails does so within one pause of a moment. */
  ghost predicate InWindow(events: seq<Event>, from: Time) {
    forall e :: e in events && !e.Answered? ==> from <= e.now < from + 60_000
  }

  ghost predicate AnyAnswered(events: seq<Event>) {
    exists e :: e in events && e.Answered?
  }

  ghost predicate AnyBroke(events: seq<Event>) {
    exists e :: e in events && e.Broke?
  }

  /** How many failures block a window again: one, or five if a request was answered first. */
  ghost function FailuresToBlock(events: seq<Event>): nat {
    if AnyAnswered(events) then 5 else 1
  }

  /** The breaker through such a window, once its first request was let through after the pause. */
  lemma {:induction false} WindowState(b: Breaker, from: Time, others: seq<Event>)
    requires !Blocks(b, from) && b.consecutiveFailures >= 4 && InWindow(others, from)
    ensures var now := HandleAll(AfterAsking(b, from), others);
            && now.consecutiveFailures ==
               BrokenSinceAnswer(others) + (if AnyAnswered(others) then 0 else b.consecutiveFailures)
            && (now.circuitOpenedAt.Some? <==> BrokenSinceAnswer(others) >= FailuresToBlock(others))
            && (now.circuitOpenedAt.Some? ==> now.circuitOpenedAt.value >= from)
  {
    if others != [] {
      var n := |others| - 1;
      assert others == others[..n] + [others[n]];
      WindowState(b, from, others[..n]);
      assert others[n] in others;
    }
  }

  /**
   "One attempt through" after the pause: a further request is blocked exactly when one of
   those let through meanwhile is already known to have failed, or five since an answer.
   */
  lemma HalfOpenBlocksExactly(b: Breaker, from: Time, others: seq<Event>, now: Time)
    requires !Blocks(b, from) && b.consecutiveFailures >= 4 && InWindow(others, from)
    requires from <= now < from + 60_000
    ensures Blocks(HandleAll(AfterAsking(b, from), others), now) <==>
            BrokenSinceAnswer(others) >= FailuresToBlock(others)
    ensures !AnyAnswered(others) ==> (Blocks(HandleAll(AfterAsking(b, from), others), now) <==> AnyBroke(others))
  {
    WindowState(b, from, others);
    if !AnyAnswered(others) {
      BrokenUnlessAnswered(others);
    }
  }

  lemma {:induction false} BrokenUnlessAnswered(events: seq<Event>)
    requires !AnyAnswered(events)
    ensures BrokenSinceAnswer(events) > 0 <==> AnyBroke(events)
  {
    if events != [] {
      var n := |events| - 1;
      assert events == events[..n] + [events[n]];
      assert events[n] in events;
      BrokenUnlessAnswered(events[..n]);
    }
  }

  /** The requests a breaker lets through. */
  function LetThrough(b: Breaker, events: seq<Event>): nat {
    if events == [] then 0
    else
      var n := |events| - 1;
      LetThrough(b, events[..n]) +
      (if events[n].Asked? && !Blocks(HandleAll(b, events[..n]), events[n].now) then 1 else 0)
  }

  /** The requests asked before the first failure is known. */
  function AskedBeforeFailure(events: seq<Event>): nat {
    if events == [] || events[0].Broke? then 0
    else (if events[0].Asked? then 1 else 0) + AskedBeforeFailure(events[1..])
  }

  lemma {:induction false} OneMoreAsked(events: seq<Event>, e: Event)
    ensures AskedBeforeFailure(events + [e]) ==
            AskedBeforeFailure(events) + (if e.Asked? && !AnyBroke(events) then 1 else 0)
  {
    if events == [] {
      assert (events + [e])[1..] == [];
    } else {
      assert (events + [e])[1..] == events[1..] + [e];
      assert events == [events[0]] + events[1..];
      assert AnyBroke(events) <==> events[0].Broke? || AnyBroke(events[1..]);
      OneMoreAsked(events[1..], e);
    }
  }

  /**
   So until an answer comes, a half-open window lets through, besides its first request, every
   request asked before the first failure is known and none after it.
   */
  lemma {:induction false} HalfOpenAdmitsExactly(b: Breaker, from: Time, others: seq<Event>)
    requires !Blocks(b, from) && b.consecutiveFailures >= 4 && InWindow(others, from)
    requires !AnyAnswered(others)
    ensures LetThrough(AfterAsking(b, from), others) == AskedBeforeFailure(others)
  {
    if others != [] {
      var n := |others| - 1;
      HalfOpenAdmitsExactly(b, from, others[..n]);
      assert others == others[..n] + [others[n]];
      assert others[n] in others;
      OneMoreAsked(others[..n], others[n]);
      if others[n].Asked? {
        HalfOpenBlocksExactly(b, from, others[..n], others[n].now);
      }
    }
  }

  /** It lets its first request through alone exactly when no other is asked before a failure is known. */
  lemma {:induction false} OneAloneExactly(b: Breaker, from: Time, others: seq<Event>)
    requires !Blocks(b, from) && b.consecutiveFailures >= 4 && InWindow(others, from)
    requires !AnyAnswered(others)
    ensures LetThrough(AfterAsking(b, from), others) == 0 <==>
            forall i :: 0 <= i < |others| && others[i].Asked? ==> AnyBroke(others[..i])
  {
    if others != [] {
      var n := |others| - 1;
      OneAloneExactly(b, from, others[..n]);
      assert others[n] in others;
      assert forall i :: 0 <= i <= n ==> others[..n][..i] == others[..i];
      if others[n].Asked? {
        HalfOpenBlocksExactly(b, from, others[..n], others[n].now);
      }
    }
  }
}
