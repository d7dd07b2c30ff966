/**
 What the ranked-choice tally guarantees, for every poll and every set of ballots,
 and one thing it does not because it eliminates all tied-lowest options at once.
 */
module RunoffTheorems {
  import opened Wrappers
  import opened Ballots
  import opened InstantRunoff

  // ----- the fields a run passes through

  ghost function NextField(votes: seq<Ballot>, field: set<OptionId>): set<OptionId> {
    if Leader(votes, field).Some? || Live(votes, field) == 0 then {} else field - Trailing(votes, field)
  }

  /** The options standing at the start of the k-th round (counting from zero). */
  ghost function FieldAt(votes: seq<Ballot>, field: set<OptionId>, k: nat): set<OptionId>
    decreases k
  {
    if k == 0 || field == {} then field else FieldAt(votes, NextField(votes, field), k - 1)
  }

  lemma {:induction false} FieldsShrink(votes: seq<Ballot>, field: set<OptionId>, k: nat)
    ensures FieldAt(votes, field, k) <= field
    decreases k
  {
    if k != 0 && field != {} {
      FieldsShrink(votes, NextField(votes, field), k - 1);
    }
  }

  lemma {:induction false} FieldsCompose(votes: seq<Ballot>, field: set<OptionId>, j: nat, k: nat)
    ensures FieldAt(votes, FieldAt(votes, field, j), k) == FieldAt(votes, field, j + k)
    decreases j
  {
    hide NextField;
    if j != 0 && field != {} {
      FieldsCompose(votes, NextField(votes, field), j - 1, k);
    }
  }

  /** Round k reports the tally of the original ballots over the k-th field, and drops exactly its trailing options. */
  lemma {:induction false} RoundsReportFields(order: seq<OptionId>, votes: seq<Ballot>, field: set<OptionId>, n: nat,
                                              k: nat)
    requires k < |Irv(order, votes, field, n).rounds|
    ensures var out := Irv(order, votes, field, n);
            var round := out.rounds[k];
            var now := FieldAt(votes, field, k);
            && now != {} && round.number == n + k && round.counts == Tally(votes, now)
            && (round.winner.None? ==> round.eliminated == Filter(order, Trailing(votes, now)))
            && (round.winner.Some? ==> round.eliminated == [] && k == |out.rounds| - 1 && out.winner == round.winner)
    decreases k
  {
    hide Irv, Leader, Trailing, Tally, Live, Filter;
    IrvStep(order, votes, field, n);
    if k != 0 {
      RoundsReportFields(order, votes, NextField(votes, field), n + 1, k - 1);
    }
  }

  // ----- counts

  lemma CountsGrow(votes: seq<Ballot>, field: set<OptionId>, smaller: set<OptionId>, o: OptionId)
    requires smaller <= field && o in smaller
    ensures CountTop(votes, field, o) <= CountTop(votes, smaller, o)
  {
    forall b | b in votes && TopIs(field, o)(b) ensures TopIs(smaller, o)(b) {
      TopSurvives(b, field, smaller, o);
    }
    CountMono(votes, TopIs(field, o), TopIs(smaller, o));
  }

  /** From one recorded round to any later one, the count of an option still standing never falls. */
  lemma SurvivorsNeverLose(order: seq<OptionId>, votes: seq<Ballot>, field: set<OptionId>, n: nat, j: nat, k: nat,
                           o: OptionId)
    requires j <= k < |Irv(order, votes, field, n).rounds|
    requires o in Irv(order, votes, field, n).rounds[k].counts
    ensures var rounds := Irv(order, votes, field, n).rounds;
            o in rounds[j].counts && rounds[j].counts[o] <= rounds[k].counts[o]
  {
    hide Irv, FieldAt, CountTop;
    RoundsReportFields(order, votes, field, n, j);
    RoundsReportFields(order, votes, field, n, k);
    FieldsCompose(votes, field, j, k - j);
    FieldsShrink(votes, FieldAt(votes, field, j), k - j);
    CountsGrow(votes, FieldAt(votes, field, j), FieldAt(votes, field, k), o);
  }

  function SumTops(some: seq<OptionId>, votes: seq<Ballot>, field: set<OptionId>): nat {
    if some == [] then 0
    else SumTops(some[..|some| - 1], votes, field) + CountTop(votes, field, some[|some| - 1])
  }

  function TopAmong(field: set<OptionId>, some: set<OptionId>): Ballot -> bool {
    b => Top(b, field).Some? && Top(b, field).value in some
  }

  lemma {:induction false} SumTopsCounts(some: seq<OptionId>, votes: seq<Ballot>, field: set<OptionId>)
    requires NoDup(some)
    ensures SumTops(some, votes, field) == Count(votes, TopAmong(field, Elems(some)))
  {
    if some == [] {
      CountNone(votes, TopAmong(field, Elems(some)));
    } else {
      var n := |some| - 1;
      assert some == some[..n] + [some[n]];
      SumTopsCounts(some[..n], votes, field);
      CountExact(votes, TopAmong(field, Elems(some[..n])), TopIs(field, some[n]), TopAmong(field, Elems(some)));
    }
  }

  lemma {:induction false} CountNone(votes: seq<Ballot>, p: Ballot -> bool)
    requires forall b :: b in votes ==> !p(b)
    ensures Count(votes, p) == 0
  {
    if votes != [] {
      CountNone(votes[..|votes| - 1], p);
    }
  }

  /** The counts of a round add up to the ballots still live in it. */
  lemma CountsSumToLive(order: seq<OptionId>, votes: seq<Ballot>)
    requires NoDup(order)
    ensures SumTops(order, votes, Elems(order)) == Live(votes, Elems(order))
  {
    var field := Elems(order);
    SumTopsCounts(order, votes, field);
    forall b | b in votes {
      TopInField(b, field);
    }
    CountMono(votes, TopAmong(field, field), Ranks(field));
    CountMono(votes, Ranks(field), TopAmong(field, field));
  }

  lemma OneOptionHasAll(votes: seq<Ballot>, o: OptionId)
    ensures CountTop(votes, {o}, o) == Live(votes, {o})
  {
    forall b | b in votes {
      TopInField(b, {o});
    }
    CountMono(votes, TopIs({o}, o), Ranks({o}));
    CountMono(votes, Ranks({o}), TopIs({o}, o));
  }

  lemma TwoOptionsShareAll(votes: seq<Ballot>, o: OptionId, x: OptionId)
    requires o != x
    ensures CountTop(votes, {o, x}, o) + CountTop(votes, {o, x}, x) == Live(votes, {o, x})
  {
    forall b | b in votes {
      TopInField(b, {o, x});
    }
    CountExact(votes, TopIs({o, x}, o), TopIs({o, x}, x), Ranks({o, x}));
  }

  // ----- what a winner is

  /** The winner of a run stands in its last recorded field, with a majority there. */
  lemma {:induction false} WinnerStands(order: seq<OptionId>, votes: seq<Ballot>, field: set<OptionId>, n: nat)
    requires Irv(order, votes, field, n).winner.Some?
    ensures var out := Irv(order, votes, field, n);
            && out.rounds != [] && out.winner.value in field
            && var last := FieldAt(votes, field, |out.rounds| - 1);
               out.winner.value in last && IsMajority(votes, last, out.winner.value)
    decreases field
  {
    hide Irv, Trailing, Tally, IsMajority, Filter;
    IrvStep(order, votes, field, n);
    if Leader(votes, field).None? {
      var rest := NextField(votes, field);
      assert Irv(order, votes, field, n).rounds[1..] == Irv(order, votes, rest, n + 1).rounds;
      WinnerStands(order, votes, rest, n + 1);
    }
  }

  /** A strict majority of the live ballots beats every other option of its field head to head. */
  lemma MajorityBeatsEach(votes: seq<Ballot>, field: set<OptionId>, w: OptionId, x: OptionId)
    requires w in field && x in field && w != x && IsMajority(votes, field, w)
    ensures Prefer(votes, w, x) > Prefer(votes, x, w)
  {
    assert {x, w} == {w, x};
    forall b | b in votes
      ensures TopIs(field, w)(b) ==> TopIs({w, x}, w)(b)
      ensures TopIs({x, w}, x)(b) ==> Ranks(field)(b)
    {
      TopInField(b, {x, w});
      if Top(b, field) == Some(w) {
        TopSurvives(b, field, {w, x}, w);
      }
      if Top(b, {x, w}) == Some(x) {
        SomeTop(b, field, x);
      }
    }
    CountMono(votes, TopIs(field, w), TopIs({w, x}, w));
    CountSum(votes, TopIs(field, w), TopIs({x, w}, x), Ranks(field));
  }

  lemma {:induction false} SomeTop(b: Ballot, field: set<OptionId>, x: OptionId)
    requires x in b && x in field
    ensures Top(b, field).Some?
  {
    if b[0] !in field {
      SomeTop(b[1..], field, x);
    }
  }

  /**
   A recorded winner holds a strict majority of the ballots live in the last round, is
   the only option that does, and beats every other option of that round head to head
   on the ballots as they were cast.
   */
  lemma WinnerProfile(options: seq<OptionId>, votes: seq<Ballot>)
    requires Runoff(options, votes).winner.Some?
    ensures var out := Runoff(options, votes);
            var w := out.winner.value;
            && out.rounds != []
            && var last := out.rounds[|out.rounds| - 1].counts.Keys;
               && w in last && last <= Elems(options)
               && (forall x :: x in last ==> (IsMajority(votes, last, x) <==> x == w))
               && (forall x :: x in last && x != w ==> Prefer(votes, w, x) > Prefer(votes, x, w))
  {
    hide Irv, FieldAt, CountTop, Live, Distinct;
    var order, field := Distinct(options), Elems(options);
    var out := Runoff(options, votes);
    var w := out.winner.value;
    WinnerStands(order, votes, field, 1);
    var last := FieldAt(votes, field, |out.rounds| - 1);
    RoundsReportFields(order, votes, field, 1, |out.rounds| - 1);
    TallyKeys(votes, last);
    FieldsShrink(votes, field, |out.rounds| - 1);
    forall x | x in last && x != w
      ensures !IsMajority(votes, last, x) && Prefer(votes, w, x) > Prefer(votes, x, w)
    {
      TwoCounts(votes, last, w, x);
      MajorityBeatsEach(votes, last, w, x);
    }
  }

  // ----- when there is no winner

  ghost predicate Tied(votes: seq<Ballot>, field: set<OptionId>) {
    forall o, x :: o in field && x in field ==> CountTop(votes, field, o) == CountTop(votes, field, x)
  }

  /** All options of the field have the same count, and at least two are left or nobody has a vote. */
  ghost predicate Stalled(votes: seq<Ballot>, field: set<OptionId>) {
    && field != {}
    && Tied(votes, field)
    && (|field| >= 2 || forall o :: o in field ==> CountTop(votes, field, o) == 0)
  }

  lemma AnotherOption(field: set<OptionId>, o: OptionId) returns (x: OptionId)
    requires |field| >= 2 && o in field
    ensures x in field && x != o
  {
    assert |field - {o}| >= 1;
    x :| x in field - {o};
  }

  lemma StalledHasNoLeader(votes: seq<Ballot>, field: set<OptionId>)
    requires Stalled(votes, field)
    ensures Leader(votes, field).None?
  {
    forall w | w in field ensures !IsMajority(votes, field, w) {
      if |field| >= 2 {
        var x := AnotherOption(field, w);
        TwoCounts(votes, field, w, x);
      }
    }
  }

  lemma TrailingIsAllWhenTied(votes: seq<Ballot>, field: set<OptionId>)
    ensures field - Trailing(votes, field) == {} <==> Tied(votes, field)
  {
    hide CountTop;
    if field - Trailing(votes, field) == {} {
      forall o, x | o in field && x in field ensures CountTop(votes, field, o) == CountTop(votes, field, x) {
        assert o !in field - Trailing(votes, field) && x !in field - Trailing(votes, field);
        assert IsLowest(votes, field, o) && IsLowest(votes, field, x);
      }
    }
  }

  /** Without a leader, the next field is empty exactly when this one is stalled. */
  lemma StallEndsRun(votes: seq<Ballot>, field: set<OptionId>)
    requires field != {} && Leader(votes, field).None?
    ensures NextField(votes, field) == {} <==> Stalled(votes, field)
  {
    hide Trailing, CountTop, Live;
    TrailingIsAllWhenTied(votes, field);
    forall o | o in field ensures CountTop(votes, field, o) <= Live(votes, field) {
      NobodyAboveLive(votes, field, o);
    }
    var o :| o in field;
    if |field| >= 2 {
      var x := AnotherOption(field, o);
    } else {
      assert field == {o} by {
        if x :| x in field && x != o {
          assert {o, x} <= field;
          PairIn(field, o, x);
        }
      }
      OneOptionHasAll(votes, o);
      assert !IsMajority(votes, field, o);
    }
  }

  lemma PairIn(field: set<OptionId>, o: OptionId, x: OptionId)
    requires o in field && x in field && o != x
    ensures |field| >= 2
  {
    assert x in field - {o};
    assert |field - {o}| == |field| - 1;
  }

  /** A run that reaches a stalled field ends without a winner. */
  lemma {:induction false} StalledRunHasNoWinner(order: seq<OptionId>, votes: seq<Ballot>, field: set<OptionId>,
                                                 n: nat, k: nat)
    requires Stalled(votes, FieldAt(votes, field, k))
    ensures Irv(order, votes, field, n).winner.None?
    decreases k
  {
    hide Irv, Leader, Trailing, Tally, Live, Filter;
    IrvStep(order, votes, field, n);
    if k == 0 {
      StalledHasNoLeader(votes, field);
      StallEndsRun(votes, field);
      IrvStep(order, votes, {}, n + 1);
    } else {
      StalledRunHasNoWinner(order, votes, NextField(votes, field), n + 1, k - 1);
    }
  }

  /** A run over some options that ends without a winner has reached a stalled field. */
  lemma {:induction false} NoWinnerStalls(order: seq<OptionId>, votes: seq<Ballot>, field: set<OptionId>,
                                          n: nat) returns (k: nat)
    requires field != {} && Irv(order, votes, field, n).winner.None?
    ensures Stalled(votes, FieldAt(votes, field, k))
    decreases field
  {
    hide Irv, Leader, Tally, Live, Filter, Stalled, IsLowest;
    IrvStep(order, votes, field, n);
    StallEndsRun(votes, field);
    var rest := NextField(votes, field);
    if rest == {} {
      k := 0;
    } else {
      var j := NoWinnerStalls(order, votes, rest, n + 1);
      k := j + 1;
    }
  }

  /** A poll ends without a winner exactly when it has no options or reaches a stalled field. */
  lemma NoWinnerExactlyWhenStalled(options: seq<OptionId>, votes: seq<Ballot>)
    ensures Runoff(options, votes).winner.None? <==>
            options == [] || exists k: nat :: Stalled(votes, FieldAt(votes, Elems(options), k))
  {
    hide Irv, FieldAt, Stalled, Distinct;
    var order, field := Distinct(options), Elems(options);
    InElems(options);
    IrvStep(order, votes, field, 1);
    if options != [] && Runoff(options, votes).winner.None? {
      var k := NoWinnerStalls(order, votes, field, 1);
    }
    if k: nat :| Stalled(votes, FieldAt(votes, field, k)) {
      StalledRunHasNoWinner(order, votes, field, 1, k);
    }
  }

  // ----- the report as a whole

  lemma {:induction false} RoundLeads(order: seq<OptionId>, votes: seq<Ballot>, field: set<OptionId>, n: nat, k: nat)
    requires k < |Irv(order, votes, field, n).rounds|
    ensures var now := FieldAt(votes, field, k);
            Irv(order, votes, field, n).rounds[k].winner == Leader(votes, now) && Live(votes, now) > 0
    decreases k
  {
    hide Irv, Leader, Trailing, Tally, Live, Filter;
    IrvStep(order, votes, field, n);
    if k != 0 {
      RoundLeads(order, votes, NextField(votes, field), n + 1, k - 1);
    } else if Leader(votes, field).Some? {
      LeaderIsLive(votes, field);
    }
  }

  lemma LeaderIsLive(votes: seq<Ballot>, field: set<OptionId>)
    requires Leader(votes, field).Some?
    ensures Live(votes, field) > 0
  {
    hide CountTop, Live;
    NobodyAboveLive(votes, field, Leader(votes, field).value);
  }

  lemma LeaderExactly(votes: seq<Ballot>, field: set<OptionId>, w: OptionId)
    ensures Leader(votes, field) == Some(w) <==> w in field && 2 * CountTop(votes, field, w) > Live(votes, field)
  {
    hide CountTop, Live;
    var leader := Leader(votes, field);
    if leader.Some? && w in field && leader.value != w {
      TwoCounts(votes, field, leader.value, w);
    }
  }

  lemma TrailingExactly(votes: seq<Ballot>, field: set<OptionId>, o: OptionId)
    ensures o in Trailing(votes, field) <==>
            o in field && forall x :: x in field ==> CountTop(votes, field, o) <= CountTop(votes, field, x)
  {
    hide CountTop;
  }

  lemma TallyIs(votes: seq<Ballot>, field: set<OptionId>)
    ensures Tally(votes, field).Keys == field
    ensures forall o :: o in field ==> Tally(votes, field)[o] == CountTop(votes, field, o)
  {
    hide CountTop;
  }

  /** Whom a round elects, and whom it drops otherwise. */
  lemma RoundDecides(order: seq<OptionId>, votes: seq<Ballot>, field: set<OptionId>)
    requires field <= Elems(order)
    ensures forall w :: Leader(votes, field) == Some(w) <==>
                        w in field && 2 * CountTop(votes, field, w) > Live(votes, field)
    ensures var low := Filter(order, Trailing(votes, field));
            && Elems(low) == Trailing(votes, field)
            && forall o :: o in low <==>
                           o in field
                           && forall x :: x in field ==> CountTop(votes, field, o) <= CountTop(votes, field, x)
  {
    hide Leader, Trailing, Live, Filter, CountTop;
    FilterMembers(order, Trailing(votes, field));
    forall o: OptionId
      ensures Leader(votes, field) == Some(o) <==> o in field && 2 * CountTop(votes, field, o) > Live(votes, field)
      ensures o in Trailing(votes, field) <==>
              o in field && forall x :: x in field ==> CountTop(votes, field, o) <= CountTop(votes, field, x)
    {
      LeaderExactly(votes, field, o);
      TrailingExactly(votes, field, o);
    }
    var low := Filter(order, Trailing(votes, field));
    assert forall o :: o in Elems(low) <==> o in low;
  }

  /** The field after a round that elected nobody. */
  lemma NextFieldDrops(order: seq<OptionId>, votes: seq<Ballot>, field: set<OptionId>, n: nat, k: nat)
    requires NoDup(order) && field <= Elems(order) && 0 < k < |Irv(order, votes, field, n).rounds|
    ensures var before := Irv(order, votes, field, n).rounds[k - 1];
            before.winner.None? && FieldAt(votes, field, k) == FieldAt(votes, field, k - 1) - Elems(before.eliminated)
  {
    hide Irv, Leader, Trailing, Tally, Live, Filter;
    RoundsReportFields(order, votes, field, n, k - 1);
    RoundsReportFields(order, votes, field, n, k);
    RoundLeads(order, votes, field, n, k - 1);
    FieldsCompose(votes, field, k - 1, 1);
    FieldsShrink(votes, field, k - 1);
    FilterMembers(order, Trailing(votes, FieldAt(votes, field, k - 1)));
  }

  /** A recorded round counts its field. */
  lemma RoundCounts(options: seq<OptionId>, votes: seq<Ballot>, k: nat)
    requires k < |Runoff(options, votes).rounds|
    ensures var round, now := Runoff(options, votes).rounds[k], FieldAt(votes, Elems(options), k);
            && round.number == k + 1 && now != {} && now <= Elems(options) && Live(votes, now) > 0
            && round.counts.Keys == now && forall o :: o in now ==> round.counts[o] == CountTop(votes, now, o)
  {
    hide Irv, Leader, Trailing, Live, Filter, Distinct, CountTop, Tally, FieldAt;
    var order, field := Distinct(options), Elems(options);
    RoundsReportFields(order, votes, field, 1, k);
    RoundLeads(order, votes, field, 1, k);
    TallyIs(votes, FieldAt(votes, field, k));
    FieldsShrink(votes, field, k);
  }

  /**
   The report of a tally can be recounted. Rounds are numbered from one; the first counts all
   options, each later one those its predecessor left; and every count is the number of
   ballots, as they were cast, whose highest-ranked standing option it is.
   */
  lemma ReportCanBeRecounted(options: seq<OptionId>, votes: seq<Ballot>, k: nat)
    requires k < |Runoff(options, votes).rounds|
    ensures var out := Runoff(options, votes);
            var round := out.rounds[k];
            var now := round.counts.Keys;
            && round.number == k + 1 && now != {} && Live(votes, now) > 0
            && (k == 0 ==> now == Elems(options))
            && (k > 0 ==> now == out.rounds[k - 1].counts.Keys - Elems(out.rounds[k - 1].eliminated))
            && (forall o :: o in now ==> round.counts[o] == CountTop(votes, now, o))
  {
    hide Irv, Leader, Trailing, Live, Filter, Distinct, CountTop, Tally;
    RoundCounts(options, votes, k);
    if k > 0 {
      hide FieldAt;
      RoundCounts(options, votes, k - 1);
      NextFieldDrops(Distinct(options), votes, Elems(options), 1, k);
    }
  }

  /**
   A round elects whoever has more than half of the ballots that still rank somebody, and then
   is the last; otherwise it drops exactly the options with the fewest, in the order of the
   poll.
   */
  lemma RoundElectsOrDrops(options: seq<OptionId>, votes: seq<Ballot>, k: nat)
    requires k < |Runoff(options, votes).rounds|
    ensures var out := Runoff(options, votes);
            var round := out.rounds[k];
            var now := round.counts.Keys;
            && (forall w :: round.winner == Some(w) <==>
                            w in now && 2 * CountTop(votes, now, w) > Live(votes, now))
            && (round.winner.Some? ==> round.eliminated == [] && k == |out.rounds| - 1 && out.winner == round.winner)
            && (round.winner.None? ==>
                  && (forall o :: o in round.eliminated <==>
                                  o in now
                                  && forall x :: x in now ==> CountTop(votes, now, o) <= CountTop(votes, now, x))
                  && round.eliminated == Filter(Distinct(options), Elems(round.eliminated)))
  {
    hide Irv, Leader, Trailing, Live, Filter, Distinct, CountTop, Tally, FieldAt;
    RoundCounts(options, votes, k);
    RoundsReportFields(Distinct(options), votes, Elems(options), 1, k);
    RoundLeads(Distinct(options), votes, Elems(options), 1, k);
    RoundDecides(Distinct(options), votes, FieldAt(votes, Elems(options), k));
  }

  // ----- later-no-harm

  /** The two ballots agree down to and including `w`; they agree everywhere if `w` is unranked. */
  predicate SameDownTo(w: OptionId, b: Ballot, b': Ballot) {
    if b == [] || b' == [] then b == b'
    else b[0] == b'[0] && (b[0] == w || SameDownTo(w, b[1..], b'[1..]))
  }

  /** The ballot with everything below `w` struck out. */
  function CutAfter(w: OptionId, b: Ballot): Ballot {
    if b == [] then []
    else if b[0] == w then [w]
    else [b[0]] + CutAfter(w, b[1..])
  }

  lemma {:induction false} CutAgrees(w: OptionId, b: Ballot)
    ensures SameDownTo(w, b, CutAfter(w, b))
  {
    if b != [] && b[0] != w {
      CutAgrees(w, b[1..]);
      assert CutAfter(w, b)[1..] == CutAfter(w, b[1..]);
    }
  }

  lemma {:induction false} SameDownToSymmetric(w: OptionId, b: Ballot, b': Ballot)
    requires SameDownTo(w, b, b')
    ensures SameDownTo(w, b', b)
  {
    if b != [] && b[0] != w {
      SameDownToSymmetric(w, b[1..], b'[1..]);
    }
  }

  lemma {:induction false} SameTop(w: OptionId, b: Ballot, b': Ballot, field: set<OptionId>)
    requires SameDownTo(w, b, b') && w in field
    ensures Top(b, field) == Top(b', field)
  {
    if b != [] && b[0] !in field {
      SameTop(w, b[1..], b'[1..], field);
    }
  }

  ghost predicate AllSameDownTo(w: OptionId, votes: seq<Ballot>, votes': seq<Ballot>) {
    |votes| == |votes'| && forall i :: 0 <= i < |votes| ==> SameDownTo(w, votes[i], votes'[i])
  }

  /** Two ballot sets that count alike in one field. */
  ghost predicate CountAlike(votes: seq<Ballot>, votes': seq<Ballot>, field: set<OptionId>) {
    && Live(votes, field) == Live(votes', field)
    && forall o :: o in field ==> CountTop(votes, field, o) == CountTop(votes', field, o)
  }

  lemma AlikePieces(votes: seq<Ballot>, votes': seq<Ballot>, field: set<OptionId>)
    requires CountAlike(votes, votes', field)
    ensures Tally(votes, field) == Tally(votes', field)
    ensures Leader(votes, field) == Leader(votes', field)
    ensures Trailing(votes, field) == Trailing(votes', field)
  {
    hide CountTop, Live;
    forall o | o in field
      ensures IsMajority(votes, field, o) == IsMajority(votes', field, o)
      ensures IsLowest(votes, field, o) == IsLowest(votes', field, o)
    {
    }
    if w :| w in field && IsMajority(votes, field, w) {
      LeaderIs(votes, field, w);
      LeaderIs(votes', field, w);
    }
  }

  lemma SameTally(w: OptionId, votes: seq<Ballot>, votes': seq<Ballot>, field: set<OptionId>)
    requires AllSameDownTo(w, votes, votes') && w in field
    ensures CountAlike(votes, votes', field)
  {
    forall i | 0 <= i < |votes| ensures Top(votes[i], field) == Top(votes'[i], field) {
      SameTop(w, votes[i], votes'[i], field);
    }
    forall o | o in field ensures CountTop(votes, field, o) == CountTop(votes', field, o) {
      CountPointwise(votes, votes', TopIs(field, o));
    }
    CountPointwise(votes, votes', Ranks(field));
  }

  /**
   Later-no-harm: if `w` is elected, changing what voters rank below `w` changes nothing
   at all: not one round, count, elimination or winner.
   */
  lemma {:induction false} LaterNoHarm(order: seq<OptionId>, votes: seq<Ballot>, votes': seq<Ballot>,
                                       field: set<OptionId>, w: OptionId, n: nat)
    requires AllSameDownTo(w, votes, votes')
    requires Irv(order, votes, field, n).winner == Some(w)
    ensures Irv(order, votes', field, n) == Irv(order, votes, field, n)
    decreases field
  {
    hide FieldAt, AllSameDownTo, Irv, Leader, Tally, Live, CountTop, IsLowest, Filter;
    WinnerStands(order, votes, field, n);
    SameTally(w, votes, votes', field);
    AlikePieces(votes, votes', field);
    IrvStep(order, votes, field, n);
    IrvStep(order, votes', field, n);
    if Leader(votes, field).None? {
      LaterNoHarm(order, votes, votes', field - Trailing(votes, field), w, n + 1);
    }
  }

  /** Nor can ranking more options below `w` help `w`: it is elected on both sets of ballots or on neither. */
  lemma LaterNoHelp(options: seq<OptionId>, votes: seq<Ballot>, votes': seq<Ballot>, w: OptionId)
    requires AllSameDownTo(w, votes, votes')
    ensures Runoff(options, votes).winner == Some(w) <==> Runoff(options, votes').winner == Some(w)
  {
    hide Irv, Distinct;
    var order, field := Distinct(options), Elems(options);
    forall i | 0 <= i < |votes| ensures SameDownTo(w, votes'[i], votes[i]) {
      SameDownToSymmetric(w, votes[i], votes'[i]);
    }
    if Runoff(options, votes).winner == Some(w) {
      LaterNoHarm(order, votes, votes', field, w, 1);
    }
    if Runoff(options, votes').winner == Some(w) {
      LaterNoHarm(order, votes', votes, field, w, 1);
    }
  }

  // ----- the order of ballots and options does not matter

  lemma {:induction false} AnonymityFrom(order: seq<OptionId>, votes: seq<Ballot>, votes': seq<Ballot>,
                                         field: set<OptionId>, n: nat)
    requires multiset(votes) == multiset(votes')
    ensures Irv(order, votes, field, n) == Irv(order, votes', field, n)
    decreases field
  {
    hide Irv, Leader, Tally, IsLowest, Filter;
    IrvStep(order, votes, field, n);
    IrvStep(order, votes', field, n);
    forall o | o in field ensures CountTop(votes, field, o) == CountTop(votes', field, o) {
      CountPermuted(votes, votes', TopIs(field, o));
    }
    CountPermuted(votes, votes', Ranks(field));
    AlikePieces(votes, votes', field);
    if field != {} {
      AnonymityFrom(order, votes, votes', field - Trailing(votes, field), n + 1);
    }
  }

  /** Anonymity: the whole outcome depends only on which ballots were cast, not on their order. */
  lemma Anonymity(options: seq<OptionId>, votes: seq<Ballot>, votes': seq<Ballot>)
    requires multiset(votes) == multiset(votes')
    ensures Runoff(options, votes) == Runoff(options, votes')
  {
    hide Irv, Distinct;
    AnonymityFrom(Distinct(options), votes, votes', Elems(options), 1);
  }

  ghost predicate SameRound(r: Round, r': Round) {
    r.number == r'.number && r.counts == r'.counts && Elems(r.eliminated) == Elems(r'.eliminated)
      && r.winner == r'.winner
  }

  /** Reordering the listing of the options changes neither counts, nor who goes, nor the winner. */
  lemma {:induction false} OptionOrderIrrelevant(order: seq<OptionId>, order': seq<OptionId>, votes: seq<Ballot>,
                                                 field: set<OptionId>, n: nat)
    requires Elems(order) == Elems(order')
    ensures var out, out' := Irv(order, votes, field, n), Irv(order', votes, field, n);
            && out.winner == out'.winner && |out.rounds| == |out'.rounds|
            && forall k :: 0 <= k < |out.rounds| ==> SameRound(out.rounds[k], out'.rounds[k])
    decreases field
  {
    hide Irv, Leader, Tally, Live, IsLowest, Filter;
    IrvStep(order, votes, field, n);
    IrvStep(order', votes, field, n);
    FilterMembers(order, Trailing(votes, field));
    FilterMembers(order', Trailing(votes, field));
    if field != {} {
      OptionOrderIrrelevant(order, order', votes, field - Trailing(votes, field), n + 1);
    }
  }

  // ----- what batch elimination costs

  /** With two options left, no leader and a live ballot, both options go. */
  lemma TwoLeftTie(votes: seq<Ballot>, field: set<OptionId>)
    requires |field| == 2 && Leader(votes, field).None?
    ensures NextField(votes, field) == {}
  {
    var o :| o in field;
    var x := AnotherOption(field, o);
    assert field == {o, x} by {
      assert |field - {o} - {x}| == 0;
    }
    TwoOptionsShareAll(votes, o, x);
    assert !IsMajority(votes, field, o) && !IsMajority(votes, field, x);
    assert Tied(votes, field);
    StallEndsRun(votes, field);
  }

  /** No two options are ever tied for last in a field the run passes through without finding a leader. */
  ghost predicate OneByOne(votes: seq<Ballot>, field: set<OptionId>) {
    forall k: nat :: Leader(votes, FieldAt(votes, field, k)).None? ==>
                       |Trailing(votes, FieldAt(votes, field, k))| <= 1
  }

  lemma OneByOneGoesOn(votes: seq<Ballot>, field: set<OptionId>)
    requires OneByOne(votes, field) && field != {}
    ensures OneByOne(votes, NextField(votes, field))
  {
    hide Leader, Trailing, NextField;
    forall k: nat ensures FieldAt(votes, NextField(votes, field), k) == FieldAt(votes, field, k + 1) {
    }
  }

  lemma OneByOneNow(votes: seq<Ballot>, field: set<OptionId>)
    requires OneByOne(votes, field) && Leader(votes, field).None?
    ensures |Trailing(votes, field)| <= 1
  {
    hide Leader, Trailing;
    assert FieldAt(votes, field, 0) == field;
  }

  /** On ballots that never tie two options for last, the winner is no Condorcet loser. */
  lemma {:induction false} OneByOneWinnerBeatsSomebody(order: seq<OptionId>, votes: seq<Ballot>, field: set<OptionId>,
                                                       n: nat)
    returns (x: OptionId)
    requires |field| >= 2 && OneByOne(votes, field)
    requires Irv(order, votes, field, n).winner.Some?
    ensures var w := Irv(order, votes, field, n).winner.value;
            x in field && x != w && Prefer(votes, w, x) > Prefer(votes, x, w)
    decreases field
  {
    hide Irv, Tally, Live, CountTop, IsLowest, IsMajority, Filter, FieldAt, OneByOne;
    IrvStep(order, votes, field, n);
    var w := Irv(order, votes, field, n).winner.value;
    WinnerStands(order, votes, field, n);
    if Leader(votes, field).Some? {
      x := AnotherOption(field, w);
      MajorityBeatsEach(votes, field, w, x);
    } else {
      var low := Trailing(votes, field);
      var rest := field - low;
      OneByOneNow(votes, field);
      OneByOneGoesOn(votes, field);
      assert |rest| == |field| - |low|;
      IrvStep(order, votes, {}, n + 1);
      if |field| == 2 {
        TwoLeftTie(votes, field);
      }
      x := OneByOneWinnerBeatsSomebody(order, votes, rest, n + 1);
    }
  }

  /**
   A winner that beats nobody was left alone: it stood by itself in the last round, and some
   round before had dropped two options at once.
   */
  lemma LoserWinsOnlyAlone(order: seq<OptionId>, votes: seq<Ballot>, field: set<OptionId>, n: nat, w: OptionId)
    requires |field| >= 2 && Irv(order, votes, field, n).winner == Some(w)
    requires forall x :: x in field && x != w ==> Prefer(votes, w, x) <= Prefer(votes, x, w)
    ensures var out := Irv(order, votes, field, n);
            out.rounds != [] && FieldAt(votes, field, |out.rounds| - 1) == {w}
    ensures !OneByOne(votes, field)
  {
    hide Irv, FieldAt, OneByOne, Prefer, IsMajority;
    WinnerStands(order, votes, field, n);
    var k := |Irv(order, votes, field, n).rounds| - 1;
    var last := FieldAt(votes, field, k);
    FieldsShrink(votes, field, k);
    forall x | x in last ensures x == w {
      if x != w {
        MajorityBeatsEach(votes, last, w, x);
      }
    }
    if OneByOne(votes, field) {
      var x := OneByOneWinnerBeatsSomebody(order, votes, field, n);
    }
  }

  function Repeat(k: nat, b: Ballot): seq<Ballot> {
    seq(k, _ => b)
  }

  lemma {:induction false} CountAppend(u: seq<Ballot>, v: seq<Ballot>, p: Ballot -> bool)
    ensures Count(u + v, p) == Count(u, p) + Count(v, p)
  {
    if v == [] {
      assert u + v == u;
    } else {
      var n := |v| - 1;
      CountAppend(u, v[..n], p);
      assert (u + v)[..|u + v| - 1] == u + v[..n];
    }
  }

  lemma {:induction false} CountRepeat(k: nat, b: Ballot, p: Ballot -> bool)
    ensures Count(Repeat(k, b), p) == if p(b) then k else 0
  {
    if k > 0 {
      assert Repeat(k, b)[..k - 1] == Repeat(k - 1, b);
      CountRepeat(k - 1, b, p);
    }
  }

  lemma CountBlocks(k: nat, b: Ballot, l: nat, c: Ballot, m: nat, d: Ballot, p: Ballot -> bool)
    ensures Count(Repeat(k, b) + Repeat(l, c) + Repeat(m, d), p) ==
            (if p(b) then k else 0) + (if p(c) then l else 0) + (if p(d) then m else 0)
  {
    CountAppend(Repeat(k, b) + Repeat(l, c), Repeat(m, d), p);
    CountAppend(Repeat(k, b), Repeat(l, c), p);
    CountRepeat(k, b, p);
    CountRepeat(l, c, p);
    CountRepeat(m, d, p);
  }

  /** `k` ballots for A alone, and `m` each for B then C and for C then B. */
  function SplitRivals(k: nat, m: nat): seq<Ballot> {
    Repeat(k, ["A"]) + Repeat(m, ["B", "C"]) + Repeat(m, ["C", "B"])
  }

  lemma SplitRivalsCounts(k: nat, m: nat, field: set<OptionId>, o: OptionId)
    requires "A" in field && o in {"A", "B", "C"}
    ensures field == {"A", "B", "C"} ==>
              CountTop(SplitRivals(k, m), field, o) == if o == "A" then k else m
    ensures field == {"A", "B", "C"} ==> Live(SplitRivals(k, m), field) == k + 2 * m
    ensures field == {"A"} ==> CountTop(SplitRivals(k, m), field, "A") == k == Live(SplitRivals(k, m), field)
    ensures field == {"A", o} && o != "A" ==>
              CountTop(SplitRivals(k, m), field, "A") == k && CountTop(SplitRivals(k, m), field, o) == 2 * m
  {
    CountBlocks(k, ["A"], m, ["B", "C"], m, ["C", "B"], TopIs(field, o));
    CountBlocks(k, ["A"], m, ["B", "C"], m, ["C", "B"], TopIs(field, "A"));
    CountBlocks(k, ["A"], m, ["B", "C"], m, ["C", "B"], Ranks(field));
    assert Top(["A"], field) == Some("A");
    assert Top(["B", "C"], field) == if "B" in field then Some("B") else if "C" in field then Some("C") else None by {
      assert ["B", "C"][1..] == ["C"] && ["C"][1..] == [];
    }
    assert Top(["C", "B"], field) == if "C" in field then Some("C") else if "B" in field then Some("B") else None by {
      assert ["C", "B"][1..] == ["B"] && ["B"][1..] == [];
    }
  }

  /** In the first round nobody has a majority and both rivals trail. */
  lemma RivalsTrail(k: nat, m: nat)
    requires m < k < 2 * m
    ensures var votes := SplitRivals(k, m);
            var field := {"A", "B", "C"};
            Live(votes, field) > 0 && Leader(votes, field).None? && field - Trailing(votes, field) == {"A"}
  {
    hide CountTop, Live, SplitRivals;
    var votes := SplitRivals(k, m);
    var field: set<OptionId> := {"A", "B", "C"};
    SplitRivalsCounts(k, m, field, "A");
    SplitRivalsCounts(k, m, field, "B");
    SplitRivalsCounts(k, m, field, "C");
    assert forall o :: o in field ==> !IsMajority(votes, field, o);
    assert !IsLowest(votes, field, "A") by {
      assert CountTop(votes, field, "A") > CountTop(votes, field, "B");
    }
    assert IsLowest(votes, field, "B") && IsLowest(votes, field, "C");
    assert Trailing(votes, field) == {"B", "C"};
  }

  /**
   Two rivals tied for last go together, so A is elected although B and C would each beat
   A head to head and more voters rank both of them above A than rank A at all.
   */
  lemma TiedRivalsGoTogether(options: seq<OptionId>, k: nat, m: nat)
    requires Elems(options) == {"A", "B", "C"} && m < k < 2 * m
    ensures var votes := SplitRivals(k, m);
            && Runoff(options, votes).winner == Some("A")
            && Prefer(votes, "B", "A") > Prefer(votes, "A", "B")
            && Prefer(votes, "C", "A") > Prefer(votes, "A", "C")
  {
    hide Irv, Leader, Trailing, SplitRivals, Tally, Live, CountTop, Distinct, Filter;
    var votes := SplitRivals(k, m);
    var order := Distinct(options);
    SplitRivalsCounts(k, m, {"A"}, "A");
    SplitRivalsCounts(k, m, {"A", "B"}, "B");
    SplitRivalsCounts(k, m, {"A", "C"}, "C");
    assert {"B", "A"} == {"A", "B"} && {"C", "A"} == {"A", "C"};
    RivalsTrail(k, m);
    IrvStep(order, votes, {"A", "B", "C"}, 1);
    LeaderIs(votes, {"A"}, "A");
    IrvStep(order, votes, {"A"}, 2);
  }
}
