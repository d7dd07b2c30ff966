/**
 The ranked-choice tally of a poll: the declarative count, and the loop that
 refines it by shrinking the field and the voters' lists in place.
 */
module InstantRunoff {
  import opened Wrappers
  import opened Ballots

  type Counts = map<OptionId, nat>

  /** One entry of `irv_rounds`. */
  datatype Round = Round(number: nat, counts: Counts, eliminated: seq<OptionId>, winner: Option<OptionId>)

  datatype Outcome = Outcome(rounds: seq<Round>, winner: Option<OptionId>)

  // ----- the declarative count

  function Tally(votes: seq<Ballot>, field: set<OptionId>): Counts {
    map o | o in field :: CountTop(votes, field, o)
  }

  predicate IsMajority(votes: seq<Ballot>, field: set<OptionId>, o: OptionId) {
    2 * CountTop(votes, field, o) > Live(votes, field)
  }

  predicate IsLowest(votes: seq<Ballot>, field: set<OptionId>, o: OptionId) {
    forall x :: x in field ==> CountTop(votes, field, o) <= CountTop(votes, field, x)
  }

  /** The option with more than half of the live ballots, if there is one. */
  ghost function Leader(votes: seq<Ballot>, field: set<OptionId>): Option<OptionId> {
    if exists w :: w in field && IsMajority(votes, field, w) then
      var w :| w in field && IsMajority(votes, field, w);
      Some(w)
    else None
  }

  /** Every option tied for the fewest votes. */
  ghost function Trailing(votes: seq<Ballot>, field: set<OptionId>): (low: set<OptionId>)
    ensures low <= field
    ensures field != {} ==> low != {}
  {
    if field == {} then {}
    else
      SomebodyIsLowest(votes, field);
      var x :| x in field && IsLowest(votes, field, x);
      var low := set o | o in field && IsLowest(votes, field, o);
      assert x in low;
      low
  }

  /** The runoff from round `number` on, with `field` the options still standing, listed as in `order`. */
  ghost function Irv(order: seq<OptionId>, votes: seq<Ballot>, field: set<OptionId>, number: nat): Outcome
    decreases field
  {
    var best := Leader(votes, field);
    if field == {} then Outcome([], None)
    else if best.Some? then Outcome([Round(number, Tally(votes, field), [], best)], best)
    else if Live(votes, field) == 0 then Outcome([], None)
    else
      var low := Trailing(votes, field);
      var next := Irv(order, votes, field - low, number + 1);
      Outcome([Round(number, Tally(votes, field), Filter(order, low), None)] + next.rounds, next.winner)
  }

  /** Distinct options in order of first appearance, as a JavaScript `Set` keeps them. */
  function Distinct(options: seq<OptionId>): (order: seq<OptionId>)
    ensures NoDup(order)
    ensures Elems(order) == Elems(options)
  {
    if options == [] then []
    else
      var n := |options| - 1;
      var init := Distinct(options[..n]);
      assert options == options[..n] + [options[n]];
      assert forall o :: o in options <==> o in options[..n] || o == options[n];
      assert forall o :: o in options[..n] <==> o in Elems(init);
      if options[n] in init then init else init + [options[n]]
  }

  /** The tally of a whole poll. */
  ghost function Runoff(options: seq<OptionId>, votes: seq<Ballot>): Outcome {
    Irv(Distinct(options), votes, Elems(options), 1)
  }

  // ----- facts about one round

  lemma SomebodyTrails(votes: seq<Ballot>, field: set<OptionId>, some: set<OptionId>) returns (o: OptionId)
    requires some != {}
    ensures o in some && forall x :: x in some ==> CountTop(votes, field, o) <= CountTop(votes, field, x)
    decreases |some|
  {
    o :| o in some;
    if some != {o} {
      var other := SomebodyTrails(votes, field, some - {o});
      if CountTop(votes, field, other) < CountTop(votes, field, o) {
        o := other;
      }
    }
  }

  lemma SomebodyIsLowest(votes: seq<Ballot>, field: set<OptionId>)
    requires field != {}
    ensures exists o :: o in field && IsLowest(votes, field, o)
  {
    var o := SomebodyTrails(votes, field, field);
    assert IsLowest(votes, field, o);
  }

  lemma NobodyAboveLive(votes: seq<Ballot>, field: set<OptionId>, o: OptionId)
    ensures CountTop(votes, field, o) <= Live(votes, field)
  {
    CountMono(votes, TopIs(field, o), Ranks(field));
  }

  lemma TwoCounts(votes: seq<Ballot>, field: set<OptionId>, w: OptionId, x: OptionId)
    requires w != x
    ensures CountTop(votes, field, w) + CountTop(votes, field, x) <= Live(votes, field)
  {
    CountSum(votes, TopIs(field, w), TopIs(field, x), Ranks(field));
  }

  /** At most one option holds a majority, so `Leader` finds it whichever way it looks. */
  lemma LeaderIs(votes: seq<Ballot>, field: set<OptionId>, w: OptionId)
    requires w in field && IsMajority(votes, field, w)
    ensures Leader(votes, field) == Some(w)
  {
    forall x | x in field && IsMajority(votes, field, x) ensures x == w {
      if x != w {
        TwoCounts(votes, field, w, x);
      }
    }
  }

  /** One round of `Irv`, case by case. */
  lemma IrvStep(order: seq<OptionId>, votes: seq<Ballot>, field: set<OptionId>, number: nat)
    ensures var best := Leader(votes, field);
            var low := Trailing(votes, field);
            var next := Irv(order, votes, field - low, number + 1);
            Irv(order, votes, field, number) ==
            if field == {} then Outcome([], None)
            else if best.Some? then Outcome([Round(number, Tally(votes, field), [], best)], best)
            else if Live(votes, field) == 0 then Outcome([], None)
            else Outcome([Round(number, Tally(votes, field), Filter(order, low), None)] + next.rounds, next.winner)
  {
  }

  // ----- the loop

  ghost predicate Filtered(prefs: seq<Ballot>, votes: seq<Ballot>, field: set<OptionId>) {
    && |prefs| == |votes|
    && forall i :: 0 <= i < |votes| ==> prefs[i] == Filter(votes[i], field)
  }

  lemma {:induction false} CountStep(votes: seq<Ballot>, i: nat, p: Ballot -> bool)
    requires i < |votes|
    ensures Count(votes[..i + 1], p) == Count(votes[..i], p) + (if p(votes[i]) then 1 else 0)
  {
    assert votes[..i + 1][..i] == votes[..i];
  }

  /** Reading one more ballot adds one to its top choice and to nothing else. */
  lemma TallyStep(votes: seq<Ballot>, i: nat, field: set<OptionId>)
    requires i < |votes|
    ensures var top := Top(votes[i], field);
            var before := Tally(votes[..i], field);
            && (top.Some? ==> top.value in field && top.value in before)
            && Tally(votes[..i + 1], field) ==
               (if top.Some? then before[top.value := before[top.value] + 1] else before)
            && Live(votes[..i + 1], field) == Live(votes[..i], field) + (if top.Some? then 1 else 0)
  {
    TopInField(votes[i], field);
    forall o | o in field
      ensures CountTop(votes[..i + 1], field, o) ==
              CountTop(votes[..i], field, o) + (if Top(votes[i], field) == Some(o) then 1 else 0)
    {
      CountStep(votes, i, TopIs(field, o));
    }
    CountStep(votes, i, Ranks(field));
  }

  lemma EmptyTally(field: set<OptionId>)
    ensures Tally([], field) == map o | o in field :: 0
    ensures Live([], field) == 0
  {
  }

  /** Counts first entries of the filtered lists, as the tally over the original ballots. */
  method CountFirsts(active: seq<OptionId>, prefs: array<Ballot>, ghost votes: seq<Ballot>)
    returns (counts: Counts, total: nat)
    requires Filtered(prefs[..], votes, Elems(active))
    ensures counts == Tally(votes, Elems(active))
    ensures total == Live(votes, Elems(active))
  {
    hide Tally, Live, Top, Filter;
    ghost var field := Elems(active);
    counts := map o | o in active :: 0;
    total := 0;
    EmptyTally(field);
    for i := 0 to prefs.Length
      invariant counts == Tally(votes[..i], field)
      invariant total == Live(votes[..i], field)
    {
      var list := prefs[i];
      assert list == prefs[..][i] && votes[..0] == [];
      TopIsFirstOfFilter(votes[i], field);
      TallyStep(votes, i, field);
      if |list| > 0 {
        counts := counts[list[0] := counts[list[0]] + 1];
        total := total + 1;
      }
    }
    assert votes[..prefs.Length] == votes;
  }

  ghost function WithVotes(counts: Counts, c: nat): set<OptionId> {
    set o | o in counts && counts[o] == c
  }

  /** One pass over the field: the majority holder and everybody tied for last. */
  method Assess(active: seq<OptionId>, counts: Counts, total: nat)
    returns (roundWinner: Option<OptionId>, minVotes: Option<nat>, low: seq<OptionId>)
    requires counts.Keys == Elems(active)
    ensures roundWinner.Some? ==> roundWinner.value in counts && 2 * counts[roundWinner.value] > total
    ensures roundWinner.None? ==> forall o :: o in counts ==> 2 * counts[o] <= total
    ensures minVotes.None? <==> active == []
    ensures minVotes.Some? ==>
              && (forall o :: o in counts ==> minVotes.value <= counts[o])
              && (exists o :: o in counts && minVotes.value == counts[o])
              && low == Filter(active, WithVotes(counts, minVotes.value))
  {
    roundWinner, minVotes, low := None, None, [];
    assert forall o :: o in counts <==> o in active;
    for i := 0 to |active|
      invariant roundWinner.Some? ==> roundWinner.value in counts && 2 * counts[roundWinner.value] > total
      invariant roundWinner.None? ==> forall k :: 0 <= k < i ==> 2 * counts[active[k]] <= total
      invariant minVotes.None? <==> i == 0
      invariant minVotes.Some? ==>
                  && (forall k :: 0 <= k < i ==> minVotes.value <= counts[active[k]])
                  && (exists o :: o in counts && minVotes.value == counts[o])
                  && low == Filter(active[..i], WithVotes(counts, minVotes.value))
    {
      var optId := active[i];
      var vCount := counts[optId];
      if 2 * vCount > total {
        roundWinner := Some(optId);
      }
      assert active[..i + 1] == active[..i] + [optId];
      FilterAppend(active[..i], optId, WithVotes(counts, vCount));
      if minVotes.None? || vCount < minVotes.value {
        NoneHave(active[..i], counts, vCount);
        minVotes := Some(vCount);
        low := [optId];
      } else {
        FilterAppend(active[..i], optId, WithVotes(counts, minVotes.value));
        if vCount == minVotes.value {
          low := low + [optId];
        }
      }
    }
    assert active[..|active|] == active;
  }

  lemma NoneHave(some: seq<OptionId>, counts: Counts, c: nat)
    requires forall k :: 0 <= k < |some| ==> some[k] in counts && counts[some[k]] != c
    ensures Filter(some, WithVotes(counts, c)) == []
  {
    FilterAgrees(some, WithVotes(counts, c), {});
    FilterMembers(some, {});
  }

  /** What the pass found is the leader and the trailing options of the field. */
  lemma AssessedRound(order: seq<OptionId>, votes: seq<Ballot>, field: set<OptionId>,
                      roundWinner: Option<OptionId>, minVotes: nat, low: seq<OptionId>)
    requires field != {} && field <= Elems(order)
    requires var counts := Tally(votes, field);
             && (roundWinner.Some? ==>
                   roundWinner.value in counts && 2 * counts[roundWinner.value] > Live(votes, field))
             && (roundWinner.None? ==> forall o :: o in counts ==> 2 * counts[o] <= Live(votes, field))
             && (forall o :: o in counts ==> minVotes <= counts[o])
             && (exists o :: o in counts && minVotes == counts[o])
             && low == Filter(Filter(order, field), WithVotes(counts, minVotes))
    ensures roundWinner == Leader(votes, field)
    ensures Elems(low) == Trailing(votes, field)
    ensures low == Filter(order, Trailing(votes, field))
    ensures Live(votes, field) == 0 ==> minVotes == 0
  {
    hide CountTop, Live, Filter;
    if roundWinner.Some? {
      LeaderIs(votes, field, roundWinner.value);
    }
    var o :| o in field && minVotes == Tally(votes, field)[o];
    assert forall x :: x in field ==> Tally(votes, field)[x] == CountTop(votes, field, x);
    forall x | x in field
      ensures x in Trailing(votes, field) <==> CountTop(votes, field, x) == minVotes
    {
      assert IsLowest(votes, field, x) ==> CountTop(votes, field, x) <= CountTop(votes, field, o);
    }
    assert WithVotes(Tally(votes, field), minVotes) == Trailing(votes, field);
    FilterTwice(order, field, Trailing(votes, field));
    FilterMembers(order, Trailing(votes, field));
    NobodyAboveLive(votes, field, o);
  }

  /** The working copy of the votes, reduced to options of this poll. */
  method CopyVotes(votes: seq<Ballot>, active: seq<OptionId>) returns (prefs: array<Ballot>)
    ensures fresh(prefs)
    ensures Filtered(prefs[..], votes, Elems(active))
  {
    prefs := new Ballot[|votes|];
    for i := 0 to |votes|
      invariant forall k :: 0 <= k < i ==> prefs[k] == Filter(votes[k], Elems(active))
    {
      prefs[i] := Filter(votes[i], Elems(active));
    }
  }

  /** Drops eliminated options from every voter's list, in place. */
  method Refilter(prefs: array<Ballot>, active: seq<OptionId>, ghost votes: seq<Ballot>, ghost before: set<OptionId>)
    requires Filtered(prefs[..], votes, before)
    requires Elems(active) <= before
    modifies prefs
    ensures Filtered(prefs[..], votes, Elems(active))
  {
    for i := 0 to prefs.Length
      invariant forall k :: 0 <= k < i ==> prefs[k] == Filter(votes[k], Elems(active))
      invariant forall k :: i <= k < prefs.Length ==> prefs[k] == Filter(votes[k], before)
    {
      FilterTwice(votes[i], before, Elems(active));
      prefs[i] := Filter(prefs[i], Elems(active));
    }
  }

  /** Deletes the eliminated options from the insertion-ordered set of active ones. */
  method Eliminate(order: seq<OptionId>, active: seq<OptionId>, low: seq<OptionId>, ghost field: set<OptionId>)
    returns (rest: seq<OptionId>)
    requires NoDup(order) && field <= Elems(order) && active == Filter(order, field)
    requires low != [] && Elems(low) <= field
    ensures rest == Filter(order, field - Elems(low)) && Elems(rest) == field - Elems(low)
    ensures |rest| < |active|
  {
    rest := Filter(active, Elems(active) - Elems(low));
    FilterMembers(order, field);
    assert Elems(active) == field;
    FilterMembers(order, field - Elems(low));
    FilterTwice(order, field, field - Elems(low));
    NoDupSize(active);
    NoDupSize(rest);
    assert low[0] in Elems(low);
    assert Elems(rest) == field - Elems(low) < field;
    ProperSubsetSmaller(Elems(rest), Elems(active));
  }

  lemma {:induction false} NoDupSize(s: seq<OptionId>)
    requires NoDup(s)
    ensures |Elems(s)| == |s|
  {
    if s != [] {
      var n := |s| - 1;
      NoDupSize(s[..n]);
      assert s == s[..n] + [s[n]];
      assert Elems(s) == Elems(s[..n]) + {s[n]};
    }
  }

  lemma ProperSubsetSmaller(a: set<OptionId>, b: set<OptionId>)
    requires a < b
    ensures |a| < |b|
  {
    assert b == a + (b - a);
    var x :| x in b - a;
    assert |b| == |a| + |b - a|;
  }

  /** The tally as the service runs it; it computes exactly the declarative `Runoff`. */
  method RunRounds(options: seq<OptionId>, votes: seq<Ballot>) returns (rounds: seq<Round>, winner: Option<OptionId>)
    ensures Outcome(rounds, winner) == Runoff(options, votes)
    ensures |rounds| <= |Elems(options)|
  {
    hide Irv, Leader, Trailing, Tally, Live, Filter, Filtered;
    var order := Distinct(options);
    var active := order;
    ghost var field := Elems(order);
    NoDupSize(order);
    FilterAll(order);
    rounds, winner := [], None;
    var round := 1;
    var prefs := CopyVotes(votes, active);
    ghost var whole := Irv(order, votes, field, 1);

    while |active| > 0 && winner.None?
      invariant Filtered(prefs[..], votes, field) && active == Filter(order, field) && field == Elems(active)
      invariant field <= Elems(order)
      invariant winner.None? && |rounds| + |active| <= |order|
      invariant var rest := Irv(order, votes, field, round);
                whole == Outcome(rounds + rest.rounds, rest.winner)
      decreases |active|
    {
      IrvStep(order, votes, field, round);
      assert active[0] in field;
      var counts, total := CountFirsts(active, prefs, votes);
      TallyKeys(votes, field);
      var roundWinner, minVotes, low := Assess(active, counts, total);
      AssessedRound(order, votes, field, roundWinner, minVotes.value, low);
      if roundWinner.Some? {
        winner := roundWinner;
        rounds := rounds + [Round(round, counts, [], winner)];
        break;
      }
      if minVotes == Some(0) && total == 0 {
        break;
      }
      ghost var next := Irv(order, votes, field - Elems(low), round + 1);
      assert rounds + ([Round(round, counts, low, None)] + next.rounds)
          == (rounds + [Round(round, counts, low, None)]) + next.rounds;
      rounds := rounds + [Round(round, counts, low, None)];
      active := Eliminate(order, active, low, field);
      Refilter(prefs, active, votes, field);
      field := field - Elems(low);
      round := round + 1;
    }
    if active == [] {
      IrvStep(order, votes, field, round);
    }
  }

  lemma TallyKeys(votes: seq<Ballot>, field: set<OptionId>)
    ensures Tally(votes, field).Keys == field
  {
  }

  lemma {:induction false} FilterAll(order: seq<OptionId>)
    ensures Filter(order, Elems(order)) == order
  {
    if order != [] {
      FilterAll(order[1..]);
      FilterAgrees(order[1..], Elems(order), Elems(order[1..]));
    }
  }
}
