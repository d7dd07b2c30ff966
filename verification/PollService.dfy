/**
 A poll with its vote rows: who may vote and how, automatic closing, and the two
 ways the results are counted.
 */
module PollService {
  import opened Wrappers
  import opened Ballots
  import opened InstantRunoff
  import RunoffTheorems

  type MemberId = string
  type Time = int

  datatype PollType = SingleChoice | MultipleChoice | RankedChoice

  datatype VoteError =
    | PollClosed
    | NotEligible
    | InvalidOption(choice: OptionId)
    | NeedsExactlyOne
    | NeedsAtLeastOne
    | RepeatedOption
    | AlreadyVoted
    | AccessDenied

  datatype Vote = Vote(member: MemberId, choices: Ballot)

  /** The caller's active membership, reduced to the name of its role. */
  datatype Standing = Inactive | Active(role: string)

  // ----- which choices a poll accepts

  function CheckOptions(options: seq<OptionId>, choices: Ballot): Option<VoteError> {
    if choices == [] then None
    else if choices[0] !in options then Some(InvalidOption(choices[0]))
    else CheckOptions(options, choices[1..])
  }

  /** `new Set(choices).size !== choices.length` is a repetition. */
  function CheckChoices(kind: PollType, options: seq<OptionId>, choices: Ballot): Option<VoteError> {
    var bad := CheckOptions(options, choices);
    if bad.Some? then bad
    else if kind.SingleChoice? && |choices| != 1 then Some(NeedsExactlyOne)
    else if kind.RankedChoice? && |choices| == 0 then Some(NeedsAtLeastOne)
    else if kind.RankedChoice? && |Elems(choices)| != |choices| then Some(RepeatedOption)
    else None
  }

  lemma {:induction false} CheckOptionsExact(options: seq<OptionId>, choices: Ballot)
    ensures CheckOptions(options, choices).None? <==> forall c :: c in choices ==> c in options
  {
    if choices != [] {
      CheckOptionsExact(options, choices[1..]);
      assert forall c :: c in choices <==> c == choices[0] || c in choices[1..];
    }
  }

  lemma {:induction false} SizeMeansNoDup(s: seq<OptionId>)
    ensures |Elems(s)| <= |s|
    ensures |Elems(s)| == |s| <==> NoDup(s)
  {
    if s != [] {
      var n := |s| - 1;
      SizeMeansNoDup(s[..n]);
      assert s == s[..n] + [s[n]];
      assert Elems(s) == Elems(s[..n]) + {s[n]};
      if s[n] in s[..n] {
        assert Elems(s) == Elems(s[..n]);
      }
    }
  }

  /** Accepted choices are exactly those the poll kind allows. */
  lemma ChoicesAccepted(kind: PollType, options: seq<OptionId>, choices: Ballot)
    ensures CheckChoices(kind, options, choices).None? <==>
            && Elems(choices) <= Elems(options)
            && (kind.SingleChoice? ==> |choices| == 1)
            && (kind.RankedChoice? ==> choices != [] && NoDup(choices))
  {
    CheckOptionsExact(options, choices);
    SizeMeansNoDup(choices);
    assert forall c :: c in Elems(choices) <==> c in choices;
    assert forall c :: c in Elems(options) <==> c in options;
  }

  // ----- plain counting

  /** How often `o` is chosen over all ballots, repetitions included. */
  function Occurrences(votes: seq<Ballot>, o: OptionId): nat {
    if votes == [] then 0
    else Occurrences(votes[..|votes| - 1], o) + multiset(votes[|votes| - 1])[o]
  }

  function Lists(o: OptionId): Ballot -> bool {
    b => o in b
  }

  /** The number reported for an option is the number of its voters exactly when no ballot repeats it. */
  lemma {:induction false} OccurrencesAreVoters(votes: seq<Ballot>, o: OptionId)
    ensures Occurrences(votes, o) >= Count(votes, Lists(o))
    ensures Occurrences(votes, o) == Count(votes, Lists(o)) <==> forall b :: b in votes ==> multiset(b)[o] <= 1
  {
    if votes != [] {
      var n := |votes| - 1;
      OccurrencesAreVoters(votes[..n], o);
      assert forall b :: b in votes <==> b in votes[..n] || b == votes[n];
      assert multiset(votes[n])[o] > 0 <==> o in votes[n];
    }
  }

  lemma {:induction false} OccurrencesSplit(votes: seq<Ballot>, k: nat, o: OptionId)
    requires k < |votes|
    ensures Occurrences(votes, o) == Occurrences(votes[..k] + votes[k + 1..], o) + multiset(votes[k])[o]
  {
    var n := |votes| - 1;
    if k == n {
      assert votes[..k] + votes[k + 1..] == votes[..n];
    } else {
      OccurrencesSplit(votes[..n], k, o);
      DropLastOfRest(votes, k);
    }
  }

  /** Anonymity of the plain count. */
  lemma {:induction false} PlainAnonymity(votes: seq<Ballot>, votes': seq<Ballot>, o: OptionId)
    requires multiset(votes) == multiset(votes')
    ensures Occurrences(votes, o) == Occurrences(votes', o)
    decreases |votes|
  {
    if votes == [] {
      assert |multiset(votes')| == 0;
    } else {
      var n := |votes| - 1;
      assert votes[n] in multiset(votes');
      var k :| 0 <= k < |votes'| && votes'[k] == votes[n];
      MultisetWithout(votes, n);
      MultisetWithout(votes', k);
      assert votes[..n] + votes[n + 1..] == votes[..n];
      PlainAnonymity(votes[..n], votes'[..k] + votes'[k + 1..], o);
      OccurrencesSplit(votes', k, o);
    }
  }

  /** Adds one ballot: every listed choice counts, as often as it is listed. */
  method CountBallot(before: map<OptionId, nat>, choices: Ballot) returns (counts: map<OptionId, nat>)
    ensures counts.Keys == before.Keys
    ensures forall o :: o in before ==> counts[o] == before[o] + multiset(choices)[o]
  {
    counts := before;
    for c := 0 to |choices|
      invariant counts.Keys == before.Keys
      invariant forall o :: o in before ==> counts[o] == before[o] + multiset(choices[..c])[o]
    {
      assert choices[..c + 1] == choices[..c] + [choices[c]];
      if choices[c] in counts {
        counts := counts[choices[c] := counts[choices[c]] + 1];
      }
    }
    assert choices[..|choices|] == choices;
  }

  /** Counts all ballots, as the service does for the two plain poll kinds. */
  method CountPlain(options: seq<OptionId>, votes: seq<Ballot>) returns (results: seq<nat>)
    ensures |results| == |options|
    ensures forall i :: 0 <= i < |options| ==> results[i] == Occurrences(votes, options[i])
  {
    var counts: map<OptionId, nat> := map o | o in options :: 0;
    for v := 0 to |votes|
      invariant counts.Keys == Elems(options)
      invariant forall o :: o in counts ==> counts[o] == Occurrences(votes[..v], o)
    {
      assert votes[..v + 1][..v] == votes[..v];
      counts := CountBallot(counts, votes[v]);
    }
    assert votes[..|votes|] == votes;
    results := seq(|options|, i requires 0 <= i < |options| => counts[options[i]]);
  }

  /** `vote_count` of each option of a ranked poll: its count in the first recorded round, or zero. */
  function FirstRoundCounts(options: seq<OptionId>, rounds: seq<Round>): seq<nat> {
    seq(|options|, i requires 0 <= i < |options| =>
      if rounds != [] && options[i] in rounds[0].counts then rounds[0].counts[options[i]] else 0)
  }

  /** These are first-choice totals in every case, also when no round was recorded. */
  lemma FirstRoundIsFirstChoice(options: seq<OptionId>, rounds: seq<Round>, votes: seq<Ballot>)
    requires rounds == Runoff(options, votes).rounds
    ensures forall i :: 0 <= i < |options| ==>
              FirstRoundCounts(options, rounds)[i] == CountTop(votes, Elems(options), options[i])
  {
    hide Irv, Distinct, CountTop, Live, Leader;
    IrvStep(Distinct(options), votes, Elems(options), 1);
    forall i | 0 <= i < |options|
      ensures options[i] in Elems(options)
      ensures CountTop(votes, Elems(options), options[i]) <= Live(votes, Elems(options))
    {
      NobodyAboveLive(votes, Elems(options), options[i]);
    }
  }

  // ----- the poll

  class Poll {
    const kind: PollType
    const options: seq<OptionId>
    const deadline: Time
    const eligibility: Option<string>
    var isClosed: bool
    var rows: seq<Vote>

    /** One row for each voter, and every row holds choices this poll accepts. */
    ghost predicate Valid()
      reads this
    {
      && (forall i, j :: 0 <= i < j < |rows| ==> rows[i].member != rows[j].member)
      && (forall i :: 0 <= i < |rows| ==> CheckChoices(kind, options, rows[i].choices).None?)
    }

    function BallotsCast(): seq<Ballot>
      reads this
    {
      seq(|rows|, i requires 0 <= i < |rows| reads this => rows[i].choices)
    }

    constructor (kind: PollType, options: seq<OptionId>, deadline: Time, eligibility: Option<string>)
      ensures Valid() && rows == [] && !isClosed
      ensures this.kind == kind && this.options == options && this.deadline == deadline
      ensures this.eligibility == eligibility
    {
      this.kind, this.options, this.deadline, this.eligibility := kind, options, deadline, eligibility;
      isClosed, rows := false, [];
    }

    /** Closes the poll once its deadline has passed. */
    method CloseExpired(now: Time)
      modifies this`isClosed
      ensures isClosed == (old(isClosed) || now > deadline)
    {
      if !isClosed && now > deadline {
        isClosed := true;
      }
    }

    /** Why a vote is refused before the vote rows are looked at; the first failing check decides. */
    function Refusal(closed: bool, who: Standing, choices: Ballot): Option<VoteError> {
      if closed then Some(PollClosed)
      else if who.Inactive? then Some(NotEligible)
      else if eligibility.Some? && eligibility.value != "" && who.role != eligibility.value then Some(NotEligible)
      else CheckChoices(kind, options, choices)
    }

    /** The checks shared by casting and editing, in the order the service makes them. */
    method Admit(now: Time, who: Standing, choices: Ballot) returns (refusal: Option<VoteError>)
      modifies this`isClosed
      ensures isClosed == (old(isClosed) || now > deadline)
      ensures refusal == Refusal(isClosed, who, choices)
    {
      CloseExpired(now);
      if isClosed {
        return Some(PollClosed);
      }
      if eligibility.Some? && eligibility.value != "" {
        if who.Inactive? || who.role != eligibility.value {
          return Some(NotEligible);
        }
      } else if who.Inactive? {
        return Some(NotEligible);
      }
      refusal := CheckChoices(kind, options, choices);
    }

    function RowOf(member: MemberId): Option<nat>
      reads this
    {
      FindRow(rows, member)
    }

    static function FindRow(rows: seq<Vote>, member: MemberId): (r: Option<nat>)
      ensures r.None? ==> forall i :: 0 <= i < |rows| ==> rows[i].member != member
      ensures r.Some? ==> r.value < |rows| && rows[r.value].member == member
    {
      if rows == [] then None
      else if rows[|rows| - 1].member == member then Some(|rows| - 1)
      else FindRow(rows[..|rows| - 1], member)
    }

    /** A first vote adds one row; a second one is refused and changes nothing. */
    method CastVote(now: Time, member: MemberId, who: Standing, choices: Ballot) returns (refusal: Option<VoteError>)
      requires Valid()
      modifies this
      ensures Valid()
      ensures isClosed == (old(isClosed) || now > deadline)
      ensures refusal == var r := Refusal(isClosed, who, choices);
                         if r.None? && old(RowOf(member)).Some? then Some(AlreadyVoted) else r
      ensures now > deadline ==> refusal == Some(PollClosed) && rows == old(rows)
      ensures rows == if refusal.Some? then old(rows) else old(rows) + [Vote(member, choices)]
    {
      refusal := Admit(now, who, choices);
      if refusal.Some? { return; }
      if RowOf(member).Some? {
        return Some(AlreadyVoted);
      }
      rows := rows + [Vote(member, choices)];
    }

    /** Editing replaces the voter's own row, or adds it; no other row changes. */
    method EditVote(now: Time, member: MemberId, who: Standing, choices: Ballot) returns (refusal: Option<VoteError>)
      requires Valid()
      modifies this
      ensures Valid()
      ensures isClosed == (old(isClosed) || now > deadline)
      ensures refusal == Refusal(isClosed, who, choices)
      ensures refusal.Some? ==> rows == old(rows)
      ensures now > deadline ==> refusal == Some(PollClosed) && rows == old(rows)
      ensures refusal.None? ==>
                match old(RowOf(member))
                case None => rows == old(rows) + [Vote(member, choices)]
                case Some(i) => rows == old(rows)[i := Vote(member, choices)]
    {
      refusal := Admit(now, who, choices);
      if refusal.Some? { return; }
      match RowOf(member) {
        case None => rows := rows + [Vote(member, choices)];
        case Some(i) => rows := rows[i := Vote(member, choices)];
      }
    }

    /**
     The reported results; `rounds` stays empty for the two plain poll kinds. When every vote
     has one first or only choice, the totals add up to the number of votes.
     */
    method GetResults(now: Time, who: Standing)
      returns (refused: Option<VoteError>, results: seq<nat>, rounds: seq<Round>, winner: Option<OptionId>)
      modifies this`isClosed
      ensures isClosed == (old(isClosed) || now > deadline)
      ensures refused == if who.Inactive? then Some(AccessDenied) else None
      ensures refused.None? ==> |results| == |options|
      ensures refused.None? && kind.RankedChoice? ==>
                && Outcome(rounds, winner) == Runoff(options, BallotsCast())
                && forall i :: 0 <= i < |options| ==>
                     results[i] == CountTop(BallotsCast(), Elems(options), options[i])
      ensures refused.None? && !kind.RankedChoice? ==>
                && Outcome(rounds, winner) == Outcome([], None)
                && forall i :: 0 <= i < |options| ==> results[i] == Occurrences(BallotsCast(), options[i])
      ensures old(Valid()) ==> Valid()
      ensures refused.None? && Valid() && NoDup(options) && !kind.MultipleChoice? ==> Sum(results) == |rows|
    {
      CloseExpired(now);
      refused, results, rounds, winner := None, [], [], None;
      if who.Inactive? {
        return Some(AccessDenied), [], [], None;
      }
      if kind.RankedChoice? {
        rounds, winner := RunRounds(options, BallotsCast());
        results := FirstRoundCounts(options, rounds);
        FirstRoundIsFirstChoice(options, rounds, BallotsCast());
      } else {
        results := CountPlain(options, BallotsCast());
      }
      if Valid() && NoDup(options) && !kind.MultipleChoice? {
        ResultsAddUp(kind, options, BallotsCast(), results);
      }
    }
  }

  // ----- which votes are refused, and why

  lemma {:induction false} FirstUnknownChoice(options: seq<OptionId>, choices: Ballot, c: OptionId)
    ensures CheckOptions(options, choices) == Some(InvalidOption(c)) <==>
            exists i :: 0 <= i < |choices| && choices[i] == c && c !in options
                        && forall j :: 0 <= j < i ==> choices[j] in options
    ensures CheckOptions(options, choices).Some? ==> CheckOptions(options, choices).value.InvalidOption?
  {
    if choices != [] {
      var rest := choices[1..];
      FirstUnknownChoice(options, rest, c);
      if choices[0] in options {
        if i :| 0 <= i < |choices| && choices[i] == c && c !in options
                && forall j :: 0 <= j < i ==> choices[j] in options {
          assert rest[i - 1] == c && forall j :: 0 <= j < i - 1 ==> rest[j] == choices[j + 1];
        }
        if i :| 0 <= i < |rest| && rest[i] == c && c !in options && forall j :: 0 <= j < i ==> rest[j] in options {
          assert choices[i + 1] == c;
          assert forall j :: 0 <= j < i + 1 ==> choices[j] in options by {
            assert forall j :: 0 < j < i + 1 ==> choices[j] == rest[j - 1];
          }
        }
      }
    }
  }

  /** May vote as far as membership goes: active, and in the role the poll is limited to, if it is to one. */
  predicate MayVote(eligibility: Option<string>, who: Standing) {
    who.Active? && (eligibility.None? || eligibility.value == "" || who.role == eligibility.value)
  }

  /**
   Why a vote is refused, each reason exactly: a closed poll, else a voter who is no active
   member or not in the role asked for, else the first choice that is no option of the poll,
   else a number of choices or a repetition that the kind of poll does not allow.
   */
  lemma VoteRefusedExactly(poll: Poll, closed: bool, who: Standing, choices: Ballot)
    ensures var r := poll.Refusal(closed, who, choices);
            var known := forall c :: c in choices ==> c in poll.options;
            && (r == Some(PollClosed) <==> closed)
            && (r == Some(NotEligible) <==> !closed && !MayVote(poll.eligibility, who))
            && (forall c :: r == Some(InvalidOption(c)) <==>
                  && !closed && MayVote(poll.eligibility, who)
                  && exists i :: 0 <= i < |choices| && choices[i] == c && c !in poll.options
                       && forall j :: 0 <= j < i ==> choices[j] in poll.options)
            && (r == Some(NeedsExactlyOne) <==>
                  !closed && MayVote(poll.eligibility, who) && known && poll.kind.SingleChoice? && |choices| != 1)
            && (r == Some(NeedsAtLeastOne) <==>
                  !closed && MayVote(poll.eligibility, who) && known && poll.kind.RankedChoice? && choices == [])
            && (r == Some(RepeatedOption) <==>
                  !closed && MayVote(poll.eligibility, who) && known && poll.kind.RankedChoice? && !NoDup(choices))
            && (r.Some? ==> r.value != AlreadyVoted && r.value != AccessDenied)
  {
    hide CheckOptions;
    CheckOptionsExact(poll.options, choices);
    SizeMeansNoDup(choices);
    forall c
      ensures CheckOptions(poll.options, choices) == Some(InvalidOption(c)) <==>
              exists i :: 0 <= i < |choices| && choices[i] == c && c !in poll.options
                && forall j :: 0 <= j < i ==> choices[j] in poll.options
      ensures CheckOptions(poll.options, choices).Some? ==> CheckOptions(poll.options, choices).value.InvalidOption?
    {
      FirstUnknownChoice(poll.options, choices, c);
    }
  }

  // ----- what accepted ballots give

  /** In a ranked poll every accepted ballot is live in the first round and counts for its first choice. */
  lemma RankedBallotsAllCount(options: seq<OptionId>, votes: seq<Ballot>)
    requires forall b :: b in votes ==> CheckChoices(RankedChoice, options, b).None?
    ensures Live(votes, Elems(options)) == |votes|
    ensures forall b :: b in votes ==> b != [] && Top(b, Elems(options)) == Some(b[0])
  {
    forall b | b in votes ensures b != [] && Top(b, Elems(options)) == Some(b[0]) {
      ChoicesAccepted(RankedChoice, options, b);
      assert b[0] in Elems(b);
    }
    CountBound(votes, Ranks(Elems(options)));
  }

  function SumOccurrences(order: seq<OptionId>, votes: seq<Ballot>): nat {
    if order == [] then 0
    else SumOccurrences(order[..|order| - 1], votes) + Occurrences(votes, order[|order| - 1])
  }

  lemma {:induction false} SumOccurrencesStep(order: seq<OptionId>, votes: seq<Ballot>, o: OptionId)
    requires NoDup(order) && votes != [] && votes[|votes| - 1] == [o]
    ensures SumOccurrences(order, votes) ==
            SumOccurrences(order, votes[..|votes| - 1]) + (if o in order then 1 else 0)
  {
    if order != [] {
      var n := |order| - 1;
      assert order == order[..n] + [order[n]];
      SumOccurrencesStep(order[..n], votes, o);
    }
  }

  lemma {:induction false} SumOverNoVotes(order: seq<OptionId>)
    ensures SumOccurrences(order, []) == 0
  {
    if order != [] {
      SumOverNoVotes(order[..|order| - 1]);
    }
  }

  /** In a single-choice poll the counts of the distinct options add up to the number of votes. */
  lemma {:induction false} SingleChoiceCountsAddUp(options: seq<OptionId>, votes: seq<Ballot>)
    requires forall b :: b in votes ==> CheckChoices(SingleChoice, options, b).None?
    ensures SumOccurrences(Distinct(options), votes) == |votes|
  {
    hide Distinct;
    if votes == [] {
      SumOverNoVotes(Distinct(options));
    } else {
      var n := |votes| - 1;
      var b := votes[n];
      ChoicesAccepted(SingleChoice, options, b);
      assert b == [b[0]];
      assert b[0] in Elems(b) && b[0] in Elems(Distinct(options));
      SumOccurrencesStep(Distinct(options), votes, b[0]);
      SingleChoiceCountsAddUp(options, votes[..n]);
    }
  }

  // ----- the reported totals

  function Sum(results: seq<nat>): nat {
    if results == [] then 0 else Sum(results[..|results| - 1]) + results[|results| - 1]
  }

  lemma {:induction false} SumOfFirsts(some: seq<OptionId>, votes: seq<Ballot>, field: set<OptionId>, results: seq<nat>)
    requires |results| == |some|
    requires forall i :: 0 <= i < |some| ==> results[i] == CountTop(votes, field, some[i])
    ensures Sum(results) == RunoffTheorems.SumTops(some, votes, field)
  {
    if some != [] {
      var n := |some| - 1;
      SumOfFirsts(some[..n], votes, field, results[..n]);
    }
  }

  lemma {:induction false} SumOfListed(some: seq<OptionId>, votes: seq<Ballot>, results: seq<nat>)
    requires |results| == |some|
    requires forall i :: 0 <= i < |some| ==> results[i] == Occurrences(votes, some[i])
    ensures Sum(results) == SumOccurrences(some, votes)
  {
    if some != [] {
      var n := |some| - 1;
      SumOfListed(some[..n], votes, results[..n]);
    }
  }

  lemma {:induction false} DistinctAlready(options: seq<OptionId>)
    requires NoDup(options)
    ensures Distinct(options) == options
  {
    if options != [] {
      var n := |options| - 1;
      DistinctAlready(options[..n]);
      assert options == options[..n] + [options[n]];
    }
  }

  /** In a single-choice or ranked poll with distinct options the reported totals add up to the votes cast. */
  lemma ResultsAddUp(kind: PollType, options: seq<OptionId>, votes: seq<Ballot>, results: seq<nat>)
    requires NoDup(options) && !kind.MultipleChoice? && |results| == |options|
    requires forall b :: b in votes ==> CheckChoices(kind, options, b).None?
    requires forall i :: 0 <= i < |options| ==>
               results[i] == if kind.RankedChoice? then CountTop(votes, Elems(options), options[i])
                             else Occurrences(votes, options[i])
    ensures Sum(results) == |votes|
  {
    hide Distinct, CheckChoices, CountTop, Occurrences, Live;
    if kind.RankedChoice? {
      SumOfFirsts(options, votes, Elems(options), results);
      RunoffTheorems.CountsSumToLive(options, votes);
      RankedBallotsAllCount(options, votes);
    } else {
      SumOfListed(options, votes, results);
      DistinctAlready(options);
      SingleChoiceCountsAddUp(options, votes);
    }
  }
}
