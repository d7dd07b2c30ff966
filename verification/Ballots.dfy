/**
 Ranked ballots and how many of them satisfy a condition.

 A field is the set of options still standing. Everything here is stated on the
 ballots as they were cast: `Top` is the highest-ranked option of the field.
 */
module Ballots {
  import opened Wrappers

  type OptionId = string
  type Ballot = seq<OptionId>

  function Elems(order: seq<OptionId>): set<OptionId> {
    set o | o in order
  }

  /** The choices of a ballot that lie in the field, in ballot order. */
  function Filter(b: Ballot, field: set<OptionId>): Ballot {
    if b == [] then []
    else if b[0] in field then [b[0]] + Filter(b[1..], field)
    else Filter(b[1..], field)
  }

  /** The highest-ranked option of the field, if the ballot ranks any. */
  function Top(b: Ballot, field: set<OptionId>): Option<OptionId> {
    if b == [] then None
    else if b[0] in field then Some(b[0])
    else Top(b[1..], field)
  }

  /** How many ballots satisfy `p`. */
  function Count(votes: seq<Ballot>, p: Ballot -> bool): nat {
    if votes == [] then 0
    else Count(votes[..|votes| - 1], p) + (if p(votes[|votes| - 1]) then 1 else 0)
  }

  function TopIs(field: set<OptionId>, o: OptionId): Ballot -> bool {
    b => Top(b, field) == Some(o)
  }

  function Ranks(field: set<OptionId>): Ballot -> bool {
    b => Top(b, field).Some?
  }

  /** Ballots whose highest-ranked option of the field is `o`. */
  function CountTop(votes: seq<Ballot>, field: set<OptionId>, o: OptionId): nat {
    Count(votes, TopIs(field, o))
  }

  /** Ballots that still rank somebody in the field. */
  function Live(votes: seq<Ballot>, field: set<OptionId>): nat {
    Count(votes, Ranks(field))
  }

  /** Ballots that rank `w` above `x`; an unranked option is below every ranked one. */
  function Prefer(votes: seq<Ballot>, w: OptionId, x: OptionId): nat {
    CountTop(votes, {w, x}, w)
  }

  lemma InElems(order: seq<OptionId>)
    ensures forall o :: o in Elems(order) <==> o in order
    ensures Elems(order) == {} <==> order == []
  {
    if order != [] {
      assert order[0] in Elems(order);
    }
  }

  // ----- filtering

  lemma {:induction false} TopIsFirstOfFilter(b: Ballot, field: set<OptionId>)
    ensures Top(b, field) == if Filter(b, field) == [] then None else Some(Filter(b, field)[0])
  {
    if b != [] && b[0] !in field {
      TopIsFirstOfFilter(b[1..], field);
    }
  }

  lemma {:induction false} FilterTwice(b: Ballot, field: set<OptionId>, smaller: set<OptionId>)
    requires smaller <= field
    ensures Filter(Filter(b, field), smaller) == Filter(b, smaller)
  {
    if b != [] {
      FilterTwice(b[1..], field, smaller);
      if b[0] in field {
        assert Filter(b, field)[1..] == Filter(b[1..], field);
      }
    }
  }

  lemma {:induction false} FilterAppend(b: Ballot, x: OptionId, field: set<OptionId>)
    ensures Filter(b + [x], field) == Filter(b, field) + (if x in field then [x] else [])
  {
    if b == [] {
      assert [] + [x] == [x] && [x][1..] == [];
    } else {
      assert (b + [x])[1..] == b[1..] + [x];
      FilterAppend(b[1..], x, field);
    }
  }

  /** Filtering looks only at the options the list contains. */
  lemma {:induction false} FilterAgrees(b: Ballot, field: set<OptionId>, field': set<OptionId>)
    requires forall o :: o in b ==> (o in field <==> o in field')
    ensures Filter(b, field) == Filter(b, field')
  {
    if b != [] {
      FilterAgrees(b[1..], field, field');
    }
  }

  lemma {:induction false} FilterMembers(b: Ballot, field: set<OptionId>)
    ensures forall o :: o in Filter(b, field) <==> o in b && o in field
    ensures Elems(Filter(b, field)) == Elems(b) * field
    ensures |Filter(b, field)| <= |b|
    ensures NoDup(b) ==> NoDup(Filter(b, field))
  {
    if b != [] {
      FilterMembers(b[1..], field);
      assert forall o :: o in b <==> o == b[0] || o in b[1..];
    }
  }

  /** The first choice in the field: everything ranked above it lies outside. */
  lemma {:induction false} TopExactly(b: Ballot, field: set<OptionId>, o: OptionId)
    ensures Top(b, field) == Some(o) <==>
            exists i :: 0 <= i < |b| && b[i] == o && o in field && forall j :: 0 <= j < i ==> b[j] !in field
  {
    if b != [] {
      var rest := b[1..];
      TopExactly(rest, field, o);
      if b[0] !in field {
        if i :| 0 <= i < |b| && b[i] == o && o in field && forall j :: 0 <= j < i ==> b[j] !in field {
          assert rest[i - 1] == o && forall j :: 0 <= j < i - 1 ==> rest[j] == b[j + 1];
        }
        if i :| 0 <= i < |rest| && rest[i] == o && o in field && forall j :: 0 <= j < i ==> rest[j] !in field {
          assert b[i + 1] == o;
          assert forall j :: 0 < j < i + 1 ==> b[j] == rest[j - 1];
        }
      }
    }
  }

  lemma {:induction false} TopInField(b: Ballot, field: set<OptionId>)
    ensures Top(b, field).Some? ==> Top(b, field).value in field && Top(b, field).value in b
  {
    if b != [] && b[0] !in field {
      TopInField(b[1..], field);
    }
  }

  /** Shrinking the field keeps a ballot's top choice as long as that choice survives. */
  lemma {:induction false} TopSurvives(b: Ballot, field: set<OptionId>, smaller: set<OptionId>, o: OptionId)
    requires smaller <= field && o in smaller && Top(b, field) == Some(o)
    ensures Top(b, smaller) == Some(o)
  {
    if b[0] !in field {
      TopSurvives(b[1..], field, smaller, o);
    }
  }

  // ----- counting

  lemma {:induction false} CountBound(votes: seq<Ballot>, p: Ballot -> bool)
    ensures Count(votes, p) <= |votes|
    ensures Count(votes, p) == |votes| <==> forall b :: b in votes ==> p(b)
  {
    if votes != [] {
      CountBound(votes[..|votes| - 1], p);
      assert votes == votes[..|votes| - 1] + [votes[|votes| - 1]];
      assert forall b :: b in votes <==> b in votes[..|votes| - 1] || b == votes[|votes| - 1];
    }
  }

  lemma {:induction false} CountPointwise(votes: seq<Ballot>, votes': seq<Ballot>, p: Ballot -> bool)
    requires |votes| == |votes'|
    requires forall i :: 0 <= i < |votes| ==> p(votes[i]) == p(votes'[i])
    ensures Count(votes, p) == Count(votes', p)
  {
    if votes != [] {
      CountPointwise(votes[..|votes| - 1], votes'[..|votes| - 1], p);
    }
  }

  lemma {:induction false} CountMono(votes: seq<Ballot>, p: Ballot -> bool, q: Ballot -> bool)
    requires forall b :: b in votes && p(b) ==> q(b)
    ensures Count(votes, p) <= Count(votes, q)
  {
    if votes != [] {
      CountMono(votes[..|votes| - 1], p, q);
    }
  }

  lemma {:induction false} CountSum(votes: seq<Ballot>, p: Ballot -> bool, q: Ballot -> bool, r: Ballot -> bool)
    requires forall b :: b in votes ==> !(p(b) && q(b)) && (p(b) || q(b) ==> r(b))
    ensures Count(votes, p) + Count(votes, q) <= Count(votes, r)
  {
    if votes != [] {
      CountSum(votes[..|votes| - 1], p, q, r);
    }
  }

  lemma {:induction false} CountExact(votes: seq<Ballot>, p: Ballot -> bool, q: Ballot -> bool, r: Ballot -> bool)
    requires forall b :: b in votes ==> !(p(b) && q(b)) && (r(b) <==> p(b) || q(b))
    ensures Count(votes, r) == Count(votes, p) + Count(votes, q)
  {
    if votes != [] {
      CountExact(votes[..|votes| - 1], p, q, r);
    }
  }

  lemma {:induction false} CountSplit(votes: seq<Ballot>, k: nat, p: Ballot -> bool)
    requires k < |votes|
    ensures Count(votes, p) == Count(votes[..k] + votes[k + 1..], p) + (if p(votes[k]) then 1 else 0)
  {
    var n := |votes| - 1;
    if k == n {
      assert votes[..k] + votes[k + 1..] == votes[..n];
    } else {
      CountSplit(votes[..n], k, p);
      DropLastOfRest(votes, k);
    }
  }

  lemma DropLastOfRest<T>(s: seq<T>, k: nat)
    requires k < |s| - 1
    ensures var rest := s[..k] + s[k + 1..];
            var n := |s| - 1;
            rest[..|rest| - 1] == s[..n][..k] + s[..n][k + 1..] && rest[|rest| - 1] == s[n]
  {
  }

  lemma {:induction false} MultisetWithout<T>(s: seq<T>, k: nat)
    requires k < |s|
    ensures multiset(s[..k] + s[k + 1..]) == multiset(s) - multiset{s[k]}
  {
    assert s == s[..k] + [s[k]] + s[k + 1..];
  }

  /** Counting does not see the order of the ballots. */
  lemma {:induction false} CountPermuted(votes: seq<Ballot>, votes': seq<Ballot>, p: Ballot -> bool)
    requires multiset(votes) == multiset(votes')
    ensures Count(votes, p) == Count(votes', p)
    decreases |votes|
  {
    if votes == [] {
      assert |multiset(votes')| == 0;
    } else {
      var n := |votes| - 1;
      var last := votes[n];
      assert last in multiset(votes');
      var k :| 0 <= k < |votes'| && votes'[k] == last;
      var rest := votes'[..k] + votes'[k + 1..];
      MultisetWithout(votes, n);
      MultisetWithout(votes', k);
      assert votes[..n] + votes[n + 1..] == votes[..n];
      CountPermuted(votes[..n], rest, p);
      CountSplit(votes', k, p);
    }
  }
}
