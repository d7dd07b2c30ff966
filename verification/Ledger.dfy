/**
 The append-only ledger. All entries of all members of all mahbers share one table;
 each entry carries the running balance of its own member.
 */
module Ledger {
  import opened Wrappers
  import opened MoneyRecords

  predicate Concerns(e: Entry, mahber: MahberId, member: UserId) {
    e.mahber == mahber && e.member == member
  }

  /** What `getMemberBalance` sums. */
  function MemberBalance(ledger: seq<Entry>, mahber: MahberId, member: UserId): Money {
    if ledger == [] then 0.0
    else
      var n := |ledger| - 1;
      MemberBalance(ledger[..n], mahber, member) + (if Concerns(ledger[n], mahber, member) then ledger[n].amount
                                                    else 0.0)
  }

  /** The mahber's pool: the sum that the draw, expense approval and payout read. */
  function Pool(ledger: seq<Entry>, mahber: MahberId): Money {
    if ledger == [] then 0.0
    else
      var n := |ledger| - 1;
      Pool(ledger[..n], mahber) + (if ledger[n].mahber == mahber then ledger[n].amount else 0.0)
  }

  /** The member's entry with the latest timestamp; of several, the last inserted. */
  function Latest(ledger: seq<Entry>, mahber: MahberId, member: UserId): (r: Option<nat>)
    ensures r.Some? ==> r.value < |ledger| && Concerns(ledger[r.value], mahber, member)
  {
    if ledger == [] then None
    else
      var n := |ledger| - 1;
      var before := Latest(ledger[..n], mahber, member);
      if Concerns(ledger[n], mahber, member) && (before.None? || ledger[n].createdAt >= ledger[before.value].createdAt)
      then Some(n) else before
  }

  function LastBalance(ledger: seq<Entry>, mahber: MahberId, member: UserId): Money {
    var last := Latest(ledger, mahber, member);
    if last.Some? then ledger[last.value].runningBalance else 0.0
  }

  /** A new entry continues the running balance found on the member's latest entry. */
  function Post(ledger: seq<Entry>, now: Time, mahber: MahberId, member: UserId, kind: EntryKind, amount: Money,
                description: string, source: Source): seq<Entry>
  {
    ledger + [Entry(mahber, member, kind, amount, LastBalance(ledger, mahber, member) + amount, description, source,
                    now)]
  }

  /** Entries are stamped in order, none later than `now`. */
  ghost predicate Stamped(ledger: seq<Entry>, now: Time) {
    && (forall i, j :: 0 <= i < j < |ledger| ==> ledger[i].createdAt <= ledger[j].createdAt)
    && (forall i :: 0 <= i < |ledger| ==> ledger[i].createdAt <= now)
  }

  /** Every running balance is the sum of that member's amounts up to and including its entry. */
  ghost predicate RunningOk(ledger: seq<Entry>) {
    forall i :: 0 <= i < |ledger| ==>
      ledger[i].runningBalance == MemberBalance(ledger[..i + 1], ledger[i].mahber, ledger[i].member)
  }

  ghost predicate LedgerOk(ledger: seq<Entry>, now: Time) {
    Stamped(ledger, now) && RunningOk(ledger)
  }

  /** With ordered timestamps, the latest entry is the last one inserted and everything after it is of other members. */
  lemma {:induction false} LatestIsLastInserted(ledger: seq<Entry>, now: Time, mahber: MahberId, member: UserId)
    requires Stamped(ledger, now)
    ensures match Latest(ledger, mahber, member)
            case None => MemberBalance(ledger, mahber, member) == 0.0
            case Some(k) => MemberBalance(ledger, mahber, member) == MemberBalance(ledger[..k + 1], mahber, member)
  {
    if ledger != [] {
      var n := |ledger| - 1;
      LatestIsLastInserted(ledger[..n], now, mahber, member);
      assert ledger[..n + 1] == ledger;
      var before := Latest(ledger[..n], mahber, member);
      if before.Some? {
        assert ledger[..n][..before.value + 1] == ledger[..before.value + 1];
      }
    }
  }

  /** The balance a member's next entry builds on is exactly what `getMemberBalance` reports. */
  lemma {:induction false} LastBalanceIsMemberBalance(ledger: seq<Entry>, now: Time, mahber: MahberId, member: UserId)
    requires LedgerOk(ledger, now)
    ensures LastBalance(ledger, mahber, member) == MemberBalance(ledger, mahber, member)
  {
    LatestIsLastInserted(ledger, now, mahber, member);
  }

  lemma BalanceAfter(ledger: seq<Entry>, e: Entry, mahber: MahberId, member: UserId)
    ensures MemberBalance(ledger + [e], mahber, member) ==
            MemberBalance(ledger, mahber, member) + (if Concerns(e, mahber, member) then e.amount else 0.0)
    ensures Pool(ledger + [e], mahber) == Pool(ledger, mahber) + (if e.mahber == mahber then e.amount else 0.0)
  {
    assert (ledger + [e])[..|ledger|] == ledger;
  }

  lemma AppendKeepsRunning(ledger: seq<Entry>, e: Entry)
    requires RunningOk(ledger) && e.runningBalance == MemberBalance(ledger + [e], e.mahber, e.member)
    ensures RunningOk(ledger + [e])
  {
    hide MemberBalance;
    var after := ledger + [e];
    forall i | 0 <= i < |after|
      ensures after[i].runningBalance == MemberBalance(after[..i + 1], after[i].mahber, after[i].member)
    {
      if i < |ledger| {
        assert after[..i + 1] == ledger[..i + 1];
      } else {
        assert after[..i + 1] == after;
      }
    }
  }

  /** Posting keeps the books: stamps stay ordered and every running balance stays right. */
  lemma PostKeepsBooks(ledger: seq<Entry>, now: Time, mahber: MahberId, member: UserId, kind: EntryKind, amount: Money,
                       description: string, source: Source)
    requires LedgerOk(ledger, now)
    ensures LedgerOk(Post(ledger, now, mahber, member, kind, amount, description, source), now)
  {
    hide RunningOk, MemberBalance, LastBalance;
    LastBalanceIsMemberBalance(ledger, now, mahber, member);
    var e := Post(ledger, now, mahber, member, kind, amount, description, source)[|ledger|];
    BalanceAfter(ledger, e, mahber, member);
    AppendKeepsRunning(ledger, e);
  }

  // ----- timestamps out of order, or equal

  lemma {:induction false} BalanceSplits(first: seq<Entry>, rest: seq<Entry>, mahber: MahberId, member: UserId)
    ensures MemberBalance(first + rest, mahber, member) ==
            MemberBalance(first, mahber, member) + MemberBalance(rest, mahber, member)
  {
    if rest == [] {
      assert first + rest == first;
    } else {
      var n := |rest| - 1;
      BalanceSplits(first, rest[..n], mahber, member);
      assert (first + rest)[..|first| + n] == first + rest[..n];
    }
  }

  /**
   The running balance of one of the member's entries is the member's whole balance exactly
   when the member's amounts after it add up to nothing. Nothing is assumed about timestamps,
   so this settles every entry the query for the latest may return.
   */
  lemma ReadBalanceRightExactly(ledger: seq<Entry>, k: nat, mahber: MahberId, member: UserId)
    requires RunningOk(ledger) && k < |ledger| && Concerns(ledger[k], mahber, member)
    ensures ledger[k].runningBalance == MemberBalance(ledger, mahber, member) <==>
            MemberBalance(ledger[k + 1..], mahber, member) == 0.0
  {
    assert ledger == ledger[..k + 1] + ledger[k + 1..];
    BalanceSplits(ledger[..k + 1], ledger[k + 1..], mahber, member);
  }

  lemma {:induction false} NoLatestNoBalance(ledger: seq<Entry>, mahber: MahberId, member: UserId)
    requires Latest(ledger, mahber, member).None?
    ensures MemberBalance(ledger, mahber, member) == 0.0
  {
    if ledger != [] {
      NoLatestNoBalance(ledger[..|ledger| - 1], mahber, member);
    }
  }

  /**
   When clocks go backwards, entries stamped earlier than one already present are overlooked
   by the next post: its running balance is right exactly when the member's amounts after the
   latest-stamped entry add up to nothing.
   */
  lemma EarlierStampIsOverlooked(ledger: seq<Entry>, now: Time, mahber: MahberId, member: UserId, kind: EntryKind,
                                 amount: Money, description: string, source: Source)
    requires RunningOk(ledger)
    ensures var after := Post(ledger, now, mahber, member, kind, amount, description, source);
            after[|ledger|].runningBalance == MemberBalance(after, mahber, member) <==>
            match Latest(ledger, mahber, member)
            case None => true
            case Some(k) => MemberBalance(ledger[k + 1..], mahber, member) == 0.0
  {
    var after := Post(ledger, now, mahber, member, kind, amount, description, source);
    BalanceAfter(ledger, after[|ledger|], mahber, member);
    match Latest(ledger, mahber, member)
    case None => NoLatestNoBalance(ledger, mahber, member);
    case Some(k) => ReadBalanceRightExactly(ledger, k, mahber, member);
  }

  /** The entries the query for the member's latest may return: none of the member's is stamped later. */
  ghost predicate MayBeLatest(ledger: seq<Entry>, mahber: MahberId, member: UserId, k: nat) {
    && k < |ledger| && Concerns(ledger[k], mahber, member)
    && forall i :: 0 <= i < |ledger| && Concerns(ledger[i], mahber, member) ==>
         ledger[i].createdAt <= ledger[k].createdAt
  }

  lemma {:induction false} LatestMayBeLatest(ledger: seq<Entry>, mahber: MahberId, member: UserId)
    ensures match Latest(ledger, mahber, member)
            case None => forall i :: 0 <= i < |ledger| ==> !Concerns(ledger[i], mahber, member)
            case Some(k) => MayBeLatest(ledger, mahber, member, k)
  {
    if ledger != [] {
      LatestMayBeLatest(ledger[..|ledger| - 1], mahber, member);
    }
  }

  /** With no two of the member's entries stamped alike, the query has no choice. */
  lemma DifferentStampsLeaveNoChoice(ledger: seq<Entry>, mahber: MahberId, member: UserId, k: nat)
    requires MayBeLatest(ledger, mahber, member, k)
    requires forall i, j :: 0 <= i < j < |ledger|
                            && Concerns(ledger[i], mahber, member) && Concerns(ledger[j], mahber, member) ==>
                              ledger[i].createdAt != ledger[j].createdAt
    ensures Latest(ledger, mahber, member) == Some(k)
  {
    LatestMayBeLatest(ledger, mahber, member);
    var latest := Latest(ledger, mahber, member);
    assert latest.Some? && ledger[latest.value].createdAt == ledger[k].createdAt;
    assert !(latest.value < k) && !(k < latest.value);
  }

  // ----- members and the pool

  function SumOfLastBalances(members: seq<UserId>, ledger: seq<Entry>, mahber: MahberId): Money {
    if members == [] then 0.0
    else
      var n := |members| - 1;
      SumOfLastBalances(members[..n], ledger, mahber) + LastBalance(ledger, mahber, members[n])
  }

  function SumOfBalances(members: seq<UserId>, ledger: seq<Entry>, mahber: MahberId): Money {
    if members == [] then 0.0
    else SumOfBalances(members[..|members| - 1], ledger, mahber) + MemberBalance(ledger, mahber, members[|members| - 1])
  }

  lemma {:induction false} SumOfBalancesAfter(members: seq<UserId>, ledger: seq<Entry>, mahber: MahberId)
    requires NoDup(members) && ledger != []
    ensures var n := |ledger| - 1;
            SumOfBalances(members, ledger, mahber) == SumOfBalances(members, ledger[..n], mahber) +
              (if ledger[n].mahber == mahber && ledger[n].member in members then ledger[n].amount else 0.0)
  {
    if members != [] {
      var k := |members| - 1;
      assert members == members[..k] + [members[k]];
      SumOfBalancesAfter(members[..k], ledger, mahber);
    }
  }

  lemma {:induction false} NoBalancesYet(members: seq<UserId>, mahber: MahberId)
    ensures SumOfBalances(members, [], mahber) == 0.0
  {
    if members != [] {
      NoBalancesYet(members[..|members| - 1], mahber);
    }
  }

  lemma {:induction false} SumOfBalancesIsPool(members: seq<UserId>, ledger: seq<Entry>, mahber: MahberId)
    requires NoDup(members)
    requires forall e :: e in ledger && e.mahber == mahber ==> e.member in members
    ensures SumOfBalances(members, ledger, mahber) == Pool(ledger, mahber)
  {
    if ledger == [] {
      NoBalancesYet(members, mahber);
    } else {
      var n := |ledger| - 1;
      assert ledger[n] in ledger;
      SumOfBalancesIsPool(members, ledger[..n], mahber);
      SumOfBalancesAfter(members, ledger, mahber);
    }
  }

  lemma {:induction false} LastBalancesAreBalances(members: seq<UserId>, ledger: seq<Entry>, now: Time,
                                                   mahber: MahberId)
    requires LedgerOk(ledger, now)
    ensures SumOfLastBalances(members, ledger, mahber) == SumOfBalances(members, ledger, mahber)
  {
    if members != [] {
      var k := |members| - 1;
      LastBalancesAreBalances(members[..k], ledger, now, mahber);
      LastBalanceIsMemberBalance(ledger, now, mahber, members[k]);
    }
  }

  /** The last running balances of all members with entries add up to the mahber's pool. */
  lemma LastBalancesAddUpToPool(members: seq<UserId>, ledger: seq<Entry>, now: Time, mahber: MahberId)
    requires LedgerOk(ledger, now) && NoDup(members)
    requires forall e :: e in ledger && e.mahber == mahber ==> e.member in members
    ensures SumOfLastBalances(members, ledger, mahber) == Pool(ledger, mahber)
  {
    LastBalancesAreBalances(members, ledger, now, mahber);
    SumOfBalancesIsPool(members, ledger, mahber);
  }
}
