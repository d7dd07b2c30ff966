/** Looking up and changing membership rows. */
module Members {
  import opened Wrappers
  import opened MoneyRecords

  predicate IsRow(m: Membership, mahber: MahberId, member: UserId) {
    m.mahber == mahber && m.member == member
  }

  /** The first membership row of a user in a mahber. */
  function Find(members: seq<Membership>, mahber: MahberId, member: UserId): (r: Option<nat>)
    ensures r.Some? ==> r.value < |members| && IsRow(members[r.value], mahber, member)
    ensures r.None? ==> forall i :: 0 <= i < |members| ==> !IsRow(members[i], mahber, member)
  {
    if members == [] then None
    else
      var n := |members| - 1;
      var before := Find(members[..n], mahber, member);
      if before.Some? then before
      else if IsRow(members[n], mahber, member) then Some(n)
      else None
  }

  /** If users had several rows it would be the earliest. */
  lemma {:induction false} FindsEarliest(members: seq<Membership>, mahber: MahberId, member: UserId, i: nat)
    requires i < |members| && IsRow(members[i], mahber, member)
    ensures Find(members, mahber, member).Some? && Find(members, mahber, member).value <= i
  {
    var n := |members| - 1;
    if i < n {
      FindsEarliest(members[..n], mahber, member, i);
    }
  }

  /** The rows of active members, in table order. */
  function ActiveRows(members: seq<Membership>, mahber: MahberId): (rows: seq<nat>)
    ensures forall i :: 0 <= i < |rows| ==>
              rows[i] < |members| && members[rows[i]].mahber == mahber && members[rows[i]].status == Active
    ensures forall i, j :: 0 <= i < j < |rows| ==> rows[i] < rows[j]
  {
    if members == [] then []
    else
      var n := |members| - 1;
      ActiveRows(members[..n], mahber) +
      (if members[n].mahber == mahber && members[n].status == Active then [n] else [])
  }

  lemma {:induction false} ActiveRowsComplete(members: seq<Membership>, mahber: MahberId, k: nat)
    requires k < |members| && members[k].mahber == mahber && members[k].status == Active
    ensures k in ActiveRows(members, mahber)
  {
    var n := |members| - 1;
    if k < n {
      ActiveRowsComplete(members[..n], mahber, k);
    }
  }

  /** One row for each user of a mahber. */
  ghost predicate OneRowEach(members: seq<Membership>) {
    forall i, j :: 0 <= i < j < |members| ==> !IsRow(members[j], members[i].mahber, members[i].member)
  }
}
