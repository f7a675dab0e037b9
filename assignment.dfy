/**
 * Partition assignment inside a consumer group. The rule used is round
 * robin over the ordered member list: partition p (1-based) goes to the
 * member at index (p - 1) mod memberCount. What the scenario relies on, and
 * what is proved here, is the property of the result: every partition is
 * held by exactly one member, holdings differ in size by at most one, and
 * with as many members as partitions each member holds exactly one.
 */
module GroupAssignment {
  predicate Distinct(s: seq<nat>)
  {
    forall i, j :: 0 <= i < j < |s| ==> s[i] != s[j]
  }

  predicate Increasing(s: seq<nat>)
  {
    forall i, j :: 0 <= i < j < |s| ==> s[i] < s[j]
  }

  lemma MulAtLeast(d: int, n: int)
    requires d >= 1 && n > 0
    ensures d * n >= n
  {
    assert d * n == (d - 1) * n + n;
    assert (d - 1) * n >= 0;
  }

  /** Division with remainder determines quotient and remainder. */
  lemma DivModUnique(a: int, n: int, q: int, r: int)
    requires n > 0 && 0 <= r < n && a == q * n + r
    ensures a / n == q && a % n == r
  {
    var q', r' := a / n, a % n;
    assert a == q' * n + r';
    assert (q - q') * n == r' - r;
    if q > q' {
      MulAtLeast(q - q', n);
    } else if q' > q {
      MulAtLeast(q' - q, n);
    }
  }

  /** The partitions among 1..n that member index i of m receives, ascending. */
  function PartitionsFor(i: nat, m: nat, n: nat): seq<nat>
    requires m > 0
  {
    if n == 0 then []
    else PartitionsFor(i, m, n - 1) + (if (n - 1) % m == i then [n] else [])
  }

  /** Partition p is among member i's partitions exactly when (p - 1) mod m is i. */
  lemma {:induction false} PartitionsForMembers(i: nat, m: nat, n: nat, p: nat)
    requires m > 0
    ensures p in PartitionsFor(i, m, n) <==> 1 <= p <= n && (p - 1) % m == i
  {
    if n > 0 {
      PartitionsForMembers(i, m, n - 1, p);
    }
  }

  /** A member's partitions are listed once each, in ascending order. */
  lemma {:induction false} PartitionsForIncreasing(i: nat, m: nat, n: nat)
    requires m > 0
    ensures Increasing(PartitionsFor(i, m, n))
    ensures forall k :: 0 <= k < |PartitionsFor(i, m, n)| ==> 1 <= PartitionsFor(i, m, n)[k] <= n
  {
    if n > 0 {
      PartitionsForIncreasing(i, m, n - 1);
    }
  }

  /** Member index i < m holds n / m partitions, plus one when i < n mod m. */
  lemma {:induction false} PartitionsForCount(i: nat, m: nat, n: nat)
    requires i < m
    ensures |PartitionsFor(i, m, n)| == n / m + (if i < n % m then 1 else 0)
  {
    if n == 0 {
      DivModUnique(0, m, 0, 0);
    } else {
      PartitionsForCount(i, m, n - 1);
      var q, r := (n - 1) / m, (n - 1) % m;
      assert n - 1 == q * m + r;
      if r + 1 < m {
        DivModUnique(n, m, q, r + 1);
      } else {
        assert n == (q + 1) * m + 0;
        DivModUnique(n, m, q + 1, 0);
      }
    }
  }

  /**
   * The group's assignment: each member, by its index in the ordered member
   * list, to its round-robin share of the partitions 1..n.
   */
  function Assignment(members: seq<nat>, n: nat): (a: map<nat, seq<nat>>)
    requires Distinct(members)
    ensures a.Keys == set x | x in members
  {
    map i | 0 <= i < |members| :: members[i] := PartitionsFor(i, |members|, n)
  }

  lemma AssignmentAt(members: seq<nat>, n: nat, i: nat)
    requires Distinct(members) && i < |members|
    ensures members[i] in Assignment(members, n)
    ensures Assignment(members, n)[members[i]] == PartitionsFor(i, |members|, n)
  {
    var a := Assignment(members, n);
    assert members[i] in a;
    var j :| 0 <= j < |members| && members[j] == members[i] && a[members[i]] == PartitionsFor(j, |members|, n);
  }

  /**
   * Every partition 1..n is held by exactly one member: the member at index
   * (p - 1) mod |members|; no other member holds it.
   */
  lemma AssignmentCoversOnce(members: seq<nat>, n: nat, p: nat, x: nat)
    requires Distinct(members) && |members| > 0 && 1 <= p <= n
    requires x in Assignment(members, n)
    ensures p in Assignment(members, n)[x] <==> x == members[(p - 1) % |members|]
  {
    var i :| 0 <= i < |members| && members[i] == x;
    AssignmentAt(members, n, i);
    PartitionsForMembers(i, |members|, n, p);
  }

  /** No partition is held by two members. */
  lemma AssignmentDisjoint(members: seq<nat>, n: nat, x: nat, y: nat, p: nat)
    requires Distinct(members) && x in Assignment(members, n) && y in Assignment(members, n)
    requires p in Assignment(members, n)[x] && p in Assignment(members, n)[y]
    ensures x == y
  {
    var i :| 0 <= i < |members| && members[i] == x;
    var j :| 0 <= j < |members| && members[j] == y;
    AssignmentAt(members, n, i);
    AssignmentAt(members, n, j);
    PartitionsForMembers(i, |members|, n, p);
    PartitionsForMembers(j, |members|, n, p);
  }

  /** Nothing outside 1..n is assigned, and each member's list is ascending. */
  lemma AssignmentWithinRange(members: seq<nat>, n: nat, x: nat)
    requires Distinct(members) && x in Assignment(members, n)
    ensures Increasing(Assignment(members, n)[x])
    ensures forall k :: 0 <= k < |Assignment(members, n)[x]| ==> 1 <= Assignment(members, n)[x][k] <= n
  {
    var i :| 0 <= i < |members| && members[i] == x;
    AssignmentAt(members, n, i);
    PartitionsForIncreasing(i, |members|, n);
  }

  /** Any two members' holdings differ in size by at most one. */
  lemma AssignmentBalanced(members: seq<nat>, n: nat, x: nat, y: nat)
    requires Distinct(members) && x in Assignment(members, n) && y in Assignment(members, n)
    ensures |Assignment(members, n)[x]| <= |Assignment(members, n)[y]| + 1
  {
    var i :| 0 <= i < |members| && members[i] == x;
    var j :| 0 <= j < |members| && members[j] == y;
    AssignmentAt(members, n, i);
    AssignmentAt(members, n, j);
    PartitionsForCount(i, |members|, n);
    PartitionsForCount(j, |members|, n);
  }

  /** With as many members as partitions, member index i holds exactly partition i + 1. */
  lemma OnePartitionEach(members: seq<nat>, n: nat, i: nat)
    requires Distinct(members) && |members| == n && i < n
    ensures Assignment(members, n)[members[i]] == [i + 1]
  {
    AssignmentAt(members, n, i);
    var ps := PartitionsFor(i, n, n);
    PartitionsForCount(i, n, n);
    DivModUnique(n, n, 1, 0);
    assert |ps| == 1;
    PartitionsForMembers(i, n, n, ps[0]);
    PartitionsForIncreasing(i, n, n);
    DivModUnique(ps[0] - 1, n, 0, ps[0] - 1);
  }
}
