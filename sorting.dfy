/**
 * The presentation order of a stream listing: ascending by id, sorted in
 * place and stably (streams with the same id keep their decoded order).
 * InsertionSort is the specification; SortById is the in-place algorithm
 * over an array, proved to compute it.
 */
module StreamOrder {
  import opened StreamsCodec

  predicate IsSortedById(s: seq<Stream>)
  {
    forall i, j :: 0 <= i < j < |s| ==> s[i].id <= s[j].id
  }

  predicate IdsAtMost(s: seq<Stream>, bound: int)
  {
    forall i :: 0 <= i < |s| ==> s[i].id <= bound
  }

  /**
   * Inserts x into s from the right: x goes after the last element whose id
   * is not greater than its own, so equal ids keep their order.
   */
  function Insert(s: seq<Stream>, x: Stream): (r: seq<Stream>)
    ensures |r| == |s| + 1
  {
    if s == [] then [x]
    else if s[|s| - 1].id <= x.id then s + [x]
    else Insert(s[..|s| - 1], x) + [s[|s| - 1]]
  }

  /** Stable sort by ascending id. */
  function InsertionSort(s: seq<Stream>): (r: seq<Stream>)
    ensures |r| == |s|
  {
    if s == [] then []
    else Insert(InsertionSort(s[..|s| - 1]), s[|s| - 1])
  }

  lemma {:induction false} InsertPermutes(s: seq<Stream>, x: Stream)
    ensures multiset(Insert(s, x)) == multiset(s) + multiset{x}
  {
    if s != [] && s[|s| - 1].id > x.id {
      var init, last := s[..|s| - 1], s[|s| - 1];
      assert s == init + [last];
      InsertPermutes(init, x);
    }
  }

  lemma {:induction false} InsertBounded(s: seq<Stream>, x: Stream, bound: int)
    requires IdsAtMost(s, bound) && x.id <= bound
    ensures IdsAtMost(Insert(s, x), bound)
  {
    if s != [] && s[|s| - 1].id > x.id {
      InsertBounded(s[..|s| - 1], x, bound);
    }
  }

  lemma {:induction false} InsertSorted(s: seq<Stream>, x: Stream)
    requires IsSortedById(s)
    ensures IsSortedById(Insert(s, x))
  {
    if s != [] && s[|s| - 1].id > x.id {
      var init, last := s[..|s| - 1], s[|s| - 1];
      InsertSorted(init, x);
      InsertBounded(init, x, last.id);
      var r := Insert(init, x);
      assert Insert(s, x) == r + [last];
    }
  }

  /** The sorted listing is ordered by id and holds exactly the decoded streams. */
  lemma {:induction false} InsertionSortCorrect(s: seq<Stream>)
    ensures IsSortedById(InsertionSort(s))
    ensures multiset(InsertionSort(s)) == multiset(s)
  {
    if s != [] {
      var init, last := s[..|s| - 1], s[|s| - 1];
      assert s == init + [last];
      InsertionSortCorrect(init);
      InsertSorted(InsertionSort(init), last);
      InsertPermutes(InsertionSort(init), last);
    }
  }

  /** The streams of s whose id is k, in their order in s. */
  function WithId(s: seq<Stream>, k: u32): seq<Stream>
  {
    if s == [] then []
    else WithId(s[..|s| - 1], k) + (if s[|s| - 1].id == k then [s[|s| - 1]] else [])
  }

  lemma WithIdSnoc(s: seq<Stream>, x: Stream, k: u32)
    ensures WithId(s + [x], k) == WithId(s, k) + (if x.id == k then [x] else [])
  {
    assert (s + [x])[..|s|] == s;
  }

  lemma {:induction false} InsertStable(s: seq<Stream>, x: Stream, k: u32)
    ensures WithId(Insert(s, x), k) == WithId(s, k) + (if x.id == k then [x] else [])
  {
    if s == [] {
      assert Insert(s, x) == [] + [x];
      WithIdSnoc([], x, k);
    } else if s[|s| - 1].id <= x.id {
      WithIdSnoc(s, x, k);
    } else {
      var init, last := s[..|s| - 1], s[|s| - 1];
      assert s == init + [last];
      assert Insert(s, x) == Insert(init, x) + [last];
      InsertStable(init, x, k);
      WithIdSnoc(Insert(init, x), last, k);
      WithIdSnoc(init, last, k);
    }
  }

  /** Stability: for every id, the streams with that id keep their relative order. */
  lemma {:induction false} InsertionSortIsStable(s: seq<Stream>, k: u32)
    ensures WithId(InsertionSort(s), k) == WithId(s, k)
  {
    if s != [] {
      var init, last := s[..|s| - 1], s[|s| - 1];
      assert s == init + [last];
      InsertionSortIsStable(init, k);
      InsertStable(InsertionSort(init), last, k);
      WithIdSnoc(init, last, k);
    }
  }

  /**
   * Where Insert puts x: after the last element with an id not greater
   * than x's, before the run of greater ids at the end of s.
   */
  lemma {:induction false} InsertPosition(s: seq<Stream>, x: Stream, j: nat)
    requires j <= |s|
    requires j > 0 ==> s[j - 1].id <= x.id
    requires forall k :: j <= k < |s| ==> s[k].id > x.id
    ensures Insert(s, x) == s[..j] + [x] + s[j..]
  {
    if |s| > j {
      var init, last := s[..|s| - 1], s[|s| - 1];
      assert Insert(s, x) == Insert(init, x) + [last];
      InsertPosition(init, x, j);
      assert init[..j] == s[..j];
      assert init[j..] + [last] == s[j..];
    } else if s != [] {
      assert s[|s| - 1].id <= x.id;
      assert s[..j] == s && s[j..] == [];
    }
  }

  /**
   * Shifts the elements of a[..i] with an id greater than x's one place to
   * the right, from the end, and returns the index of the gap that opens.
   */
  method ShiftGreater(a: array<Stream>, i: nat, x: Stream) returns (j: nat)
    requires i < a.Length
    modifies a
    ensures j <= i
    ensures forall k :: 0 <= k < j ==> a[k] == old(a[k])
    ensures forall k :: j < k <= i ==> a[k] == old(a[k - 1])
    ensures forall k :: i < k < a.Length ==> a[k] == old(a[k])
    ensures forall k :: j <= k < i ==> old(a[k]).id > x.id
    ensures j > 0 ==> old(a[j - 1]).id <= x.id
  {
    j := i;
    while j > 0 && a[j - 1].id > x.id
      invariant 0 <= j <= i
      invariant forall k :: 0 <= k < j ==> a[k] == old(a[k])
      invariant forall k :: j < k <= i ==> a[k] == old(a[k - 1])
      invariant forall k :: i < k < a.Length ==> a[k] == old(a[k])
      invariant forall k :: j <= k < i ==> old(a[k]).id > x.id
    {
      a[j] := a[j - 1];
      j := j - 1;
    }
  }

  /**
   * One step of the in-place insertion sort: moves a[i] left past the
   * elements of a[..i] with a greater id.
   */
  method InsertLast(a: array<Stream>, i: nat)
    requires i < a.Length
    modifies a
    ensures a[..i + 1] == Insert(old(a[..i]), old(a[i]))
    ensures a[i + 1..] == old(a[i + 1..])
  {
    ghost var sorted := a[..i];
    ghost var after := a[i + 1..];
    var x := a[i];
    var j := ShiftGreater(a, i, x);
    a[j] := x;
    InsertPosition(sorted, x, j);
    Shifted(a[..i + 1], sorted, x, j);
    assert a[i + 1..] == after;
  }

  /** A prefix of sorted, then x, then the rest of sorted, read off element by element. */
  lemma Shifted(r: seq<Stream>, sorted: seq<Stream>, x: Stream, j: nat)
    requires |r| == |sorted| + 1 && j <= |sorted|
    requires forall k :: 0 <= k < j ==> r[k] == sorted[k]
    requires r[j] == x
    requires forall k :: j < k < |r| ==> r[k] == sorted[k - 1]
    ensures r == sorted[..j] + [x] + sorted[j..]
  {
  }

  /** Sorts a by ascending id, in place and stably, as `sort_by` on the id does. */
  method SortById(a: array<Stream>)
    modifies a
    ensures a[..] == InsertionSort(old(a[..]))
  {
    ghost var input := a[..];
    var i := 0;
    while i < a.Length
      invariant 0 <= i <= a.Length
      invariant a[..i] == InsertionSort(input[..i])
      invariant a[i..] == input[i..]
    {
      InsertLast(a, i);
      assert input[..i + 1][..i] == input[..i];
      i := i + 1;
    }
    assert input[..a.Length] == input;
  }
}
