/**
 Clients of the set that replay the repository's test scenarios and prove
 their outcomes from the contracts of module Sets alone.
 */
module SetScenarios {
  import opened Sequences
  import opened Sets

  /** A set built from an empty slice is allocated and has no members. */
  method FromEmptySlice() returns (s: Set<int>, n: int)
    ensures n == 0
  {
    s := FromSlice([]);
    assert Elems<int>([]) == {};
    n := s.Length();
  }

  /** Ten distinct values, then two more added at once: twelve members. */
  method AddTwoToTen() returns (n10: int, n12: int, has11: bool, has12: bool)
    ensures n10 == 10 && n12 == 12
    ensures has11 && has12
  {
    OneToTen();
    RangeMembers(1, 11);
    var a := FromSlice([1, 2, 3, 4, 5, 6, 7, 8, 9, 10]);
    n10 := a.Length();
    a.Add([11, 12]);
    has11, has12 := a.Contains(11), a.Contains(12);
    assert 11 in Elems([11, 12]) && 12 in Elems([11, 12]);
    n12 := a.Length();
  }

  /** `AddSlice` and then `AddSet` keep the old members and gain the new ones. */
  method AddSliceThenSet() returns (has12: bool, has1: bool, has40: bool)
    ensures has12 && has1 && has40
  {
    OneToTen();
    RangeMembers(1, 11);
    var a := FromSlice([1, 2, 3, 4, 5, 6, 7, 8, 9, 10]);
    a.AddSlice([11, 12]);
    has12 := a.Contains(12);
    assert 12 in Elems([11, 12]);
    var b := FromSlice([20, 30, 40]);
    a.AddSet(b);
    assert 40 in Elems([20, 30, 40]);
    has1, has40 := a.Contains(1), a.Contains(40);
  }

  /** Adding a value that is already present does not grow the set. */
  method AddIsIdempotent<T(==)>(x: T, y: T) returns (before: int, after: int)
    requires x != y
    ensures before == 2 && after == 2
  {
    var c := new Set<T>();
    c.Add([x]);
    c.Add([y]);
    assert Elems([x]) == {x} && Elems([y]) == {y};
    before := c.Length();
    c.Add([x]);
    after := c.Length();
  }

  /** `Union` gives back the receiver itself, so `a` now holds `b`'s members too;
      the result has no more members than both operands together. */
  method UnionAliasesReceiver() returns (u: Set<int>, a: Set<int>, aHas20: bool)
    ensures u == a
    ensures u.Contains(1) && u.Contains(2) && u.Contains(20) && u.Contains(30)
    ensures aHas20
    ensures u.Length() <= 10 + 8
  {
    OneToTen();
    RangeMembers(1, 11);
    SixToTenAndTens();
    a := FromSlice([1, 2, 3, 4, 5, 6, 7, 8, 9, 10]);
    var b := FromSlice([6, 7, 8, 9, 10, 20, 30, 40]);
    ghost var a0, b0 := a.Elements(), b.Elements();
    u := a.Union(b);
    UnionCount(a0, b0);
    aHas20 := a.Contains(20);
  }

  /** Difference and intersection of 1..10 with {6..10, 20, 30, 40}. */
  method DifferenceAndIntersection() returns (d: Set<int>, i: Set<int>)
    ensures forall x :: x in d.Elements() <==> 1 <= x <= 5
    ensures forall x :: x in i.Elements() <==> 6 <= x <= 10
  {
    OneToTen();
    RangeMembers(1, 11);
    SixToTenAndTens();
    var a := FromSlice([1, 2, 3, 4, 5, 6, 7, 8, 9, 10]);
    var b := FromSlice([6, 7, 8, 9, 10, 20, 30, 40]);
    d := a.Difference(b);
    i := a.Intersection(b);
  }

  /** A set of ten becomes a slice of ten drawn from the original slice; the
      slice can be extended without touching the set. */
  method TenToSlice() returns (slice: seq<int>, extended: seq<int>, n: int)
    ensures |slice| == 10
    ensures forall x :: x in slice ==> x in [1, 2, 3, 4, 5, 6, 7, 8, 9, 10]
    ensures |extended| == 13 && n == 10
  {
    OneToTen();
    RangeMembers(1, 11);
    var original := [1, 2, 3, 4, 5, 6, 7, 8, 9, 10];
    var a := FromSlice(original);
    slice := a.ToSlice();
    forall x | x in slice ensures x in original {
      assert x in Elems(slice);
    }
    extended := slice + [98, 99, 100];
    n := a.Length();
  }

  /** Listing a set and building a set from that list, as marshalling and then
      unmarshalling into a nil set does, gives the same members and length and
      an empty difference. The byte encoding is taken to give back the list. */
  method RoundTrip<T(==)>(a: Set<T>) returns (b: Set?<T>, sameLength: bool, leftOver: int)
    ensures b != null && b.Elements() == a.Elements()
    ensures sameLength && leftOver == 0
  {
    var list := a.ToSlice();
    var err;
    b, err := UnmarshalJSON(null, Decoded(list));
    sameLength := b.Length() == a.Length();
    var d := a.Difference(b);
    leftOver := d.Length();
  }

  /** The integers `lo` up to but excluding `hi`, in increasing order. */
  function Range(lo: int, hi: int): (r: seq<int>)
    requires lo <= hi
    ensures |r| == hi - lo
  {
    seq(hi - lo, i => lo + i)
  }

  /** A range has no repeated entry and its members are exactly the
      integers between its bounds. */
  lemma RangeMembers(lo: int, hi: int)
    requires lo <= hi
    ensures NoDuplicates(Range(lo, hi))
    ensures forall x :: x in Elems(Range(lo, hi)) <==> lo <= x < hi
  {
    var r := Range(lo, hi);
    forall x | lo <= x < hi ensures x in Elems(r) {
      assert r[x - lo] == x;
    }
  }

  /** The members of the tests' second slice. */
  lemma SixToTenAndTens()
    ensures forall x :: x in Elems([6, 7, 8, 9, 10, 20, 30, 40]) <==> 6 <= x <= 10 || x == 20 || x == 30 || x == 40
  {
  }

  /** The literal slice 1..10 of the tests is the range 1..10. */
  lemma OneToTen()
    ensures [1, 2, 3, 4, 5, 6, 7, 8, 9, 10] == Range(1, 11)
  {
  }
}
