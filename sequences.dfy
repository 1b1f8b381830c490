/**
 Facts about Go slices, modelled as sequences, that the set operations rely on:
 the set of elements a slice holds, duplicate-freedom, and how many distinct
 elements a slice contributes.
 */
module Sequences {

  /** The elements of a slice, with duplicates collapsed and order forgotten. */
  ghost function Elems<T>(s: seq<T>): set<T>
  {
    set x | x in s
  }

  /** No element occurs twice in `s`. */
  ghost predicate NoDuplicates<T>(s: seq<T>)
  {
    forall i, j :: 0 <= i < j < |s| ==> s[i] != s[j]
  }

  /** A slice has at most as many distinct elements as it has entries, and
      exactly as many exactly when no entry repeats. */
  lemma {:induction false} DistinctCount<T>(s: seq<T>)
    ensures |Elems(s)| <= |s|
    ensures |Elems(s)| == |s| <==> NoDuplicates(s)
  {
    if s != [] {
      var tail := s[1..];
      DistinctCount(tail);
      assert Elems(s) == {s[0]} + Elems(tail) by {
        forall x | x in Elems(s) ensures x in {s[0]} + Elems(tail) {
          var i :| 0 <= i < |s| && s[i] == x;
          if i > 0 { assert tail[i - 1] == x; }
        }
      }
      if s[0] in tail {
        var k :| 0 <= k < |tail| && tail[k] == s[0];
        assert s[k + 1] == s[0];
        assert Elems(s) == Elems(tail);
      } else {
        assert |Elems(s)| == |Elems(tail)| + 1;
        if NoDuplicates(tail) {
          forall i, j | 0 <= i < j < |s| ensures s[i] != s[j] {
            if i == 0 { assert s[j] == tail[j - 1]; } else { assert s[i] == tail[i - 1] && s[j] == tail[j - 1]; }
          }
        } else {
          var i, j :| 0 <= i < j < |tail| && tail[i] == tail[j];
          assert s[i + 1] == s[j + 1];
        }
      }
    } else {
      assert Elems(s) == {};
    }
  }

  /** Adding the elements of `vals` to a set `s` grows it by at most `|vals|`,
      and by exactly `|vals|` precisely when `vals` has no repeated entry and
      shares no element with `s`. */
  lemma {:induction false} GrowthCount<T>(s: set<T>, vals: seq<T>)
    ensures |s + Elems(vals)| <= |s| + |vals|
    ensures |s + Elems(vals)| == |s| + |vals| <==> NoDuplicates(vals) && s !! Elems(vals)
  {
    DistinctCount(vals);
    var e := Elems(vals);
    assert |s + e| == |s| + |e| - |s * e|;
    if |s * e| == 0 {
      assert s * e == {};
      assert s !! e by {
        forall x | x in s ensures x !in e { assert x !in s * e; }
      }
    } else {
      assert s * e != {};
      var x :| x in s * e;
      assert !(s !! e);
    }
  }

  /** A union has at most as many members as its operands together. */
  lemma UnionCount<T>(a: set<T>, b: set<T>)
    ensures |a + b| <= |a| + |b|
  {
  }
}
