/**
 A generic set over comparable element types, kept as a map from each element
 to an empty marker value, as in Go's `map[T]struct{}`. A Go map is a
 reference: every copy of a `Set` value shares the same table, so the set is
 an object here and the operations that write into the table change it in
 place. The loops over a map visit its keys in an unspecified order; the model
 picks each next key with `:|`, so no order is fixed.
 */
module Sets {
  import opened Sequences

  /** Why decoding the serialized form failed (left opaque). */
  datatype ParseError = ParseError(message: string)

  /** What the JSON decoder made of the bytes: a list of elements, or an error. */
  datatype Decoded<T> = Decoded(list: seq<T>) | Failed(error: ParseError)

  datatype Option<T> = None | Some(value: T)

  class Set<T(==)> {
    /** The table; `()` plays the part of `struct{}`. */
    var m: map<T, ()>

    /** The abstract value: the mathematical set of members. */
    ghost function Elements(): set<T>
      reads this
    {
      m.Keys
    }

    /** `make(Set[T])`: a new, allocated, empty set. */
    constructor ()
      ensures Elements() == {}
    {
      m := map[];
    }

    /** Membership test; reads the table only. */
    function Contains(v: T): (found: bool)
      reads this
      ensures found <==> v in Elements()
    {
      v in m
    }

    /** Number of members. */
    function Length(): (n: int)
      reads this
      ensures n == |Elements()|
    {
      |m|
    }

    /** Lists every member once, in whatever order the table is visited. */
    method ToSlice() returns (keys: seq<T>)
      ensures NoDuplicates(keys)
      ensures Elems(keys) == Elements()
      ensures |keys| == Length()
    {
      keys := [];
      var rest := m.Keys;
      while rest != {}
        invariant rest <= m.Keys
        invariant Elems(keys) + rest == m.Keys
        invariant Elems(keys) !! rest
        invariant NoDuplicates(keys)
        invariant |keys| + |rest| == |m|
        decreases rest
      {
        var k :| k in rest;
        keys := keys + [k];
        rest := rest - {k};
      }
    }

    /** In-place union with `b`; `b` itself is only read. */
    method AddSet(b: Set<T>)
      modifies this
      ensures Elements() == old(Elements()) + old(b.Elements())
      ensures b.Elements() == old(b.Elements())
    {
      ghost var mine, theirs := Elements(), b.Elements();
      var rest := b.m.Keys;
      while rest != {}
        invariant rest <= theirs
        invariant m.Keys == mine + (theirs - rest)
        invariant b != this ==> b.m == old(b.m)
        decreases rest
      {
        var k :| k in rest;
        m := m[k := ()];
        rest := rest - {k};
      }
    }

    /** Adds each of the (variadic) values; values already present change nothing. */
    method Add(vals: seq<T>)
      modifies this
      ensures Elements() == old(Elements()) + Elems(vals)
      ensures |Elements()| <= old(|Elements()|) + |vals|
      ensures |Elements()| == old(|Elements()|) + |vals| <==> NoDuplicates(vals) && old(Elements()) !! Elems(vals)
    {
      var i := 0;
      while i < |vals|
        invariant 0 <= i <= |vals|
        invariant Elements() == old(Elements()) + Elems(vals[..i])
      {
        m := m[vals[i] := ()];
        assert vals[..i + 1] == vals[..i] + [vals[i]];
        i := i + 1;
      }
      assert vals[..i] == vals;
      GrowthCount(old(Elements()), vals);
    }

    /** Adds the entries of a slice: the same effect as `Add` on those values. */
    method AddSlice(slice: seq<T>)
      modifies this
      ensures Elements() == old(Elements()) + Elems(slice)
      ensures |Elements()| <= old(|Elements()|) + |slice|
      ensures |Elements()| == old(|Elements()|) + |slice| <==> NoDuplicates(slice) && old(Elements()) !! Elems(slice)
    {
      var i := 0;
      while i < |slice|
        invariant 0 <= i <= |slice|
        invariant Elements() == old(Elements()) + Elems(slice[..i])
      {
        m := m[slice[i] := ()];
        assert slice[..i + 1] == slice[..i] + [slice[i]];
        i := i + 1;
      }
      assert slice[..i] == slice;
      GrowthCount(old(Elements()), slice);
    }

    /** A new set of the members of this set that are not in `b`; neither
        operand changes. */
    method Difference(b: Set<T>) returns (diff: Set<T>)
      ensures fresh(diff)
      ensures diff.Elements() == Elements() - b.Elements()
      ensures diff.Elements() <= Elements()
      ensures b == this ==> diff.Elements() == {}
    {
      diff := new Set<T>();
      var rest := m.Keys;
      while rest != {}
        invariant rest <= m.Keys
        invariant diff.Elements() == (m.Keys - rest) - b.m.Keys
        decreases rest
      {
        var v :| v in rest;
        if v !in b.m {
          diff.m := diff.m[v := ()];
        }
        rest := rest - {v};
      }
    }

    /** Writes every member of `b` into this set and returns this very set,
        not a copy: afterwards the receiver and the result are one object. */
    method Union(b: Set<T>) returns (r: Set<T>)
      modifies this
      ensures r == this
      ensures Elements() == old(Elements()) + old(b.Elements())
      ensures b.Elements() == old(b.Elements())
    {
      ghost var mine, theirs := Elements(), b.Elements();
      var rest := b.m.Keys;
      while rest != {}
        invariant rest <= theirs
        invariant m.Keys == mine + (theirs - rest)
        invariant b != this ==> b.m == old(b.m)
        decreases rest
      {
        var k :| k in rest;
        m := m[k := ()];
        rest := rest - {k};
      }
      assert b == this ==> Elements() == mine;
      r := this;
    }

    /** A new set of the members common to this set and `b`; neither operand
        changes. */
    method Intersection(b: Set<T>) returns (intersection: Set<T>)
      ensures fresh(intersection)
      ensures intersection.Elements() == Elements() * b.Elements()
      ensures intersection.Elements() <= Elements() && intersection.Elements() <= b.Elements()
    {
      intersection := new Set<T>();
      var rest := m.Keys;
      while rest != {}
        invariant rest <= m.Keys
        invariant intersection.Elements() == (m.Keys - rest) * b.m.Keys
        decreases rest
      {
        var v :| v in rest;
        if v in b.m {
          intersection.m := intersection.m[v := ()];
        }
        rest := rest - {v};
      }
    }
  }

  /** A new set holding exactly the entries of `slice`, duplicates collapsed;
      an empty slice gives an allocated empty set. */
  method FromSlice<T(==)>(slice: seq<T>) returns (s: Set<T>)
    ensures fresh(s)
    ensures s.Elements() == Elems(slice)
    ensures s.Length() <= |slice|
    ensures s.Length() == |slice| <==> NoDuplicates(slice)
  {
    s := new Set<T>();
    var i := 0;
    while i < |slice|
      invariant 0 <= i <= |slice|
      invariant s.Elements() == Elems(slice[..i])
    {
      s.m := s.m[slice[i] := ()];
      assert slice[..i + 1] == slice[..i] + [slice[i]];
      i := i + 1;
    }
    assert slice[..i] == slice;
    DistinctCount(slice);
  }

  /** The step of `UnmarshalJSON` after the bytes were decoded. `current` is
      the value of the variable the receiver points to (`null` for a nil
      set); the method returns its new value and the error. On a decoding
      error the variable is left as it was; otherwise it is replaced by a
      fresh set built from the decoded list. */
  method UnmarshalJSON<T(==)>(current: Set?<T>, decoded: Decoded<T>) returns (next: Set?<T>, err: Option<ParseError>)
    ensures decoded.Failed? ==> next == current && err == Some(decoded.error)
    ensures decoded.Decoded? ==> err == None && next != null && fresh(next)
    ensures decoded.Decoded? ==> next != null && next.Elements() == Elems(decoded.list)
  {
    match decoded
    case Failed(e) =>
      next, err := current, Some(e);
    case Decoded(list) =>
      next := FromSlice(list);
      err := None;
  }
}
