# go-set in Dafny

A model of the Go package `set`: a generic set `Set[T comparable]` kept as a
Go map from each element to an empty struct. Because a Go map is a
reference, every copy of a `Set` value shares one table. The model therefore
makes the set a class `Sets.Set<T(==)>` with one field, `m: map<T, ()>`, where
`()` stands for `struct{}`. The ghost function `Elements()` (the key set of
`m`) is the abstract value that every contract talks about.

Files:

- `sequences.dfy`, module `Sequences`: facts about slices. `Elems(s)` is the
  set of entries of a slice and `NoDuplicates(s)` says that no entry repeats.
  It also holds lemmas on how many distinct elements a slice adds to a set.
- `set.dfy`, module `Sets`: the class and its methods, `FromSlice`, and the
  step of `UnmarshalJSON` that runs after decoding.
- `scenarios.dfy`, module `SetScenarios`: client methods that replay the
  scenarios of `set_test.go`. Each one proves its outcome from the contracts
  of `Sets` alone.

How the model represents Go:

- Every loop over a Go map visits its keys in an unspecified order. Each such
  loop here takes a snapshot of the key set and picks the next key with `:|`.
  So `ToSlice` promises no order, only a duplicate-free list of exactly the
  members.
- Slices and variadic arguments are `seq<T>`. `Add(vals...)` takes a `seq<T>`.
- `Add`, `AddSlice`, `AddSet` and `Union` write into the receiver's table in
  place, one key per step, as the Go loops do. Their contracts use `modifies
  this` and `old(...)`. `FromSlice`, `Difference` and `Intersection` allocate
  a new set and promise `fresh(...)`.
- `AddSet(b)` and `Union(b)` are also proved for `b == this`, the case where
  the argument is the receiver itself. Go allows this because writing a key
  that is already there does not change the map.
- `UnmarshalJSON` has a pointer receiver. It is modelled as a module-level
  method. It takes the current value of the variable `*s`, which is `null`
  for a nil set such as `var b set.Set[int]`, and the result of the JSON
  decoder. It returns the new value of `*s` and the error.

Union: the doc comment at `set.go:76-77` says that `Union` "returns a new
set". The code instead writes `b`'s members into the receiver and returns the
receiver. The model follows the code: `Union` has `modifies this` and
`ensures r == this`. `SetScenarios.UnionAliasesReceiver` shows what follows:
after `u := a.Union(b)`, `u` and `a` are the same object and `a` contains
`b`'s members.

UnmarshalJSON on failure: the code returns the decoding error before it
assigns to `*s`, so the model states that the variable keeps its old value.
Callers should still not read the variable after a failure as if decoding had
happened.

## Model

| member | source | states |
|---|---|---|
| `Sets.Set.constructor` | set.go:8-12 | `make(Set[T])` gives an allocated set with no members |
| `Sets.Set.Contains` | set.go:22-25 | true exactly when `v` is a member; a function that only reads `this` |
| `Sets.Set.Length` | set.go:34-36 | the number of members, i.e. the cardinality of the abstract set; only reads `this` |
| `Sets.Set.ToSlice` | set.go:27-33 | the slice has no duplicates, its entries are exactly the members, and its length is `Length()`; the receiver is not modified and no order is promised |
| `Sets.Set.AddSet` | set.go:38-44 | the receiver becomes old ∪ old(b), so old members are kept; `b`'s members are unchanged, even when `b` is the receiver |
| `Sets.Set.Add` | set.go:46-52 | the receiver becomes old ∪ elems(vals) and nothing else changes; it grows by at most the number of values, and by exactly that number iff the values are distinct and all new, so re-adding members leaves `Length` unchanged |
| `Sets.Set.AddSlice` | set.go:54-59 | the same as `Add`, for the entries of a slice |
| `Sets.Set.Difference` | set.go:61-74 | a fresh set equal to this \ b, so a subset of this set, and empty when `b` is the receiver; neither operand is modified |
| `Sets.Set.Union` | set.go:76-83 | returns the receiver object itself, which is now old ∪ old(b); `b`'s members are unchanged |
| `Sets.Set.Intersection` | set.go:85-95 | a fresh set equal to this ∩ b, so a subset of both operands; neither operand is modified |
| `Sets.FromSlice` | set.go:14-20 | a fresh set whose members are exactly the entries of the slice; its length is at most the slice's length, with equality iff the slice has no duplicates; an empty slice gives an allocated empty set |
| `Sets.UnmarshalJSON` | set.go:107-116 | on a decoding error, returns that error and leaves the variable as it was; otherwise returns no error and a fresh set whose members are the decoded list |
| `Sequences.DistinctCount` | set.go:14-20 | a slice has at most as many distinct entries as it has entries, with equality iff it has no duplicates; this measures what `FromSlice` and `ToSlice` produce |
| `Sequences.GrowthCount` | set.go:47-59 | adding a slice's entries to a set grows it by at most the slice's length, and by exactly that iff the entries are distinct and new to the set |
| `Sequences.UnionCount` | set.go:78-83 | a union has at most as many members as its two operands together |
| `SetScenarios.FromEmptySlice` | set_test.go:13-19 | a set built from an empty slice is allocated and has length 0 |
| `SetScenarios.AddTwoToTen` | set_test.go:20-30 | `FromSlice` of 1..10 has length 10; after `Add(11, 12)` it contains 11 and 12 and has length 12 |
| `SetScenarios.AddSliceThenSet` | set_test.go:33-44 | after `AddSlice([11, 12])` and `AddSet({20, 30, 40})` the set contains 12, the old member 1 and the new member 40 |
| `SetScenarios.AddIsIdempotent` | set_test.go:52-68 | two distinct values give length 2, and adding the first one again keeps length 2 |
| `SetScenarios.UnionAliasesReceiver` | set_test.go:71-82 | `a.Union(b)` is `a` itself; it contains members of both operands and has at most 10 + 8 members |
| `SetScenarios.DifferenceAndIntersection` | set_test.go:83-112 | for 1..10 and {6..10, 20, 30, 40}, the difference is exactly 1..5 and the intersection exactly 6..10 |
| `SetScenarios.TenToSlice` | set_test.go:114-141 | a ten-member set lists as ten entries drawn from the original slice; appending three entries gives 13 and leaves the set at 10 |
| `SetScenarios.RoundTrip` | set_test.go:143-171 | listing a set and unmarshalling that list into a nil variable gives a set with the same members and length, and the difference is empty |

## Left out

- The byte-level JSON encoding and decoding (`json.Marshal` and `json.Unmarshal` in `MarshalJSON` and `UnmarshalJSON`, set.go:101-116). These are calls into the standard library. The decoder's outcome is an input of `Sets.UnmarshalJSON`. `SetScenarios.RoundTrip` assumes that decoding the encoded list gives the list back.
- `MarshalText` and `UnmarshalText` (set.go:118-124). They only delegate to the JSON methods.
- `String` (set.go:97-99). It formats through `fmt.Sprint`, and its output depends on the unspecified iteration order.
- The capacity hints passed to `make` (set.go:15, 28, 67, 88). They affect only performance.
- Nil maps, other than as the variable that `UnmarshalJSON` replaces. Every other receiver and argument is an allocated set. In Go, writing to a nil map panics, and reading one behaves like reading an empty set.
- Sets.Set.Length: returns an unbounded `int`. Go's `int` is 64 bits wide, but a map can never hold enough entries to overflow it.
- Sets.Set.AddSet and Sets.Set.Union do not state the bound that the result has at most as many members as both operands together in their own contracts. It follows from their postconditions by `Sequences.UnionCount`, which is how `SetScenarios.UnionAliasesReceiver` uses it.
- Hashing, and Go's `comparable` constraint. The model uses Dafny's equality-supporting type parameter `T(==)`.
- Concurrency. The package does no locking and is not safe for concurrent use.
