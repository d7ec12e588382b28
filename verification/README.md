# A verified model of the linked-list set library (set.c / set.h)

The library keeps an unordered set of opaque values in a singly linked chain
of `Member` nodes. Each node holds one value and a `next` link. A `Set`
record holds:

- the member count `size`;
- a caller-supplied `match` callback, which decides when two values are the
  same member;
- an optional `destroy` callback;
- `head` and `tail` pointers into the chain.

The container operations are create, membership test, insertion at the tail
with rejection of duplicates, removal (by value, or of the first member when
the slot holds NULL), traversal and destruction. The set algebra is built on
them:

- union and intersection of a NULL-terminated array of sets, built by the
  `set_union` and `set_intersection` macros;
- difference of two sets;
- subset and equality tests.

The model has four modules.

- `Contents` (contents.dfy) is the abstract meaning, written over
  sequences of stored values. It defines:
  - membership under a match `Mem`;
  - the no-duplicates invariant `NoDup`;
  - insertion `Add` and repeated insertion `InsertAll`;
  - the union `UnionAll`, the intersection `Common` and the difference `Minus`.

  It also proves lemmas that characterise each of them by membership.
- `LinkedSet` (linked_set.dfy) is the heap model. The `Member` and `Set`
  classes have the C record fields. Each `Set` also has ghost `Contents`,
  `Nodes` and `Repr` fields. `Valid()` is `Linked()` (the chain, the size and
  no duplicates) together with `TailOk()` (where `tail` points). The
  container operations are methods over these classes, proved against
  `Contents`.
- `SetAlgebra` (algebra.dfy) models union, intersection, difference, subset
  and equality as loops over the chains. They call the container methods,
  just as set.c calls `set_ismember` and `set_insert`.
- `Scenarios` (scenarios.dfy) and `StaleTail` (stale_tail.dfy) hold concrete call
  sequences:
  - the union, intersection and difference of {0,1,2} and {2,4,6} from
    set_test.c;
  - the sequence of calls that exposes the stale tail pointer described under
    Findings.

How C constructs are modelled:

- A NULL value is `Option.None`.
- A NULL set is a null `Set?` reference.
- A `Set **` argument is an `Option<Set?<T>>`, where `None` is a NULL
  pointer-to-pointer. The operation returns the value the caller's pointer
  holds afterwards.
- The `match` callback is a total function `(T, T) -> bool`. The stored value
  is its first argument.
- The `destroy` callback is modelled only by whether it was supplied. The
  values it, or the `set_traverse` callback, is applied to are returned as a
  sequence.

## Model

| member | source | states |
|---|---|---|
| LinkedSet.Member.constructor | set.h:22-27 | a new link holds the given value and no successor |
| LinkedSet.Set.constructor | set.c:86-102 | set_create: a valid empty set with the given match and destroy callbacks |
| LinkedSet.Set.Size | set.h:45 | set_size is the number of stored values |
| LinkedSet.Set.IsEmpty | set.h:46 | set_isempty is 1 exactly when no value is stored and 0 exactly when one is |
| LinkedSet.Set.NextCursor | set.h:48 | set_next moves a cursor from the k-th link to the (k+1)-th, which holds the next stored value; it is NULL exactly past the last member |
| LinkedSet.IsMember | set.c:119-136 | -1 for a NULL set or value; otherwise 1 exactly when some stored value matches the probe, else 0 (also on an empty set) |
| LinkedSet.Append | set.c:160-177 | the new value becomes the last member, through tail when the set is not empty; the invariant (chain, size, no duplicates, tail) is kept |
| LinkedSet.Insert | set.c:152-179 | -1 for a NULL value; 1 for a NULL set; 1 and no change when the value already matches a member; otherwise 0 with the value appended; the set stays valid |
| LinkedSet.RemoveAsWritten | set.c:194-242 | -1 with the set and slot unchanged when the value is not a member; remove-first returns the oldest value and drops it; remove-by-value returns the stored value (not the probe) of the first match and drops exactly it, the others keeping their order; the tail invariant survives exactly when the removed member was the head or not the last |
| LinkedSet.Remove | set.c:194-242 | the same results with the tail repaired: the set stays valid after every removal |
| LinkedSet.Traverse | set.c:259-270 | -1 and no calls for a NULL or empty set; otherwise 0, with the callback applied to every stored value in insertion order |
| LinkedSet.Destroy | set.c:285-305 | the destroy callback, when supplied, is applied once to each stored value in insertion order; the set is left with no members and the caller's pointer NULL |
| LinkedSet.Drain | set_test.c:99-107 | n remove-first calls empty an n-member set and return its values in insertion order, the set staying valid throughout |
| Contents.Add | set.c:152-179 | insertion leaves the old values as a prefix and adds at most one value; a value that already matches leaves the sequence unchanged; no duplicates are introduced; with a reflexive match the value is a member afterwards |
| Contents.FirstMatch | set.c:211-219 | the member remove-by-value unlinks matches the probe and no earlier member does |
| Contents.Without | set.c:219-224 | unlinking the k-th member removes one value and keeps the others in order |
| Contents.NoDupRemove | set.c:194-242 | removing a member keeps the no-duplicates invariant |
| Contents.InsertAll | set.c:336-339 | inserting a run of values extends the accumulator, adds at most one value per input and introduces no duplicates |
| Contents.InsertAllMem | set.c:336-339 | with a transitive match, after inserting a run a value is a member exactly when it was one before or matches one of the inserted values |
| Contents.InsertAllFresh | set.c:416-421 | inserting values that all are new and distinct appends them unchanged |
| Contents.InsertAllAbsorbs | set.c:335-339 | inserting values that are all already members changes nothing |
| Contents.InsertAllIsAppendNew | set.c:336-339 | inserting a duplicate-free run appends exactly its values that are not yet members, in order |
| Contents.UnionAll | set.c:334-340 | the union of a run of sets has no duplicates; the union of one set is that set's values inserted in order |
| Contents.UnionAllMem | set.c:323-348 | with a transitive match, a value is in the union exactly when it is in one of the sets |
| Contents.UnionFirstTwice | set.c:335 | with a reflexive match, visiting the first set twice, as the post-increment does, gives the same union as visiting it once |
| Contents.CommonMem | set.c:381-389 | a value is in the intersection exactly when it is in the first set and in every later set |
| Contents.CommonFresh | set.c:381-389 | inserting the common members into an empty set with the first set's match keeps them all, in order |
| Contents.MinusMem | set.c:417-423 | a value is in the difference exactly when it is in set1 and not in set2 |
| Contents.MinusFresh | set.c:419-421 | a member of set1 not yet examined is never already in the partial difference, so its insertion cannot fail |
| Contents.SubsetMeansInclusion | set.c:445-462 | "every member of set1 is found in set2" is exactly "every value set1 holds, set2 holds" |
| Contents.SameSizeInclusion | set.c:476-490 | for duplicate-free sets under an equivalence, inclusion bounds the size, and at equal sizes inclusion runs both ways |
| Contents.EqualMeansSameMembers | set.c:476-490 | equal sizes plus inclusion hold exactly when the two sets have the same members |
| SetAlgebra.Terminator | set.h:54-58 | the first NULL of an argument array: every set before it is non-NULL |
| SetAlgebra.InsertMembers | set.c:336-339 | the inner union loop inserts every member of one set, in chain order, into the result |
| SetAlgebra.UnionInto | set.c:334-340 | the union loop visits the first set twice, then every set up to the NULL |
| SetAlgebra.UnionFunc | set.c:323-348 | -1 with the slot untouched for a NULL slot pointer, a NULL first set or a non-empty result set; otherwise 0, with a fresh set (the first set's callbacks) or the given empty one holding the union of the first set twice and then every set up to the NULL |
| SetAlgebra.Union | set.h:54-55 | set_union: the sets given plus a terminating NULL; when none is NULL and the match is reflexive, the result is the union of exactly the sets given, in order |
| SetAlgebra.IntersectionFunc | set.c:370-392 | the same argument checks and result set as union; the result receives each member of the first set that is in every later set up to the NULL, exactly those when the result set is fresh |
| SetAlgebra.IntersectRun | set.c:381-391 | the intersection loop fills the empty result set with the common members, keeping all of them under the first set's match |
| SetAlgebra.Nonmember | set.c:382-384 | the inner intersection loop answers true exactly when some later set lacks the value |
| SetAlgebra.Intersection | set.h:57-58 | set_intersection: with no NULL among the sets given, the result holds the members of the first set that are in all the others |
| SetAlgebra.Difference | set.c:409-431 | -1 with the slot untouched when an argument is NULL; otherwise 0 and a fresh valid set with set1's callbacks holding, in set1 order, exactly the members of set1 not in set2 |
| SetAlgebra.IsSubset | set.c:445-462 | 1 exactly when both sets are non-NULL and every member of set1 is in set2 (so 1 for an empty set1), else 0 |
| SetAlgebra.IsEqual | set.c:476-490 | 1 exactly when both sets are non-NULL, the sizes agree and every member of set1 is in set2, else 0 |
| SetAlgebra.Includes | set.c:453-461 | the shared scan answers 1 exactly when every member of set1 is in set2 |
| Scenarios.Build | set_test.c:284-288 | inserting distinct integers one by one into a new set with integer equality yields exactly those values in order |
| Scenarios.UnionOfTwo | set_test.c:271-297 | {0,1,2} union {2,4,6} succeeds and holds 0,1,2,4,6 in that order |
| Scenarios.SecondInserted | set_test.c:273-276 | inserting 2,4,6 into 0,1,2 gives 0,1,2,4,6 |
| Scenarios.IntersectionOfTwo | set_test.c:319-349 | {0,1,2} intersection {2,4,6} succeeds and holds only 2 |
| Scenarios.DifferenceOfTwo | set_test.c:366-390 | {0,1,2} minus {2,4,6} succeeds and holds 0,1 in that order |
| StaleTail.RemoveLastThenInsert | set.c:219-222 | as written: removing the last of two members and then inserting a new value leaves the chain with one member while size says two, so the inserted value is lost |
| StaleTail.RemoveLastThenInsertFixed | set.c:219-222 | with the tail repaired, the same calls give the set 1,3 with a valid invariant |

## Left out

- Allocation and freeing are not modelled. `malloc` never fails in the
  model. The unchecked `malloc` of set.c:160 and the error exits after a
  failed `set_create` cannot be reached. Nodes and records are not freed.
  Memory ownership of the shared data pointers, and double frees, are not
  modelled either.
- The `destroy` and `set_traverse` callbacks have no side effects in the
  model. Only the values they are applied to are recorded.
- `match` is a total boolean function. A C callback that returns values
  other than 0 and 1 is not modelled. `set_ismember` passes such a value on
  at set.c:133, and the loops compare with `!= 1`. Properties that need a
  reflexive, transitive or symmetric match say so in their requires.
- Aliasing between a result set and the input sets is not modelled. A
  supplied result set must share no object with the inputs.
- SetAlgebra.Union: the result is stated as the union of the sets given
  only when no input is NULL and the match is reflexive. SetAlgebra.UnionFunc
  states the general case, the first set visited twice and then the sets
  up to the first NULL.
- SetAlgebra.Intersection: when the result set was supplied with a
  different match, the contents are stated as the common members inserted
  with that match, not as the common members themselves.
- SetAlgebra.Difference: the pointer that `*setd` held before is overwritten
  without being freed (set.c:413). The model returns the new pointer and
  says nothing about the old set.
- The error exit of `set_union_func` (set.c:344-347) and of `set_difference`
  (set.c:427-430) is never taken. A stored value is never NULL and a
  difference member is never a duplicate, so the model proves the inserts
  succeed instead of modelling the `set_destroy` call.
- LinkedSet.RemoveAsWritten and LinkedSet.Remove require a non-empty,
  non-NULL set for remove-first. set.c:201-204 dereferences `head` without
  a check, and a NULL set with a NULL slot dereferences the set.
- LinkedSet.Destroy requires a non-NULL set, because set.c:290 dereferences
  it. The model does not say what `tail` holds afterwards; the C leaves it
  dangling, but the record is freed.
- Features some descriptions of the library mention but set.c lacks are not
  modelled: a `copy` callback, capability errors, rejecting a NULL `match`,
  and a NULL-safe destroy.
- set.h:64-82 declares `set_init`, `set_destroy(Set *)` and
  `set_union_func(Set *, …)`, which do not match the definitions. The model
  follows set.c.
- The `CONFIG_DEBUG_SET` test programs (set.c:500 onwards, set_test.c,
  test.c) are not modelled. Their random input, printing and exits are left
  out. The union, intersection, difference and drain sequences from set_test.c
  appear only as the concrete scenarios above.

## Findings

| source | as written | input that shows it | evidently intended | confidence | as-written member | corrected member |
|---|---|---|---|---|---|---|
| set.c:219-222 | when the member removed by value is the last one and not the head, the link before it is cut off, but `set->tail` still names the removed, freed member | insert 1 and 2, remove 2, insert 3: set_insert appends 3 through the stale tail, so the chain holds only 1 while size is 2 | `set->tail` is moved to the link before the removed member, so the next insert appends to the chain | not executed | StaleTail.RemoveLastThenInsert | StaleTail.RemoveLastThenInsertFixed |
