# Set classes of `JS-Practice/SubclassTest.js`, modelled in Dafny

The file builds a family of JavaScript set classes.

- `Set` is a hash set. `Set._v2s` turns each value into a tagged string key. The set keeps a table from keys to values and a counter `n`.
- `NonNullSet`, `NoNullSet` and the classes made by `filterSetSubclass` override `add` only. They check every argument before any is stored.
- `SingletonSet` is a read-only `Set` with one member.
- `FilteredSet` wraps another set and filters what `add` lets through.
- `NotSet` is the complement of another set. It answers only `contains`.
- `AbstractEnumerableSet` derives `isEmpty`, `toString`, `toArray` and `equals` from `size`, `foreach` and `contains`. `SingletonSet1` inherits them.
- `AbstractWritableSet` derives `union`, `intersection` and `difference` from `add` and `remove`. `ArraySet` inherits them and keeps its members in an array.

The Dafny modules follow that structure.

| module | file | what it holds |
|---|---|---|
| `Values` | `values.dfy` | JavaScript values, `_v2s` keys, string conversion |
| `Outcomes` | `outcomes.dfy` | what the classes throw; `Result` and `Outcome` |
| `OrderedSets` | `ordered_sets.dfy` | insertion-ordered duplicate-free sequences: the common specification of `Set` and `ArraySet` |
| `HashSets` | `hash_set.dfy` | `Set` as a class, with the subclasses' `add` checks |
| `Singletons` | `singletons.dfy` | `SingletonSet` and `SingletonSet1` |
| `FilteredSets` | `filtered_set.dfy` | `FilteredSet` as a class wrapping a `Set` |
| `ArraySets` | `array_set.dfy` | `ArraySet` as a class over an array |
| `SetRefs` | `set_refs.dfy` | a reference to a set of any class; `NotSet`; dispatch of `contains`, `size`, `foreach` |
| `EnumerableSets` | `enumerable.dfy` | `isEmpty`, `toArray`, `toString`, `equals` |
| `WritableSets` | `writable.dfy` | `union`, `intersection`, `difference` |

How the model represents each part:

- **Classes with state.** Objects whose fields change (`Set`, `ArraySet`) are Dafny classes. Their methods state the new state in terms of the old one. `FilteredSet` never changes its own fields, which are `const`; it is a class because it refers to a `Set` that changes under it.
- **Set contents.** Contents are given as a sequence in `foreach` order. `Set` keeps it as a ghost field `Elements`, tied to the key table by the invariant `Table`. `ArraySet` uses its array directly.
- **Immutable objects.** Objects that never change (`SingletonSet`, `SingletonSet1`, `NotSet`) are datatypes.
- **Prototype chains.** A reference to any set is a `SetRef`, whose variant names the object's class. `instanceof` tests become tests on the variant.
- **Exceptions.** A `throw` becomes an `Err` result.

## Model

| member | source | states |
|---|---|---|
| `Values.Key` | JS-Practice/SubclassTest.js:100-119 | the intended `_v2s`: undefined, null, true and false get the letters u, n, t, f; every other key starts with `#` (number), `"` (string) or `@` (object), so a key's first character tells the kind of value |
| `Values.KeyInjective` | JS-Practice/SubclassTest.js:100-119 | two values with the same key are the same value, so `5` and `"5"` never collide, nor `true` and `"t"` |
| `Values.NumeralInjective` | JS-Practice/SubclassTest.js:113 | the decimal text of an integer determines the integer |
| `Values.Numeral` | JS-Practice/SubclassTest.js:113 | the text of a number is non-empty and starts with `-` exactly for negative numbers |
| `Values.KeyAsWritten` | JS-Practice/SubclassTest.js:124-129 | as written, every object's key is `@NaN`; other values keep their key |
| `Values.KeyAsWrittenCollides` | JS-Practice/SubclassTest.js:124-129 | two distinct objects share the key as written |
| `Values.Display` | JS-Practice/SubclassTest.js:337 | `s += v` appends a string unchanged and a number as its decimal text |
| `Outcomes.Rejected` | JS-Practice/SubclassTest.js:210 | a filter refusal throws a bare string, not an `Error` object |
| `OrderedSets.IndexOf` | JS-Practice/SubclassTest.js:444-446 | `indexOf` gives -1 exactly when the value is absent; otherwise the first position holding it |
| `OrderedSets.InsertAllShape` | JS-Practice/SubclassTest.js:62-72 | `add` keeps the old members in front, unchanged; it appends exactly the arguments not yet present, once each, in argument order; membership afterwards is old members or arguments |
| `OrderedSets.InsertAllNoDup` | JS-Practice/SubclassTest.js:453-460 | `add` never creates a duplicate |
| `OrderedSets.InsertAllPresent` | JS-Practice/SubclassTest.js:66 | adding values that are all present changes nothing |
| `OrderedSets.InsertAllIdempotent` | JS-Practice/SubclassTest.js:62-72 | adding the same arguments a second time changes nothing |
| `OrderedSets.NoDupCard` | JS-Practice/SubclassTest.js:447-449 | a duplicate-free array is as long as the number of distinct members |
| `OrderedSets.InsertAllCountsDistinct` | JS-Practice/SubclassTest.js:440-443 | adding to an empty set gives as many members as there are distinct arguments |
| `OrderedSets.DeleteIsSplice` | JS-Practice/SubclassTest.js:461-467 | `splice(indexOf(x), 1)` deletes the first occurrence of `x`; an absent value is skipped |
| `OrderedSets.DeleteMembers` | JS-Practice/SubclassTest.js:77-80 | one removal takes out exactly that value and shortens the set by one when it was present |
| `OrderedSets.DeleteAllMembers` | JS-Practice/SubclassTest.js:74-83 | after `remove`, the members are exactly the old ones that are not arguments, still without duplicates |
| `OrderedSets.DeleteAllAbsent` | JS-Practice/SubclassTest.js:77 | removing values none of which is present changes nothing |
| `OrderedSets.DeleteAllKeepsOrder` | JS-Practice/SubclassTest.js:461-469 | `remove` leaves the other members in their relative order |
| `OrderedSets.SameSizeInclusion` | JS-Practice/SubclassTest.js:363-372 | for duplicate-free sequences, equal length plus inclusion is the same as equal member sets |
| `HashSets.FirstFailure` | JS-Practice/SubclassTest.js:187-191 | the first argument a check refuses: all before it pass, and it fails |
| `HashSets.AdmitIffAllAccepted` | JS-Practice/SubclassTest.js:205-214 | the checks of a subclass chain pass exactly when every argument passes each class's check on its own |
| `HashSets.FindFailure` | JS-Practice/SubclassTest.js:207-211 | the checking loop stops exactly at `FirstFailure`: the first refused argument, or the end when there is none |
| `HashSets.Validate` | JS-Practice/SubclassTest.js:185-193 | runs the checks of `NonNullSet`, `NoNullSet` and `filterSetSubclass` classes, outermost first; passes exactly when all arguments are acceptable, else throws for the first offender |
| `HashSets.TableMembership` | JS-Practice/SubclassTest.js:85-87 | a value's key is in the table exactly when the value is a member |
| `HashSets.TableInsert` | JS-Practice/SubclassTest.js:66-69 | storing a value under an absent key adds one member and one to `n` |
| `HashSets.TableDelete` | JS-Practice/SubclassTest.js:77-80 | deleting a present key removes that member and one from `n`, keeping the rest matched |
| `HashSets.Set.constructor` | JS-Practice/SubclassTest.js:56-58 | a new set has no keys and `n == 0` |
| `HashSets.Set.Create` | JS-Practice/SubclassTest.js:173-178 | constructing a set of any class adds the arguments through that class's `add`; it throws when that `add` throws |
| `HashSets.Set.AddValues` | JS-Practice/SubclassTest.js:62-72 | `Set.prototype.add` stores each argument not yet present, keeping `n` equal to the number of keys |
| `HashSets.Set.AddOne` | JS-Practice/SubclassTest.js:64-69 | one argument: stored and counted when its key is new, ignored otherwise |
| `HashSets.Set.Add` | JS-Practice/SubclassTest.js:224-231 | the class's `add` succeeds exactly when every argument is acceptable; then it stores the new ones and returns the set, and afterwards `contains` holds of exactly the old members and the arguments; otherwise it throws the first refusal and leaves the set unchanged |
| `HashSets.Set.Remove` | JS-Practice/SubclassTest.js:74-83 | deletes each present argument and counts it down; absent ones change nothing; returns the set |
| `HashSets.Set.RemoveOne` | JS-Practice/SubclassTest.js:77-80 | deleting a present key removes exactly that member |
| `HashSets.Set.Contains` | JS-Practice/SubclassTest.js:85-87 | `contains(v)` holds exactly when `v` is a member |
| `HashSets.Set.Size` | JS-Practice/SubclassTest.js:89-91 | `n` equals the number of keys and the number of members |
| `HashSets.Set.Foreach` | JS-Practice/SubclassTest.js:93-98 | `foreach` visits every member exactly once, in insertion order |
| `Singletons.SingletonSet.Foreach` | JS-Practice/SubclassTest.js:157-159 | the callback runs once, on the member |
| `Singletons.SingletonSet.Contains` | JS-Practice/SubclassTest.js:161-163 | true exactly for the value `foreach` visits |
| `Singletons.SingletonSet.Size` | JS-Practice/SubclassTest.js:153-155 | always 1, the number of values visited |
| `Singletons.SingletonSet.Add` | JS-Practice/SubclassTest.js:146-148 | always throws "read-only set" |
| `Singletons.SingletonSet.Remove` | JS-Practice/SubclassTest.js:149-151 | always throws "read-only set" |
| `Singletons.SingletonSet1.Foreach` | JS-Practice/SubclassTest.js:395-397 | the callback runs exactly once, on the member |
| `Singletons.SingletonSet1.Contains` | JS-Practice/SubclassTest.js:389-391 | `contains(x)` holds exactly when `x === member` |
| `Singletons.SingletonSet1.Size` | JS-Practice/SubclassTest.js:392-394 | always 1 |
| `FilteredSets.FilteredSet.constructor` | JS-Practice/SubclassTest.js:240-244 | keeps the wrapped set and the filter |
| `FilteredSets.FilteredSet.Add` | JS-Practice/SubclassTest.js:245-257 | succeeds exactly when every argument passes the filter and the wrapped set's own checks; then the wrapped set gains them and the wrapper is returned; otherwise the wrapped set is unchanged, and the error is the first filter refusal or, when every argument passes the filter, the one the wrapped set's own `add` throws; keeps "every member passes the filter" |
| `FilteredSets.FilteredSet.Remove` | JS-Practice/SubclassTest.js:259-262 | forwards to the wrapped set and returns the wrapper; keeps "every member passes the filter" |
| `FilteredSets.FilteredSet.Contains` | JS-Practice/SubclassTest.js:263-265 | exactly the wrapped set's answer |
| `FilteredSets.FilteredSet.Size` | JS-Practice/SubclassTest.js:266-268 | exactly the wrapped set's answer |
| `FilteredSets.FilteredSet.Foreach` | JS-Practice/SubclassTest.js:269-271 | visits what the wrapped set visits, in its order |
| `ArraySets.ArraySet.constructor` | JS-Practice/SubclassTest.js:440-443 | a new array set holds the distinct arguments in first-occurrence order |
| `ArraySets.ArraySet.Contains` | JS-Practice/SubclassTest.js:444-446 | `contains(v)` holds exactly when `v` is in the array |
| `ArraySets.ArraySet.Size` | JS-Practice/SubclassTest.js:447-449 | the array length, which is the number of distinct members |
| `ArraySets.ArraySet.Foreach` | JS-Practice/SubclassTest.js:450-452 | visits the array in order |
| `ArraySets.ArraySet.Add` | JS-Practice/SubclassTest.js:453-460 | appends each argument not yet present, in argument order; keeps the array free of duplicates; returns the set |
| `ArraySets.ArraySet.Remove` | JS-Practice/SubclassTest.js:461-469 | splices out each present argument and skips absent ones; keeps no duplicates; returns the set |
| `SetRefs.CapabilitiesAgree` | JS-Practice/SubclassTest.js:317-328 | for every enumerable class, `foreach` visits each member once, `size` counts them, and `contains` holds exactly of the visited values |
| `SetRefs.Foreach` | JS-Practice/SubclassTest.js:324-328 | the values a set's `foreach` visits; a `NotSet` has no `foreach` and the call throws a TypeError |
| `SetRefs.NotContains` | JS-Practice/SubclassTest.js:306-308 | `NotSet.contains(x)` is the negation of the wrapped set's answer: exactly the values the wrapped set does not visit |
| `SetRefs.DoubleComplement` | JS-Practice/SubclassTest.js:303-308 | a `NotSet` of a `NotSet` answers `contains` as the original set does |
| `SetRefs.SingletonEquals` | JS-Practice/SubclassTest.js:165-168 | `SingletonSet.equals(that)` holds exactly when `that` is a `Set` that visits the member and nothing else |
| `EnumerableSets.IsEmpty` | JS-Practice/SubclassTest.js:329-331 | `isEmpty()` holds exactly when `foreach` visits nothing, and exactly when `contains` holds of no value |
| `EnumerableSets.ToArray` | JS-Practice/SubclassTest.js:353-359 | the array lists the members in `foreach` order, once each; its length is `size()` |
| `EnumerableSets.IsEmptyOf` | JS-Practice/SubclassTest.js:329-331 | `isEmpty()` on any set: a TypeError outside the `AbstractEnumerableSet` family; otherwise true exactly when `foreach` visits nothing |
| `EnumerableSets.ToArrayOf` | JS-Practice/SubclassTest.js:353-359 | `toArray()` on any set: a TypeError outside the `AbstractEnumerableSet` family; otherwise the members in `foreach` order |
| `EnumerableSets.Displays` | JS-Practice/SubclassTest.js:337 | one string form per member, in order |
| `EnumerableSets.BraceList` | JS-Practice/SubclassTest.js:333-339 | the text the callback accumulates over a sequence of values: `"{"`, their string forms separated by `", "`, then `"}"` |
| `EnumerableSets.EnumerableToString` | JS-Practice/SubclassTest.js:332-340 | `"{"`, then the members' string forms in `foreach` order separated by `", "`, then `"}"` |
| `EnumerableSets.ToString` | JS-Practice/SubclassTest.js:309-311 | `NotSet.toString()` is `"~"` before the wrapped set's text; an enumerable set gives its braces form; a `Set` gives `[object Object]` |
| `EnumerableSets.RenderedExample` | JS-Practice/SubclassTest.js:332-340 | an array set of 1, 2, 3 prints as `{1, 2, 3}`, its complement as `~{1, 2, 3}` |
| `EnumerableSets.EnumerableEquals` | JS-Practice/SubclassTest.js:360-378 | false for a set that is not enumerable or of another size; otherwise true exactly when `that` contains every value visited; stops at the first missing one |
| `EnumerableSets.Equals` | JS-Practice/SubclassTest.js:312-314 | `NotSet.equals(that)`: false unless `that` is a `NotSet`, and then what the wrapped sets' `equals` answers; a `Set` has no `equals` and throws |
| `EnumerableSets.EnumerableEqualsIffSameMembers` | JS-Practice/SubclassTest.js:360-378 | for enumerable sets, `equals` is true exactly when both hold the same members, in whatever order |
| `EnumerableSets.EnumerableEqualsSymmetric` | JS-Practice/SubclassTest.js:360-378 | `a.equals(b)` and `b.equals(a)` agree for enumerable sets |
| `EnumerableSets.EqualsSound` | JS-Practice/SubclassTest.js:312-314 | when `equals` answers true, the two sets give the same `contains` answer for every value, through any number of `NotSet` layers |
| `EnumerableSets.EqualsExamples` | JS-Practice/SubclassTest.js:360-378 | `ArraySet(1, 2, 3)` equals `ArraySet(3, 2, 1)`; `ArraySet(1, 2)` does not equal `ArraySet(1, 2, 3)` |
| `WritableSets.Union` | JS-Practice/SubclassTest.js:410-416 | afterwards every old member and every member of `that` is contained, nothing else; new ones are appended in `that`'s order; returns `this`; a `NotSet` argument throws and changes nothing |
| `WritableSets.Difference` | JS-Practice/SubclassTest.js:425-431 | afterwards exactly the old members `that` does not visit remain, in their old order; returns `this`; a `NotSet` argument throws and changes nothing |
| `WritableSets.DroppedMembers` | JS-Practice/SubclassTest.js:419-421 | the values intersection removes are exactly the members `that` does not contain |
| `WritableSets.DroppedLeavesKept` | JS-Practice/SubclassTest.js:417-424 | removing them leaves exactly the members `that` contains, in their old order, without duplicates |
| `WritableSets.Intersection` | JS-Practice/SubclassTest.js:417-424 | corrected `intersection`: afterwards exactly the old members `that` contains remain, in their old order; returns `this` |
| `WritableSets.RemoveUnlessContained` | JS-Practice/SubclassTest.js:419-422 | the callback removes `v` exactly when `that` does not contain it |
| `WritableSets.LiveSweepBounds` | JS-Practice/SubclassTest.js:417-424 | the as-written loop adds nothing, keeps every member `that` contains, and keeps no duplicates |
| `WritableSets.IntersectionAsWritten` | JS-Practice/SubclassTest.js:417-424 | as written: the result is the live sweep of `forEach` with `splice`; it never adds a value and never removes one `that` contains |
| `WritableSets.IntersectionSkipsAValue` | JS-Practice/SubclassTest.js:419-421 | with members 1, 2 and a `that` holding neither, the as-written loop leaves 2, where the corrected one leaves nothing |
| `WritableSets.UnionExample` | JS-Practice/SubclassTest.js:410-416 | {1, 2, 3} united with {2, 3, 4} gives 1, 2, 3, 4 |
| `WritableSets.IntersectionExample` | JS-Practice/SubclassTest.js:417-424 | {1, 2, 3} intersected with {2, 3, 4} gives 2, 3, both corrected and as written |
| `WritableSets.DifferenceExample` | JS-Practice/SubclassTest.js:425-431 | {1, 2, 3} minus {2, 3, 4} gives 1 |

## How the model reads defects in the source

These are places where the code cannot run as written. The model follows the evident intent, and a comment at the Dafny member says so.

- `SingletonSet.contains` takes no parameter and reads an undeclared `x` (:161-163). The parameter is restored.
- `SingletonSet.equals` is assigned to the constructor, not the prototype (:165), so instances never see it. It is modelled as the instance method it was meant to be.
- `construcotr` (:144) is a misspelt property. It has no effect on the model.
- `FilteredSet.add` calls a global `filter` instead of `this.filter` (:250). The field is used.
- `AbstarctSet` (:324) is undefined, and the class is spelt `AbstarctEnumerableSet` where it is defined and tested (:324, :361) but `AbstractEnumerableSet` where `AbstractWritableSet` extends it (:405). These are read as `AbstractSet` and one class `AbstractEnumerableSet`.
- The `add` that `filterSetSubclass` installs returns nothing (:205-214). The model returns the set, as the other classes do.

## Left out

- The prototype plumbing (`extend`, `inherit`, `defineSubclass`, `Function.prototype.extend`, :10-54) has no behaviour of its own. The model fixes each class's methods through `SetClass` and `SetRef` instead.
- `filterSetSubclass(superclass, filter)` accepts any class; the model's `SetClass.FilterSubclass` extends only `Set`, `NonNullSet`, `NoNullSet` or another filtered class. A filtered subclass of `SingletonSet` (the filter runs, then "read-only set" is thrown), of `ArraySet` or of `FilteredSet` is not expressible.
- `abstractmethod` and the throwing constructors of the abstract classes (:281-292, :324-326, :405-407) are left out. The model never makes an abstract instance.
- `toLocaleString` (:341-352) is left out. It calls locale formatting on arbitrary objects.
- The demonstration instances `s` and `t` (:274-279) are left out. So is a `FilteredSet` wrapping another `FilteredSet`, which only `t` builds: `FilteredSet` wraps a `Set` of the hash-based family.
- Numbers are integers. NaN, fractions, `-0` and exponent formatting are left out, so `Numeral` covers JavaScript's decimal text only for integers.
- An object is known only by an identity number. `Display` prints every object as `[object Object]`, so a set stored as an element is not printed through its own `toString`. The hidden property `objectId` writes onto the object is left out.
- `foreach` callbacks and their `context` argument are represented by the sequence of values visited. A callback that throws, or that touches other sets, is left out.
- Filters are total functions from values to booleans. JavaScript truthiness of a filter's result, and filters that throw, are left out. A missing (falsy) filter on `FilteredSet` is `None`.
- `WritableSets.Intersection` and `WritableSets.IntersectionAsWritten` require that `that` does not reach `self`, that is `self` is not in `Footprint(that)`. So `a.intersection(a)` and `a.intersection(new NotSet(a))` are not modelled.
- `WritableSets.Difference` requires `that` to be other than `self`. `a.difference(a)` runs `forEach` over the array it splices, as `intersection` does, and is not modelled.
- `SetRefs.Size` requires an enumerable set. Calling `size()` on a `NotSet`, a TypeError, is not modelled. The same holds for `add` and `remove` on a `NotSet`.
- `EnumerableSets.ToString`, `EnumerableSets.EnumerableEquals` and `EnumerableSets.Equals` change nothing. Their contracts still evaluate the result in the state the call starts in (`old`), since a `NotSet` chain can reach any object.
- `JS-Practice/ClassTest.js` and `JS-Practice/CodeReuse-classical.js` are not part of this model.

## Findings

| source | as written | input that shows it | evidently intended | confidence | as-written member | corrected member |
|---|---|---|---|---|---|---|
| JS-Practice/SubclassTest.js:417-424 | `intersection` removes values with `self.remove`, which splices the very array `this.foreach` walks with `forEach`, so the value after each removed one is never examined | an `ArraySet` holding 1 then 2, and `that` a `SingletonSet1(3)`: 1 is removed, 2 moves into the visited slot and stays | remove every member `that` does not contain | high; not executed | `WritableSets.IntersectionAsWritten`, `WritableSets.IntersectionSkipsAValue` | `WritableSets.Intersection`, `WritableSets.DroppedLeavesKept` |
| JS-Practice/SubclassTest.js:124-129 | `objectId` assigns `Set._v2s.next++`, but nothing initialises `Set._v2s.next`, so every object's id is NaN and its key `@NaN` | two distinct objects: adding the second to a set holding the first does nothing, and `contains` confuses them | each object gets its own id and key | high; not executed | `Values.KeyAsWritten`, `Values.KeyAsWrittenCollides` | `Values.Key`, `Values.KeyInjective` |
