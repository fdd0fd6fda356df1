# simple-stack navigation history, in Dafny

This project models the core of simple-stack's navigation engine:

- **History** (module `Histories`): an immutable ordered stack of navigation
  keys, root at index 0 and top at index size-1, with `top`, `root`,
  `fromTop(offset)`, the read-only list queries and structural `equals`.
  It is a datatype, so it cannot change after it is built; the list mutators
  it inherits all throw.
- **History.Builder** (module `Builders`): a class whose `list` field is the
  builder's `ArrayList`. Every mutator reassigns it. It offers positional
  insert and remove, bulk add, `removeLast`, `removeUntil`, `retainAll` and
  `build`. The module also holds the factories `of`, `from`,
  `builderFrom`, `newBuilder`, `single` and `buildUpon`, all of which go
  through a builder.
- **MasterDetailStateClearStrategy** (module `MasterDetail`): the eviction rule
  applied to the key-to-saved-state map on each navigation. A key keeps its
  state if the new history holds it, or if a master/detail key of the new
  history names it as its master. The map is a field of class `StateStore`,
  and `ClearStatesNotIn` removes entries from it in a loop, as the Java
  iterator does.
- `Lists` states the `java.util.List` operations the code delegates to
  (`indexOf`, `lastIndexOf`, `remove(Object)`, `retainAll`) as functions
  over sequences, with lemmas about them.

A Java reference that may be null is an `Option`: `None` is `null`. A Java
call that throws returns `Failure(e)` or `Fail(e)`, where `e` names the
exception class. A call that returns normally gives `Success` or `Pass`.
Every chaining builder method (one that returns `this`) returns an `Outcome`,
and `Clear`, which cannot fail, always returns `Pass`.

The model keeps these behaviours of the code, which a reader of the
documentation comments might not expect:

- `build()` does not re-check for null keys. `addAll` and `addAllAt` do not
  check elements either, so a builder, and then a History, can hold `null`.
  The model keeps that possibility.
- `buildUpon()` passes the History to `builderFrom(List)`, which checks every
  element. So a History that holds a null cannot be rebuilt: that call throws
  `IllegalArgumentException`.
- `removeUntil(key)` throws `NullPointerException` when it meets a null on top
  of the builder, because `getLast().equals(key)` is then called on null. The
  builder is left popped down to that null.
- `builderFrom(List)` and `from` throw `NullPointerException` for a null list,
  not `IllegalArgumentException`. Only `of` refuses a null array with
  `IllegalArgumentException`.

## Model

| member | source | states |
|---|---|---|
| Lists.IndexOf | simple-stack/src/main/java/com/zhuinden/simplestack/History.java:263-266 | first index holding the element, -1 exactly when it is absent, and no earlier occurrence |
| Lists.LastIndexOf | simple-stack/src/main/java/com/zhuinden/simplestack/History.java:268-271 | last index holding the element, -1 exactly when it is absent, and no later occurrence |
| Lists.RemoveFirst | simple-stack/src/main/java/com/zhuinden/simplestack/History.java:520-525 | unchanged when the element is absent; otherwise one element shorter, with exactly one occurrence of it removed (multiset) |
| Lists.RemoveFirstAtIndexOf | simple-stack/src/main/java/com/zhuinden/simplestack/History.java:520-525 | the removed occurrence is the first one: the result is the list with position indexOf cut out |
| Lists.Retain | simple-stack/src/main/java/com/zhuinden/simplestack/History.java:545-550 | every kept element is in the list and in the collection; every list element that the collection contains is kept |
| Lists.RetainIsSubsequence | simple-stack/src/main/java/com/zhuinden/simplestack/History.java:545-550 | retainAll keeps the original relative order (the result is a subsequence) |
| Lists.RetainCounts | simple-stack/src/main/java/com/zhuinden/simplestack/History.java:545-550 | every occurrence of a contained element survives, and none of an element the collection lacks |
| Lists.RetainIdempotent | simple-stack/src/main/java/com/zhuinden/simplestack/History.java:545-550 | retaining twice with the same collection equals retaining once |
| Lists.RetainUsesContainsOnly | simple-stack/src/main/java/com/zhuinden/simplestack/History.java:545-550 | only membership in the collection matters, not its order or duplicates |
| Histories.History.Size | simple-stack/src/main/java/com/zhuinden/simplestack/History.java:382-385 | the number of elements |
| Histories.History.Get | simple-stack/src/main/java/com/zhuinden/simplestack/History.java:377-380 | succeeds exactly for an index in [0, size), with that element; otherwise IndexOutOfBoundsException |
| Histories.History.Top | simple-stack/src/main/java/com/zhuinden/simplestack/History.java:61-68 | null on an empty history (no throw), else the element at size-1 |
| Histories.History.Root | simple-stack/src/main/java/com/zhuinden/simplestack/History.java:109-116 | null on an empty history (no throw), else the element at 0 |
| Histories.History.FromTop | simple-stack/src/main/java/com/zhuinden/simplestack/History.java:70-101 | fails exactly on an empty history (IllegalStateException, whatever the offset) or an offset outside [-size, size) (IllegalArgumentException) |
| Histories.History.IndexOf | simple-stack/src/main/java/com/zhuinden/simplestack/History.java:263-266 | -1 exactly when the history does not contain the element, else its first position |
| Histories.History.LastIndexOf | simple-stack/src/main/java/com/zhuinden/simplestack/History.java:268-271 | -1 exactly when the history does not contain the element, else its last position |
| Histories.History.Mutate | simple-stack/src/main/java/com/zhuinden/simplestack/History.java:243-281 | every delegated mutator (add, set, add at, remove at, clear, addAll at; and remove, addAll, removeAll, retainAll at lines 347-370) throws UnsupportedOperationException |
| Histories.Empty | simple-stack/src/main/java/com/zhuinden/simplestack/History.java:45-47 | the empty history: size 0, null top and null root |
| Histories.ComputeFromTop | simple-stack/src/main/java/com/zhuinden/simplestack/History.java:86-101 | the code's checks, wrap-around loop and modulus compute exactly the documented fromTop, for every history and offset |
| Histories.TopAndRootFromTop | simple-stack/src/main/java/com/zhuinden/simplestack/History.java:70-101 | on a non-empty history fromTop(0) is top() and fromTop(-1) is root() |
| Histories.FromTopWraps | simple-stack/src/main/java/com/zhuinden/simplestack/History.java:70-101 | offset o-size names the same element as offset o; fromTop(-size) is top() |
| Histories.FromTopModular | simple-stack/src/main/java/com/zhuinden/simplestack/History.java:94-98 | every accepted offset names index size-1-((offset+size) mod size) |
| Histories.EqualsIsStructural | simple-stack/src/main/java/com/zhuinden/simplestack/History.java:307-316 | equal exactly when the element sequences are equal; reflexive, symmetric, transitive; never equal to null or a non-History |
| Builders.CheckKey | simple-stack/src/main/java/com/zhuinden/simplestack/History.java:684-688 | passes exactly a non-null key; a null key is IllegalArgumentException |
| Builders.CheckKeys | simple-stack/src/main/java/com/zhuinden/simplestack/History.java:690-694 | passes exactly a non-null collection; null is IllegalArgumentException |
| Builders.PopUntilShape | simple-stack/src/main/java/com/zhuinden/simplestack/History.java:583-593 | removeUntil leaves a prefix; the popped part holds neither the key nor null; success ends on the key, NullPointerException on a null, IllegalArgumentException on an empty builder |
| Builders.PopUntilFound | simple-stack/src/main/java/com/zhuinden/simplestack/History.java:583-593 | on a null-free builder holding the key: the prefix up to and including its last occurrence, success |
| Builders.PopUntilAbsent | simple-stack/src/main/java/com/zhuinden/simplestack/History.java:583-593 | on a null-free builder without the key: drained to empty, IllegalArgumentException |
| Builders.Builder.constructor | simple-stack/src/main/java/com/zhuinden/simplestack/History.java:434-437 | a new builder is empty |
| Builders.Builder.AddAll | simple-stack/src/main/java/com/zhuinden/simplestack/History.java:445-452 | null collection refused with the list unchanged; otherwise the keys appended in order, unchecked |
| Builders.Builder.AddAllAt | simple-stack/src/main/java/com/zhuinden/simplestack/History.java:461-468 | null collection refused, then an index outside [0, size]; otherwise the keys inserted in order at the index, later elements shifted |
| Builders.Builder.Clear | simple-stack/src/main/java/com/zhuinden/simplestack/History.java:475-479 | the builder becomes empty and the call returns normally |
| Builders.Builder.Contains | simple-stack/src/main/java/com/zhuinden/simplestack/History.java:487-490 | null key refused; otherwise true exactly when indexOf finds the key |
| Builders.Builder.ContainsAll | simple-stack/src/main/java/com/zhuinden/simplestack/History.java:498-503 | null collection refused; otherwise true exactly when every given element is staged |
| Builders.Builder.Size | simple-stack/src/main/java/com/zhuinden/simplestack/History.java:510-512 | the number of staged elements |
| Builders.Builder.Remove | simple-stack/src/main/java/com/zhuinden/simplestack/History.java:520-525 | null key refused with the list unchanged; otherwise the first equal element removed, no-op when absent |
| Builders.Builder.RemoveAt | simple-stack/src/main/java/com/zhuinden/simplestack/History.java:533-537 | index outside [0, size) refused with the list unchanged; otherwise that element removed, the rest kept in order |
| Builders.Builder.RetainAll | simple-stack/src/main/java/com/zhuinden/simplestack/History.java:545-550 | null collection refused with the list unchanged; otherwise only contained elements kept, in order |
| Builders.Builder.RemoveLast | simple-stack/src/main/java/com/zhuinden/simplestack/History.java:567-574 | empty builder refused with IllegalStateException; otherwise exactly the last element dropped, the prefix unchanged |
| Builders.Builder.RemoveUntil | simple-stack/src/main/java/com/zhuinden/simplestack/History.java:583-593 | null key refused with the list unchanged; otherwise the new list and the outcome are those of PopUntil |
| Builders.Builder.IndexOf | simple-stack/src/main/java/com/zhuinden/simplestack/History.java:601-604 | null key refused; otherwise the first position of the key, or -1 exactly when it is absent |
| Builders.Builder.Get | simple-stack/src/main/java/com/zhuinden/simplestack/History.java:612-616 | succeeds exactly for an index in [0, size), with that element; otherwise IndexOutOfBoundsException |
| Builders.Builder.GetLast | simple-stack/src/main/java/com/zhuinden/simplestack/History.java:624-628 | null on an empty builder (no throw), else the last element |
| Builders.Builder.Add | simple-stack/src/main/java/com/zhuinden/simplestack/History.java:636-641 | null key refused with the list unchanged; otherwise the key appended |
| Builders.Builder.AddAt | simple-stack/src/main/java/com/zhuinden/simplestack/History.java:650-655 | null key refused, then an index outside [0, size]; otherwise the key inserted at the index, later elements shifted |
| Builders.Builder.Build | simple-stack/src/main/java/com/zhuinden/simplestack/History.java:673-681 | the new History holds exactly the staged elements, in order |
| Builders.NewBuilder | simple-stack/src/main/java/com/zhuinden/simplestack/History.java:224-227 | a fresh, empty builder |
| Builders.BuilderFrom | simple-stack/src/main/java/com/zhuinden/simplestack/History.java:209-217 | null list is NullPointerException; any null key is IllegalArgumentException, before a builder exists; otherwise a fresh builder holding exactly the keys, in order |
| Builders.Of | simple-stack/src/main/java/com/zhuinden/simplestack/History.java:137-149 | succeeds exactly for a non-null array without null keys, and then holds exactly those keys in order; every failure is IllegalArgumentException |
| Builders.From | simple-stack/src/main/java/com/zhuinden/simplestack/History.java:158-161 | succeeds exactly for a non-null list without null keys, holding exactly those keys; null list NullPointerException, null key IllegalArgumentException |
| Builders.Single | simple-stack/src/main/java/com/zhuinden/simplestack/History.java:235-240 | null key refused with IllegalArgumentException; otherwise the one-key history |
| Builders.BuildUpon | simple-stack/src/main/java/com/zhuinden/simplestack/History.java:125-128 | a fresh builder holding this history's elements in order; a history holding a null is refused |
| Builders.RebuildHistory | simple-stack/src/main/java/com/zhuinden/simplestack/History.java:125-128 | buildUpon().build() gives back a History equal to the original whenever buildUpon accepts it |
| Builders.OfAgreesWithFrom | simple-stack/src/main/java/com/zhuinden/simplestack/History.java:137-161 | of and from fail on the same keys and otherwise build equal histories |
| Builders.SingleAgreesWithOf | simple-stack/src/main/java/com/zhuinden/simplestack/History.java:235-240 | single(key) and of(key) give the same result, for a null key too |
| MasterDetail.Cleared | simple-stack-flow-masterdetail-fragments/src/main/java/com/example/stackmasterdetailfrag/util/MasterDetailStateClearStrategy.java:21-40 | the surviving entries: a subset of the old keys, values unchanged, and exactly the retained keys |
| MasterDetail.StateStore.ClearStatesNotIn | simple-stack-flow-masterdetail-fragments/src/main/java/com/example/stackmasterdetailfrag/util/MasterDetailStateClearStrategy.java:21-40 | after the walk, the map is exactly the old map restricted to keys that the new state contains or names as a master, whatever the visiting order |
| MasterDetail.RemainingKeysAreNeeded | simple-stack-flow-masterdetail-fragments/src/main/java/com/example/stackmasterdetailfrag/util/MasterDetailStateClearStrategy.java:26-38 | every remaining key is in the new state or is the master of one of its master/detail keys |
| MasterDetail.HistoryKeysKept | simple-stack-flow-masterdetail-fragments/src/main/java/com/example/stackmasterdetailfrag/util/MasterDetailStateClearStrategy.java:36-38 | no key that the new state contains is removed, and its state is unchanged |
| MasterDetail.MastersKept | simple-stack-flow-masterdetail-fragments/src/main/java/com/example/stackmasterdetailfrag/util/MasterDetailStateClearStrategy.java:27-35 | the master of a master/detail key in the new state is retained, even when not itself in the new state |
| MasterDetail.PlainKeysProtectOnlyThemselves | simple-stack-flow-masterdetail-fragments/src/main/java/com/example/stackmasterdetailfrag/util/MasterDetailStateClearStrategy.java:28-33 | adding a plain key to the new state retains exactly that key's own entry in addition |
| MasterDetail.ClearOnlyRemoves | simple-stack-flow-masterdetail-fragments/src/main/java/com/example/stackmasterdetailfrag/util/MasterDetailStateClearStrategy.java:22-37 | the key set only shrinks, no surviving state is replaced, the map does not grow |
| MasterDetail.FateIsPerKey | simple-stack-flow-masterdetail-fragments/src/main/java/com/example/stackmasterdetailfrag/util/MasterDetailStateClearStrategy.java:24-39 | whether a key survives does not depend on the other keys of the map |
| MasterDetail.OrderOfNewStateIrrelevant | simple-stack-flow-masterdetail-fragments/src/main/java/com/example/stackmasterdetailfrag/util/MasterDetailStateClearStrategy.java:24-39 | only which keys the new state holds matters, not their order or repetitions |
| MasterDetail.ClearIdempotent | simple-stack-flow-masterdetail-fragments/src/main/java/com/example/stackmasterdetailfrag/util/MasterDetailStateClearStrategy.java:24-39 | clearing twice against the same new state equals clearing once |

These members have no row of their own because their bodies are the
definition; the rows above state what follows from them:

- `History.IsEmpty`, `History.Contains`, `History.ContainsAll`, `History.Equals`
  (History.java lines 307-355) and `Builder.IsEmpty` (lines 557-559).
- `Lists.NoNulls`: the for-each null checks of `of` (History.java lines
  143-147) and `builderFrom` (lines 211-215).
- `Builders.PopUntil`: the loop and final emptiness check of `removeUntil`
  (History.java lines 586-591). `PopUntilShape`, `PopUntilFound` and
  `PopUntilAbsent` state its behaviour, and `Builder.RemoveUntil` is proved
  against it.
- `MasterDetail.IsMasterIn`: the inner `isMasterOf` loop
  (MasterDetailStateClearStrategy.java lines 27-35).
- `MasterDetail.Retained`: the keep test at MasterDetailStateClearStrategy.java
  line 36. `Cleared` and the lemmas after it are stated through it.

## Left out

- `History.hashCode`: Java int-overflow hash arithmetic that nothing in the model uses.
- `toString`, `toArray`, `iterator`, `listIterator`, `subList` and `Builder.iterator`: views and
  iteration over the same elements, with no logic of their own.
- The API-24 delegations (`removeIf`, `replaceAll`, `sort`, `spliterator`, `stream`,
  `parallelStream`, `forEach`): thin wrappers over the Java collections library.
- `builderFrom(Backstack)` and `builderFrom(BackstackDelegate)`: `Backstack` is not part of this
  model; seeding a builder from an existing History is `BuildUpon`.
- `builderOf(keys...)`: it is `builderFrom(Arrays.asList(keys))`, which is `BuilderFrom` in the
  model (a null array is `NullPointerException` there too).
- The unchecked `<K>` casts of `top`, `fromTop`, `root` and `get`: one key type parameter is used.
- `equals` against an arbitrary object: everything that is not a History is one value,
  `NotAHistory`. The asymmetry with `ArrayList.equals` is not modelled.
- Java `int` sizes: lists are unbounded. No index arithmetic in the code can overflow for lists shorter
  than 2^31 elements.
- Key equality is Dafny `==`, standing for a well-behaved `Object.equals`. Reference identity is not
  modelled.
- The strategy sees only non-null keys in the map and in the new state. `MasterDetailPath.getMaster()`
  is the `master` field of a `MasterDetail` key. A master path that is its own master is written
  `MasterDetail(id, None)`, which has the same eviction result. The rest of the `StateChange` (previous state,
  direction) is not used by the strategy and is not modelled.
- The retained-state store's `get`/`put`, `BackstackManager` and the `Bundleable`/`StateBundle`
  persistence contract: not part of this model; saved states are an opaque type parameter.
- Concurrency, Android views, fragments, RxJava, database and scheduler code of the sample apps.
