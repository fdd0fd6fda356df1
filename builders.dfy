/** `History.Builder`: a mutable staging list from which a new `History` is
    built, and the `History` factories, all of which go through a builder.

    Every builder method that Java declares to return `this` (for chaining)
    returns an `Outcome` here: `Pass` where Java returns normally, `Fail(e)`
    where it throws `e`. Only `RemoveUntil` changes the list and then throws;
    every other call that throws leaves the list as it was. */
module Builders {
  import opened Wrappers
  import opened Exceptions
  import opened Lists
  import opened Histories

  /** `checkKey`: a single key must not be null. */
  function CheckKey<K>(key: Option<K>): (r: Outcome<Exception>)
    ensures r == Pass <==> key.Some?
    ensures r != Pass ==> r == Fail(IllegalArgument)
  {
    if key.None? then Fail(IllegalArgument) else Pass
  }

  /** `checkKeys`: a collection argument must not be a null reference (its
      elements are not looked at). */
  function CheckKeys<T>(keys: Option<T>): (r: Outcome<Exception>)
    ensures r == Pass <==> keys.Some?
    ensures r != Pass ==> r == Fail(IllegalArgument)
  {
    if keys.None? then Fail(IllegalArgument) else Pass
  }

  /** What `removeUntil(key)` leaves behind and how it ends, for a non-null
      `key`: it pops the top while the top is not `key`. An empty list ends
      the loop and the call throws `IllegalArgumentException`; a null top
      makes `getLast().equals(key)` throw `NullPointerException` with that
      null still in place. */
  function PopUntil<K(==)>(s: seq<Option<K>>, key: K): (seq<Option<K>>, Outcome<Exception>)
    decreases |s|
  {
    if s == [] then ([], Fail(IllegalArgument))
    else if s[|s| - 1].None? then (s, Fail(NullPointer))
    else if s[|s| - 1].value == key then (s, Pass)
    else PopUntil(s[..|s| - 1], key)
  }

  /** The whole behaviour of `PopUntil` on any list: what is left is a prefix,
      what was popped holds neither `key` nor null, and the outcome says how
      the prefix ends (with `key`, with null, or empty). */
  lemma {:induction false} PopUntilShape<K>(s: seq<Option<K>>, key: K)
    ensures var (p, o) := PopUntil(s, key);
      && IsPrefix(p, s)
      && Some(key) !in s[|p|..] && None !in s[|p|..]
      && (o == Pass ==> p != [] && p[|p| - 1] == Some(key))
      && (o == Fail(NullPointer) ==> p != [] && p[|p| - 1] == None)
      && (o == Fail(IllegalArgument) ==> p == [])
      && (o == Pass || o == Fail(NullPointer) || o == Fail(IllegalArgument))
    decreases |s|
  {
    if s != [] && s[|s| - 1] != None && s[|s| - 1].value != key {
      var t := s[..|s| - 1];
      PopUntilShape(t, key);
      var (p, o) := PopUntil(t, key);
      assert s[|p|..] == t[|p|..] + [s[|s| - 1]];
    }
  }

  /** On a null-free list holding `key`: the list is cut back to its prefix up
      to and including the LAST occurrence of `key`, and the call succeeds. */
  lemma PopUntilFound<K>(s: seq<Option<K>>, key: K)
    requires NoNulls(s)
    requires Some(key) in s
    ensures PopUntil(s, key) == (s[..LastIndexOf(s, Some(key)) + 1], Pass)
  {
    PopUntilShape(s, key);
    var (p, o) := PopUntil(s, key);
    var i := LastIndexOf(s, Some(key));
    assert s[|p| - 1] == p[|p| - 1];
  }

  /** On a null-free list without `key`: the list is drained and the call
      throws `IllegalArgumentException`. */
  lemma PopUntilAbsent<K>(s: seq<Option<K>>, key: K)
    requires NoNulls(s)
    requires Some(key) !in s
    ensures PopUntil(s, key) == ([], Fail(IllegalArgument))
  {
    PopUntilShape(s, key);
  }

  class Builder<K(==)> {
    /** The staged keys; the builder's `ArrayList list`. */
    var list: seq<Option<K>>

    /** `Builder()` (package-private; callers use `NewBuilder`). */
    constructor ()
      ensures list == []
    {
      list := [];
    }

    /** `addAll(keys)`: appends the keys in order; only a null collection is
        refused, the elements themselves are not checked. */
    method AddAll(keys: Option<seq<Option<K>>>) returns (r: Outcome<Exception>)
      modifies this
      ensures keys.None? ==> r == Fail(IllegalArgument) && list == old(list)
      ensures keys.Some? ==> r == Pass && list == old(list) + keys.value
    {
      if keys.None? {
        return Fail(IllegalArgument);
      }
      list := list + keys.value;
      return Pass;
    }

    /** `addAllAt(keys, index)`: inserts the keys in order before position
        `index`, shifting the rest up; a null collection is refused first,
        then an index outside [0, size]. */
    method AddAllAt(keys: Option<seq<Option<K>>>, index: int) returns (r: Outcome<Exception>)
      modifies this
      ensures keys.None? ==> r == Fail(IllegalArgument) && list == old(list)
      ensures keys.Some? && !(0 <= index <= |old(list)|) ==> r == Fail(IndexOutOfBounds) && list == old(list)
      ensures keys.Some? && 0 <= index <= |old(list)| ==>
        r == Pass && list == old(list)[..index] + keys.value + old(list)[index..]
    {
      if keys.None? {
        return Fail(IllegalArgument);
      }
      if index < 0 || index > |list| {
        return Fail(IndexOutOfBounds);
      }
      list := list[..index] + keys.value + list[index..];
      return Pass;
    }

    /** `clear()`: cannot fail. */
    method Clear() returns (r: Outcome<Exception>)
      modifies this
      ensures r == Pass && list == []
    {
      list := [];
      return Pass;
    }

    /** `contains(key)`: a null key is refused; otherwise whether some staged
        element equals it. */
    function Contains(key: Option<K>): (r: Result<bool, Exception>)
      reads this
      ensures key.None? <==> r == Failure(IllegalArgument)
      ensures key.Some? ==> r == Success(Lists.IndexOf(list, key) != -1)
    {
      if key.None? then Failure(IllegalArgument) else Success(key in list)
    }

    /** `containsAll(keys)`: a null collection is refused; otherwise whether
        every element of `keys` (a null one included) is staged. */
    function ContainsAll(keys: Option<seq<Option<K>>>): (r: Result<bool, Exception>)
      reads this
      ensures keys.None? <==> r == Failure(IllegalArgument)
      ensures keys.Some? ==> r.Success? && (r.value <==> forall i :: 0 <= i < |keys.value| ==> keys.value[i] in list)
    {
      if keys.None? then Failure(IllegalArgument)
      else Success(forall i :: 0 <= i < |keys.value| ==> keys.value[i] in list)
    }

    function Size(): (n: int)
      reads this
      ensures n == |list|
    {
      |list|
    }

    predicate IsEmpty()
      reads this
    {
      list == []
    }

    /** `remove(key)`: a null key is refused; otherwise the first staged
        element equal to it is removed, and nothing happens if there is none. */
    method Remove(key: Option<K>) returns (r: Outcome<Exception>)
      modifies this
      ensures key.None? ==> r == Fail(IllegalArgument) && list == old(list)
      ensures key.Some? ==> r == Pass && list == RemoveFirst(old(list), key)
    {
      r := CheckKey(key);
      if r.Fail? {
        return;
      }
      list := RemoveFirst(list, key);
    }

    /** `removeAt(index)`: removes the element at `index`, shifting the rest
        down; an index outside [0, size) is refused. */
    method RemoveAt(index: int) returns (r: Outcome<Exception>)
      modifies this
      ensures !(0 <= index < |old(list)|) ==> r == Fail(IndexOutOfBounds) && list == old(list)
      ensures 0 <= index < |old(list)| ==> r == Pass && list == old(list)[..index] + old(list)[index + 1..]
    {
      if index < 0 || index >= |list| {
        return Fail(IndexOutOfBounds);
      }
      list := list[..index] + list[index + 1..];
      return Pass;
    }

    /** `retainAll(keys)`: a null collection is refused; otherwise only the
        staged elements that `keys` contains stay, in their order. */
    method RetainAll(keys: Option<seq<Option<K>>>) returns (r: Outcome<Exception>)
      modifies this
      ensures keys.None? ==> r == Fail(IllegalArgument) && list == old(list)
      ensures keys.Some? ==> r == Pass && list == Retain(old(list), keys.value)
    {
      r := CheckKeys(keys);
      if r.Fail? {
        return;
      }
      list := Retain(list, keys.value);
    }

    /** `removeLast()`: drops the top element; an empty builder is refused. */
    method RemoveLast() returns (r: Outcome<Exception>)
      modifies this
      ensures old(list) == [] ==> r == Fail(IllegalState) && list == []
      ensures old(list) != [] ==> r == Pass && list == old(list)[..|old(list)| - 1]
    {
      if list == [] {
        return Fail(IllegalState);
      }
      list := list[..|list| - 1];
      return Pass;
    }

    /** `removeUntil(key)`: a null key is refused with the list untouched;
        otherwise the top is popped until it equals `key` (see `PopUntil`).
        When `key` is not found the builder is left drained. */
    method RemoveUntil(key: Option<K>) returns (r: Outcome<Exception>)
      modifies this
      ensures key.None? ==> r == Fail(IllegalArgument) && list == old(list)
      ensures key.Some? ==> (list, r) == PopUntil(old(list), key.value)
    {
      r := CheckKey(key);
      if r.Fail? {
        return;
      }
      var k := key.value;
      while list != []
        invariant PopUntil(list, k) == PopUntil(old(list), k)
        decreases |list|
      {
        var last := GetLast();
        if last.None? {
          // `getLast()` returned null: `null.equals(key)` throws.
          return Fail(NullPointer);
        }
        if last.value == k {
          break;
        }
        var popped := RemoveLast();
      }
      if list == [] {
        return Fail(IllegalArgument);
      }
      return Pass;
    }

    /** `indexOf(key)`: a null key is refused; otherwise the first position
        holding it, or -1. */
    function IndexOf(key: Option<K>): (r: Result<int, Exception>)
      reads this
      ensures key.None? <==> r == Failure(IllegalArgument)
      ensures key.Some? ==> r.Success? && -1 <= r.value < |list|
      ensures key.Some? && r.value == -1 ==> key !in list
      ensures key.Some? && 0 <= r.value ==> list[r.value] == key && forall j :: 0 <= j < r.value ==> list[j] != key
    {
      if key.None? then Failure(IllegalArgument) else Success(Lists.IndexOf(list, key))
    }

    /** `get(index)`: the element at `index`; out of range is refused. */
    function Get(index: int): (r: Result<Option<K>, Exception>)
      reads this
      ensures r.Success? <==> 0 <= index < |list|
      ensures r.Success? ==> r.value == list[index]
      ensures r.Failure? ==> r.error == IndexOutOfBounds
    {
      if 0 <= index < |list| then Success(list[index]) else Failure(IndexOutOfBounds)
    }

    /** `getLast()`: the top element, or null when the builder is empty. Unlike
        `RemoveLast`, an empty builder is not an error. */
    function GetLast(): (r: Option<K>)
      reads this
      ensures list == [] ==> r == None
      ensures list != [] ==> r == list[|list| - 1]
    {
      if list == [] then None else list[|list| - 1]
    }

    /** `add(key)`: a null key is refused; otherwise it is appended. */
    method Add(key: Option<K>) returns (r: Outcome<Exception>)
      modifies this
      ensures key.None? ==> r == Fail(IllegalArgument) && list == old(list)
      ensures key.Some? ==> r == Pass && list == old(list) + [key]
    {
      r := CheckKey(key);
      if r.Fail? {
        return;
      }
      list := list + [key];
    }

    /** `add(key, index)`: a null key is refused first, then an index outside
        [0, size]; otherwise the key is inserted before position `index`. */
    method AddAt(key: Option<K>, index: int) returns (r: Outcome<Exception>)
      modifies this
      ensures key.None? ==> r == Fail(IllegalArgument) && list == old(list)
      ensures key.Some? && !(0 <= index <= |old(list)|) ==> r == Fail(IndexOutOfBounds) && list == old(list)
      ensures key.Some? && 0 <= index <= |old(list)| ==>
        r == Pass && list == old(list)[..index] + [key] + old(list)[index..]
    {
      r := CheckKey(key);
      if r.Fail? {
        return;
      }
      if index < 0 || index > |list| {
        return Fail(IndexOutOfBounds);
      }
      list := list[..index] + [key] + list[index..];
    }

    /** `build()`: copies the staged elements, one by one, into a new
        immutable `History`. Nothing is re-checked: a null that `AddAll` let
        in ends up in the history. */
    method Build() returns (h: History<K>)
      ensures h.elements == list
    {
      var copy: seq<Option<K>> := [];
      for i := 0 to |list|
        invariant copy == list[..i]
      {
        copy := copy + [list[i]];
      }
      h := History(copy);
    }
  }

  /** `newBuilder()`: a fresh, empty builder. */
  method NewBuilder<K(==)>() returns (b: Builder<K>)
    ensures fresh(b) && b.list == []
  {
    b := new Builder();
  }

  /** `builderFrom(List)`: every key is checked first, so a null key is
      refused before anything is built; then the keys are added in order. A
      null list makes the for-each loop throw `NullPointerException`. */
  method BuilderFrom<K(==)>(keys: Option<seq<Option<K>>>) returns (r: Result<Builder<K>, Exception>)
    ensures keys.None? ==> r == Failure(NullPointer)
    ensures keys.Some? && !NoNulls(keys.value) ==> r == Failure(IllegalArgument)
    ensures keys.Some? && NoNulls(keys.value) ==> r.Success? && fresh(r.value) && r.value.list == keys.value
  {
    if keys.None? {
      return Failure(NullPointer);
    }
    var ks := keys.value;
    for i := 0 to |ks|
      invariant NoNulls(ks[..i])
    {
      if ks[i].None? {
        return Failure(IllegalArgument);
      }
    }
    assert ks[..|ks|] == ks;
    var b := NewBuilder();
    var added := b.AddAll(keys);
    return Success(b);
  }

  /** `of(keys...)`: a null array or any null key is refused with
      `IllegalArgumentException`; otherwise the history holds exactly the
      keys, in the given order. */
  method Of<K(==)>(keys: Option<seq<Option<K>>>) returns (r: Result<History<K>, Exception>)
    ensures r.Success? <==> keys.Some? && NoNulls(keys.value)
    ensures r.Success? ==> r.value.elements == keys.value
    ensures r.Failure? ==> r.error == IllegalArgument
  {
    if keys.None? {
      return Failure(IllegalArgument);
    }
    var ks := keys.value;
    for i := 0 to |ks|
      invariant NoNulls(ks[..i])
    {
      if ks[i].None? {
        return Failure(IllegalArgument);
      }
    }
    assert ks[..|ks|] == ks;
    var b := BuilderFrom(keys);
    var h := b.value.Build();
    return Success(h);
  }

  /** `from(list)`: `builderFrom(list).build()`. */
  method From<K(==)>(keys: Option<seq<Option<K>>>) returns (r: Result<History<K>, Exception>)
    ensures r.Success? <==> keys.Some? && NoNulls(keys.value)
    ensures r.Success? ==> r.value.elements == keys.value
    ensures keys.None? ==> r == Failure(NullPointer)
    ensures keys.Some? && !NoNulls(keys.value) ==> r == Failure(IllegalArgument)
  {
    var b := BuilderFrom(keys);
    if b.Failure? {
      return Failure(b.error);
    }
    var h := b.value.Build();
    return Success(h);
  }

  /** `single(key)`: `newBuilder().add(key).build()`; a null key is refused. */
  method Single<K(==)>(key: Option<K>) returns (r: Result<History<K>, Exception>)
    ensures key.None? <==> r == Failure(IllegalArgument)
    ensures key.Some? ==> r == Success(History([key]))
  {
    var b := NewBuilder();
    var added := b.Add(key);
    if added.Fail? {
      return Failure(added.error);
    }
    var h := b.Build();
    assert h.elements == [key];
    return Success(h);
  }

  /** `buildUpon()`: `builderFrom(this)`. The history is itself a list, so it
      goes through the same null check: a history holding a null (possible
      through `AddAll`) is refused. */
  method BuildUpon<K(==)>(h: History<K>) returns (r: Result<Builder<K>, Exception>)
    ensures !NoNulls(h.elements) ==> r == Failure(IllegalArgument)
    ensures NoNulls(h.elements) ==> r.Success? && fresh(r.value) && r.value.list == h.elements
  {
    r := BuilderFrom(Some(h.elements));
  }

  /** The round trip `h.buildUpon().build()` gives back a history equal to
      `h` whenever `buildUpon` accepts `h`. */
  method RebuildHistory<K(==)>(h: History<K>) returns (r: Result<History<K>, Exception>)
    ensures NoNulls(h.elements) ==> r.Success? && r.value.Equals(AHistory(h)) && r.value == h
    ensures !NoNulls(h.elements) ==> r == Failure(IllegalArgument)
  {
    var b := BuildUpon(h);
    if b.Failure? {
      return Failure(b.error);
    }
    var g := b.value.Build();
    return Success(g);
  }

  /** `of` and `from` build equal histories from the same keys and refuse
      the same keys. */
  method OfAgreesWithFrom<K(==)>(keys: seq<Option<K>>) returns (viaOf: Result<History<K>, Exception>, viaFrom: Result<History<K>, Exception>)
    ensures viaOf.Success? <==> viaFrom.Success?
    ensures viaOf.Success? ==> viaOf.value.Equals(AHistory(viaFrom.value))
  {
    viaOf := Of(Some(keys));
    viaFrom := From(Some(keys));
  }

  /** `single(key)` and `of(key)` agree, on a null key too. */
  method SingleAgreesWithOf<K(==)>(key: Option<K>) returns (viaSingle: Result<History<K>, Exception>, viaOf: Result<History<K>, Exception>)
    ensures viaSingle == viaOf
  {
    viaSingle := Single(key);
    viaOf := Of(Some([key]));
    assert NoNulls([key]) <==> key.Some? by {
      assert [key][0] == key;
    }
  }
}
