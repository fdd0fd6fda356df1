/** `History`: an immutable ordered stack of navigation keys. Index 0 is the
    root (bottom), index `Size() - 1` the top (current key).

    Elements are nullable references. The factories and the builder's
    single-key operations refuse `null`, but the builder's bulk `AddAll`
    does not check elements and `Build` copies whatever the builder holds, so
    a `History` can hold `None`. Being a datatype value, a `History` cannot
    change after it is made: that is the defensive, unmodifiable copy the
    Java constructor takes. */
module Histories {
  import opened Wrappers
  import opened Exceptions
  import Lists

  /** The mutating calls of `java.util.List` that `History` delegates to its
      unmodifiable element list. */
  datatype ListMutation<K> =
    | AddLast(element: Option<K>)
    | Set(index: int, element: Option<K>)
    | Insert(index: int, element: Option<K>)
    | RemoveAt(index: int)
    | Clear
    | InsertAll(index: int, elements: Option<seq<Option<K>>>)
    | RemoveElement(element: Option<K>)
    | AddAll(elements: Option<seq<Option<K>>>)
    | RemoveAll(elements: Option<seq<Option<K>>>)
    | RetainAll(elements: Option<seq<Option<K>>>)

  /** What `History.equals(Object)` can be handed. */
  datatype Obj<K> = Null | AHistory(history: History<K>) | NotAHistory

  datatype History<K(==)> = History(elements: seq<Option<K>>) {

    function Size(): (n: int)
      ensures n == |elements|
    {
      |elements|
    }

    predicate IsEmpty() {
      elements == []
    }

    /** `get(index)`: the element at `index`; out of range throws. */
    function Get(index: int): (r: Result<Option<K>, Exception>)
      ensures r.Success? <==> 0 <= index < |elements|
      ensures r.Success? ==> r.value == elements[index]
      ensures r.Failure? ==> r.error == IndexOutOfBounds
    {
      if 0 <= index < |elements| then Success(elements[index]) else Failure(IndexOutOfBounds)
    }

    /** `top()`: the last element, or null on an empty history (no throw). */
    function Top(): (r: Option<K>)
      ensures elements == [] ==> r == None
      ensures elements != [] ==> r == elements[|elements| - 1]
    {
      if IsEmpty() then None else elements[|elements| - 1]
    }

    /** `root()`: the first element, or null on an empty history (no throw). */
    function Root(): (r: Option<K>)
      ensures elements == [] ==> r == None
      ensures elements != [] ==> r == elements[0]
    {
      if IsEmpty() then None else elements[0]
    }

    /** `fromTop(offset)` as documented: offset 0 is the top, 1 the one
        below it, and so on; -1 is the root, -2 the one above it, and so on.
        Accepted offsets are [-size, size); an empty history fails first.
        The index an accepted offset names, in the code's modular form, is
        stated by `FromTopModular`. */
    function FromTop(offset: int): (r: Result<Option<K>, Exception>)
      ensures r.Failure? <==> elements == [] || offset < -|elements| || |elements| <= offset
      ensures elements == [] ==> r == Failure(IllegalState)
      ensures elements != [] && r.Failure? ==> r.error == IllegalArgument
    {
      var size := |elements|;
      if size == 0 then Failure(IllegalState)
      else if offset < -size || size <= offset then Failure(IllegalArgument)
      else if 0 <= offset then Success(elements[size - 1 - offset])
      else Success(elements[-offset - 1])
    }

    /** `contains(o)`: some element equals `o` (for `o == null`: some element
        is null). */
    predicate Contains(o: Option<K>) {
      o in elements
    }

    /** `containsAll(c)`: every element of `c` is contained. */
    predicate ContainsAll(c: seq<Option<K>>) {
      forall i :: 0 <= i < |c| ==> c[i] in elements
    }

    /** `indexOf(o)`: the first position holding `o`, or -1. */
    function IndexOf(o: Option<K>): (i: int)
      ensures i == -1 <==> !Contains(o)
      ensures 0 <= i ==> i < Size() && elements[i] == o && forall j :: 0 <= j < i ==> elements[j] != o
    {
      Lists.IndexOf(elements, o)
    }

    /** `lastIndexOf(o)`: the last position holding `o`, or -1. */
    function LastIndexOf(o: Option<K>): (i: int)
      ensures i == -1 <==> !Contains(o)
      ensures 0 <= i ==> i < Size() && elements[i] == o && o !in elements[i + 1..]
    {
      Lists.LastIndexOf(elements, o)
    }

    /** `equals(o)`: only another `History` can be equal, and then exactly
        when the element sequences are equal. */
    predicate Equals(o: Obj<K>) {
      match o
      case Null => false
      case NotAHistory => false
      case AHistory(other) => elements == other.elements
    }

    /** The delegated `List` mutators (`add`, `set`, `remove`, `clear`,
        `addAll`, `removeAll`, `retainAll`) reach an unmodifiable list: every
        one of them throws, whatever its arguments, and the history is left
        as it was. */
    function Mutate(m: ListMutation<K>): (r: Result<History<K>, Exception>)
      ensures r.Failure? && r.error == UnsupportedOperation
    {
      Failure(UnsupportedOperation)
    }
  }

  /** `new History()`: the empty history. */
  function Empty<K(==)>(): (h: History<K>)
    ensures h.Size() == 0 && h.Top() == None && h.Root() == None
  {
    History([])
  }

  /** `fromTop(offset)` as the code computes it: the two range checks, the
      `while (offset < 0) offset += size` loop, then `offset %= size` and
      index `(size - 1 - offset) % size`. */
  method ComputeFromTop<K(==)>(h: History<K>, offset: int) returns (r: Result<Option<K>, Exception>)
    ensures r == h.FromTop(offset)
  {
    var size := h.Size();
    if size <= 0 {
      return Failure(IllegalState);
    }
    if offset < -size || offset >= size {
      return Failure(IllegalArgument);
    }
    var o := offset;
    while o < 0
      invariant -size <= o < size
      invariant o < 0 ==> o == offset
      invariant 0 <= o ==> o == if offset < 0 then offset + size else offset
    {
      o := o + size;
    }
    SmallModulus(o, size);
    o := o % size;
    SmallModulus(size - 1 - o, size);
    var target := (size - 1 - o) % size;
    r := h.Get(target);
  }

  /** Java's `%` and Dafny's agree on non-negative operands, and leave a
      value already below the modulus alone. */
  lemma SmallModulus(a: int, n: int)
    requires 0 <= a < n
    ensures a % n == a
  {
  }

  /** Offset 0 is the top and offset -1 the root, on any non-empty history. */
  lemma TopAndRootFromTop<K>(h: History<K>)
    requires h.elements != []
    ensures h.FromTop(0) == Success(h.Top())
    ensures h.FromTop(-1) == Success(h.Root())
  {
  }

  /** The wrap-around: offset `o - size` names the same element as `o`; in
      particular -size is the top again. */
  lemma FromTopWraps<K>(h: History<K>, o: int)
    requires 0 <= o < h.Size()
    ensures h.FromTop(o - h.Size()) == h.FromTop(o)
    ensures h.FromTop(-h.Size()) == Success(h.Top())
  {
  }

  /** Every accepted offset names index `size - 1 - ((offset + size) mod size)`. */
  lemma FromTopModular<K>(h: History<K>, offset: int)
    requires -h.Size() <= offset < h.Size()
    ensures h.FromTop(offset) == Success(h.elements[h.Size() - 1 - (offset + h.Size()) % h.Size()])
  {
    var size := h.Size();
    if offset < 0 {
      SmallModulus(offset + size, size);
    } else {
      assert (offset + size) % size == offset by {
        assert offset + size == 1 * size + offset;
      }
    }
  }

  /** `equals` is structural: histories are equal exactly when they hold the
      same elements in the same order, and it is an equivalence. */
  lemma EqualsIsStructural<K>(h: History<K>, g: History<K>, f: History<K>)
    ensures h.Equals(AHistory(g)) <==> h == g
    ensures h.Equals(AHistory(h))
    ensures h.Equals(AHistory(g)) ==> g.Equals(AHistory(h))
    ensures h.Equals(AHistory(g)) && g.Equals(AHistory(f)) ==> h.Equals(AHistory(f))
    ensures !h.Equals(Null) && !h.Equals(NotAHistory)
  {
  }
}
