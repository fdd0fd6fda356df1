/** The `java.util.List` operations that `History` and `History.Builder`
    delegate to, stated over sequences. Equality of elements is Dafny's `==`,
    which stands for `Object.equals`; `null` elements are `None`. */
module Lists {
  import opened Wrappers

  /** No element of `s` is a null reference. */
  predicate NoNulls<T>(s: seq<Option<T>>) {
    forall i :: 0 <= i < |s| ==> s[i].Some?
  }

  /** `List.indexOf`: the index of the first element equal to `x`, or -1. */
  function IndexOf<T(==)>(s: seq<T>, x: T): (i: int)
    ensures -1 <= i < |s|
    ensures i == -1 <==> x !in s
    ensures 0 <= i ==> s[i] == x && forall j :: 0 <= j < i ==> s[j] != x
  {
    if s == [] then -1
    else if s[0] == x then 0
    else
      var j := IndexOf(s[1..], x);
      if j == -1 then -1 else j + 1
  }

  /** `List.lastIndexOf`: the index of the last element equal to `x`, or -1. */
  function LastIndexOf<T(==)>(s: seq<T>, x: T): (i: int)
    ensures -1 <= i < |s|
    ensures i == -1 <==> x !in s
    ensures 0 <= i ==> s[i] == x && x !in s[i + 1..]
  {
    if s == [] then -1
    else if s[|s| - 1] == x then |s| - 1
    else
      var j := LastIndexOf(s[..|s| - 1], x);
      assert s == s[..|s| - 1] + [s[|s| - 1]];
      j
  }

  /** `List.remove(Object)`: the list without its first element equal to `x`;
      the list itself when there is none. */
  function RemoveFirst<T(==)>(s: seq<T>, x: T): (r: seq<T>)
    ensures x !in s ==> r == s
    ensures x in s ==> |r| == |s| - 1 && multiset(r) == multiset(s) - multiset{x}
  {
    if s == [] then []
    else if s[0] == x then
      assert s == [s[0]] + s[1..];
      s[1..]
    else
      assert s == [s[0]] + s[1..];
      [s[0]] + RemoveFirst(s[1..], x)
  }

  /** `List.retainAll(c)`: the elements of `s` that `c` contains, in their
      original order. */
  function Retain<T(==)>(s: seq<T>, c: seq<T>): (r: seq<T>)
    ensures |r| <= |s|
    ensures forall i :: 0 <= i < |r| ==> r[i] in s && r[i] in c
    ensures forall i :: 0 <= i < |s| && s[i] in c ==> s[i] in r
  {
    if s == [] then []
    else
      assert s == [s[0]] + s[1..];
      if s[0] in c then [s[0]] + Retain(s[1..], c) else Retain(s[1..], c)
  }

  /** `a` is `b` with some elements deleted and the rest in their order. */
  predicate IsSubsequence<T(==)>(a: seq<T>, b: seq<T>)
    decreases |b|
  {
    if a == [] then true
    else if b == [] then false
    else if a[0] == b[0] then IsSubsequence(a[1..], b[1..])
    else IsSubsequence(a, b[1..])
  }

  /** `a` is a prefix of `b`. */
  predicate IsPrefix<T(==)>(a: seq<T>, b: seq<T>) {
    |a| <= |b| && a == b[..|a|]
  }

  /** Removing the first occurrence is cutting out the element at `IndexOf`. */
  lemma {:induction false} RemoveFirstAtIndexOf<T>(s: seq<T>, x: T)
    requires x in s
    ensures 0 <= IndexOf(s, x)
    ensures RemoveFirst(s, x) == s[..IndexOf(s, x)] + s[IndexOf(s, x) + 1..]
  {
    if s[0] != x {
      var t := s[1..];
      RemoveFirstAtIndexOf(t, x);
      var j := IndexOf(t, x);
      CutAfterHead(s, j);
    }
  }

  lemma CutAfterHead<T>(s: seq<T>, j: nat)
    requires j + 1 < |s|
    ensures [s[0]] + (s[1..][..j] + s[1..][j + 1..]) == s[..j + 1] + s[j + 2..]
  {
    assert s[..j + 1] == [s[0]] + s[1..][..j];
  }

  /** Retaining keeps the order: the result is a subsequence of the input. */
  lemma {:induction false} RetainIsSubsequence<T>(s: seq<T>, c: seq<T>)
    ensures IsSubsequence(Retain(s, c), s)
  {
    if s != [] {
      RetainIsSubsequence(s[1..], c);
      if s[0] !in c {
        SubsequenceOfTail(Retain(s[1..], c), s);
      }
    }
  }

  lemma {:induction false} SubsequenceOfTail<T>(a: seq<T>, b: seq<T>)
    requires b != []
    requires IsSubsequence(a, b[1..])
    ensures IsSubsequence(a, b)
    decreases |b|
  {
    if a != [] && a[0] == b[0] {
      SubsequenceDropHead(a, b[1..]);
      SubsequenceOfTail(a[1..], b[1..]);
    }
  }

  lemma {:induction false} SubsequenceDropHead<T>(a: seq<T>, b: seq<T>)
    requires a != []
    requires IsSubsequence(a, b)
    ensures IsSubsequence(a[1..], b[1..])
    decreases |b|
  {
    if a[0] != b[0] {
      SubsequenceDropHead(a, b[1..]);
      SubsequenceOfTail(a[1..], b[1..]);
    }
  }

  /** Retaining loses no occurrence of an element that `c` contains and keeps
      none of an element that `c` lacks. */
  lemma {:induction false} RetainCounts<T>(s: seq<T>, c: seq<T>, x: T)
    ensures multiset(Retain(s, c))[x] == if x in c then multiset(s)[x] else 0
  {
    if s != [] {
      RetainCounts(s[1..], c, x);
      assert s == [s[0]] + s[1..];
      assert multiset(s) == multiset{s[0]} + multiset(s[1..]);
      if s[0] in c {
        assert multiset(Retain(s, c)) == multiset{s[0]} + multiset(Retain(s[1..], c));
      }
    }
  }

  /** Retaining twice with the same collection is retaining once. */
  lemma {:induction false} RetainIdempotent<T>(s: seq<T>, c: seq<T>)
    ensures Retain(Retain(s, c), c) == Retain(s, c)
  {
    if s != [] {
      RetainIdempotent(s[1..], c);
    }
  }

  /** Only which elements `c` contains matters, not its order or repetitions. */
  lemma {:induction false} RetainUsesContainsOnly<T>(s: seq<T>, c: seq<T>, d: seq<T>)
    requires forall x :: x in c <==> x in d
    ensures Retain(s, c) == Retain(s, d)
  {
    if s != [] {
      RetainUsesContainsOnly(s[1..], c, d);
    }
  }
}
