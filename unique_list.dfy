/**
 * `UniqueList`: a Python list whose `append` skips an item that is already
 * present (by `==`). The session keeps its curation and its workspace in one.
 */
module UniqueLists {

  /** No element occurs twice. */
  predicate NoDup<T(==)>(s: seq<T>) {
    forall i, j :: 0 <= i < j < |s| ==> s[i] != s[j]
  }

  /** The list after `UniqueList.append(x)`. */
  function UniqueAppend<T(==)>(s: seq<T>, x: T): seq<T> {
    if x in s then s else s + [x]
  }

  /** Appending one item: unchanged when present, one longer with `x` last otherwise, and never a duplicate. */
  lemma UniqueAppendSpec<T>(s: seq<T>, x: T)
    requires NoDup(s)
    ensures x in s ==> UniqueAppend(s, x) == s
    ensures x !in s ==> UniqueAppend(s, x) == s + [x]
    ensures NoDup(UniqueAppend(s, x))
    ensures multiset(UniqueAppend(s, x)) == multiset(s) + (if x in s then multiset{} else multiset{x})
  {
  }

  /** The list after appending every element of `xs` in order, starting from `s`. */
  function AppendAll<T(==)>(s: seq<T>, xs: seq<T>): seq<T>
    decreases |xs|
  {
    if xs == [] then s else AppendAll(UniqueAppend(s, xs[0]), xs[1..])
  }

  /**
   * A list built only by `append` has no duplicates: appending a sequence to a
   * duplicate-free list keeps it duplicate-free, keeps the old list as a
   * prefix, and holds exactly the old elements and the appended ones.
   */
  lemma AppendAllSpec<T>(s: seq<T>, xs: seq<T>)
    requires NoDup(s)
    ensures NoDup(AppendAll(s, xs))
    ensures |s| <= |AppendAll(s, xs)| && AppendAll(s, xs)[..|s|] == s
    ensures forall y :: y in AppendAll(s, xs) <==> y in s || y in xs
  {
    AppendAllNoDup(s, xs);
    AppendAllPrefix(s, xs);
    AppendAllMembers(s, xs);
  }

  lemma {:induction false} AppendAllNoDup<T>(s: seq<T>, xs: seq<T>)
    requires NoDup(s)
    ensures NoDup(AppendAll(s, xs))
    decreases |xs|
  {
    if xs != [] {
      UniqueAppendSpec(s, xs[0]);
      AppendAllNoDup(UniqueAppend(s, xs[0]), xs[1..]);
    }
  }

  lemma {:induction false} AppendAllPrefix<T>(s: seq<T>, xs: seq<T>)
    ensures |s| <= |AppendAll(s, xs)| && AppendAll(s, xs)[..|s|] == s
    decreases |xs|
  {
    if xs != [] {
      var s' := UniqueAppend(s, xs[0]);
      assert |s| <= |s'| && s'[..|s|] == s;
      AppendAllPrefix(s', xs[1..]);
      var r := AppendAll(s', xs[1..]);
      assert r[..|s|] == r[..|s'|][..|s|];
    }
  }

  lemma {:induction false} AppendAllMembers<T>(s: seq<T>, xs: seq<T>)
    ensures forall y :: y in AppendAll(s, xs) <==> y in s || y in xs
    decreases |xs|
  {
    if xs != [] {
      var s' := UniqueAppend(s, xs[0]);
      AppendAllMembers(s', xs[1..]);
      assert xs == [xs[0]] + xs[1..];
      forall y
        ensures y in AppendAll(s, xs) <==> y in s || y in xs
      {
        assert y in s' <==> y in s || y == xs[0];
        assert y in xs <==> y == xs[0] || y in xs[1..];
      }
    }
  }

  /** Python's `s.index(x)`: the first position of `x`, or -1 where Python raises ValueError. */
  function IndexOf<T(==)>(s: seq<T>, x: T): (r: int)
    ensures r == -1 <==> x !in s
    ensures r != -1 ==> 0 <= r < |s| && s[r] == x && forall k :: 0 <= k < r ==> s[k] != x
  {
    if s == [] then -1
    else if s[0] == x then 0
    else var r := IndexOf(s[1..], x); if r == -1 then -1 else r + 1
  }

  /** `s` without its element at position `i` (`s.pop(i)`). */
  function RemoveAt<T>(s: seq<T>, i: nat): seq<T>
    requires i < |s|
  {
    s[..i] + s[i + 1..]
  }

  /** Python's `s.remove(x)` for an `x` that is present: the first occurrence is dropped. */
  function RemoveFirst<T(==)>(s: seq<T>, x: T): seq<T>
    requires x in s
  {
    RemoveAt(s, IndexOf(s, x))
  }

  /** Dropping an element takes exactly one copy of it out, and keeps a duplicate-free list duplicate-free and without it. */
  lemma RemoveFirstSpec<T>(s: seq<T>, x: T)
    requires x in s
    ensures |RemoveFirst(s, x)| == |s| - 1
    ensures multiset(RemoveFirst(s, x)) == multiset(s) - multiset{x}
    ensures NoDup(s) ==> NoDup(RemoveFirst(s, x)) && x !in RemoveFirst(s, x)
  {
    RemoveFirstCount(s, x);
    if NoDup(s) {
      RemoveAtNoDup(s, IndexOf(s, x));
    }
  }

  lemma RemoveFirstCount<T>(s: seq<T>, x: T)
    requires x in s
    ensures |RemoveFirst(s, x)| == |s| - 1
    ensures multiset(RemoveFirst(s, x)) == multiset(s) - multiset{x}
  {
    var i := IndexOf(s, x);
    assert s == s[..i] + [x] + s[i + 1..];
    assert multiset(s) == multiset(s[..i]) + multiset{x} + multiset(s[i + 1..]);
  }

  /** Popping a position of a duplicate-free list leaves it duplicate-free and without the popped item. */
  lemma RemoveAtNoDup<T>(s: seq<T>, i: nat)
    requires NoDup(s) && i < |s|
    ensures NoDup(RemoveAt(s, i)) && s[i] !in RemoveAt(s, i)
  {
    var r := RemoveAt(s, i);
    forall a, b | 0 <= a < b < |r|
      ensures r[a] != r[b]
    {
      var a' := if a < i then a else a + 1;
      var b' := if b < i then b else b + 1;
      assert r[a] == s[a'] && r[b] == s[b'];
    }
    forall k | 0 <= k < |r|
      ensures r[k] != s[i]
    {
      var k' := if k < i then k else k + 1;
      assert r[k] == s[k'];
    }
  }

  /** `s` with every copy of `x` filtered out, the rest in order. */
  function Without<T(==)>(s: seq<T>, x: T): seq<T> {
    if s == [] then []
    else (if s[0] == x then [] else [s[0]]) + Without(s[1..], x)
  }

  lemma {:induction false} WithoutAbsent<T>(s: seq<T>, x: T)
    requires x !in s
    ensures Without(s, x) == s
    decreases |s|
  {
    if s != [] {
      WithoutAbsent(s[1..], x);
    }
  }

  /** In a duplicate-free list, popping position `i` is filtering out the item held there. */
  lemma {:induction false} RemoveAtIsWithout<T>(s: seq<T>, i: nat)
    requires NoDup(s) && i < |s|
    ensures RemoveAt(s, i) == Without(s, s[i])
    decreases |s|
  {
    if i == 0 {
      assert s[0] !in s[1..] by {
        forall k | 0 <= k < |s[1..]| ensures s[1..][k] != s[0] { assert s[1..][k] == s[k + 1]; }
      }
      WithoutAbsent(s[1..], s[0]);
    } else {
      var t := s[1..];
      assert NoDup(t) by {
        forall a, b | 0 <= a < b < |t| ensures t[a] != t[b] { assert t[a] == s[a + 1] && t[b] == s[b + 1]; }
      }
      assert t[i - 1] == s[i] && s[0] != s[i];
      RemoveAtIsWithout(t, i - 1);
      assert RemoveAt(s, i) == [s[0]] + RemoveAt(t, i - 1);
    }
  }

  /** A duplicate-free list holds each item at most once, counted as a multiset. */
  lemma {:induction false} NoDupCount<T>(s: seq<T>, x: T)
    requires NoDup(s)
    ensures multiset(s)[x] <= 1
    decreases |s|
  {
    if s != [] {
      var t := s[1..];
      assert s == [s[0]] + t;
      assert NoDup(t) by {
        forall a, b | 0 <= a < b < |t| ensures t[a] != t[b] { assert t[a] == s[a + 1] && t[b] == s[b + 1]; }
      }
      NoDupCount(t, x);
      if s[0] == x {
        assert x !in t by {
          forall k | 0 <= k < |t| ensures t[k] != x { assert t[k] == s[k + 1]; }
        }
      }
    }
  }

  /** A permutation of a duplicate-free list is duplicate-free. */
  lemma NoDupPermutation<T>(a: seq<T>, b: seq<T>)
    requires NoDup(a) && multiset(a) == multiset(b)
    ensures NoDup(b)
  {
    forall i, j | 0 <= i < j < |b|
      ensures b[i] != b[j]
    {
      NoDupCount(a, b[j]);
      assert b == b[..j] + [b[j]] + b[j + 1..];
      assert b[i] in b[..j];
      assert multiset(b)[b[j]] >= multiset(b[..j])[b[j]] + 1;
    }
  }

  /** A Python `UniqueList` object. */
  class UniqueList<T(==)> {
    var items: seq<T>

    constructor ()
      ensures items == []
    {
      items := [];
    }

    /** `append`: adds `x` at the end unless an equal item is already present. */
    method Append(x: T)
      modifies this
      ensures items == UniqueAppend(old(items), x)
    {
      if x !in items {
        items := items + [x];
      }
    }

    /** `index`: the first position of `x`, or -1 where Python raises ValueError. */
    method Index(x: T) returns (r: int)
      ensures r == -1 <==> x !in items
      ensures r != -1 ==> 0 <= r < |items| && items[r] == x && forall k :: 0 <= k < r ==> items[k] != x
      ensures r == IndexOf(items, x)
    {
      var i := 0;
      while i < |items|
        invariant 0 <= i <= |items|
        invariant forall k :: 0 <= k < i ==> items[k] != x
      {
        if items[i] == x {
          return i;
        }
        i := i + 1;
      }
      return -1;
    }

    /** `remove`: drops the first occurrence of `x`; `found` is false where Python raises ValueError, and then nothing changes. */
    method Remove(x: T) returns (found: bool)
      modifies this
      ensures found == (x in old(items))
      ensures found ==> items == RemoveFirst(old(items), x)
      ensures !found ==> items == old(items)
    {
      var i := Index(x);
      found := i != -1;
      if found {
        items := items[..i] + items[i + 1..];
      }
    }
  }
}
