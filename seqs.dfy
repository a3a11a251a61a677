/** The two `java.util.List` operations the model needs, `indexOf` and
    `remove(Object)`, and the list that repeated removals leave behind. */
module Seqs {

  /** `List.indexOf`: the position of the first occurrence of x, or -1. */
  function IndexOf<T(==)>(s: seq<T>, x: T): (i: int)
    ensures -1 <= i < |s|
    ensures i == -1 <==> x !in s
    ensures 0 <= i ==> s[i] == x && x !in s[..i]
  {
    if s == [] then -1
    else if s[0] == x then 0
    else
      var j := IndexOf(s[1..], x);
      assert s[1..][..if j < 0 then 0 else j] == s[1..if j < 0 then 1 else j + 1];
      if j == -1 then -1 else j + 1
  }

  /** `List.remove(Object)`: drop the first occurrence of x, if there is one. */
  function RemoveFirst<T(==)>(s: seq<T>, x: T): (r: seq<T>)
    ensures x !in s ==> r == s
    ensures multiset(r) == multiset(s) - multiset{x}
  {
    if s == [] then []
    else
      assert s == [s[0]] + s[1..];
      if s[0] == x then s[1..] else [s[0]] + RemoveFirst(s[1..], x)
  }

  /** Removing a present x cuts out exactly position `IndexOf(s, x)`: what precedes it and
      what follows it are kept, in order. */
  lemma {:induction false} RemoveFirstAt<T>(s: seq<T>, x: T)
    requires x in s
    ensures |RemoveFirst(s, x)| == |s| - 1
    ensures RemoveFirst(s, x) == s[..IndexOf(s, x)] + s[IndexOf(s, x) + 1..]
  {
    if s[0] != x {
      var t := s[1..];
      assert s == [s[0]] + t;
      RemoveFirstAt(t, x);
      ConsCut(s, IndexOf(t, x));
    }
  }

  lemma ConsCut<T>(s: seq<T>, j: nat)
    requires j + 1 < |s|
    ensures [s[0]] + (s[1..][..j] + s[1..][j + 1..]) == s[..j + 1] + s[j + 2..]
  {
    assert [s[0]] + s[1..][..j] == s[..j + 1];
  }

  /** s with, for every value v, its first m[v] occurrences removed and the rest kept in order:
      the list that one `remove(v)` per element of m leaves, in whatever order they run. */
  function Filtered<T(==)>(s: seq<T>, m: multiset<T>): seq<T>
  {
    if s == [] then []
    else if s[0] in m then Filtered(s[1..], m - multiset{s[0]})
    else [s[0]] + Filtered(s[1..], m)
  }

  lemma {:induction false} FilteredNothing<T>(s: seq<T>)
    ensures Filtered(s, multiset{}) == s
  {
    if s != [] {
      FilteredNothing(s[1..]);
    }
  }

  /** One more removal, of x, extends the multiset of removed values by x. */
  lemma {:induction false} FilteredRemoveFirst<T>(s: seq<T>, m: multiset<T>, x: T)
    ensures RemoveFirst(Filtered(s, m), x) == Filtered(s, m + multiset{x})
  {
    if s != [] {
      var h, t := s[0], s[1..];
      if h in m {
        var m' := m - multiset{h};
        assert Filtered(s, m) == Filtered(t, m');
        assert m' + multiset{x} == m + multiset{x} - multiset{h};
        assert Filtered(s, m + multiset{x}) == Filtered(t, m' + multiset{x});
        FilteredRemoveFirst(t, m', x);
      } else {
        var f := Filtered(t, m);
        assert Filtered(s, m) == [h] + f;
        assert ([h] + f)[0] == h && ([h] + f)[1..] == f;
        if h == x {
          assert m + multiset{x} - multiset{h} == m;
          assert RemoveFirst([h] + f, x) == f;
        } else {
          assert RemoveFirst([h] + f, x) == [h] + RemoveFirst(f, x);
          FilteredRemoveFirst(t, m, x);
        }
      }
    }
  }

  /** Each value keeps exactly the occurrences that the removals did not reach. */
  lemma {:induction false} FilteredCount<T>(s: seq<T>, m: multiset<T>, v: T)
    ensures multiset(Filtered(s, m))[v] == if multiset(s)[v] <= m[v] then 0 else multiset(s)[v] - m[v]
  {
    if s != [] {
      assert s == [s[0]] + s[1..];
      if s[0] in m {
        FilteredCount(s[1..], m - multiset{s[0]}, v);
      } else {
        FilteredCount(s[1..], m, v);
      }
    }
  }

  /** A list none of whose elements is to be removed comes back unchanged, order included. */
  lemma {:induction false} FilteredDisjoint<T>(s: seq<T>, m: multiset<T>)
    requires forall i :: 0 <= i < |s| ==> s[i] !in m
    ensures Filtered(s, m) == s
  {
    if s != [] {
      FilteredDisjoint(s[1..], m);
    }
  }

  /** The elements of s that are not in m, in their order in s. */
  function Kept<T(==)>(s: seq<T>, m: multiset<T>): (r: seq<T>)
    ensures forall i :: 0 <= i < |r| ==> r[i] !in m
    ensures |r| <= |s|
  {
    if s == [] then []
    else (if s[0] in m then [] else [s[0]]) + Kept(s[1..], m)
  }

  /** Removals drawn only from m never touch an element outside m: the filtered list
      holds the elements outside m that s holds, in the same order. */
  lemma {:induction false} FilteredKeepsOthers<T>(s: seq<T>, m': multiset<T>, m: multiset<T>)
    requires forall x :: x in m' ==> x in m
    ensures Kept(Filtered(s, m'), m) == Kept(s, m)
  {
    if s != [] {
      var h, t := s[0], s[1..];
      if h in m' {
        FilteredKeepsOthers(t, m' - multiset{h}, m);
      } else {
        var f := Filtered(t, m');
        assert Filtered(s, m') == [h] + f;
        assert ([h] + f)[0] == h && ([h] + f)[1..] == f;
        FilteredKeepsOthers(t, m', m);
      }
    }
  }

  /** A set of integers with no element is the empty set. */
  lemma NoneMeansEmpty(s: set<int>)
    requires forall x :: x !in s
    ensures s == {}
  {
    assert forall x :: x in s <==> x in {};
  }

  /** A non-empty set of integers has an element to pick. */
  lemma NonEmptyHasElement(s: set<int>)
    requires s != {}
    ensures exists x :: x in s
  {
    if forall x :: x !in s {
      NoneMeansEmpty(s);
      assert false;
    }
  }
}
