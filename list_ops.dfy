/** What `java.util.List` does to a member list when `Member.changeTeam` calls
    `remove(Object)` and `add(Object)` on it, stated over sequences.
    `remove` deletes the FIRST element equal to its argument and reports whether
    it found one; `add` appends. Equality here is Dafny equality, which on
    class instances is reference identity, as Java's `Object.equals` is for a
    class that does not override it. */
module ListOps {

  /** Position of the first occurrence of `x` in `s`. */
  function FirstIndex<T(==)>(s: seq<T>, x: T): (i: nat)
    requires x in s
    ensures i < |s| && s[i] == x
    ensures forall j :: 0 <= j < i ==> s[j] != x
  {
    if s[0] == x then 0 else 1 + FirstIndex(s[1..], x)
  }

  /** The list after `remove(x)`: the first occurrence of `x` is gone; a list
      without `x` is left as it is. */
  function RemoveFirst<T(==)>(s: seq<T>, x: T): (r: seq<T>)
    ensures x in s ==> |r| == |s| - 1
    ensures x !in s ==> r == s
  {
    if s == [] then []
    else if s[0] == x then s[1..]
    else [s[0]] + RemoveFirst(s[1..], x)
  }

  /** Removing deletes exactly the element at the first index of `x`; all
      other elements keep their relative order. */
  lemma {:induction false} RemoveFirstAtFirstIndex<T>(s: seq<T>, x: T)
    requires x in s
    ensures RemoveFirst(s, x) == s[..FirstIndex(s, x)] + s[FirstIndex(s, x) + 1..]
  {
    if s[0] != x {
      var t := s[1..];
      RemoveFirstAtFirstIndex(t, x);
      var i := FirstIndex(t, x);
      assert s[..i + 1] == [s[0]] + t[..i];
      assert s[i + 2..] == t[i + 1..];
    }
  }

  /** Removing takes exactly one copy of `x` out of the list, when there is
      one, and changes the number of copies of no other element. */
  lemma {:induction false} RemoveFirstMultiset<T>(s: seq<T>, x: T)
    ensures multiset(RemoveFirst(s, x)) == multiset(s) - multiset{x}
  {
    if s != [] {
      assert s == [s[0]] + s[1..];
      if s[0] != x {
        RemoveFirstMultiset(s[1..], x);
      }
    }
  }

  /** Remove followed by re-append of an element present exactly once (what
      `changeTeam` does when the new team is the current one): the list keeps
      its length and its elements, the element moves to the end, and the
      other elements keep their relative order. */
  lemma MoveToEnd<T>(s: seq<T>, x: T)
    requires multiset(s)[x] == 1
    ensures var r := RemoveFirst(s, x) + [x];
      && |r| == |s|
      && r[|r| - 1] == x
      && multiset(r) == multiset(s)
      && x !in r[..|r| - 1]
      && r[..|r| - 1] == s[..FirstIndex(s, x)] + s[FirstIndex(s, x) + 1..]
  {
    RemoveFirstMultiset(s, x);
    RemoveFirstAtFirstIndex(s, x);
    var r := RemoveFirst(s, x) + [x];
    assert r[..|r| - 1] == RemoveFirst(s, x);
    assert multiset(RemoveFirst(s, x))[x] == 0;
  }
}
