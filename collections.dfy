/** System.Collections.Generic.List<T>, as far as the modelled code uses it. */
module Collections {

  /** The position of the first occurrence of `x` in `s`. */
  function IndexOf<T(==)>(s: seq<T>, x: T): (k: nat)
    requires x in s
    ensures k < |s| && s[k] == x && x !in s[..k]
  {
    if s[0] == x then 0
    else
      assert x in s[1..];
      1 + IndexOf(s[1..], x)
  }

  /** `s` with the first occurrence of `x` taken out, if there is one (List.Remove). */
  function RemoveFirst<T(==)>(s: seq<T>, x: T): (r: seq<T>)
    ensures |r| == if x in s then |s| - 1 else |s|
  {
    if x in s then
      var k := IndexOf(s, x);
      s[..k] + s[k + 1..]
    else
      s
  }

  /** Removing takes out exactly one occurrence of `x`, if there is one, and keeps every other element. */
  lemma RemoveFirstRemovesOne<T>(s: seq<T>, x: T)
    ensures multiset(RemoveFirst(s, x)) == multiset(s) - multiset{x}
  {
    if x in s {
      var k := IndexOf(s, x);
      assert s == s[..k] + [x] + s[k + 1..];
    }
  }

  /** A growable list whose contents other code may observe later. */
  class List<T(==)> {
    var items: seq<T>

    /** `new List<T> { ... }` and the copy constructor `new List<T>(other)`. */
    constructor FromSeq(s: seq<T>)
      ensures items == s
    {
      items := s;
    }

    /** List.Add: appends at the end. */
    method Add(x: T)
      modifies this
      ensures items == old(items) + [x]
    {
      items := items + [x];
    }

    /** List.Remove: removes the first occurrence, reporting whether there was one. */
    method Remove(x: T) returns (removed: bool)
      modifies this
      ensures removed == (x in old(items))
      ensures items == RemoveFirst(old(items), x)
    {
      removed := x in items;
      items := RemoveFirst(items, x);
    }
  }
}
