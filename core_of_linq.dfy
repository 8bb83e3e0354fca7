/**
 * The hand-written filters of CoreOfLINQ (ExtensionFunctional.cs, repeated in
 * Program.cs) and the deferred-versus-immediate example built on them.
 *
 * A `foreach ... yield return` filter does no work when it is called: it keeps
 * a reference to its source and filters whatever the source holds when it is
 * enumerated. `Deferred` is such a suspended filter and `Pull` enumerates it.
 * `FilterIntNewList` instead copies the matching elements into a new list at
 * call time.
 */
module CoreOfLinq {
  import Linq
  import Collections
  import Records

  /** A filter that has been called but not yet enumerated: it holds the list itself, not a copy. */
  datatype Deferred<!T(==,!new)> = Deferred(source: Collections.List<T>, keep: T -> bool)

  /** Enumerating a deferred filter: the elements that pass, taken from the source as it is now. */
  function Pull<T(==,!new)>(d: Deferred<T>): (r: seq<T>)
    reads d.source
    ensures forall x :: x in r <==> x in d.source.items && d.keep(x)
  {
    Linq.WhereMembers(d.source.items, d.keep);
    Linq.Where(d.source.items, d.keep)
  }

  /** ExtensionFunctional.Filter: every employee for which `keep` holds, once per occurrence, pulled in source order. */
  function Filter(source: seq<Records.Employee>, keep: Records.Employee -> bool): (r: seq<Records.Employee>)
    ensures forall e :: e in r <==> e in source && keep(e)
    ensures Linq.IsSubsequence(r, source)
    ensures Linq.Selects(r, source, keep)
  {
    Linq.WhereMembers(source, keep);
    Linq.WhereIsSubsequence(source, keep);
    Linq.WhereSelects(source, keep);
    Linq.Where(source, keep)
  }

  /** A predicate that holds for every employee keeps the whole source, in its order. */
  lemma FilterAllTrue(source: seq<Records.Employee>, keep: Records.Employee -> bool)
    requires forall e :: keep(e)
    ensures Filter(source, keep) == source
  {
    Linq.WhereAllTrue(source, keep);
  }

  /** ExtensionFunctional.FilterIntYield: nothing is read from `source` until the result is pulled. */
  function FilterIntYield(source: Collections.List<int>, keep: int -> bool): (r: Deferred<int>)
    reads source
    ensures r.source == source
    ensures Pull(r) == Linq.Where(source.items, keep)
  {
    Deferred(source, keep)
  }

  /**
   * ExtensionFunctional.FilterIntNewList: walks the source once and appends
   * every element that passes to a fresh list, which is returned.
   */
  method FilterIntNewList(source: seq<int>, keep: int -> bool) returns (res: seq<int>)
    ensures res == Linq.Where(source, keep)
  {
    res := [];
    for i := 0 to |source|
      invariant res == Linq.Where(source[..i], keep)
    {
      assert source[..i + 1] == source[..i] + [source[i]];
      Linq.WhereAppend(source[..i], [source[i]], keep);
      if keep(source[i]) {
        res := res + [source[i]];
      }
    }
    assert source[..|source|] == source;
  }

  /** Pulling after an `Add` sees the new element at the end, if it passes. */
  lemma PullAfterAdd(before: seq<int>, x: int, keep: int -> bool)
    ensures Linq.Where(before + [x], keep) == Linq.Where(before, keep) + if keep(x) then [x] else []
  {
    Linq.WhereAppend(before, [x], keep);
  }

  /**
   * Pulling after a `Remove` no longer sees the removed element: removing the
   * first occurrence of `x` from the source removes the first occurrence of
   * `x` from the filtered result, when `x` passes, and changes nothing otherwise.
   */
  lemma {:induction false} PullAfterRemove(before: seq<int>, x: int, keep: int -> bool)
    ensures Linq.Where(Collections.RemoveFirst(before, x), keep)
         == if keep(x) then Collections.RemoveFirst(Linq.Where(before, keep), x) else Linq.Where(before, keep)
  {
    if before != [] {
      var y, rest := before[0], before[1..];
      assert before == [y] + rest;
      PullAfterRemove(rest, x, keep);
      if y == x {
        RemovedAtHead(x, rest, keep);
      } else {
        RemovedBehindHead(y, rest, x, keep);
      }
    }
  }

  /** The removed element is the head of the source. */
  lemma RemovedAtHead(x: int, rest: seq<int>, keep: int -> bool)
    ensures Linq.Where(Collections.RemoveFirst([x] + rest, x), keep)
         == if keep(x) then Collections.RemoveFirst(Linq.Where([x] + rest, keep), x) else Linq.Where([x] + rest, keep)
  {
    RemoveFirstHead(x, rest);
    WhereCons(x, rest, keep);
    if keep(x) {
      RemoveFirstHead(x, Linq.Where(rest, keep));
    }
  }

  /** The head of the source is kept in place; the removal happens in the rest. */
  lemma RemovedBehindHead(y: int, rest: seq<int>, x: int, keep: int -> bool)
    requires y != x
    requires Linq.Where(Collections.RemoveFirst(rest, x), keep)
          == if keep(x) then Collections.RemoveFirst(Linq.Where(rest, keep), x) else Linq.Where(rest, keep)
    ensures Linq.Where(Collections.RemoveFirst([y] + rest, x), keep)
         == if keep(x) then Collections.RemoveFirst(Linq.Where([y] + rest, keep), x) else Linq.Where([y] + rest, keep)
  {
    RemoveFirstCons(y, rest, x);
    WhereCons(y, Collections.RemoveFirst(rest, x), keep);
    WhereCons(y, rest, keep);
    if keep(y) {
      RemoveFirstCons(y, Linq.Where(rest, keep), x);
    }
  }

  lemma WhereCons(y: int, rest: seq<int>, keep: int -> bool)
    ensures Linq.Where([y] + rest, keep) == (if keep(y) then [y] else []) + Linq.Where(rest, keep)
  {
    assert ([y] + rest)[1..] == rest;
  }

  lemma RemoveFirstHead(x: int, rest: seq<int>)
    ensures Collections.RemoveFirst([x] + rest, x) == rest
  {
    assert Collections.IndexOf([x] + rest, x) == 0;
  }

  lemma RemoveFirstCons(y: int, rest: seq<int>, x: int)
    requires y != x
    ensures Collections.RemoveFirst([y] + rest, x) == [y] + Collections.RemoveFirst(rest, x)
  {
    var s := [y] + rest;
    if x in rest {
      var k := Collections.IndexOf(rest, x);
      assert Collections.IndexOf(s, x) == k + 1 by {
        assert s[0] != x && s[1..] == rest;
      }
      calc {
        Collections.RemoveFirst(s, x);
        s[..k + 1] + s[k + 2..];
        { assert s[..k + 1] == [y] + rest[..k] && s[k + 2..] == rest[k + 1..]; }
        [y] + (rest[..k] + rest[k + 1..]);
      }
    } else {
      assert x !in s;
    }
  }

  predicate IsEven(n: int) {
    n % 2 == 0
  }

  /** One step of a pull: the element at `k` passes or not, then the rest is filtered. */
  lemma WhereStep(s: seq<int>, k: nat, keep: int -> bool)
    requires k < |s|
    ensures Linq.Where(s[k..], keep) == (if keep(s[k]) then [s[k]] else []) + Linq.Where(s[k + 1..], keep)
  {
    assert s[k..][1..] == s[k + 1..];
  }

  /** The even numbers among 1..9, taken at call time. */
  lemma EvenOfOneToNine(s: seq<int>)
    requires s == [1, 2, 3, 4, 5, 6, 7, 8, 9]
    ensures Linq.Where(s, IsEven) == [2, 4, 6, 8]
  {
    var front, back := s[..5], s[5..];
    assert s == front + back;
    EvenOfOneToFive(front);
    EvenOfSixToNine(back);
    Linq.WhereAppend(front, back, IsEven);
  }

  lemma EvenOfOneToFive(s: seq<int>)
    requires s == [1, 2, 3, 4, 5]
    ensures Linq.Where(s, IsEven) == [2, 4]
  {
    WhereStep(s, 0, IsEven); WhereStep(s, 1, IsEven); WhereStep(s, 2, IsEven);
    WhereStep(s, 3, IsEven); WhereStep(s, 4, IsEven);
    assert s[0..] == s && s[5..] == [];
  }

  lemma EvenOfSixToNine(s: seq<int>)
    requires s == [6, 7, 8, 9]
    ensures Linq.Where(s, IsEven) == [6, 8]
  {
    WhereStep(s, 0, IsEven); WhereStep(s, 1, IsEven); WhereStep(s, 2, IsEven);
    WhereStep(s, 3, IsEven);
    assert s[0..] == s && s[4..] == [];
  }

  /** The even numbers of the list after adding 10 and 12 and removing 4. */
  lemma EvenAfterChanges(s: seq<int>)
    requires s == [1, 2, 3, 5, 6, 7, 8, 9, 10, 12]
    ensures Linq.Where(s, IsEven) == [2, 6, 8, 10, 12]
  {
    var front, back := s[..5], s[5..];
    assert s == front + back;
    EvenOfFront(front);
    EvenOfBack(back);
    Linq.WhereAppend(front, back, IsEven);
  }

  lemma EvenOfFront(s: seq<int>)
    requires s == [1, 2, 3, 5, 6]
    ensures Linq.Where(s, IsEven) == [2, 6]
  {
    WhereStep(s, 0, IsEven); WhereStep(s, 1, IsEven); WhereStep(s, 2, IsEven);
    WhereStep(s, 3, IsEven); WhereStep(s, 4, IsEven);
    assert s[0..] == s && s[5..] == [];
  }

  lemma EvenOfBack(s: seq<int>)
    requires s == [7, 8, 9, 10, 12]
    ensures Linq.Where(s, IsEven) == [8, 10, 12]
  {
    WhereStep(s, 0, IsEven); WhereStep(s, 1, IsEven); WhereStep(s, 2, IsEven);
    WhereStep(s, 3, IsEven); WhereStep(s, 4, IsEven);
    assert s[0..] == s && s[5..] == [];
  }

  lemma RemoveFourExample(s: seq<int>)
    requires s == [1, 2, 3, 4, 5, 6, 7, 8, 9, 10, 12]
    ensures Collections.RemoveFirst(s, 4) == [1, 2, 3, 5, 6, 7, 8, 9, 10, 12]
  {
    assert s[3] == 4 && 4 !in s[..3];
    assert Collections.IndexOf(s, 4) == 3;
    assert s[..3] + s[4..] == [1, 2, 3, 5, 6, 7, 8, 9, 10, 12];
  }

  /** Example02.main, lines 24-26: the changes made to the list after the three filters were called. */
  method AddTwoRemoveFour(numbers: Collections.List<int>)
    modifies numbers
    requires numbers.items == [1, 2, 3, 4, 5, 6, 7, 8, 9]
    ensures numbers.items == [1, 2, 3, 5, 6, 7, 8, 9, 10, 12]
  {
    numbers.Add(10);
    numbers.Add(12);
    ghost var grown := numbers.items;
    assert grown == [1, 2, 3, 4, 5, 6, 7, 8, 9, 10, 12];
    RemoveFourExample(grown);
    var _ := numbers.Remove(4);
  }

  /**
   * Example02.main: filters 1..9 for even numbers three ways, then adds 10 and
   * 12 and removes 4 before enumerating. The deferred filters see the changes;
   * the eager one was fixed at call time.
   */
  method DeferredVersusImmediate() returns (evenNums: seq<int>, evenNumsFilterIntYield: seq<int>, evenNumsFilterIntNewList: seq<int>)
    ensures evenNums == [2, 6, 8, 10, 12]
    ensures evenNumsFilterIntYield == [2, 6, 8, 10, 12]
    ensures evenNumsFilterIntNewList == [2, 4, 6, 8]
  {
    var numbers := new Collections.List<int>.FromSeq([1, 2, 3, 4, 5, 6, 7, 8, 9]);
    var whereQuery := Deferred(numbers, IsEven);
    var yieldQuery := FilterIntYield(numbers, IsEven);
    evenNumsFilterIntNewList := FilterIntNewList(numbers.items, IsEven);
    EvenOfOneToNine(numbers.items);
    AddTwoRemoveFour(numbers);
    EvenAfterChanges(numbers.items);
    evenNums := Pull(whereQuery);
    evenNumsFilterIntYield := Pull(yieldQuery);
  }
}
