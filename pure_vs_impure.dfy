/**
 * PureVSImpureFunctions/PureVsImpureFunctions.cs: three impure helpers that
 * append to a shared list (the static field `ints`) and one pure helper that
 * returns a copy with the new element and leaves its argument alone.
 *
 * The static field becomes a `const` reference to a `Collections.List<int>`
 * held by a `PureVsImpureFunctions` object, so a method that changes the
 * shared list says so in its `modifies` clause. `Random.Next()` becomes a
 * parameter holding the number it returned.
 */
module PureVsImpure {
  import Int32
  import Collections

  /** `Random.Next()`: a non-negative `int` strictly below `int.MaxValue`. */
  predicate IsRandomNext(x: int) {
    0 <= x < Int32.MaxValue
  }

  /** AddInteger4: the argument followed by `num`, as a fresh value. */
  function Appended(ints: seq<int>, num: int): (r: seq<int>)
    ensures |r| == |ints| + 1
    ensures r[..|ints|] == ints && r[|ints|] == num
  {
    ints + [num]
  }

  class PureVsImpureFunctions {
    /** The shared list; every impure helper appends to it. */
    const ints: Collections.List<int>

    /** The static initialiser: `ints` starts as 1 to 9. */
    constructor ()
      ensures fresh(ints)
      ensures ints.items == [1, 2, 3, 4, 5, 6, 7, 8, 9]
    {
      ints := new Collections.List<int>.FromSeq([1, 2, 3, 4, 5, 6, 7, 8, 9]);
    }

    /** AddInteger1: appends `num` to the shared list; nothing already there changes. */
    method AddInteger1(num: int)
      modifies ints
      ensures ints.items == old(ints.items) + [num]
    {
      ints.Add(num);
    }

    /**
     * AddInteger2(ref num): increments the caller's variable (32-bit, so
     * `int.MaxValue` wraps to `int.MinValue`) and appends the new value.
     * `numAfter` is the caller's variable after the call.
     */
    method AddInteger2(num: int) returns (numAfter: int)
      requires Int32.InRange(num)
      modifies ints
      ensures numAfter == Int32.Wrap(num + 1)
      ensures num < Int32.MaxValue ==> numAfter == num + 1
      ensures ints.items == old(ints.items) + [numAfter]
    {
      numAfter := Int32.Wrap(num + 1);
      ints.Add(numAfter);
    }

    /** AddInteger3: appends one number drawn by `Random.Next()`, passed in here as `next`. */
    method AddInteger3(next: int)
      requires IsRandomNext(next)
      modifies ints
      ensures ints.items == old(ints.items) + [next]
    {
      ints.Add(next);
    }

    /**
     * AddInteger4: copies `list` into a new list, appends `num` to the copy and
     * returns it. It modifies nothing, so the argument (here typically the
     * shared list) keeps its contents.
     */
    static method AddInteger4(list: Collections.List<int>, num: int) returns (res: Collections.List<int>)
      ensures fresh(res)
      ensures res.items == Appended(list.items, num)
      ensures list.items == old(list.items)
    {
      res := new Collections.List<int>.FromSeq(list.items);
      res.Add(num);
    }
  }

  /**
   * PureVsImpureFunctions.main without its printing: after AddInteger1(10),
   * AddInteger2(ref n) with n = 10, AddInteger3() and AddInteger4(ints, 12),
   * `n` is 11, the shared list has grown by 10, 11 and the random number, and
   * only the copy holds 12.
   */
  method RunMain(next: int) returns (n: int, shared: seq<int>, copy: seq<int>)
    requires IsRandomNext(next)
    ensures n == 11
    ensures shared == [1, 2, 3, 4, 5, 6, 7, 8, 9, 10, 11, next]
    ensures copy == shared + [12]
  {
    var program := new PureVsImpureFunctions();
    program.AddInteger1(10);
    n := 10;
    n := program.AddInteger2(n);
    program.AddInteger3(next);
    var res := PureVsImpureFunctions.AddInteger4(program.ints, 12);
    shared := program.ints.items;
    copy := res.items;
  }
}
