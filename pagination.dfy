/**
 * The pagination helpers of DataPartitioning/ExtensionPagination.cs: a page
 * number and a page size are first normalised (page 1 and size 10 stand in for
 * non-positive values), then the page is `Skip((page - 1) * size).Take(size)`.
 * The product is C# `int` arithmetic, which wraps around on overflow.
 */
module DataPartitioning {
  import opened Wrappers
  import Int32
  import Linq

  /** The page number actually used: a non-positive page means page 1. */
  function EffectivePage(page: int): (p: int)
    ensures p >= 1
    ensures page >= 1 ==> p == page
  {
    if page <= 0 then 1 else page
  }

  /** The page size actually used: a non-positive size means 10. */
  function EffectiveSize(size: int): (z: int)
    ensures z >= 1
    ensures size >= 1 ==> z == size
  {
    if size <= 0 then 10 else size
  }

  /** The run of at most `count` elements of `s` from index `start`, clipped to the end of `s`. */
  function Slice<T>(s: seq<T>, start: nat, count: nat): seq<T> {
    if start >= |s| then [] else s[start..if start + count <= |s| then start + count else |s|]
  }

  /** The index of the first element of the page fits in an `int`. */
  predicate NoOverflow(page: int, size: int) {
    Int32.InRange((EffectivePage(page) - 1) * EffectiveSize(size))
  }

  /**
   * ExtensionPagination.Paginate, as written: the skip count
   * `(page - 1) * size` is computed in 32-bit arithmetic.
   */
  function Paginate<T>(source: seq<T>, page: int, size: int): (r: seq<T>)
    requires Int32.InRange(page) && Int32.InRange(size)
    ensures |r| <= EffectiveSize(size)
    ensures NoOverflow(page, size) ==>
              r == Slice(source, (EffectivePage(page) - 1) * EffectiveSize(size), EffectiveSize(size))
  {
    var page := if page <= 0 then 1 else page;
    var size := if size <= 0 then 10 else size;
    PageOfWrappedStart(source, (page - 1) * size, size);
    Linq.Take(Linq.Skip(source, Int32.Wrap((page - 1) * size)), size)
  }

  /** Skip of the 32-bit start, then Take: the slice from the start when it fits in an `int`. */
  lemma PageOfWrappedStart<T>(source: seq<T>, start: int, size: int)
    requires start >= 0 && size >= 1
    ensures |Linq.Take(Linq.Skip(source, Int32.Wrap(start)), size)| <= size
    ensures Int32.InRange(start) ==> Linq.Take(Linq.Skip(source, Int32.Wrap(start)), size) == Slice(source, start, size)
  {
    if Int32.InRange(start) {
      SkipTakeIsSlice(source, start, size);
    }
  }

  /** The exception `Paginate2` can throw. */
  datatype Error = OverflowException  // Enumerable.Count() of more than int.MaxValue elements

  /**
   * ExtensionPagination.Paginate2: the same page as `Paginate`, after also
   * counting the source and the number of pages, which are never read. The
   * count is an `int`, so a source longer than `int.MaxValue` throws.
   */
  function Paginate2<T>(source: seq<T>, page: int, size: int): (r: Result<seq<T>, Error>)
    requires Int32.InRange(page) && Int32.InRange(size)
    ensures r.Failure? <==> |source| > Int32.MaxValue
    ensures r.Success? ==> |r.value| <= EffectiveSize(size)
    ensures r.Success? && NoOverflow(page, size) ==>
              r.value == Slice(source, (EffectivePage(page) - 1) * EffectiveSize(size), EffectiveSize(size))
  {
    var page := if page <= 0 then 1 else page;
    var size := if size <= 0 then 10 else size;
    if |source| > Int32.MaxValue then Failure(OverflowException)
    else
      var total := |source|;
      var pages := (total + size - 1) / size;
      PageOfWrappedStart(source, (page - 1) * size, size);
      var result := Linq.Take(Linq.Skip(source, Int32.Wrap((page - 1) * size)), size);
      Success(result)
  }

  /** `Paginate2` returns the page `Paginate` returns whenever the source can be counted, and throws otherwise. */
  lemma Paginate2SameAsPaginate<T>(source: seq<T>, page: int, size: int)
    requires Int32.InRange(page) && Int32.InRange(size)
    ensures |source| <= Int32.MaxValue ==> Paginate2(source, page, size) == Success(Paginate(source, page, size))
    ensures |source| > Int32.MaxValue ==> Paginate2(source, page, size) == Failure(OverflowException)
  {
  }

  /** The slice from `start` of a non-negative length is what Skip then Take yield. */
  lemma SkipTakeIsSlice<T>(s: seq<T>, start: int, count: int)
    requires 0 <= start && 0 <= count
    ensures Linq.Take(Linq.Skip(s, start), count) == Slice(s, start, count)
  {
    Linq.SkipTakeSlice(s, start, count);
  }

  /**
   * Paginate with the skip count computed without overflow: the page is always
   * the slice from `(page - 1) * size`.
   */
  function PaginateUnbounded<T>(source: seq<T>, page: int, size: int): (r: seq<T>)
    ensures r == Slice(source, (EffectivePage(page) - 1) * EffectiveSize(size), EffectiveSize(size))
  {
    var page := if page <= 0 then 1 else page;
    var size := if size <= 0 then 10 else size;
    SkipTakeIsSlice(source, (page - 1) * size, size);
    Linq.Take(Linq.Skip(source, (page - 1) * size), size)
  }

  /** Where nothing overflows, the page as written is the page intended. */
  lemma PaginateAgreesWhenNoOverflow<T>(source: seq<T>, page: int, size: int)
    requires Int32.InRange(page) && Int32.InRange(size) && NoOverflow(page, size)
    ensures Paginate(source, page, size) == PaginateUnbounded(source, page, size)
  {
  }

  /**
   * Page 65536 of size 65536 starts at index 4294901760, which wraps around to
   * -65536: a negative skip skips nothing, so the first page comes back instead
   * of an empty one.
   */
  lemma OverflowReturnsFirstPage<T>(source: seq<T>)
    requires 0 < |source| <= 0xFFFF_0000
    ensures Paginate(source, 0x1_0000, 0x1_0000) == Paginate(source, 1, 0x1_0000) != []
    ensures PaginateUnbounded(source, 0x1_0000, 0x1_0000) == []
  {
    assert Int32.Wrap(0xFFFF * 0x1_0000) == -0x1_0000;
    assert Linq.Skip(source, -0x1_0000) == source;
  }

  /** A non-positive page number gives page 1. */
  lemma NonPositivePageIsFirstPage<T>(source: seq<T>, page: int, size: int)
    requires Int32.InRange(page) && Int32.InRange(size) && page <= 0
    ensures Paginate(source, page, size) == Paginate(source, 1, size)
  {
  }

  /** A non-positive page size gives pages of 10. */
  lemma NonPositiveSizeIsTen<T>(source: seq<T>, page: int, size: int)
    requires Int32.InRange(page) && Int32.InRange(size) && size <= 0
    ensures Paginate(source, page, size) == Paginate(source, page, 10)
  {
  }

  /** A page that starts at or after the end of the source is empty. */
  lemma PagePastTheEndIsEmpty<T>(source: seq<T>, page: int, size: int)
    requires Int32.InRange(page) && Int32.InRange(size) && NoOverflow(page, size)
    requires (EffectivePage(page) - 1) * EffectiveSize(size) >= |source|
    ensures Paginate(source, page, size) == []
  {
  }

  /** Pages 1 to `k` of size `size`, one after another. */
  function FirstPages<T>(source: seq<T>, size: int, k: nat): seq<T>
    requires 1 <= size <= Int32.MaxValue && k <= Int32.MaxValue
  {
    if k == 0 then [] else FirstPages(source, size, k - 1) + Paginate(source, k, size)
  }

  /** Reading pages 1 to `k` in turn reads the first `k * size` elements, and nothing is skipped or repeated. */
  lemma {:induction false} FirstPagesArePrefix<T>(source: seq<T>, size: int, k: nat)
    requires 1 <= size <= Int32.MaxValue && k <= Int32.MaxValue
    requires k == 0 || Int32.InRange((k - 1) * size)
    ensures FirstPages(source, size, k) == source[..Min(k * size, |source|)]
  {
    if k > 0 {
      var start := (k - 1) * size;
      assert 0 <= start && k * size == start + size by {
        MulSucc(k - 1, size);
        MulNonNegative(k - 1, size);
      }
      assert FirstPages(source, size, k - 1) == source[..Min(start, |source|)] by {
        if k > 1 {
          PreviousStartInRange(k, size);
        }
        FirstPagesArePrefix(source, size, k - 1);
      }
      assert Paginate(source, k, size) == Slice(source, start, size) by {
        PageIsSlice(source, k, size);
      }
      PrefixThenSlice(source, start, size);
    }
  }

  /** Page `k` starts `k - 1` pages in: when that start fits in an `int`, so does the one before it. */
  lemma PreviousStartInRange(k: int, size: int)
    requires k >= 2 && size >= 1 && Int32.InRange((k - 1) * size)
    ensures Int32.InRange((k - 2) * size)
  {
    MulSucc(k - 2, size);
    MulNonNegative(k - 2, size);
  }

  /** Page `k >= 1` of a positive size whose start fits in an `int` is the slice from that start. */
  lemma PageIsSlice<T>(source: seq<T>, k: int, size: int)
    requires 1 <= k <= Int32.MaxValue && 1 <= size <= Int32.MaxValue
    requires Int32.InRange((k - 1) * size)
    ensures Paginate(source, k, size) == Slice(source, (k - 1) * size, size)
  {
    assert NoOverflow(k, size);
  }

  function Min(a: int, b: int): int {
    if a <= b then a else b
  }

  lemma MulSucc(a: int, b: int)
    ensures (a + 1) * b == a * b + b
  {
  }

  lemma MulNonNegative(a: int, b: int)
    requires a >= 0 && b >= 0
    ensures a * b >= 0
  {
  }

  lemma PrefixThenSlice<T>(s: seq<T>, start: nat, count: nat)
    ensures s[..Min(start, |s|)] + Slice(s, start, count) == s[..Min(start + count, |s|)]
  {
    if start < |s| {
      var stop := Min(start + count, |s|);
      assert s[..start] + s[start..stop] == s[..stop];
    }
  }
}
