/**
 * The `Paginante` extension methods of CustomLINQExtensionMethod/Extensions.cs:
 * `Skip((page - 1) * pagesSize).Take(pagesSize)` with no normalisation of the
 * arguments, and an overload that filters with a predicate first. Both the
 * subtraction and the product are C# `int` arithmetic, which wraps around.
 */
module CustomLinqExtensions {
  import Int32
  import Linq
  import DataPartitioning

  /** Neither `page - 1` nor `(page - 1) * pagesSize` leaves the `int` range. */
  predicate NoOverflow(page: int, pagesSize: int) {
    Int32.InRange(page - 1) && Int32.InRange((page - 1) * pagesSize)
  }

  /**
   * Extensions.Paginante(source, page, pagesSize). A non-positive skip count
   * skips nothing and a non-positive page size takes nothing.
   */
  function Paginante<T>(source: seq<T>, page: int, pagesSize: int): (r: seq<T>)
    requires Int32.InRange(page) && Int32.InRange(pagesSize)
    ensures pagesSize <= 0 ==> r == []
    ensures pagesSize > 0 ==> |r| <= pagesSize
    ensures NoOverflow(page, pagesSize) && pagesSize >= 0 ==>
              r == DataPartitioning.Slice(source, if page >= 1 then (page - 1) * pagesSize else 0, pagesSize)
  {
    PageOfStart(source, page, pagesSize);
    Linq.Take(Linq.Skip(source, Int32.Wrap(Int32.Wrap(page - 1) * pagesSize)), pagesSize)
  }

  lemma PageOfStart<T>(source: seq<T>, page: int, pagesSize: int)
    ensures pagesSize <= 0 ==> Linq.Take(Linq.Skip(source, Int32.Wrap(Int32.Wrap(page - 1) * pagesSize)), pagesSize) == []
    ensures NoOverflow(page, pagesSize) && pagesSize >= 0 ==>
              Linq.Take(Linq.Skip(source, Int32.Wrap(Int32.Wrap(page - 1) * pagesSize)), pagesSize)
              == DataPartitioning.Slice(source, if page >= 1 then (page - 1) * pagesSize else 0, pagesSize)
  {
    if NoOverflow(page, pagesSize) && pagesSize >= 0 {
      var start := (page - 1) * pagesSize;
      assert Int32.Wrap(Int32.Wrap(page - 1) * pagesSize) == start;
      if page >= 1 {
        DataPartitioning.MulNonNegative(page - 1, pagesSize);
        DataPartitioning.SkipTakeIsSlice(source, start, pagesSize);
      } else {
        assert start <= 0;
        assert Linq.Skip(source, start) == source;
        DataPartitioning.SkipTakeIsSlice(source, 0, pagesSize);
      }
    }
  }

  /** With the default arguments (page 1, size 10) the result is the first ten elements, or all of them if fewer. */
  lemma DefaultArguments<T>(source: seq<T>)
    ensures Paginante(source, 1, 10) == source[..DataPartitioning.Min(10, |source|)]
  {
  }

  /**
   * Nothing normalises the page number, but a non-positive page gives a
   * non-positive skip count, which skips nothing: page 0 is page 1.
   */
  lemma NonPositivePageIsFirstPage<T>(source: seq<T>, page: int, pagesSize: int)
    requires Int32.InRange(page) && Int32.InRange(pagesSize)
    requires page <= 0 && pagesSize >= 0 && NoOverflow(page, pagesSize)
    ensures Paginante(source, page, pagesSize) == Paginante(source, 1, pagesSize)
  {
  }

  /**
   * Extensions.Paginante(source, predict, page, pagesSize): a page of the
   * elements that satisfy `predict`.
   */
  function PaginanteWhere<T(!new)>(source: seq<T>, predict: T -> bool, page: int, pagesSize: int): (r: seq<T>)
    requires Int32.InRange(page) && Int32.InRange(pagesSize)
    ensures forall i :: 0 <= i < |r| ==> r[i] in source && predict(r[i])
    ensures pagesSize <= 0 ==> r == []
    ensures pagesSize > 0 ==> |r| <= pagesSize
  {
    var res := Linq.Where(source, predict);
    Linq.WhereMembers(source, predict);
    Paginante(res, page, pagesSize)
  }

  /** The filtered overload is a page of the filtered sequence, in source order. */
  lemma PaginanteWhereIsPageOfFiltered<T(!new)>(source: seq<T>, predict: T -> bool, page: int, pagesSize: int)
    requires Int32.InRange(page) && Int32.InRange(pagesSize) && NoOverflow(page, pagesSize) && pagesSize >= 0
    ensures PaginanteWhere(source, predict, page, pagesSize)
         == DataPartitioning.Slice(Linq.Where(source, predict), if page >= 1 then (page - 1) * pagesSize else 0, pagesSize)
  {
  }
}
