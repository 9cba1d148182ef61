/** The package lister: read the total page count, then walk pages 1..N in order and collect
    every package id, keeping repeats. */
module Lister {
  import opened Wrappers
  import opened Seqs
  import opened Registry

  /** The responses for pages 1..n, in page order; none when n <= 0, as `range(1, n + 1)`. */
  function PageRange(p: Project, n: int): seq<seq<PackageId>>
  {
    seq(if n <= 0 then 0 else n, i => p.page(i + 1))
  }

  /** The number of ids on pages 1..n, counted page by page. */
  function PageCountSum(p: Project, n: int): nat
  {
    if n <= 0 then 0 else PageCountSum(p, n - 1) + |p.page(n)|
  }

  /** What the lister returns: the pagination header's failure, or the concatenation of the
      pages 1..N it announces. */
  function ListedIds(p: Project): Result<seq<PackageId>, Fatal>
  {
    match p.totalPages
    case MissingHeader => Failure(MissingTotalPages)
    case NotAnInteger => Failure(MalformedTotalPages)
    case Count(n) => Success(Flatten(PageRange(p, n)))
  }

  /** The lister's loop: one request per page, appending every id of the response. */
  method ListPackageIds(p: Project) returns (r: Result<seq<PackageId>, Fatal>)
    ensures r == ListedIds(p)
  {
    if p.totalPages.MissingHeader? {
      return Failure(MissingTotalPages);
    }
    if p.totalPages.NotAnInteger? {
      return Failure(MalformedTotalPages);
    }
    var stop := p.totalPages.n + 1;
    var ids: seq<PackageId> := [];
    var i := 1;
    while i < stop
      invariant 1 <= i <= if stop < 1 then 1 else stop
      invariant ids == Flatten(PageRange(p, i - 1))
    {
      var response := p.page(i);
      for k := 0 to |response|
        invariant ids == Flatten(PageRange(p, i - 1)) + response[..k]
      {
        ids := ids + [response[k]];
      }
      assert response[..|response|] == response;
      PageRangeNext(p, i - 1);
      i := i + 1;
    }
    if p.totalPages.n < 0 {
      assert |PageRange(p, i - 1)| == 0 == |PageRange(p, p.totalPages.n)|;
    } else {
      assert i - 1 == p.totalPages.n;
    }
    r := Success(ids);
  }

  /** Adding page n + 1 to the pages walked so far appends its ids. */
  lemma PageRangeNext(p: Project, n: nat)
    ensures PageRange(p, n + 1) == PageRange(p, n) + [p.page(n + 1)]
    ensures Flatten(PageRange(p, n + 1)) == Flatten(PageRange(p, n)) + p.page(n + 1)
  {
    assert PageRange(p, n + 1) == PageRange(p, n) + [p.page(n + 1)];
    FlattenAppend(PageRange(p, n), [p.page(n + 1)]);
    assert [p.page(n + 1)][1..] == [];
  }

  /** A missing or non-integer pagination header is fatal; an integer header always lists. */
  lemma ListedIdsFailsOnlyOnHeader(p: Project)
    ensures ListedIds(p).Failure? <==> !p.totalPages.Count?
    ensures p.totalPages.MissingHeader? ==> ListedIds(p) == Failure(MissingTotalPages)
    ensures p.totalPages.NotAnInteger? ==> ListedIds(p) == Failure(MalformedTotalPages)
  {
  }

  /** A total page count of zero (or less) walks no page at all. */
  lemma ListedIdsEmptyWithoutPages(p: Project)
    requires p.totalPages.Count? && p.totalPages.n <= 0
    ensures ListedIds(p) == Success([])
  {
  }

  /** No deduplication: the list is exactly as long as the per-page counts added up. */
  lemma {:induction false} ListedIdsLength(p: Project)
    requires p.totalPages.Count?
    ensures |ListedIds(p).value| == PageCountSum(p, p.totalPages.n)
  {
    FlattenLength(PageRange(p, p.totalPages.n));
    SumLengthsOfPageRange(p, p.totalPages.n);
  }

  lemma {:induction false} SumLengthsOfPageRange(p: Project, n: int)
    ensures SumLengths(PageRange(p, n)) == PageCountSum(p, n)
  {
    if n > 0 {
      SumLengthsOfPageRange(p, n - 1);
      PageRangeNext(p, n - 1);
      SumLengthsAppend(PageRange(p, n - 1), [p.page(n)]);
      assert [p.page(n)][1..] == [];
    }
  }

  /** Pages come in increasing page order: id `j` of page `i` follows all ids of pages 1..i-1. */
  lemma ListedIdsPosition(p: Project, i: int, j: nat)
    requires p.totalPages.Count? && 1 <= i <= p.totalPages.n && j < |p.page(i)|
    ensures PageCountSum(p, i - 1) + j < |ListedIds(p).value|
    ensures ListedIds(p).value[PageCountSum(p, i - 1) + j] == p.page(i)[j]
  {
    var pages := PageRange(p, p.totalPages.n);
    FlattenIndex(pages, i - 1, j);
    assert pages[..i - 1] == PageRange(p, i - 1);
    SumLengthsOfPageRange(p, i - 1);
  }

  /** An id is listed exactly when some page 1..N carries it. */
  lemma ListedIdsMembers(p: Project, x: PackageId)
    requires p.totalPages.Count?
    ensures x in ListedIds(p).value <==> exists i :: 1 <= i <= p.totalPages.n && x in p.page(i)
  {
    var pages := PageRange(p, p.totalPages.n);
    FlattenMember(pages, x);
    if exists i :: 1 <= i <= p.totalPages.n && x in p.page(i) {
      var i :| 1 <= i <= p.totalPages.n && x in p.page(i);
      assert x in pages[i - 1];
    }
  }
}
