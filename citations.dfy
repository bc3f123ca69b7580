/** The citation sample: the mean `citationCount` over the papers returned
    by the secondary search request. */
module Citations {
  import opened Wrappers

  /** One entry of the `data` list; `None` when the entry has no
      `citationCount` key. */
  datatype Paper = Paper(citationCount: Option<int>)

  /** `paper.get('citationCount', 0)`. */
  function CountOf(p: Paper): int {
    match p.citationCount
    case Some(n) => n
    case None => 0
  }

  /** `sum(paper.get('citationCount', 0) for paper in papers)`. */
  function SumCounts(papers: seq<Paper>): int
    decreases |papers|
  {
    if papers == [] then 0 else CountOf(papers[0]) + SumCounts(papers[1..])
  }

  /** The average the app reports for a citation response whose `data` field
      is `data` (`None` when the key is absent): the sum over the length when
      the list is non-empty, 0 otherwise. */
  function MeanCitations(data: Option<seq<Paper>>): real {
    match data
    case None => 0.0
    case Some(papers) =>
      if papers == [] then 0.0 else (SumCounts(papers) as real) / (|papers| as real)
  }

  /** The sum over a concatenation is the sum of the sums. */
  lemma {:induction false} SumCountsAppend(a: seq<Paper>, b: seq<Paper>)
    ensures SumCounts(a + b) == SumCounts(a) + SumCounts(b)
    decreases |a|
  {
    if a != [] {
      assert (a + b)[0] == a[0];
      assert (a + b)[1..] == a[1..] + b;
      SumCountsAppend(a[1..], b);
    } else {
      assert a + b == b;
    }
  }

  /** When every count lies in `[lo, hi]`, so does the sum over `n` papers
      in `[n * lo, n * hi]`. */
  lemma {:induction false} SumCountsBounds(papers: seq<Paper>, lo: int, hi: int)
    requires forall k :: 0 <= k < |papers| ==> lo <= CountOf(papers[k]) <= hi
    ensures |papers| * lo <= SumCounts(papers) <= |papers| * hi
    decreases |papers|
  {
    if papers != [] {
      SumCountsBounds(papers[1..], lo, hi);
      assert |papers| * lo == lo + (|papers| - 1) * lo;
      assert |papers| * hi == hi + (|papers| - 1) * hi;
    }
  }

  /** The mean of a non-empty sample times its size is its sum. */
  lemma MeanTimesSize(papers: seq<Paper>)
    requires papers != []
    ensures MeanCitations(Some(papers)) * (|papers| as real) == SumCounts(papers) as real
  {
  }

  /** The mean lies between the smallest and the largest count of the sample. */
  lemma MeanBounds(papers: seq<Paper>, lo: int, hi: int)
    requires papers != []
    requires forall k :: 0 <= k < |papers| ==> lo <= CountOf(papers[k]) <= hi
    ensures lo as real <= MeanCitations(Some(papers)) <= hi as real
  {
    SumCountsBounds(papers, lo, hi);
    CastProduct(|papers|, lo);
    CastProduct(|papers|, hi);
    QuotientBounds(SumCounts(papers) as real, |papers| as real, lo as real, hi as real);
  }

  lemma CastProduct(m: int, x: int)
    ensures (x as real) * (m as real) == (m * x) as real
  {
  }

  lemma QuotientBounds(x: real, n: real, a: real, b: real)
    requires n > 0.0 && a * n <= x <= b * n
    ensures a <= x / n <= b
  {
    assert x / n - a == (x - a * n) / n;
    assert b - x / n == (b * n - x) / n;
  }

  /** Papers that all lack a count average to 0, as an absent or empty list does. */
  lemma {:induction false} MissingCountsAverageZero(papers: seq<Paper>)
    requires forall k :: 0 <= k < |papers| ==> papers[k].citationCount == None
    ensures SumCounts(papers) == 0
    ensures MeanCitations(Some(papers)) == 0.0
    decreases |papers|
  {
    if papers != [] {
      MissingCountsAverageZero(papers[1..]);
    }
  }
}
