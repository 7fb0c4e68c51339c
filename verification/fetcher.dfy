/** The page-combining rule of the top-rated listing fetch (main.py, fetch_top_movies).
    The HTTP requests themselves are outside the model: the listing endpoint is
    represented by `respond`, the outcome it gives for each page number. */
module Fetcher {
  import opened Seqs

  /** Pages 1, 2 and 3 are requested. */
  const PageCount: nat := 3
  /** The combined listing is cut to this many movies. */
  const TopLimit: nat := 50

  /** One entry of a listing page; only the fields the pipeline reads. */
  datatype MovieSummary = MovieSummary(id: int, title: string)

  /** The answer for one page: status 200 with its `results` list (empty when the
      payload has no `results` key), or any other status. */
  datatype PageOutcome = Ok(results: seq<MovieSummary>) | Failed(status: int)

  predicate AllPagesOk(respond: nat -> PageOutcome)
  {
    forall p :: 1 <= p <= PageCount ==> respond(p).Ok?
  }

  /** The results of pages 1..n concatenated in page order. */
  function PagesUpTo(respond: nat -> PageOutcome, n: nat): seq<MovieSummary>
  {
    if n == 0 then []
    else PagesUpTo(respond, n - 1) + (if respond(n).Ok? then respond(n).results else [])
  }

  /** Request pages 1..3 in order; the first failed page abandons the whole listing
      with an empty result, otherwise the concatenation is cut to its first 50 entries. */
  method FetchTopMovies(respond: nat -> PageOutcome) returns (top: seq<MovieSummary>)
    ensures |top| <= TopLimit
    ensures !AllPagesOk(respond) ==> top == []
    ensures AllPagesOk(respond) ==> top <= PagesUpTo(respond, PageCount)
    ensures AllPagesOk(respond) ==> |top| == Min(TopLimit, |PagesUpTo(respond, PageCount)|)
  {
    var topMovies: seq<MovieSummary> := [];
    var page: nat := 1;
    while page <= PageCount
      invariant 1 <= page <= PageCount + 1
      invariant forall p :: 1 <= p < page ==> respond(p).Ok?
      invariant topMovies == PagesUpTo(respond, page - 1)
    {
      var outcome := respond(page);
      if outcome.Failed? {
        return [];
      }
      topMovies := topMovies + outcome.results;
      page := page + 1;
    }
    top := Prefix(topMovies, TopLimit);
  }
}
