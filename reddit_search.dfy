/** `RedditSearcher` (reddit_search.py): the query sent to the web search, the
    filter that keeps Reddit post URLs, the cleaning of each kept URL down to
    `scheme://netloc/path`, and the title derived from the last path segment.
    The web search itself is outside the model: its answer is the input
    sequence `searchResults`. */
module RedditSearch {
  import opened PyStr
  import opened UrlParse

  /** One search result as returned by `search_reddit_via_google`. */
  datatype RedditPost = RedditPost(title: string, url: string)

  /** The arguments `search_reddit_via_google` passes to `googlesearch.search`. */
  datatype GoogleSearch = GoogleSearch(term: string, numResults: int, lang: string, sleepInterval: int)

  const TitleNotFound: string := "[Title not found]"
  const SiteFilter: string := " site:reddit.com"
  const RedditDomain: string := "reddit.com"

  /** Path segments that mark advertising or settings pages. */
  const Blocklist: seq<string> := ["/ads/", "/advertising/", "/settings/"]

  // ---------------------------------------------------------------------
  // _get_reddit_title
  // ---------------------------------------------------------------------

  /** The title `_get_reddit_title` derives from a URL path: the last segment
      once trailing slashes are removed, with `_` read as a space, title-cased. */
  function TitleOfPath(path: string): (title: string)
    ensures '_' !in title
  {
    var last := LastPiece(RStripChar(path, '/'), '/');
    if last != "" then
      var spaced := ReplaceChar(last, '_', ' ');
      TitleKeepsNonLetters(spaced);
      Title(spaced)
    else TitleNotFound
  }

  /** `_get_reddit_title(url)`. */
  function RedditTitle(url: string): (title: string)
    ensures '_' !in title
  {
    TitleOfPath(Parse(url).path)
  }

  /** The title is the last segment of the path, however the path is split
      before it: any `pre + seg` where `seg` has no `/` and `pre` is empty or
      ends in `/`. */
  lemma TitleIsLastSegment(path: string, pre: string, seg: string)
    requires RStripChar(path, '/') == pre + seg
    requires seg != "" && '/' !in seg
    requires pre == [] || pre[|pre| - 1] == '/'
    ensures TitleOfPath(path) == Title(ReplaceChar(seg, '_', ' '))
  {
    var trimmed := pre + seg;
    LastPieceIsSuffix(trimmed, '/');
    var last := LastPiece(trimmed, '/');
    assert last == trimmed[|trimmed| - |seg|..] == seg;
  }

  /** The placeholder title is produced exactly for paths made only of slashes
      (including the empty path). */
  lemma TitleNotFoundIffOnlySlashes(path: string)
    ensures TitleOfPath(path) == TitleNotFound <==> AllChar(path, '/')
  {
    var trimmed := RStripChar(path, '/');
    RStripCharEmptyIff(path, '/');
    if !AllChar(path, '/') {
      LastPieceIsSuffix(trimmed, '/');
      var spaced := ReplaceChar(LastPiece(trimmed, '/'), '_', ' ');
      var t := Title(spaced);
      if t == TitleNotFound {
        // "[Title not found]" has a lower-case 'n' right after a space,
        // which title-casing never produces.
        assert t[6] == ' ' && t[7] == 'n';
        TitleKeepsNonLetters(spaced);
        TitleShape(spaced, 7);
        assert false;
      }
    }
  }

  /** Trailing slashes do not change the title. */
  lemma TitleIgnoresTrailingSlashes(path: string, slashes: string)
    requires AllChar(slashes, '/')
    ensures TitleOfPath(path + slashes) == TitleOfPath(path)
  {
    RStripCharIgnoresTail(path, slashes, '/');
  }

  // ---------------------------------------------------------------------
  // Cleaning a candidate URL
  // ---------------------------------------------------------------------

  /** `f"{parsed.scheme}://{parsed.netloc}{parsed.path}"`: the URL without its
      query and fragment. */
  function CleanUrl(url: string): (clean: string)
    ensures '?' !in clean && '#' !in clean
  {
    var p := Parse(url);
    SchemeHasNoMarks(p.scheme);
    p.scheme + "://" + p.netloc + p.path
  }

  /** For a URL with a scheme and a network location, the clean URL parses to
      the same scheme, network location and path, with no query and no fragment. */
  lemma CleanUrlKeepsLocation(url: string)
    requires HasAuthority(url)
    ensures Parse(CleanUrl(url)) == Parse(url).(query := "", fragment := "")
  {
    var p := Parse(url).(query := "", fragment := "");
    ParseIsWellFormed(url);
    assert CleanUrl(url) == Compose(p);
    ParseCompose(p);
  }

  /** Cleaning a clean URL changes nothing. */
  lemma CleanUrlIdempotent(url: string)
    requires HasAuthority(url)
    ensures CleanUrl(CleanUrl(url)) == CleanUrl(url)
  {
    CleanUrlKeepsLocation(url);
  }

  /** A URL written from well-formed components loses exactly its query and fragment. */
  lemma CleanUrlOfComposed(p: ParsedUrl)
    requires WellFormed(p)
    ensures CleanUrl(Compose(p)) == Compose(p.(query := "", fragment := ""))
  {
    ParseCompose(p);
  }

  /** The title taken from the clean URL is the title of the original URL. */
  lemma CleanUrlKeepsTitle(url: string)
    requires HasAuthority(url)
    ensures RedditTitle(CleanUrl(url)) == RedditTitle(url)
  {
    CleanUrlKeepsLocation(url);
  }

  // ---------------------------------------------------------------------
  // Filtering and collecting candidates
  // ---------------------------------------------------------------------

  /** The filter of `search_reddit_via_google`: the candidate mentions
      `reddit.com` and none of the blocklisted segments. */
  predicate IsRedditCandidate(url: string)
  {
    Contains(url, RedditDomain) && forall b | b in Blocklist :: !Contains(url, b)
  }

  /** The record built for an accepted candidate. */
  function MakePost(url: string): (post: RedditPost)
    ensures '?' !in post.url && '#' !in post.url && '_' !in post.title
    ensures post.title == RedditTitle(post.url)
    ensures HasAuthority(url) ==> Parse(post.url) == Parse(url).(query := "", fragment := "")
  {
    assert HasAuthority(url) ==> Parse(CleanUrl(url)) == Parse(url).(query := "", fragment := "") by {
      if HasAuthority(url) {
        CleanUrlKeepsLocation(url);
      }
    }
    var cleanUrl := CleanUrl(url);
    RedditPost(RedditTitle(cleanUrl), cleanUrl)
  }

  /** The candidates the filter accepts, in input order, with no limit. */
  function Accepted(candidates: seq<string>): (kept: seq<string>)
    ensures forall url :: url in kept <==> url in candidates && IsRedditCandidate(url)
  {
    FilterMembers(candidates, IsRedditCandidate);
    Filter(candidates, IsRedditCandidate)
  }

  /** A rejected candidate adds nothing wherever it appears; accepted ones keep
      their order. */
  lemma RejectedAddsNothing(before: seq<string>, url: string, after: seq<string>)
    requires !IsRedditCandidate(url)
    ensures Accepted(before + [url] + after) == Accepted(before) + Accepted(after)
  {
    FilterSkip(before, url, after, IsRedditCandidate);
  }

  /** How many results a run keeps: the loop breaks once the count reaches
      `numResults`, which is checked only after an append, so at least one. */
  function Limit(numResults: int): (n: nat)
    ensures n >= 1 && n >= numResults
    ensures numResults >= 1 ==> n == numResults
  {
    if numResults >= 1 then numResults else 1
  }

  /** The collecting loop of `search_reddit_via_google`: walks the candidates
      in order, appends `build` of each one `accept` lets through, and stops
      as soon as the count reaches `numResults` (checked after the append). */
  method CollectAccepted<T, U>(candidates: seq<T>, accept: T -> bool, build: T -> U, numResults: int)
    returns (results: seq<U>)
    ensures |results| == Min(|Filter(candidates, accept)|, Limit(numResults))
    ensures forall k :: 0 <= k < |results| ==> results[k] == build(Filter(candidates, accept)[k])
  {
    results := [];
    ghost var all := Filter(candidates, accept);
    ghost var kept: seq<T> := [];
    var i := 0;
    while i < |candidates|
      invariant 0 <= i <= |candidates|
      invariant kept == Filter(candidates[..i], accept)
      invariant |kept| <= |all| && kept == all[..|kept|]
      invariant |results| == |kept| < Limit(numResults)
      invariant forall k :: 0 <= k < |results| ==> results[k] == build(kept[k])
    {
      var candidate := candidates[i];
      FilterSnoc(candidates, i, accept);
      FilterPrefix(candidates, i + 1, accept);
      if accept(candidate) {
        results := results + [build(candidate)];
        kept := kept + [candidate];
        if |results| >= numResults {
          break;
        }
      }
      i := i + 1;
    }
    if i == |candidates| {
      assert candidates[..i] == candidates;
    }
  }

  /** `search_reddit_via_google(query, num_results)`, given what the web search
      returned for the request it issues: the records of the first accepted
      candidates, as many as the limit allows. */
  method SearchRedditViaGoogle(query: string, numResults: int, searchResults: seq<string>)
    returns (request: GoogleSearch, results: seq<RedditPost>)
    ensures request.term == query + SiteFilter && request.numResults == 2 * numResults
    ensures request.lang == "en" && request.sleepInterval == 2
    ensures |results| == Min(|Accepted(searchResults)|, Limit(numResults))
    ensures forall k :: 0 <= k < |results| ==> results[k] == MakePost(Accepted(searchResults)[k])
    ensures numResults >= 1 ==> |results| <= numResults
    ensures numResults < 1 ==> |results| <= 1
    ensures forall post :: post in results ==>
      exists url :: url in searchResults && IsRedditCandidate(url) && post == MakePost(url)
  {
    request := GoogleSearch(query + SiteFilter, numResults * 2, "en", 2);
    results := CollectAccepted(searchResults, IsRedditCandidate, MakePost, numResults);
    forall post | post in results
      ensures exists url :: url in searchResults && IsRedditCandidate(url) && post == MakePost(url)
    {
      var k :| 0 <= k < |results| && results[k] == post;
      var url := Accepted(searchResults)[k];
      assert url in Accepted(searchResults);
    }
  }
}
