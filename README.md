# Reddit and YouTube search result shaping, modelled in Dafny

This project models the deterministic part of two search tools:

- `RedditSearcher` in `reddit_search.py` builds a web-search query restricted to
  `site:reddit.com`. It keeps the returned URLs that mention `reddit.com` and none
  of the blocklisted segments `/ads/`, `/advertising/` and `/settings/`. It cuts
  each kept URL down to `scheme://netloc/path`, derives a title from the last
  path segment, and stops once `num_results` records are collected.
- `YouTubeSearcher` in `youtube_search.py` examines the search items
  `items[:max_results]` (Python's slice, so a negative `max_results` drops items
  from the end) and skips those without a video id or snippet. For each remaining item
  it builds a record with:
  - a watch URL;
  - a description capped at 200 characters plus `...`;
  - up to five stripped, non-blank description lines as `snippets`;
  - fixed defaults for missing fields.

  `get_video_details` turns a `videos().list` answer into a small dictionary
  with defaults.

Both API calls are outside the model and appear as inputs:
- the web search's answer is the sequence `searchResults`;
- the YouTube search answer is the sequence `searchItems`;
- the details lookup is the function `fetch`, from a video id to the `items` of
  the `videos().list` answer.

The files are:

- `py_str.dfy` (module `PyStr`) holds the Python string and list built-ins the
  two tools use:
  - `in` on strings;
  - `split(c)` and its last part, `split(c)[-1]`;
  - `strip()` with Python's white-space set, and `rstrip(c)`;
  - `replace` on single characters;
  - `title()` and `lower()` on ASCII;
  - `xs[:k]` with Python's negative `k`;
  - list comprehensions.
- `url_parse.dfy` (module `UrlParse`) is the part of `urllib.parse.urlparse` that
  the cleaning step relies on. It splits in `urlsplit`'s order: scheme, then
  network location, then fragment, then query. It also has `Compose`, whose
  inverse it is.
- `reddit_search.dfy` (module `RedditSearch`).
- `youtube_search.dfy` (module `YouTubeSearch`).

Neither searcher changes object state in the modelled code, so there are no
classes. The collecting loops are methods proved against specification
functions:
- `CollectAccepted` against `Filter`;
- `SearchVideos` against `Videos` and `Shown`.

## Model

| member | source | states |
|---|---|---|
| RedditSearch.TitleOfPath | reddit_search.py:25-30 | a derived title never contains `_` |
| RedditSearch.RedditTitle | reddit_search.py:19-30 | `_get_reddit_title` reads the path component of the URL; its result never contains `_` |
| RedditSearch.TitleIsLastSegment | reddit_search.py:25-29 | for any split of the slash-trimmed path into a prefix ending in `/` (or empty) and a non-empty slash-free segment, the title is that segment with `_` read as a space, title-cased |
| RedditSearch.TitleNotFoundIffOnlySlashes | reddit_search.py:25-30 | the title is `"[Title not found]"` exactly when the path is empty or made only of `/` |
| RedditSearch.TitleIgnoresTrailingSlashes | reddit_search.py:25 | appending any number of `/` to a path leaves its title unchanged |
| RedditSearch.CleanUrl | reddit_search.py:64-65 | the clean URL contains neither `?` nor `#` |
| RedditSearch.CleanUrlKeepsLocation | reddit_search.py:64-65 | for a URL with a scheme and a `//` network location, the clean URL parses to the same scheme, network location and path with an empty query and fragment |
| RedditSearch.CleanUrlIdempotent | reddit_search.py:64-65 | for a URL with a scheme and a `//` network location, cleaning the clean URL changes nothing |
| RedditSearch.CleanUrlOfComposed | reddit_search.py:64-65 | a URL written from well-formed components loses exactly its query and fragment |
| RedditSearch.CleanUrlKeepsTitle | reddit_search.py:64-68 | for a URL with a scheme and a `//` network location, the title taken from the clean URL equals the title of the raw URL |
| RedditSearch.MakePost | reddit_search.py:64-73 | a record's URL has no query or fragment marker, its title has no `_`, and its title is `_get_reddit_title` of its URL; for a candidate with a scheme and a `//` network location, the record's URL parses to the candidate's scheme, network location and path with no query or fragment |
| PyStr.Contains | reddit_search.py:62 | Python's `t in s` for two strings: `t` occurs in `s` at some offset, as `ContainsAt` and `ContainsWitness` prove in both directions |
| RedditSearch.IsRedditCandidate | reddit_search.py:62 | the filter test: the URL contains `reddit.com` and none of `/ads/`, `/advertising/`, `/settings/` |
| RedditSearch.Accepted | reddit_search.py:60-62 | a URL is among the accepted candidates exactly when it is an input and contains `reddit.com` and none of the blocklisted segments |
| RedditSearch.RejectedAddsNothing | reddit_search.py:62 | a rejected candidate contributes nothing wherever it stands in the input |
| RedditSearch.Limit | reddit_search.py:75-76 | the stop count is at least one and at least `num_results`, and equals `num_results` when that is positive |
| RedditSearch.CollectAccepted | reddit_search.py:59-76 | the loop returns the records of the first accepted candidates in input order, as many as `Limit` allows or all of them if fewer |
| RedditSearch.SearchRedditViaGoogle | reddit_search.py:46-78 | the query is the user query followed by ` site:reddit.com`, asking for `2 * num_results` hits in English with a 2-second pause; the result is the records of the first `min(accepted, Limit)` accepted candidates, in order; at most `num_results` records when positive, at most one otherwise; every record is `MakePost` of an input URL that passes the filter |
| YouTubeSearch.GetVideoDetails | youtube_search.py:77-84 | the dictionary always has a description; with no items it is exactly `{"description": "No description available"}`; otherwise it has exactly the keys `description` and `channel_title` |
| YouTubeSearch.DetailsOfFirstItem | youtube_search.py:80-84 | only the first item counts; each field takes the snippet's value when present and its default (`No description available`, `Unknown channel`) otherwise |
| YouTubeSearch.Get | youtube_search.py:33-34 | `d.get(key, default)`: the value stored under the key, or the default when the key is absent; also used at lines 43, 47, 49-50 and 82-83 |
| YouTubeSearch.VideoId | youtube_search.py:33 | the item's `id.videoId`, read as empty when the id or the key is missing |
| YouTubeSearch.IsUsable | youtube_search.py:33-37 | an item is processed exactly when its video id and its snippet are both non-empty |
| YouTubeSearch.WatchUrl | youtube_search.py:48 | the URL is `https://www.youtube.com/watch?v=` followed by the video id, so the id can be read back from it |
| YouTubeSearch.WatchUrlInjective | youtube_search.py:48 | different video ids give different URLs |
| YouTubeSearch.WatchUrlParses | youtube_search.py:48 | parsed as a URL, the watch URL has scheme `https`, host `www.youtube.com`, path `/watch` and query `v=` plus the id (for ids without `#`) |
| YouTubeSearch.Preview | youtube_search.py:51 | the shown description has at most 203 characters |
| YouTubeSearch.PreviewShape | youtube_search.py:51 | the shown description starts with the first `min(len, 200)` characters of the description; it is unchanged up to 200 characters; beyond that it has exactly 203 characters, the last three being `...` |
| YouTubeSearch.StrippedLineShape | youtube_search.py:44 | a stripped non-blank line is non-empty, has no newline and is its own strip |
| YouTubeSearch.IsNonBlank | youtube_search.py:44 | the comprehension's `if line.strip()` test: the stripped line is non-empty, that is (by `StripEmptyIffAllSpace`) the line is not all white space |
| YouTubeSearch.NonBlankLines | youtube_search.py:44 | the stripped lines of the description that are not blank, in order; there are at most as many as lines |
| YouTubeSearch.NonBlankLinesShape | youtube_search.py:44 | every non-blank line of the description is non-empty, one line, and stripped |
| YouTubeSearch.NonBlankLinesEmptyIff | youtube_search.py:44 | there is no non-blank line exactly when the description is all white space |
| YouTubeSearch.Snippets | youtube_search.py:44-52 | there are between one and five snippets |
| YouTubeSearch.SnippetsShape | youtube_search.py:44-52 | an all-white-space description gives `["No description available"]`; any other gives its first `min(n, 5)` non-blank lines, in order, each non-empty, one line and stripped |
| YouTubeSearch.MakeVideo | youtube_search.py:43-53 | a record always has at least one snippet |
| YouTubeSearch.MakeVideoFields | youtube_search.py:43-53 | title, channel and publication date take the snippet's value when present and `No Title`, `Unknown Channel`, `""` otherwise; the URL is the watch URL of the id; description and snippets both come from the full, untruncated description |
| YouTubeSearch.VideoOf | youtube_search.py:40-53 | the record of an item once its details are fetched: its URL is the watch URL of the item's own video id, and it has at least one snippet |
| YouTubeSearch.Videos | youtube_search.py:31-53 | one record per item |
| YouTubeSearch.VideosIsMap | youtube_search.py:31-53 | the records are the comprehension of `VideoOf` over the items |
| YouTubeSearch.VideosAt | youtube_search.py:31-53 | the `k`-th record is the record of the `k`-th item |
| YouTubeSearch.Shown | youtube_search.py:31-37 | an item is shown exactly when it is among the first `max_results` and has a non-empty video id and snippet; there are at most `min(max_results, len(items))` when `max_results >= 0`, and never more than the items |
| YouTubeSearch.SearchVideos | youtube_search.py:18-58 | the request asks for `min(max_results, 10)` relevance-ordered videos matching the query; the result is the records of the shown items in order, so at most `min(max_results, len(items))` of them when `max_results >= 0`, and never more than the items |
| UrlParse.SplitScheme | reddit_search.py:23 | the scheme is empty, in which case the rest is the whole URL, or a valid lower-case scheme, in which case the rest is a suffix right after a `:`; `SplitSchemeAt` and `SplitSchemeNone` fix which case and which scheme |
| UrlParse.SplitNetloc | reddit_search.py:23 | without a leading `//` the network location is empty and the rest is the whole text; with it, the text is `//` + network location + rest, the network location has no `/`, `?` or `#`, and the rest is empty or starts with one of them |
| UrlParse.Partition | reddit_search.py:23 | the part before the separator does not contain it |
| UrlParse.Parse | reddit_search.py:23 | scheme empty or valid and lower-case; network location free of `/?#`; path free of `?#`; query free of `#` |
| UrlParse.PartitionAt | reddit_search.py:23 | splitting at the first separator returns the text on both sides |
| UrlParse.SplitNetlocAt | reddit_search.py:23 | a `//`-prefixed network location is read back exactly |
| UrlParse.SplitSchemeAt | reddit_search.py:23 | a valid scheme before the first `:` is split off lower-cased, and the rest is everything after that `:` |
| UrlParse.SplitSchemeNone | reddit_search.py:23 | when the text before the first `:` is not a valid scheme, or there is no `:`, the scheme is empty and the URL is left whole |
| UrlParse.ParseCompose | reddit_search.py:64-65 | parsing a URL written from well-formed components gives them back |
| UrlParse.ParseIsWellFormed | reddit_search.py:64-65 | a URL with a scheme and a `//` network location parses to well-formed components |
| PyStr.Lower | reddit_search.py:23 | lower-casing maps each character through `ToLower` and keeps the length |
| PyStr.ContainsAt | reddit_search.py:62 | a string contains every text that occurs in it at some offset |
| PyStr.ContainsWitness | reddit_search.py:62 | when a string contains a text, there is an offset where the text occurs |
| PyStr.FindChar | reddit_search.py:25 | the first index of the character, or the length when it is absent; no earlier character is it |
| PyStr.Split | reddit_search.py:25 | `split` gives at least one part, and no part contains the separator |
| PyStr.JoinOfSplit | youtube_search.py:44 | joining the parts of a split with the separator gives the string back |
| PyStr.SplitOfJoin | reddit_search.py:25 | splitting a join of separator-free parts gives the parts back |
| PyStr.LastPiece | reddit_search.py:25-26 | `split(sep)[-1]`, computed as the text after the last separator; `LastPieceOfSplit` and `LastPieceIsSuffix` state what it is |
| PyStr.LastPieceOfSplit | reddit_search.py:25 | the text after the last separator is exactly `s.split(sep)[-1]` |
| PyStr.LastPieceIsSuffix | reddit_search.py:25 | the last part of a split is a separator-free suffix of the string, preceded by the separator unless it is the whole string |
| PyStr.LeadingSpace | youtube_search.py:44 | the leading run of white space: every character before the count is white space, the one at the count is not |
| PyStr.TrailingSpace | youtube_search.py:44 | the trailing run of white space: every character from the index on is white space, the one before it is not |
| PyStr.IsSpace | youtube_search.py:44 | `str.isspace` for one character, the set `strip()` removes: the code points 9-13, 28-32, U+0085, U+00A0, U+1680, U+2000-U+200A, U+2028, U+2029, U+202F, U+205F and U+3000 |
| PyStr.Strip | youtube_search.py:44 | `strip()`: the string between its leading and trailing white space, never longer than the string |
| PyStr.StripIsInfix | youtube_search.py:44 | `strip` removes white space at both ends and nothing else, and leaves no white space at either end |
| PyStr.StripEmptyIffAllSpace | youtube_search.py:44 | a stripped string is empty exactly when the string is all white space |
| PyStr.StripIdempotent | youtube_search.py:44 | stripping twice is stripping once |
| PyStr.AllSpaceJoin | youtube_search.py:44 | a newline-joined text is all white space exactly when each line is |
| PyStr.RStripChar | reddit_search.py:25 | `rstrip(c)` removes a suffix made only of `c` and leaves no `c` at the end |
| PyStr.RStripCharIgnoresTail | reddit_search.py:25 | appending only `c` characters does not change `rstrip(c)` |
| PyStr.ReplaceChar | reddit_search.py:28 | `replace(a, b)` keeps the length and replaces each `a` by `b`, leaving the rest |
| PyStr.Title | reddit_search.py:28 | `title()` keeps the length; its per-character effect is given by `TitleAt` |
| PyStr.TitleAt | reddit_search.py:28 | each character of the title is the character itself when not a letter, lower case after a letter, and upper case otherwise |
| PyStr.TitleShape | reddit_search.py:28 | a title-cased letter is upper case at the start or after a non-letter, and lower case after a letter |
| PyStr.TitleKeepsNonLetters | reddit_search.py:28 | title-casing keeps every non-letter in place and turns letters only into letters |
| PyStr.TitleIdempotent | reddit_search.py:28 | title-casing twice is title-casing once |
| PyStr.PyPrefix | youtube_search.py:31 | `xs[:k]` is a prefix of length `min(k, len)` for `k >= 0` and `max(len + k, 0)` for negative `k` |
| PyStr.Filter | reddit_search.py:60-62 | the kept elements in input order (a comprehension with `if`); never more than the input |
| PyStr.FilterAppend | reddit_search.py:60-62 | filtering a concatenation filters each part, keeping order |
| PyStr.FilterSkip | reddit_search.py:60-62 | an element the test rejects contributes nothing wherever it stands |
| PyStr.FilterSnoc | reddit_search.py:60-62 | one more element adds itself exactly when it is kept |
| PyStr.FilterPrefix | reddit_search.py:60-76 | filtering a prefix of the input gives a prefix of the filtered input |
| PyStr.FilterMembers | youtube_search.py:31-37 | what a filter keeps is exactly the inputs that pass the test |
| PyStr.FilterEmpty | youtube_search.py:44 | a filter is empty exactly when no input passes |
| PyStr.Map | youtube_search.py:44 | a comprehension `[f(x) for x in xs]`: same length, and the `k`-th result is `f` of the `k`-th input |
| PyStr.MapFilterAll | youtube_search.py:44 | every result of a comprehension has a property when `f` of every kept input has it |

## Left out

- The web search (`googlesearch.search`), the YouTube client build, `search().list`,
  `videos().list` and `execute` are not modelled. Their answers are inputs.
  A missing `items` key reads as an empty list, as `get('items', [])` does.
- `load_dotenv`, `os.getenv`, the unused `requests` and `BeautifulSoup` imports,
  the `headers` field, and both interactive `main` functions are console or
  environment I/O.
- The exception handlers are not modelled:
  - reddit_search.py:31-33 print and return `"[Title not found]"`;
    reddit_search.py:80-82 print and return `[]`;
  - youtube_search.py:54-56 print and `continue`, so a failing item is skipped
    and the loop goes on;
  - youtube_search.py:60-67 print (with the 403 quota message) and return `[]`;
  - youtube_search.py:86-87 print nothing and return
    `{"description": "Error fetching details: " + str(e)[:100]}`, which
    `search_videos` then still turns into a record whose description and single
    snippet are that error text.

  Every modelled operation is total and the lookup `fetch` cannot fail, so
  neither the skipped item nor the error-text record occurs in the model.
- `urlparse` is modelled without the `;params` split of the last path segment.
  The check on bracketed IPv6 network locations, which raises `ValueError`, is
  not modelled. Neither is the removal of ASCII tab and newline characters from
  the URL.
- `urlsplit` first strips leading C0 control characters and spaces from the
  URL; the model does not, so a candidate with leading white space is cleaned
  differently than in the source.
- `urlsplit`'s check of non-ASCII network locations (`_checknetloc`), which can
  raise `ValueError` and so make the whole Reddit search return `[]` through
  reddit_search.py:80-82, is not modelled.
- The default arguments `num_results=5` (reddit_search.py:35) and
  `max_results=3` (youtube_search.py:18) are not modelled: the methods take the
  count explicitly, and a call without it is the call with 5 or 3.
- `str.title`, `str.lower` and `str.strip` follow ASCII letter rules and
  Python's white-space set. Unicode case mapping is not modelled.
- JSON values are strings; a non-string field (for example a numeric
  `videoId`) is not modelled.
- `YouTubeSearch.SearchVideos` returns the request with `maxResults` equal to
  `min(max_results, 10)` even when that is negative. Nothing checks what the
  API would do with it.
- test.py and test_youtube.py are not part of this model. They call methods
  and parameters that the two modelled files do not define.
- Concurrency, retries, timing and output formatting do not occur in these two
  files.
