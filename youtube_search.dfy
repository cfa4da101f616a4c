/** `YouTubeSearcher` (youtube_search.py): the request `search_videos` sends,
    the walk over the returned items, and the record built for each usable
    item from its search snippet and its video details.  The two API calls
    are outside the model: the search answer is the input `searchItems`, and
    the details lookup is the input function `fetch` from a video id to the
    `items` of the `videos().list` answer. */
module YouTubeSearch {
  import opened PyStr
  import opened UrlParse

  /** A JSON object with string values; a missing object is the empty map. */
  type Dict = map<string, string>

  /** One entry of the search answer's `items`. */
  datatype SearchItem = SearchItem(id: Dict, snippet: Dict)

  /** One entry of the `videos().list` answer's `items`. */
  datatype VideoItem = VideoItem(snippet: Dict)

  /** The arguments of `search().list`. */
  datatype SearchRequest = SearchRequest(part: string, q: string, resourceType: string, maxResults: int, order: string)

  /** One record of the list `search_videos` returns. */
  datatype Video = Video(
    title: string, url: string, channel: string, publishedAt: string,
    description: string, snippets: seq<string>)

  const WatchPrefix: string := "https://www.youtube.com/watch?v="
  const NoTitle: string := "No Title"
  const UnknownChannel: string := "Unknown Channel"
  const NoDescription: string := "No description available"
  const DetailsUnknownChannel: string := "Unknown channel"
  const ApiMaxResults: int := 10
  const PreviewLength: nat := 200
  const Ellipsis: string := "..."
  const MaxSnippets: nat := 5

  /** `d.get(key, default)`. */
  function Get(d: Dict, key: string, default: string): string
  {
    if key in d then d[key] else default
  }

  // ---------------------------------------------------------------------
  // get_video_details
  // ---------------------------------------------------------------------

  /** `get_video_details(video_id)` once the `videos().list` answer is known:
      the placeholder description when there are no items, otherwise the
      first item's description and channel title, with defaults. */
  function GetVideoDetails(items: seq<VideoItem>): (details: Dict)
    ensures "description" in details
    ensures items == [] ==> details == map["description" := NoDescription]
    ensures items != [] ==> details.Keys == {"description", "channel_title"}
  {
    if items == [] then map["description" := NoDescription]
    else
      var snippet := items[0].snippet;
      map["description" := Get(snippet, "description", NoDescription),
          "channel_title" := Get(snippet, "channelTitle", DetailsUnknownChannel)]
  }

  /** Only the first item of the answer matters, and each field falls back to
      its default exactly when the item's snippet lacks it. */
  lemma DetailsOfFirstItem(items: seq<VideoItem>)
    requires items != []
    ensures var details := GetVideoDetails(items);
      var snippet := items[0].snippet;
      && ("description" in snippet ==> details["description"] == snippet["description"])
      && ("description" !in snippet ==> details["description"] == NoDescription)
      && ("channelTitle" in snippet ==> details["channel_title"] == snippet["channelTitle"])
      && ("channelTitle" !in snippet ==> details["channel_title"] == DetailsUnknownChannel)
      && GetVideoDetails(items[..1]) == details
  {
  }

  // ---------------------------------------------------------------------
  // The record of one video
  // ---------------------------------------------------------------------

  /** `item.get('id', {}).get('videoId')`, with a missing id read as empty. */
  function VideoId(item: SearchItem): string
  {
    Get(item.id, "videoId", "")
  }

  /** The test of `search_videos`: the item has a non-empty video id and a
      non-empty snippet. */
  predicate IsUsable(item: SearchItem)
  {
    VideoId(item) != "" && item.snippet != map[]
  }

  /** The canonical watch URL of a video. */
  function WatchUrl(videoId: string): (url: string)
    ensures |url| == |WatchPrefix| + |videoId|
    ensures url[..|WatchPrefix|] == WatchPrefix && url[|WatchPrefix|..] == videoId
  {
    WatchPrefix + videoId
  }

  /** Different videos get different URLs. */
  lemma WatchUrlInjective(a: string, b: string)
    requires WatchUrl(a) == WatchUrl(b)
    ensures a == b
  {
    assert a == WatchUrl(a)[|WatchPrefix|..];
  }

  /** The components of the watch URL of `videoId`. */
  function WatchComponents(videoId: string): ParsedUrl
  {
    ParsedUrl("https", "www.youtube.com", "/watch", "v=" + videoId, "")
  }

  lemma WatchComponentsWellFormed(videoId: string)
    requires '#' !in videoId
    ensures WellFormed(WatchComponents(videoId))
  {
    HttpsIsScheme();
    YouTubeHostIsNetloc();
    assert '#' !in "v=" + videoId;
  }

  /** `https` is a lower-case scheme. */
  lemma HttpsIsScheme()
    ensures IsScheme("https") && NoUpper("https")
  {
    var https := "https";
    assert forall k :: 0 <= k < |https| ==> IsLetter(https[k]);
  }

  /** The YouTube host contains none of the characters that end a network location. */
  lemma YouTubeHostIsNetloc()
    ensures '/' !in "www.youtube.com" && '?' !in "www.youtube.com" && '#' !in "www.youtube.com"
  {
  }

  lemma WatchUrlIsComposed(videoId: string)
    ensures WatchUrl(videoId) == Compose(WatchComponents(videoId))
  {
    var p := WatchComponents(videoId);
    var head := p.scheme + "://" + p.netloc + p.path;
    assert Compose(p) == head + ("?" + p.query) + "";
    Regroup(head, "?", "v=", videoId);
    WatchPrefixParts();
  }

  /** The watch prefix is the scheme, host and path followed by `?v=`. */
  lemma WatchPrefixParts()
    ensures "https" + "://" + "www.youtube.com" + "/watch" + "?" + "v=" == WatchPrefix
  {
  }

  /** The query part of a composed URL, regrouped as one concatenation. */
  lemma Regroup(a: string, b: string, c: string, d: string)
    ensures a + (b + (c + d)) + "" == a + b + c + d
  {
  }

  /** Read as a URL, the watch URL carries the video id as its query `v=`. */
  lemma WatchUrlParses(videoId: string)
    requires '#' !in videoId
    ensures Parse(WatchUrl(videoId)) == ParsedUrl("https", "www.youtube.com", "/watch", "v=" + videoId, "")
  {
    WatchComponentsWellFormed(videoId);
    WatchUrlIsComposed(videoId);
    ParseCompose(WatchComponents(videoId));
  }

  /** The description shown in a record: unchanged up to 200 characters,
      otherwise its first 200 characters followed by `...`. */
  function Preview(description: string): (preview: string)
    ensures |preview| <= PreviewLength + |Ellipsis|
  {
    if |description| > PreviewLength then description[..PreviewLength] + Ellipsis else description
  }

  /** The preview starts with as much of the description as fits, and is the
      description itself when no truncation was needed. */
  lemma PreviewShape(description: string)
    ensures var preview := Preview(description);
      var n := Min(|description|, PreviewLength);
      && preview[..n] == description[..n]
      && (|description| <= PreviewLength ==> preview == description)
      && (|description| > PreviewLength ==> |preview| == 203 && preview[PreviewLength..] == Ellipsis)
  {
  }

  /** A line that is not blank once stripped. */
  predicate IsNonBlank(line: string)
  {
    Strip(line) != ""
  }

  /** `[line.strip() for line in description.split('\n') if line.strip()]`. */
  function NonBlankLines(description: string): (lines: seq<string>)
    ensures |lines| <= |Split(description, '\n')|
  {
    Map(Filter(Split(description, '\n'), IsNonBlank), Strip)
  }

  /** A snippet line: non-empty, one line, and already stripped. */
  predicate IsSnippetLine(line: string)
  {
    line != "" && '\n' !in line && Strip(line) == line
  }

  /** A stripped non-blank line is a snippet line. */
  lemma StrippedLineShape(line: string)
    requires '\n' !in line && IsNonBlank(line)
    ensures IsSnippetLine(Strip(line))
  {
    StripIsInfix(line);
    StripIdempotent(line);
  }

  /** Every non-blank line is non-empty, one line, and already stripped. */
  lemma NonBlankLinesShape(description: string)
    ensures forall line :: line in NonBlankLines(description) ==> IsSnippetLine(line)
  {
    var parts := Split(description, '\n');
    forall line | line in parts && IsNonBlank(line)
      ensures IsSnippetLine(Strip(line))
    {
      StrippedLineShape(line);
    }
    MapFilterAll(parts, IsNonBlank, Strip, IsSnippetLine);
  }

  /** There are no non-blank lines exactly when the description is all white
      space (the empty description included). */
  lemma NonBlankLinesEmptyIff(description: string)
    ensures NonBlankLines(description) == [] <==> AllSpace(description)
  {
    var parts := Split(description, '\n');
    FilterEmpty(parts, IsNonBlank);
    forall k | 0 <= k < |parts|
      ensures IsNonBlank(parts[k]) <==> !AllSpace(parts[k])
    {
      StripEmptyIffAllSpace(parts[k]);
    }
    assert IsSpace('\n');
    AllSpaceJoin(parts, '\n');
    JoinOfSplit(description, '\n');
  }

  /** The `snippets` of a record: the first five non-blank lines, or the
      placeholder when there is none. */
  function Snippets(description: string): (snippets: seq<string>)
    ensures 1 <= |snippets| <= MaxSnippets
  {
    var lines := PyPrefix(NonBlankLines(description), MaxSnippets);
    if lines != [] then lines else [NoDescription]
  }

  /** The snippets are the leading non-blank lines, in order, at most five;
      the placeholder stands in exactly for an all-white-space description.
      Every snippet taken from the description is non-empty, one line, and
      stripped. */
  lemma SnippetsShape(description: string)
    ensures var snippets := Snippets(description);
      var lines := NonBlankLines(description);
      && (AllSpace(description) ==> snippets == [NoDescription])
      && (!AllSpace(description) ==>
            && |snippets| == Min(|lines|, MaxSnippets) && snippets == lines[..|snippets|]
            && forall line :: line in snippets ==> IsSnippetLine(line))
  {
    NonBlankLinesEmptyIff(description);
    NonBlankLinesShape(description);
    var lines := NonBlankLines(description);
    var first := PyPrefix(lines, MaxSnippets);
    assert forall line :: line in first ==> line in lines;
  }

  /** The record `search_videos` appends for a usable item, given the result
      of `get_video_details` for its id. */
  function MakeVideo(item: SearchItem, details: Dict): (video: Video)
    ensures |video.snippets| >= 1
  {
    var description := Get(details, "description", "");
    Video(
      Get(item.snippet, "title", NoTitle),
      WatchUrl(VideoId(item)),
      Get(item.snippet, "channelTitle", UnknownChannel),
      Get(item.snippet, "publishedAt", ""),
      Preview(description),
      Snippets(description))
  }

  /** The fields of a record: the snippet's values when present, the fixed
      defaults otherwise; the URL is the watch URL of the item's id; the
      description and the snippets both come from the full description in
      the details. */
  lemma MakeVideoFields(item: SearchItem, details: Dict)
    requires "description" in details
    ensures var video := MakeVideo(item, details);
      && video.url == WatchUrl(VideoId(item))
      && ("title" in item.snippet ==> video.title == item.snippet["title"])
      && ("title" !in item.snippet ==> video.title == NoTitle)
      && ("channelTitle" in item.snippet ==> video.channel == item.snippet["channelTitle"])
      && ("channelTitle" !in item.snippet ==> video.channel == UnknownChannel)
      && ("publishedAt" in item.snippet ==> video.publishedAt == item.snippet["publishedAt"])
      && ("publishedAt" !in item.snippet ==> video.publishedAt == "")
      && video.description == Preview(details["description"])
      && video.snippets == Snippets(details["description"])
  {
  }

  /** The record of an item once its details are fetched. */
  function VideoOf(item: SearchItem, fetch: string -> seq<VideoItem>): (video: Video)
    ensures video.url == WatchUrl(VideoId(item)) && |video.snippets| >= 1
  {
    MakeVideo(item, GetVideoDetails(fetch(VideoId(item))))
  }

  /** The records of the given items, in order. This is `Map` with `VideoOf`
      (`VideosIsMap`), written here by appending at the end so that the loop of
      `SearchVideos` can keep `videos == Videos(kept, fetch)` one append at a
      time without unfolding a pointwise quantifier over the records. */
  function Videos(items: seq<SearchItem>, fetch: string -> seq<VideoItem>): (videos: seq<Video>)
    ensures |videos| == |items|
  {
    if items == [] then [] else Videos(items[..|items| - 1], fetch) + [VideoOf(items[|items| - 1], fetch)]
  }

  /** The `k`-th record is the record of the `k`-th item. */
  lemma {:induction false} VideosAt(items: seq<SearchItem>, fetch: string -> seq<VideoItem>, k: nat)
    requires k < |items|
    ensures Videos(items, fetch)[k] == VideoOf(items[k], fetch)
    decreases |items|
  {
    if k < |items| - 1 {
      VideosAt(items[..|items| - 1], fetch, k);
    }
  }

  /** `Videos` is the comprehension `[VideoOf(item) for item in items]`. */
  lemma VideosIsMap(items: seq<SearchItem>, fetch: string -> seq<VideoItem>)
    ensures Videos(items, fetch) == Map(items, item => VideoOf(item, fetch))
  {
    var mapped := Map(items, item => VideoOf(item, fetch));
    forall k | 0 <= k < |items|
      ensures Videos(items, fetch)[k] == mapped[k]
    {
      VideosAt(items, fetch, k);
    }
  }

  /** The items `search_videos` turns into records: the usable ones among the
      first `maxResults`, in order. */
  function Shown(searchItems: seq<SearchItem>, maxResults: int): (shown: seq<SearchItem>)
    ensures forall item :: item in shown <==> item in PyPrefix(searchItems, maxResults) && IsUsable(item)
    ensures maxResults >= 0 ==> |shown| <= Min(maxResults, |searchItems|)
    ensures |shown| <= |searchItems|
  {
    FilterMembers(PyPrefix(searchItems, maxResults), IsUsable);
    Filter(PyPrefix(searchItems, maxResults), IsUsable)
  }

  // ---------------------------------------------------------------------
  // search_videos
  // ---------------------------------------------------------------------

  /** `search_videos(query, max_results)`, given the search answer's items and
      the details answer for each video id: one record per usable item among
      the first `maxResults`, in order. */
  method SearchVideos(query: string, maxResults: int, searchItems: seq<SearchItem>, fetch: string -> seq<VideoItem>)
    returns (request: SearchRequest, videos: seq<Video>)
    ensures request == SearchRequest("snippet", query, "video", Min(maxResults, ApiMaxResults), "relevance")
    ensures videos == Videos(Shown(searchItems, maxResults), fetch)
    ensures maxResults >= 0 ==> |videos| <= Min(maxResults, |searchItems|)
  {
    request := SearchRequest("snippet", query, "video", Min(maxResults, ApiMaxResults), "relevance");
    var examined := PyPrefix(searchItems, maxResults);
    videos := [];
    ghost var kept: seq<SearchItem> := [];
    var i := 0;
    while i < |examined|
      invariant 0 <= i <= |examined|
      invariant kept == Filter(examined[..i], IsUsable)
      invariant videos == Videos(kept, fetch)
    {
      var item := examined[i];
      FilterSnoc(examined, i, IsUsable);
      i := i + 1;
      var videoId := Get(item.id, "videoId", "");
      if videoId == "" || item.snippet == map[] {
        continue;
      }
      var details := GetVideoDetails(fetch(videoId));
      videos := videos + [MakeVideo(item, details)];
      kept := kept + [item];
    }
    assert examined[..i] == examined;
  }
}
