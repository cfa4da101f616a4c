/** The part of Python's `urllib.parse.urlparse` that the Reddit searcher uses:
    splitting `scheme://netloc/path?query#fragment` into its five components,
    in the order `urlsplit` does it (scheme, then netloc, then fragment, then
    query).  `Compose` writes well-formed components back as a URL, and
    `ParseCompose` proves that parsing undoes it. */
module UrlParse {
  import opened PyStr

  datatype ParsedUrl = ParsedUrl(scheme: string, netloc: string, path: string, query: string, fragment: string)

  /** The characters `urlsplit` accepts in a scheme. */
  predicate IsSchemeChar(c: char) { IsLetter(c) || IsDigit(c) || c == '+' || c == '-' || c == '.' }

  /** A scheme: an ASCII letter followed by scheme characters. */
  predicate IsScheme(s: string)
  {
    s != [] && IsLetter(s[0]) && forall k :: 0 <= k < |s| ==> IsSchemeChar(s[k])
  }

  /** A scheme holds none of the characters that start a query or a fragment. */
  lemma SchemeHasNoMarks(s: string)
    requires s == [] || IsScheme(s)
    ensures '?' !in s && '#' !in s
  {
    assert forall c | c in s :: IsSchemeChar(c);
  }

  /** The characters that end the network location. */
  const NetlocEnd: set<char> := {'/', '?', '#'}

  /** Splits off the scheme: the text before the first `:` when it is a valid
      scheme (lower-cased), otherwise no scheme at all. */
  function SplitScheme(url: string): (r: (string, string))
    ensures r.0 == [] || (IsScheme(r.0) && NoUpper(r.0))
    ensures r.0 == [] ==> r.1 == url
    ensures r.0 != [] ==> |r.1| < |url| && url[|url| - |r.1| - 1] == ':' && r.1 == url[|url| - |r.1|..]
  {
    var i := FindChar(url, ':');
    if i < |url| && IsScheme(url[..i]) then (Lower(url[..i]), url[i + 1..]) else ("", url)
  }

  /** Splits off the network location: when the text starts with `//`, the
      text up to the next `/`, `?` or `#`; otherwise none. */
  function SplitNetloc(s: string): (r: (string, string))
    ensures forall c :: c in r.0 ==> c !in NetlocEnd
    ensures r.1 == [] || r.1 == s || r.1[0] in NetlocEnd
    ensures |s| >= 2 && s[..2] == "//" ==> s == "//" + r.0 + r.1
    ensures !(|s| >= 2 && s[..2] == "//") ==> r == ("", s)
  {
    if |s| >= 2 && s[..2] == "//" then
      var e := 2 + FindAny(s[2..], NetlocEnd);
      (s[2..e], s[e..])
    else ("", s)
  }

  /** `s.split(c, 1)` when `c in s`, otherwise `s` and an empty remainder. */
  function Partition(s: string, c: char): (r: (string, string))
    ensures c !in r.0
  {
    var i := FindChar(s, c);
    if i < |s| then (s[..i], s[i + 1..]) else (s, "")
  }

  /** `urlparse(url)` without the `;params` split. */
  function Parse(url: string): (p: ParsedUrl)
    ensures p.scheme == [] || (IsScheme(p.scheme) && NoUpper(p.scheme))
    ensures '/' !in p.netloc && '?' !in p.netloc && '#' !in p.netloc
    ensures '?' !in p.path && '#' !in p.path
    ensures '#' !in p.query
  {
    var scheme := SplitScheme(url);
    var netloc := SplitNetloc(scheme.1);
    var fragment := Partition(netloc.1, '#');
    var query := Partition(fragment.0, '?');
    assert forall k :: 0 <= k < |query.0| ==> query.0[k] in fragment.0;
    assert forall k :: 0 <= k < |query.1| ==> query.1[k] in fragment.0;
    ParsedUrl(scheme.0, netloc.0, query.0, query.1, fragment.1)
  }

  lemma PartitionAt(a: string, c: char, b: string)
    requires c !in a
    ensures Partition(a + [c] + b, c) == (a, b)
  {
    var s := a + [c] + b;
    assert forall j :: 0 <= j < |a| ==> s[j] == a[j];
    FindCharIs(s, c, |a|);
    assert s[..|a|] == a;
    assert s[|a| + 1..] == b;
  }

  lemma PartitionAbsent(a: string, c: char)
    requires c !in a
    ensures Partition(a, c) == (a, "")
  {
  }

  lemma SplitNetlocAt(n: string, r: string)
    requires forall c :: c in n ==> c !in NetlocEnd
    requires r == [] || r[0] in NetlocEnd
    ensures SplitNetloc("//" + n + r) == (n, r)
  {
    var b := n + r;
    assert "//" + n + r == "//" + b;
    SplitNetlocOfSlashes(b);
    FindAnyAt(n, r);
    assert b[..|n|] == n && b[|n|..] == r;
  }

  /** After `//`, the network location runs up to the first end character. */
  lemma SplitNetlocOfSlashes(b: string)
    ensures var e := FindAny(b, NetlocEnd); SplitNetloc("//" + b) == (b[..e], b[e..])
  {
    var s := "//" + b;
    assert s[..2] == "//" && s[2..] == b;
    var e := FindAny(b, NetlocEnd);
    assert s[2..2 + e] == b[..e] && s[2 + e..] == b[e..];
  }

  lemma FindAnyAt(n: string, r: string)
    requires forall c :: c in n ==> c !in NetlocEnd
    requires r == [] || r[0] in NetlocEnd
    ensures FindAny(n + r, NetlocEnd) == |n|
  {
    var b := n + r;
    assert forall j :: 0 <= j < |n| ==> b[j] == n[j];
    assert |n| < |b| ==> b[|n|] == r[0];
    FindAnyIs(b, NetlocEnd, |n|);
  }

  /** Text before the first `:` that is a valid scheme is split off and
      lower-cased; the rest is everything after that `:`. */
  lemma SplitSchemeAt(scheme: string, rest: string)
    requires IsScheme(scheme)
    ensures SplitScheme(scheme + ":" + rest) == (Lower(scheme), rest)
  {
    var url := scheme + ":" + rest;
    assert forall j :: 0 <= j < |scheme| ==> url[j] == scheme[j];
    FindCharIs(url, ':', |scheme|);
    assert url[..|scheme|] == scheme;
    assert url[|scheme| + 1..] == rest;
  }

  /** When no text before a first `:` is a valid scheme (in particular when
      there is no `:` at all), there is no scheme and the URL is left whole. */
  lemma SplitSchemeNone(url: string)
    requires forall pre, rest :: url == pre + ":" + rest && ':' !in pre ==> !IsScheme(pre)
    ensures SplitScheme(url) == ("", url)
  {
    var i := FindChar(url, ':');
    if i < |url| {
      FindCharMissing(url, ':');
      assert url == url[..i] + ":" + url[i + 1..];
    }
  }

  /** The URL has a scheme and a `//` network location after it. */
  predicate HasAuthority(url: string)
  {
    var (scheme, afterScheme) := SplitScheme(url);
    scheme != [] && |afterScheme| >= 2 && afterScheme[..2] == "//"
  }

  /** Components that a URL can be written from and read back unchanged. */
  predicate WellFormed(p: ParsedUrl)
  {
    && IsScheme(p.scheme) && NoUpper(p.scheme)
    && '/' !in p.netloc && '?' !in p.netloc && '#' !in p.netloc
    && '?' !in p.path && '#' !in p.path && (p.path == [] || p.path[0] == '/')
    && '#' !in p.query
  }

  /** Writes `scheme://netloc` + path + `?query` + `#fragment`, omitting an empty query or fragment. */
  function Compose(p: ParsedUrl): string
  {
    p.scheme + "://" + p.netloc + p.path
    + (if p.query == [] then "" else "?" + p.query)
    + (if p.fragment == [] then "" else "#" + p.fragment)
  }

  /** The text after the network location of a composed URL. */
  function Tail(path: string, query: string, fragment: string): string
  {
    path + (if query == [] then "" else "?" + query) + (if fragment == [] then "" else "#" + fragment)
  }

  lemma QueryOfTail(path: string, query: string)
    requires '?' !in path
    ensures Partition(Tail(path, query, ""), '?') == (path, query)
  {
    if query == [] {
      assert Tail(path, query, "") == path;
      PartitionAbsent(path, '?');
    } else {
      assert Tail(path, query, "") == path + ['?'] + query;
      PartitionAt(path, '?', query);
    }
  }

  lemma FragmentOfTail(path: string, query: string, fragment: string)
    requires '#' !in path && '#' !in query
    ensures Partition(Tail(path, query, fragment), '#') == (Tail(path, query, ""), fragment)
  {
    var pq := Tail(path, query, "");
    assert '#' !in pq;
    if fragment == [] {
      assert Tail(path, query, fragment) == pq;
      PartitionAbsent(pq, '#');
    } else {
      assert Tail(path, query, fragment) == pq + ['#'] + fragment;
      PartitionAt(pq, '#', fragment);
    }
  }

  /** Parsing a composed URL gives back its components. */
  lemma ParseCompose(p: ParsedUrl)
    requires WellFormed(p)
    ensures Parse(Compose(p)) == p
  {
    var R := Tail(p.path, p.query, p.fragment);
    var A := "//" + p.netloc + R;
    assert Compose(p) == p.scheme + ":" + A;
    SplitSchemeAt(p.scheme, A);
    LowerOfNoUpper(p.scheme);
    assert R == [] || R[0] in NetlocEnd;
    SplitNetlocAt(p.netloc, R);
    FragmentOfTail(p.path, p.query, p.fragment);
    QueryOfTail(p.path, p.query);
    ParseSteps(Compose(p));
  }

  /** `Parse` as the composition of its four steps. */
  lemma ParseSteps(url: string)
    ensures var scheme := SplitScheme(url);
      var netloc := SplitNetloc(scheme.1);
      var fragment := Partition(netloc.1, '#');
      var query := Partition(fragment.0, '?');
      Parse(url) == ParsedUrl(scheme.0, netloc.0, query.0, query.1, fragment.1)
  {
  }

  /** A URL with a scheme and a network location parses to well-formed components. */
  lemma ParseIsWellFormed(url: string)
    requires HasAuthority(url)
    ensures WellFormed(Parse(url))
  {
    var rest := SplitNetloc(SplitScheme(url).1).1;
    var beforeFragment := Partition(rest, '#').0;
    if beforeFragment != [] && rest[0] != '/' {
      assert beforeFragment[0] == rest[0] == '?';
      assert FindChar(beforeFragment, '?') == 0;
    }
  }
}
