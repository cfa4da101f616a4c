/** The Python string built-ins that the two searchers rely on, modelled on
    `string` (a `seq<char>`): substring test (`in`), `split(sep)`, `strip()`,
    `rstrip(ch)`, `replace(a, b)` for single characters, `title()`, `lower()`
    and prefix slicing `xs[:k]`.  Each comes with the lemmas that tie it to an
    independent description (a round trip, a pointwise characterisation or a
    fixpoint property). */
module PyStr {

  // ---------------------------------------------------------------------
  // Characters
  // ---------------------------------------------------------------------

  predicate IsUpper(c: char) { 'A' <= c <= 'Z' }
  predicate IsLower(c: char) { 'a' <= c <= 'z' }

  /** A cased character in the sense of `str.title`; only ASCII letters are modelled. */
  predicate IsLetter(c: char) { IsUpper(c) || IsLower(c) }

  predicate IsDigit(c: char) { '0' <= c <= '9' }

  /** `str.isspace` for one character: the code points Python treats as white space. */
  predicate IsSpace(c: char)
  {
    var n := c as int;
    (9 <= n <= 13) || (28 <= n <= 32) || n == 0x85 || n == 0xA0 || n == 0x1680
    || (0x2000 <= n <= 0x200A) || n == 0x2028 || n == 0x2029 || n == 0x202F
    || n == 0x205F || n == 0x3000
  }

  function ToUpper(c: char): (u: char)
    ensures IsLetter(c) ==> IsUpper(u)
    ensures IsLetter(c) <==> IsLetter(u)
    ensures !IsLower(c) ==> u == c
  {
    if IsLower(c) then (c as int - 32) as char else c
  }

  function ToLower(c: char): (l: char)
    ensures IsLetter(c) ==> IsLower(l)
    ensures IsLetter(c) <==> IsLetter(l)
    ensures !IsUpper(c) ==> l == c
  {
    if IsUpper(c) then (c as int + 32) as char else c
  }

  /** `s.lower()` on ASCII. */
  function Lower(s: string): (r: string)
    ensures |r| == |s|
    ensures forall i :: 0 <= i < |s| ==> r[i] == ToLower(s[i])
  {
    if s == [] then [] else [ToLower(s[0])] + Lower(s[1..])
  }

  predicate NoUpper(s: string) { forall i :: 0 <= i < |s| ==> !IsUpper(s[i]) }

  lemma LowerOfNoUpper(s: string)
    requires NoUpper(s)
    ensures Lower(s) == s
  {
  }

  // ---------------------------------------------------------------------
  // Searching
  // ---------------------------------------------------------------------

  /** The index of the first `c` in `s`, or `|s|` when there is none
      (Python's `s.find(c)`, with `-1` written as `|s|`). */
  function FindChar(s: string, c: char): (i: nat)
    ensures i <= |s|
    ensures forall j :: 0 <= j < i ==> s[j] != c
    ensures i < |s| ==> s[i] == c
  {
    if s == [] then 0
    else if s[0] == c then 0
    else 1 + FindChar(s[1..], c)
  }

  /** The index of the first character of `s` that is in `cs`, or `|s|`. */
  function FindAny(s: string, cs: set<char>): (i: nat)
    ensures i <= |s|
    ensures forall j :: 0 <= j < i ==> s[j] !in cs
    ensures i < |s| ==> s[i] in cs
  {
    if s == [] then 0
    else if s[0] in cs then 0
    else 1 + FindAny(s[1..], cs)
  }

  /** `FindChar` reports `|s|` exactly when `c` does not occur, and `c` does
      not occur before the index it reports. */
  lemma FindCharMissing(s: string, c: char)
    ensures c !in s <==> FindChar(s, c) == |s|
    ensures c !in s[..FindChar(s, c)]
  {
    var i := FindChar(s, c);
    assert forall j :: 0 <= j < i ==> s[..i][j] == s[j];
  }

  /** `FindChar` is determined by where the first occurrence is. */
  lemma FindCharIs(s: string, c: char, i: nat)
    requires i <= |s|
    requires forall j :: 0 <= j < i ==> s[j] != c
    requires i < |s| ==> s[i] == c
    ensures FindChar(s, c) == i
  {
  }

  lemma FindAnyIs(s: string, cs: set<char>, i: nat)
    requires i <= |s|
    requires forall j :: 0 <= j < i ==> s[j] !in cs
    requires i < |s| ==> s[i] in cs
    ensures FindAny(s, cs) == i
  {
  }

  predicate StartsWith(s: string, prefix: string)
  {
    |prefix| <= |s| && s[..|prefix|] == prefix
  }

  /** Python's `t in s` for two strings. */
  predicate Contains(s: string, t: string)
    decreases |s|
  {
    StartsWith(s, t) || (s != [] && Contains(s[1..], t))
  }

  /** `Contains` agrees with the existence of an occurrence at some offset. */
  lemma {:induction false} ContainsAt(s: string, t: string, k: nat)
    requires k + |t| <= |s| && s[k..k + |t|] == t
    ensures Contains(s, t)
    decreases k
  {
    if k == 0 {
      assert s[..|t|] == t;
    } else {
      assert s[1..][k - 1..k - 1 + |t|] == s[k..k + |t|];
      ContainsAt(s[1..], t, k - 1);
    }
  }

  lemma {:induction false} ContainsWitness(s: string, t: string) returns (k: nat)
    requires Contains(s, t)
    ensures k + |t| <= |s| && s[k..k + |t|] == t
    decreases |s|
  {
    if StartsWith(s, t) {
      k := 0;
    } else {
      var k' := ContainsWitness(s[1..], t);
      k := k' + 1;
      assert s[k..k + |t|] == s[1..][k'..k' + |t|];
    }
  }

  // ---------------------------------------------------------------------
  // split and join
  // ---------------------------------------------------------------------

  /** Python's `s.split(sep)` for a one-character separator: the pieces between
      separators, always at least one (`"".split("/") == [""]`). */
  function Split(s: string, sep: char): (parts: seq<string>)
    ensures |parts| >= 1
    ensures forall k :: 0 <= k < |parts| ==> sep !in parts[k]
    decreases |s|
  {
    var i := FindChar(s, sep);
    if i == |s| then [s] else [s[..i]] + Split(s[i + 1..], sep)
  }

  /** `s.split(sep)[-1]`: the text after the last separator. */
  function LastPiece(s: string, sep: char): (last: string)
    decreases |s|
  {
    var i := FindChar(s, sep);
    if i == |s| then s else LastPiece(s[i + 1..], sep)
  }

  /** A suffix of `s[m..]` is a suffix of `s`, with the same character before it. */
  lemma SuffixOfRest(s: string, m: nat, n: nat)
    requires m <= |s| && n <= |s| - m
    ensures s[m..][|s| - m - n..] == s[|s| - n..]
    ensures n < |s| - m ==> s[m..][|s| - m - n - 1] == s[|s| - n - 1]
  {
  }

  /** The last piece is a suffix of `s` without the separator, preceded by the
      separator unless it is the whole of `s`. */
  lemma {:induction false} LastPieceIsSuffix(s: string, sep: char)
    ensures var last := LastPiece(s, sep);
      |last| <= |s| && s[|s| - |last|..] == last && (|last| < |s| ==> s[|s| - |last| - 1] == sep)
    ensures sep !in LastPiece(s, sep)
    decreases |s|
  {
    var i := FindChar(s, sep);
    if i == |s| {
      FindCharMissing(s, sep);
      assert s[0..] == s;
    } else {
      var rest := s[i + 1..];
      var last := LastPiece(rest, sep);
      assert LastPiece(s, sep) == last;
      LastPieceIsSuffix(rest, sep);
      SuffixOfRest(s, i + 1, |last|);
    }
  }

  /** `str(sep).join(parts)`, the inverse of `Split`. */
  function Join(parts: seq<string>, sep: char): (s: string)
  {
    if |parts| == 0 then ""
    else if |parts| == 1 then parts[0]
    else parts[0] + [sep] + Join(parts[1..], sep)
  }

  lemma {:induction false} JoinOfSplit(s: string, sep: char)
    ensures Join(Split(s, sep), sep) == s
    decreases |s|
  {
    var i := FindChar(s, sep);
    if i < |s| {
      var rest := s[i + 1..];
      var ps := Split(rest, sep);
      assert Split(s, sep) == [s[..i]] + ps;
      assert ([s[..i]] + ps)[1..] == ps;
      JoinOfSplit(rest, sep);
      assert Join([s[..i]] + ps, sep) == s[..i] + [sep] + Join(ps, sep);
      assert s == s[..i] + [sep] + rest;
    }
  }

  lemma {:induction false} SplitOfJoin(parts: seq<string>, sep: char)
    requires |parts| >= 1
    requires forall k :: 0 <= k < |parts| ==> sep !in parts[k]
    ensures Split(Join(parts, sep), sep) == parts
  {
    var s := Join(parts, sep);
    if |parts| == 1 {
      assert sep !in parts[0];
    } else {
      var rest := Join(parts[1..], sep);
      assert s == parts[0] + [sep] + rest;
      FindCharIs(s, sep, |parts[0]|);
      assert s[..|parts[0]|] == parts[0];
      assert s[|parts[0]| + 1..] == rest;
      SplitOfJoin(parts[1..], sep);
    }
  }

  /** `LastPiece` is the last element of `Split`. */
  lemma {:induction false} LastPieceOfSplit(s: string, sep: char)
    ensures var parts := Split(s, sep); LastPiece(s, sep) == parts[|parts| - 1]
    decreases |s|
  {
    var i := FindChar(s, sep);
    if i < |s| {
      LastPieceOfSplit(s[i + 1..], sep);
      LastOfCons(s[..i], Split(s[i + 1..], sep));
    }
  }

  lemma LastOfCons<T>(x: T, ys: seq<T>)
    requires |ys| >= 1
    ensures ([x] + ys)[|ys|] == ys[|ys| - 1]
  {
  }

  // ---------------------------------------------------------------------
  // strip and rstrip
  // ---------------------------------------------------------------------

  predicate AllSpace(s: string) { forall i :: 0 <= i < |s| ==> IsSpace(s[i]) }

  predicate AllChar(s: string, c: char) { forall i :: 0 <= i < |s| ==> s[i] == c }

  /** How many white-space characters `s` starts with. */
  function LeadingSpace(s: string): (n: nat)
    ensures n <= |s| && AllSpace(s[..n])
    ensures n == |s| || !IsSpace(s[n])
    decreases |s|
  {
    if s != [] && IsSpace(s[0]) then
      var n := 1 + LeadingSpace(s[1..]);
      assert s[..n] == [s[0]] + s[1..][..n - 1];
      n
    else 0
  }

  /** Where the white space that `s` ends with begins. */
  function TrailingSpace(s: string): (n: nat)
    ensures n <= |s| && AllSpace(s[n..])
    ensures n == 0 || !IsSpace(s[n - 1])
    decreases |s|
  {
    if s != [] && IsSpace(s[|s| - 1]) then
      var n := TrailingSpace(s[..|s| - 1]);
      assert s[n..] == s[..|s| - 1][n..] + [s[|s| - 1]];
      n
    else |s|
  }

  /** Python's `s.strip()` with no argument. */
  function Strip(s: string): (r: string)
    ensures |r| <= |s|
  {
    var i := LeadingSpace(s);
    var j := TrailingSpace(s);
    if i < j then s[i..j] else ""
  }

  /** When the leading and the trailing white space meet, the string is all
      white space. */
  lemma SpacesMeet(s: string)
    requires TrailingSpace(s) <= LeadingSpace(s)
    ensures AllSpace(s)
  {
    var i := LeadingSpace(s);
    if i < |s| {
      assert false;
    }
    assert s[..i] == s;
  }

  /** `Strip` removes white space from both ends and nothing else, and leaves
      no white space at either end. */
  lemma StripIsInfix(s: string)
    ensures var r := Strip(s);
      exists i, j :: 0 <= i <= j <= |s| && r == s[i..j] && AllSpace(s[..i]) && AllSpace(s[j..])
    ensures var r := Strip(s); r == [] || (!IsSpace(r[0]) && !IsSpace(r[|r| - 1]))
  {
    var i := LeadingSpace(s);
    var j := TrailingSpace(s);
    if j <= i {
      SpacesMeet(s);
      assert s[..|s|] == s;
      assert Strip(s) == s[|s|..|s|];
    } else {
      var r := s[i..j];
      assert Strip(s) == r;
      assert r[0] == s[i] && r[|r| - 1] == s[j - 1];
    }
  }

  /** Joining with a white-space separator gives white space exactly when
      every part is white space. */
  lemma {:induction false} AllSpaceJoin(parts: seq<string>, sep: char)
    requires IsSpace(sep)
    ensures AllSpace(Join(parts, sep)) <==> forall k :: 0 <= k < |parts| ==> AllSpace(parts[k])
    decreases |parts|
  {
    if |parts| > 1 {
      var rest := Join(parts[1..], sep);
      AllSpaceJoin(parts[1..], sep);
      var s := parts[0] + [sep] + rest;
      assert forall i :: 0 <= i < |parts[0]| ==> s[i] == parts[0][i];
      assert forall i :: 0 <= i < |rest| ==> s[|parts[0]| + 1 + i] == rest[i];
      assert forall k :: 1 <= k < |parts| ==> parts[k] == parts[1..][k - 1];
    }
  }

  /** A stripped string is all white space exactly when it becomes empty. */
  lemma StripEmptyIffAllSpace(s: string)
    ensures Strip(s) == [] <==> AllSpace(s)
  {
    if TrailingSpace(s) <= LeadingSpace(s) {
      SpacesMeet(s);
    }
  }

  lemma StripIdempotent(s: string)
    ensures Strip(Strip(s)) == Strip(s)
  {
    StripIsInfix(s);
    var r := Strip(s);
    if r != [] {
      assert LeadingSpace(r) == 0;
      assert TrailingSpace(r) == |r|;
    }
  }

  /** Python's `s.rstrip(c)` for one character. */
  function RStripChar(s: string, c: char): (r: string)
    ensures |r| <= |s| && r == s[..|r|]
    ensures AllChar(s[|r|..], c)
    ensures r == [] || r[|r| - 1] != c
  {
    if s != [] && s[|s| - 1] == c then
      var r := RStripChar(s[..|s| - 1], c);
      assert s[|r|..] == s[..|s| - 1][|r|..] + [c];
      r
    else s
  }

  /** Appending more of the stripped character does not change the result. */
  lemma {:induction false} RStripCharIgnoresTail(s: string, t: string, c: char)
    requires AllChar(t, c)
    ensures RStripChar(s + t, c) == RStripChar(s, c)
    decreases |t|
  {
    if t != [] {
      var t' := t[..|t| - 1];
      assert (s + t)[|s + t| - 1] == c;
      assert (s + t)[..|s + t| - 1] == s + t';
      assert RStripChar(s + t, c) == RStripChar(s + t', c);
      RStripCharIgnoresTail(s, t', c);
    } else {
      assert s + t == s;
    }
  }

  lemma RStripCharEmptyIff(s: string, c: char)
    ensures RStripChar(s, c) == [] <==> AllChar(s, c)
  {
  }

  // ---------------------------------------------------------------------
  // replace and title
  // ---------------------------------------------------------------------

  /** Python's `s.replace(a, b)` for one-character `a` and `b`. */
  function ReplaceChar(s: string, a: char, b: char): (r: string)
    ensures |r| == |s|
    ensures forall i :: 0 <= i < |s| ==> r[i] == (if s[i] == a then b else s[i])
  {
    if s == [] then [] else [if s[0] == a then b else s[0]] + ReplaceChar(s[1..], a, b)
  }

  /** The loop behind `str.title()`: a letter is upper-cased when the character
      before it is not a letter (or it is the first) and lower-cased otherwise;
      every other character is kept. `afterLetter` is the state carried along. */
  function TitleFrom(s: string, afterLetter: bool): (r: string)
    ensures |r| == |s|
  {
    if s == [] then []
    else
      var c := s[0];
      var t := if !IsLetter(c) then c else if afterLetter then ToLower(c) else ToUpper(c);
      [t] + TitleFrom(s[1..], IsLetter(c))
  }

  /** Python's `s.title()` on ASCII letters. */
  function Title(s: string): (r: string)
    ensures |r| == |s|
  {
    TitleFrom(s, false)
  }

  /** What `Title` does to each character, stated without the loop state. */
  function TitleCharAt(s: string, i: nat): char
    requires i < |s|
  {
    if !IsLetter(s[i]) then s[i]
    else if i > 0 && IsLetter(s[i - 1]) then ToLower(s[i])
    else ToUpper(s[i])
  }

  lemma {:induction false} TitleFromAt(s: string, afterLetter: bool, i: nat)
    requires i < |s|
    ensures TitleFrom(s, afterLetter)[i] ==
      if !IsLetter(s[i]) then s[i]
      else if (if i == 0 then afterLetter else IsLetter(s[i - 1])) then ToLower(s[i])
      else ToUpper(s[i])
    decreases i
  {
    if i > 0 {
      TitleFromAt(s[1..], IsLetter(s[0]), i - 1);
    }
  }

  /** The pointwise characterisation of `Title`. */
  lemma TitleAt(s: string, i: nat)
    requires i < |s|
    ensures Title(s)[i] == TitleCharAt(s, i)
  {
    TitleFromAt(s, false, i);
  }

  /** `Title` keeps letters letters and leaves every other character in place. */
  lemma TitleKeepsNonLetters(s: string)
    ensures forall i :: 0 <= i < |s| ==> (IsLetter(Title(s)[i]) <==> IsLetter(s[i]))
    ensures forall i :: 0 <= i < |s| && !IsLetter(s[i]) ==> Title(s)[i] == s[i]
  {
    forall i | 0 <= i < |s| ensures IsLetter(Title(s)[i]) <==> IsLetter(s[i]) {
      TitleAt(s, i);
    }
    forall i | 0 <= i < |s| && !IsLetter(s[i]) ensures Title(s)[i] == s[i] {
      TitleAt(s, i);
    }
  }

  /** In a title-cased string, a letter that follows a non-letter (or starts the
      string) is upper case, and a letter that follows a letter is lower case. */
  lemma TitleShape(s: string, i: nat)
    requires i < |s| && IsLetter(s[i])
    ensures i == 0 || !IsLetter(Title(s)[i - 1]) ==> IsUpper(Title(s)[i])
    ensures i > 0 && IsLetter(Title(s)[i - 1]) ==> IsLower(Title(s)[i])
  {
    TitleAt(s, i);
    if i > 0 {
      TitleAt(s, i - 1);
    }
  }

  lemma TitleIdempotent(s: string)
    ensures Title(Title(s)) == Title(s)
  {
    var t := Title(s);
    TitleKeepsNonLetters(s);
    forall i | 0 <= i < |t| ensures Title(t)[i] == t[i] {
      TitleAt(t, i);
      TitleAt(s, i);
    }
  }

  // ---------------------------------------------------------------------
  // Slicing
  // ---------------------------------------------------------------------

  function Min(a: int, b: int): int { if a <= b then a else b }
  function Max(a: int, b: int): int { if a >= b then a else b }

  /** Python's `xs[:k]`: a negative `k` counts from the end. */
  function PyPrefix<T>(xs: seq<T>, k: int): (r: seq<T>)
    ensures k >= 0 ==> |r| == Min(k, |xs|)
    ensures k < 0 ==> |r| == Max(|xs| + k, 0)
    ensures r == xs[..|r|]
  {
    if k >= 0 then xs[..Min(k, |xs|)] else xs[..Max(|xs| + k, 0)]
  }

  // ---------------------------------------------------------------------
  // List comprehensions
  // ---------------------------------------------------------------------

  /** `[x for x in xs if keep(x)]`. */
  function Filter<T>(xs: seq<T>, keep: T -> bool): (ys: seq<T>)
    ensures |ys| <= |xs|
  {
    if xs == [] then []
    else (if keep(xs[0]) then [xs[0]] else []) + Filter(xs[1..], keep)
  }

  /** Filtering a concatenation filters each part: elements keep their order
      and dropped ones leave no trace. */
  lemma {:induction false} FilterAppend<T>(xs: seq<T>, ys: seq<T>, keep: T -> bool)
    ensures Filter(xs + ys, keep) == Filter(xs, keep) + Filter(ys, keep)
    decreases |xs|
  {
    if xs == [] {
      assert xs + ys == ys;
    } else {
      var zs := xs + ys;
      var head := if keep(xs[0]) then [xs[0]] else [];
      assert zs[0] == xs[0] && zs[1..] == xs[1..] + ys;
      FilterAppend(xs[1..], ys, keep);
      assert Filter(zs, keep) == head + (Filter(xs[1..], keep) + Filter(ys, keep));
      assert Filter(xs, keep) == head + Filter(xs[1..], keep);
    }
  }

  /** An element that is not kept contributes nothing wherever it stands. */
  lemma FilterSkip<T>(before: seq<T>, x: T, after: seq<T>, keep: T -> bool)
    requires !keep(x)
    ensures Filter(before + [x] + after, keep) == Filter(before, keep) + Filter(after, keep)
  {
    var single := [x];
    assert single[1..] == [];
    assert Filter(single, keep) == [];
    FilterAppend(before, single, keep);
    FilterAppend(before + single, after, keep);
  }

  /** Filtering one more element adds it exactly when it is kept. */
  lemma FilterSnoc<T>(xs: seq<T>, i: nat, keep: T -> bool)
    requires i < |xs|
    ensures Filter(xs[..i + 1], keep) == Filter(xs[..i], keep) + (if keep(xs[i]) then [xs[i]] else [])
  {
    assert xs[..i + 1] == xs[..i] + [xs[i]];
    FilterAppend(xs[..i], [xs[i]], keep);
  }

  /** Filtering a prefix gives a prefix of the filtered sequence. */
  lemma FilterPrefix<T>(xs: seq<T>, i: nat, keep: T -> bool)
    requires i <= |xs|
    ensures |Filter(xs[..i], keep)| <= |Filter(xs, keep)|
    ensures Filter(xs, keep)[..|Filter(xs[..i], keep)|] == Filter(xs[..i], keep)
  {
    assert xs == xs[..i] + xs[i..];
    FilterAppend(xs[..i], xs[i..], keep);
  }

  /** What is kept is exactly the elements of the input that pass the test. */
  lemma {:induction false} FilterMembers<T>(xs: seq<T>, keep: T -> bool)
    ensures forall x :: x in Filter(xs, keep) <==> x in xs && keep(x)
    decreases |xs|
  {
    if xs != [] {
      FilterMembers(xs[1..], keep);
      assert xs == [xs[0]] + xs[1..];
    }
  }

  /** `[f(x) for x in xs]`. */
  function Map<T, U>(xs: seq<T>, f: T -> U): (ys: seq<U>)
    ensures |ys| == |xs|
    ensures forall k :: 0 <= k < |xs| ==> ys[k] == f(xs[k])
  {
    if xs == [] then [] else [f(xs[0])] + Map(xs[1..], f)
  }

  /** What a comprehension `[f(x) for x in xs if keep(x)]` produces satisfies
      `good` when `f` of every kept element does. */
  lemma {:induction false} MapFilterAll<T, U>(xs: seq<T>, keep: T -> bool, f: T -> U, good: U -> bool)
    requires forall x :: x in xs && keep(x) ==> good(f(x))
    ensures forall y :: y in Map(Filter(xs, keep), f) ==> good(y)
  {
    FilterMembers(xs, keep);
    var kept := Filter(xs, keep);
    forall y | y in Map(kept, f)
      ensures good(y)
    {
      var k :| 0 <= k < |kept| && Map(kept, f)[k] == y;
      assert kept[k] in kept;
    }
  }

  /** The filter is empty exactly when no element passes. */
  lemma FilterEmpty<T>(xs: seq<T>, keep: T -> bool)
    ensures Filter(xs, keep) == [] <==> forall k :: 0 <= k < |xs| ==> !keep(xs[k])
  {
    FilterMembers(xs, keep);
    if Filter(xs, keep) != [] {
      assert Filter(xs, keep)[0] in Filter(xs, keep);
    }
  }
}
