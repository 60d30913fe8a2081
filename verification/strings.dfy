/** Character classes and string operations shared by the extraction
    pipeline. Strings are sequences of characters; the character classes are
    those of Python's `re` module and `str` methods restricted to ASCII. */
module Strings {
  import opened Options

  function Min(a: int, b: int): int
  {
    if a <= b then a else b
  }

  /** Python's `\s` and `str.isspace()` below U+0080: tab, line feed,
      vertical tab, form feed, carriage return, the four separators
      U+001C..U+001F and the space. */
  predicate IsSpace(c: char)
  {
    c == ' ' || '\t' <= c <= '\r' || '\U{001C}' <= c <= '\U{001F}'
  }

  /** Python's `\d` restricted to ASCII. */
  predicate IsDigit(c: char)
  {
    '0' <= c <= '9'
  }

  /** Python's `\w` restricted to ASCII: the characters a `\b` boundary
      separates from the others. */
  predicate IsWordChar(c: char)
  {
    'a' <= c <= 'z' || 'A' <= c <= 'Z' || IsDigit(c) || c == '_'
  }

  /** `str.lower()` on one character, ASCII letters only. */
  function LowerChar(c: char): (d: char)
  {
    if 'A' <= c <= 'Z' then (c as int + 32) as char else c
  }

  /** `str.lower()`, character by character. */
  function Lower(s: string): (r: string)
    ensures |r| == |s|
    ensures forall i :: 0 <= i < |s| ==> r[i] == LowerChar(s[i])
  {
    seq(|s|, i requires 0 <= i < |s| => LowerChar(s[i]))
  }

  /** `p` occurs in `s` starting at index `i`. */
  predicate ContainsAt(s: string, p: string, i: nat)
  {
    i + |p| <= |s| && s[i..i + |p|] == p
  }

  /** `p` occurs somewhere in `s`. */
  ghost predicate Occurs(s: string, p: string)
  {
    exists i: nat :: ContainsAt(s, p, i)
  }

  /** The leftmost occurrence of `p` in `s` at or after `from`. */
  function IndexOf(s: string, p: string, from: nat): (r: Option<nat>)
    decreases |s| - from
    ensures r.Some? ==> from <= r.value && ContainsAt(s, p, r.value)
    ensures r.Some? ==> forall j: nat :: from <= j < r.value ==> !ContainsAt(s, p, j)
    ensures r.None? ==> forall j: nat :: from <= j ==> !ContainsAt(s, p, j)
  {
    if from + |p| > |s| then None
    else if s[from..from + |p|] == p then Some(from)
    else IndexOf(s, p, from + 1)
  }

  /** Python's `p in s`. */
  function Contains(s: string, p: string): (b: bool)
    ensures b <==> Occurs(s, p)
  {
    IndexOf(s, p, 0).Some?
  }

  /** The first index at or after `from` holding `c`. */
  function FindChar(s: string, c: char, from: nat): (r: Option<nat>)
    decreases |s| - from
    ensures r.Some? ==> from <= r.value < |s| && s[r.value] == c
    ensures r.Some? ==> forall j :: from <= j < r.value ==> s[j] != c
    ensures r.None? ==> forall j :: from <= j < |s| ==> s[j] != c
  {
    if from >= |s| then None
    else if s[from] == c then Some(from)
    else FindChar(s, c, from + 1)
  }

  /** The last index holding `c`. */
  function FindLastChar(s: string, c: char): (r: Option<nat>)
    ensures r.Some? ==> r.value < |s| && s[r.value] == c
    ensures r.Some? ==> forall j :: r.value < j < |s| ==> s[j] != c
    ensures r.None? ==> c !in s
  {
    if |s| == 0 then None
    else if s[|s| - 1] == c then Some(|s| - 1)
    else FindLastChar(s[..|s| - 1], c)
  }

  /** Python's `s.endswith(suffix)`. */
  predicate EndsWith(s: string, suffix: string)
  {
    |suffix| <= |s| && s[|s| - |suffix|..] == suffix
  }

  /** Python's `s[:n]`, the prefix of length `min(n, |s|)`. */
  function Prefix(s: string, n: nat): (r: string)
    ensures |r| == Min(n, |s|)
    ensures r == s[..|r|]
  {
    if n < |s| then s[..n] else s
  }

  /** Python's `s[i:j]` for non-negative bounds: both are clamped to the
      length, and a slice whose end is not after its start is empty. */
  function PySlice(s: string, i: nat, j: nat): (r: string)
    ensures |r| == (if i < |s| && i < j then Min(j, |s|) - i else 0)
    ensures forall k :: 0 <= k < |r| ==> r[k] == s[i + k]
  {
    if i >= |s| || j <= i then "" else s[i..Min(j, |s|)]
  }

  /** JavaScript's `s.substring(i, j)` for non-negative bounds: both are
      clamped to the length and swapped when the start exceeds the end. */
  function JsSubstring(s: string, i: nat, j: nat): (r: string)
    ensures i <= j ==> r == PySlice(s, i, j)
    ensures j < i ==> r == PySlice(s, j, i)
  {
    var a := Min(i, |s|);
    var b := Min(j, |s|);
    if a <= b then s[a..b] else s[b..a]
  }

  /** The characters of `s` that are not whitespace, in order. */
  function NonSpace(s: string): string
  {
    if |s| == 0 then ""
    else (if IsSpace(s[0]) then "" else [s[0]]) + NonSpace(s[1..])
  }

  lemma {:induction false} NonSpaceAppend(a: string, b: string)
    ensures NonSpace(a + b) == NonSpace(a) + NonSpace(b)
    decreases |a|
  {
    if |a| == 0 {
      assert a + b == b;
    } else {
      assert (a + b)[1..] == a[1..] + b;
      NonSpaceAppend(a[1..], b);
    }
  }

  /** A string of whitespace has no non-whitespace characters. */
  lemma {:induction false} NonSpaceOfBlank(s: string)
    requires forall i :: 0 <= i < |s| ==> IsSpace(s[i])
    ensures NonSpace(s) == ""
    decreases |s|
  {
    if |s| > 0 {
      NonSpaceOfBlank(s[1..]);
    }
  }

  /** The number of leading whitespace characters. */
  function LeadingSpaces(s: string): (n: nat)
    ensures n <= |s|
    ensures forall i :: 0 <= i < n ==> IsSpace(s[i])
    ensures n < |s| ==> !IsSpace(s[n])
  {
    if |s| > 0 && IsSpace(s[0]) then 1 + LeadingSpaces(s[1..]) else 0
  }

  /** The number of trailing whitespace characters. */
  function TrailingSpaces(s: string): (n: nat)
    ensures n <= |s|
    ensures forall i :: |s| - n <= i < |s| ==> IsSpace(s[i])
    ensures n < |s| ==> !IsSpace(s[|s| - n - 1])
  {
    if |s| > 0 && IsSpace(s[|s| - 1]) then 1 + TrailingSpaces(s[..|s| - 1]) else 0
  }

  /** Python's `s.lstrip()`. */
  function TrimStart(s: string): (r: string)
    ensures |r| <= |s|
    ensures r == s[|s| - |r|..]
    ensures |r| > 0 ==> !IsSpace(r[0])
    ensures forall i :: 0 <= i < |s| - |r| ==> IsSpace(s[i])
    ensures NonSpace(r) == NonSpace(s)
  {
    var n := LeadingSpaces(s);
    assert s == s[..n] + s[n..];
    NonSpaceAppend(s[..n], s[n..]);
    NonSpaceOfBlank(s[..n]);
    s[n..]
  }

  /** Python's `s.rstrip()`. */
  function TrimEnd(s: string): (r: string)
    ensures |r| <= |s|
    ensures r == s[..|r|]
    ensures |r| > 0 ==> !IsSpace(r[|r| - 1])
    ensures forall i :: |r| <= i < |s| ==> IsSpace(s[i])
    ensures NonSpace(r) == NonSpace(s)
  {
    var m := |s| - TrailingSpaces(s);
    assert s == s[..m] + s[m..];
    NonSpaceAppend(s[..m], s[m..]);
    NonSpaceOfBlank(s[m..]);
    s[..m]
  }

  /** Python's `s.strip()`: the slice of `s` that starts after its leading
      whitespace and neither starts nor ends with whitespace; only whitespace
      lies after it. */
  function Strip(s: string): (r: string)
    ensures LeadingSpaces(s) + |r| <= |s|
    ensures r == s[LeadingSpaces(s)..LeadingSpaces(s) + |r|]
    ensures |r| > 0 ==> !IsSpace(r[0]) && !IsSpace(r[|r| - 1])
    ensures forall i :: LeadingSpaces(s) + |r| <= i < |s| ==> IsSpace(s[i])
    ensures NonSpace(r) == NonSpace(s)
  {
    TrimEnd(TrimStart(s))
  }

  /** `s.strip()` is empty exactly when every character of `s` is whitespace. */
  lemma StripEmptyIffBlank(s: string)
    ensures Strip(s) == "" <==> forall i :: 0 <= i < |s| ==> IsSpace(s[i])
  {
    var t := TrimStart(s);
    if Strip(s) != "" {
      assert s[|s| - |t|] == t[0];
    }
  }

  /** `s.lstrip()` of a string that does not start with whitespace is the
      string itself. */
  lemma TrimStartNoop(s: string)
    requires |s| == 0 || !IsSpace(s[0])
    ensures TrimStart(s) == s
  {
    assert LeadingSpaces(s) == 0;
  }

  /** Whitespace after a string that does not end with whitespace is exactly
      what `rstrip()` removes. */
  lemma TrimEndOfBlankTail(x: string, b: string)
    requires |x| == 0 || !IsSpace(x[|x| - 1])
    requires forall i :: 0 <= i < |b| ==> IsSpace(b[i])
    ensures TrimEnd(x + b) == x
  {
    var s := x + b;
    var r := TrimEnd(s);
    assert forall i :: |x| <= i < |s| ==> s[i] == b[i - |x|];
    assert |x| > 0 ==> s[|x| - 1] == x[|x| - 1];
    assert r == s[..|x|];
  }

  /** Whitespace before a string that does not start with whitespace is
      exactly what `lstrip()` removes. */
  lemma TrimStartOfBlankHead(b: string, x: string)
    requires forall i :: 0 <= i < |b| ==> IsSpace(b[i])
    requires |x| == 0 || !IsSpace(x[0])
    ensures TrimStart(b + x) == x
  {
    var s := b + x;
    assert forall i :: 0 <= i < |b| ==> s[i] == b[i];
    assert |x| > 0 ==> s[|b|] == x[0];
    assert s[|b|..] == x;
  }

  // Words

  /** The number of leading characters that are not whitespace. */
  function WordLength(s: string): (n: nat)
    ensures n <= |s|
    ensures forall i :: 0 <= i < n ==> !IsSpace(s[i])
    ensures n < |s| ==> IsSpace(s[n])
  {
    if |s| > 0 && !IsSpace(s[0]) then 1 + WordLength(s[1..]) else 0
  }

  /** A non-empty run of characters none of which is whitespace. */
  ghost predicate IsWord(w: string)
  {
    |w| > 0 && forall i :: 0 <= i < |w| ==> !IsSpace(w[i])
  }

  /** Python's `s.split()`: the maximal runs of non-whitespace, in order. */
  function Words(s: string): (ws: seq<string>)
    decreases |s|
    ensures forall k :: 0 <= k < |ws| ==> IsWord(ws[k])
  {
    var t := TrimStart(s);
    if |t| == 0 then []
    else
      var n := WordLength(t);
      [t[..n]] + Words(t[n..])
  }

  /** Python's `" ".join(ws)`. */
  function JoinWords(ws: seq<string>): string
  {
    if |ws| == 0 then ""
    else if |ws| == 1 then ws[0]
    else ws[0] + " " + JoinWords(ws[1..])
  }

  /** Words joined by single spaces neither start nor end with whitespace. */
  lemma {:induction false} JoinWordsEnds(ws: seq<string>)
    requires |ws| > 0
    requires forall k :: 0 <= k < |ws| ==> IsWord(ws[k])
    ensures var j := JoinWords(ws); |j| > 0 && !IsSpace(j[0]) && !IsSpace(j[|j| - 1])
    decreases |ws|
  {
    if |ws| > 1 {
      var rest := ws[1..];
      assert forall k :: 0 <= k < |rest| ==> rest[k] == ws[k + 1];
      JoinWordsEnds(rest);
      var j := JoinWords(ws);
      assert j == ws[0] + " " + JoinWords(rest);
      assert j[0] == ws[0][0];
      assert j[|j| - 1] == JoinWords(rest)[|JoinWords(rest)| - 1];
    }
  }

  /** The word list of a string that starts after its leading whitespace is
      that of the whole string. */
  lemma WordsSkipLeadingSpaces(s: string)
    ensures Words(TrimStart(s)) == Words(s)
  {
    var t := TrimStart(s);
    TrimStartNoop(t);
  }

  /** The whole of a string without whitespace is one word long. */
  lemma WordLengthOfWord(w: string, c: string)
    requires forall i :: 0 <= i < |w| ==> !IsSpace(w[i])
    requires |c| == 0 || IsSpace(c[0])
    ensures WordLength(w + c) == |w|
  {
    var s := w + c;
    assert forall i :: 0 <= i < |w| ==> s[i] == w[i];
    assert |c| > 0 ==> s[|w|] == c[0];
  }

  /** A word, a space and a string that starts with a word split into that
      word and the words of the rest. */
  lemma WordsOfSpacedWord(w: string, rest: string)
    requires IsWord(w)
    requires |rest| > 0 && !IsSpace(rest[0])
    ensures Words(w + " " + rest) == [w] + Words(rest)
  {
    var j := w + " " + rest;
    var tail := " " + rest;
    assert j == w + tail;
    TrimStartNoop(j);
    WordLengthOfWord(w, tail);
    assert j[..|w|] == w;
    assert j[|w|..] == tail;
    assert tail[1..] == rest;
    TrimStartNoop(rest);
    assert TrimStart(tail) == rest;
    WordsSkipLeadingSpaces(tail);
  }

  /** A word, a run of whitespace and a string that starts with a word split
      into that word and the words of the rest. */
  lemma WordsAcrossRun(w: string, gap: string, rest: string)
    requires IsWord(w)
    requires |gap| > 0 && forall i :: 0 <= i < |gap| ==> IsSpace(gap[i])
    requires |rest| > 0 && !IsSpace(rest[0])
    ensures Words(w + gap + rest) == [w] + Words(rest)
  {
    var tail := gap + rest;
    var s := w + tail;
    assert w + gap + rest == s;
    assert tail[0] == gap[0];
    TrimStartNoop(s);
    WordLengthOfWord(w, tail);
    assert s[..|w|] == w;
    assert s[|w|..] == tail;
    TrimStartOfBlankHead(gap, rest);
    TrimStartNoop(rest);
  }

  /** Splitting words joined by single spaces gives the words back. */
  lemma {:induction false} WordsOfJoin(ws: seq<string>)
    requires forall k :: 0 <= k < |ws| ==> IsWord(ws[k])
    ensures Words(JoinWords(ws)) == ws
    decreases |ws|
  {
    if |ws| == 1 {
      var w := ws[0];
      TrimStartNoop(w);
      WordLengthOfWord(w, "");
      assert w + "" == w;
    } else if |ws| > 1 {
      var rest := ws[1..];
      assert forall k :: 0 <= k < |rest| ==> rest[k] == ws[k + 1];
      JoinWordsEnds(rest);
      WordsOfSpacedWord(ws[0], JoinWords(rest));
      WordsOfJoin(rest);
      assert ws == [ws[0]] + rest;
    }
  }

  /** The concatenation of a list of strings, Python's `"".join(xs)`. */
  function Concat(xs: seq<string>): (r: string)
  {
    if |xs| == 0 then "" else Concat(xs[..|xs| - 1]) + xs[|xs| - 1]
  }
}
