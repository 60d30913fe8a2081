/** The text cleaner: removes `<script>` and `<style>` blocks and every
    other HTML tag, collapses each run of whitespace to one space and trims
    the ends. Each regular-expression substitution is modelled as Python's
    `re.sub` performs it: matches are found leftmost first, do not overlap,
    and the text a replacement produces is not searched again. */
module Clean {
  import opened Options
  import opened Strings

  /** No `<` is followed, anywhere later, by a `>`: no HTML tag is left. */
  ghost predicate NoTag(s: string)
  {
    forall i, j :: 0 <= i < j < |s| && s[i] == '<' ==> s[j] != '>'
  }

  /** Every whitespace character is a plain space. */
  ghost predicate OnlyPlainSpaces(s: string)
  {
    forall i :: 0 <= i < |s| && IsSpace(s[i]) ==> s[i] == ' '
  }

  /** No two adjacent characters are both whitespace. */
  ghost predicate SingleSpaced(s: string)
  {
    forall i, j :: 0 <= i && j == i + 1 && j < |s| ==> !IsSpace(s[i]) || !IsSpace(s[j])
  }

  /** Neither end is whitespace. */
  ghost predicate Trimmed(s: string)
  {
    |s| > 0 ==> !IsSpace(s[0]) && !IsSpace(s[|s| - 1])
  }

  /** `<tag\b[^>]*>([\s\S]*?)</tag>`, ignoring case, matches the first `n`
      characters of `s`, the opening tag ending at index `j`: `s` starts with
      `<tag` in any case, not followed by a word character; `j` is the first
      `>` after it; and `s[..n]` ends with the first `</tag>` that starts
      after `j`. `tag` is lower case. */
  ghost predicate BlockShape(s: string, tag: string, j: nat, n: nat)
  {
    var ls := Lower(s);
    var open := "<" + tag;
    var close := "</" + tag + ">";
    && ContainsAt(ls, open, 0)
    && (|open| < |s| ==> !IsWordChar(s[|open|]))
    && |open| <= j < |s| && s[j] == '>'
    && (forall i :: |open| <= i < j ==> s[i] != '>')
    && j + 1 + |close| <= n <= |s|
    && ContainsAt(ls, close, n - |close|)
    && (forall k: nat :: j + 1 <= k < n - |close| ==> !ContainsAt(ls, close, k))
  }

  /** The block pattern matches the first `n` characters of `s`. */
  ghost predicate BlockAt(s: string, tag: string, n: nat)
  {
    exists j: nat :: BlockShape(s, tag, j, n)
  }

  /** The length of the match of the block pattern at the start of `s`, if
      there is one. */
  function BlockMatch(s: string, tag: string): (r: Option<nat>)
    ensures r.Some? ==> 0 < r.value <= |s| && BlockAt(s, tag, r.value)
    ensures r.None? ==> forall n: nat :: !BlockAt(s, tag, n)
    ensures r.Some? ==> s[0] == '<' && exists j :: 0 < j < |s| && s[j] == '>'
  {
    var ls := Lower(s);
    var open := "<" + tag;
    var close := "</" + tag + ">";
    if !ContainsAt(ls, open, 0) then
      NoOpenNoBlock(s, tag);
      None
    else if |open| < |s| && IsWordChar(s[|open|]) then
      NoOpenNoBlock(s, tag);
      None
    else
      assert ls[0] == '<';
      match FindChar(s, '>', |open|)
      case None =>
        NoOpenNoBlock(s, tag);
        None
      case Some(j) =>
        match IndexOf(ls, close, j + 1)
        case None =>
          NoCloseNoBlock(s, tag, j);
          None
        case Some(k) =>
          BlockFound(s, tag, j, k);
          Some(k + |close|)
  }

  /** Without the opening `<tag` (not running on into a word character) and
      a `>` after it, the block pattern does not match. */
  lemma NoOpenNoBlock(s: string, tag: string)
    requires || !ContainsAt(Lower(s), "<" + tag, 0)
             || (|"<" + tag| < |s| && IsWordChar(s[|"<" + tag|]))
             || forall i :: |"<" + tag| <= i < |s| ==> s[i] != '>'
    ensures forall n: nat :: !BlockAt(s, tag, n)
  {
  }

  /** The opening tag ending at the first `>` at `j`, and the first `</tag>`
      after it at `k`, make a match of `k + |"</" + tag + ">"|` characters. */
  lemma BlockFound(s: string, tag: string, j: nat, k: nat)
    requires ContainsAt(Lower(s), "<" + tag, 0)
    requires |"<" + tag| < |s| ==> !IsWordChar(s[|"<" + tag|])
    requires |"<" + tag| <= j < |s| && s[j] == '>'
    requires forall i :: |"<" + tag| <= i < j ==> s[i] != '>'
    requires j + 1 <= k && ContainsAt(Lower(s), "</" + tag + ">", k)
    requires forall i: nat :: j + 1 <= i < k ==> !ContainsAt(Lower(s), "</" + tag + ">", i)
    ensures BlockAt(s, tag, k + |"</" + tag + ">"|)
  {
    assert BlockShape(s, tag, j, k + |"</" + tag + ">"|);
  }

  /** With the opening tag ending at `j` and no `</tag>` after it, the block
      pattern does not match. */
  lemma NoCloseNoBlock(s: string, tag: string, j: nat)
    requires |"<" + tag| <= j < |s| && s[j] == '>'
    requires forall i :: |"<" + tag| <= i < j ==> s[i] != '>'
    requires forall k: nat :: j + 1 <= k ==> !ContainsAt(Lower(s), "</" + tag + ">", k)
    ensures forall n: nat :: !BlockAt(s, tag, n)
  {
    forall n: nat, j': nat
      ensures !BlockShape(s, tag, j', n)
    {
    }
  }

  /** `re.sub(block pattern, '', s, flags=re.I)`: every `<tag ...>...</tag>`
      block is removed. */
  function RemoveBlocks(s: string, tag: string): (r: string)
    decreases |s|
    ensures |r| <= |s|
    ensures '<' !in s ==> r == s
  {
    if |s| == 0 then ""
    else match BlockMatch(s, tag)
      case Some(n) => RemoveBlocks(s[n..], tag)
      case None => [s[0]] + RemoveBlocks(s[1..], tag)
  }

  /** `re.sub(r'<[^>]*>', ' ', s)`: scanning left to right, a `<` with a `>`
      after it starts a tag that ends at the first such `>`, the tag becomes
      one space, and the scan resumes after that `>`. A `<` with no `>` after
      it stays. */
  function RemoveTags(s: string): (r: string)
    ensures NoTag(r)
    ensures '<' !in s ==> r == s
    ensures '>' !in s ==> r == s
  {
    ReplaceTagsFacts(s);
    ReplaceTags(s)
  }

  /** The left-to-right scan that performs the tag substitution. */
  function ReplaceTags(s: string): string
    decreases |s|
  {
    if |s| == 0 then ""
    else if s[0] == '<' then
      match FindChar(s, '>', 1)
      case Some(j) => " " + ReplaceTags(s[j + 1..])
      case None => [s[0]] + ReplaceTags(s[1..])
    else [s[0]] + ReplaceTags(s[1..])
  }

  lemma {:induction false} ReplaceTagsFacts(s: string)
    ensures NoTag(ReplaceTags(s))
    ensures '<' !in s ==> ReplaceTags(s) == s
    ensures '>' !in s ==> ReplaceTags(s) == s
    decreases |s|
  {
    if |s| > 0 {
      assert s == [s[0]] + s[1..];
      if s[0] == '<' {
        match FindChar(s, '>', 1)
        case Some(j) =>
          ReplaceTagsFacts(s[j + 1..]);
          NoTagCons(' ', ReplaceTags(s[j + 1..]));
        case None =>
          ReplaceTagsFacts(s[1..]);
          NoTagCons('<', ReplaceTags(s[1..]));
      } else {
        ReplaceTagsFacts(s[1..]);
        NoTagCons(s[0], ReplaceTags(s[1..]));
      }
    }
  }

  /** Text before the first `<` is kept as it is. */
  lemma {:induction false} ReplaceTagsKeepsPlainPrefix(a: string, c: string)
    requires '<' !in a
    ensures ReplaceTags(a + c) == a + ReplaceTags(c)
    decreases |a|
  {
    if |a| == 0 {
      assert a + c == c;
    } else {
      assert (a + c)[1..] == a[1..] + c;
      ReplaceTagsKeepsPlainPrefix(a[1..], c);
      assert a == [a[0]] + a[1..];
    }
  }

  /** A tag, from a `<` to the first `>` after it, becomes one space. */
  lemma ReplaceTagsReplacesTag(b: string, c: string)
    requires '>' !in b
    ensures ReplaceTags("<" + b + ">" + c) == " " + ReplaceTags(c)
  {
    var s := "<" + b + ">" + c;
    assert s[|b| + 1] == '>';
    assert forall j :: 1 <= j < |b| + 1 ==> s[j] == b[j - 1];
    assert FindChar(s, '>', 1) == Some(|b| + 1);
    assert s[|b| + 2..] == c;
  }

  /** Text before a tag is kept, the tag becomes one space, and the rest is
      cleaned of tags in turn. With `RemoveTagsKeepsStrayOpen` and
      `'<' !in s ==> RemoveTags(s) == s` this determines the substitution on
      every string: split at the first `<`, then at the first `>` after it,
      if there is one. */
  lemma RemoveTagsOneTag(a: string, b: string, c: string)
    requires '<' !in a && '>' !in b
    ensures RemoveTags(a + "<" + b + ">" + c) == a + " " + RemoveTags(c)
  {
    assert a + "<" + b + ">" + c == a + ("<" + b + ">" + c);
    ReplaceTagsKeepsPlainPrefix(a, "<" + b + ">" + c);
    ReplaceTagsReplacesTag(b, c);
  }

  /** A `<` with no `>` anywhere after it starts no tag: it and the rest of
      the text stay as they are, whatever came before. */
  lemma RemoveTagsKeepsStrayOpen(a: string, c: string)
    requires '<' !in a && '>' !in c
    ensures RemoveTags(a + "<" + c) == a + "<" + c
  {
    assert a + "<" + c == a + ("<" + c);
    ReplaceTagsKeepsPlainPrefix(a, "<" + c);
    var t := "<" + c;
    assert forall j :: 1 <= j < |t| ==> t[j] == c[j - 1];
    assert FindChar(t, '>', 1) == None;
    assert t[1..] == c;
    ReplaceTagsFacts(c);
  }

  /** `re.sub(r'\s+', ' ', s)`: every maximal run of whitespace becomes one
      space. */
  function CollapseSpaces(s: string): (r: string)
    ensures |r| == 0 <==> |s| == 0
    ensures |r| > 0 ==> (IsSpace(r[0]) <==> IsSpace(s[0]))
    ensures |r| > 0 ==> (IsSpace(r[|r| - 1]) <==> IsSpace(s[|s| - 1]))
    ensures OnlyPlainSpaces(r)
    ensures SingleSpaced(r)
    ensures NonSpace(r) == NonSpace(s)
  {
    CollapseRunsFacts(s);
    CollapseRuns(s)
  }

  /** The left-to-right scan that performs the whitespace substitution. */
  function CollapseRuns(s: string): string
    decreases |s|
  {
    if |s| == 0 then ""
    else if IsSpace(s[0]) then
      var t := TrimStart(s);
      assert |t| < |s|;
      " " + CollapseRuns(t)
    else [s[0]] + CollapseRuns(s[1..])
  }

  lemma CollapseRunsFacts(s: string)
    ensures var r := CollapseRuns(s);
      && (|r| == 0 <==> |s| == 0)
      && (|r| > 0 ==> (IsSpace(r[0]) <==> IsSpace(s[0])))
      && (|r| > 0 ==> (IsSpace(r[|r| - 1]) <==> IsSpace(s[|s| - 1])))
      && OnlyPlainSpaces(r)
      && SingleSpaced(r)
      && NonSpace(r) == NonSpace(s)
  {
    CollapseRunsEnds(s);
    CollapseRunsSpacing(s);
    CollapseRunsNonSpace(s);
  }

  /** The collapsed text is empty exactly when the input is, and starts and
      ends with whitespace exactly when the input does. */
  lemma {:induction false} CollapseRunsEnds(s: string)
    ensures var r := CollapseRuns(s);
      && (|r| == 0 <==> |s| == 0)
      && (|r| > 0 ==> (IsSpace(r[0]) <==> IsSpace(s[0])))
      && (|r| > 0 ==> (IsSpace(r[|r| - 1]) <==> IsSpace(s[|s| - 1])))
    decreases |s|
  {
    if |s| > 0 {
      if IsSpace(s[0]) {
        var t := TrimStart(s);
        CollapseRunsEnds(t);
        var r := " " + CollapseRuns(t);
        assert |t| == 0 ==> IsSpace(s[|s| - 1]);
        assert |t| > 0 ==> t[|t| - 1] == s[|s| - 1];
        assert |CollapseRuns(t)| > 0 ==> r[|r| - 1] == CollapseRuns(t)[|CollapseRuns(t)| - 1];
      } else {
        var t := s[1..];
        CollapseRunsEnds(t);
        var r := [s[0]] + CollapseRuns(t);
        assert |t| > 0 ==> t[|t| - 1] == s[|s| - 1];
        assert |CollapseRuns(t)| > 0 ==> r[|r| - 1] == CollapseRuns(t)[|CollapseRuns(t)| - 1];
      }
    }
  }

  /** The collapsed text has only single plain spaces. */
  lemma {:induction false} CollapseRunsSpacing(s: string)
    ensures OnlyPlainSpaces(CollapseRuns(s)) && SingleSpaced(CollapseRuns(s))
    decreases |s|
  {
    if |s| > 0 {
      var t := if IsSpace(s[0]) then TrimStart(s) else s[1..];
      var c := if IsSpace(s[0]) then ' ' else s[0];
      var rt := CollapseRuns(t);
      CollapseRunsSpacing(t);
      CollapseRunsEnds(t);
      assert IsSpace(s[0]) ==> |t| == 0 || !IsSpace(t[0]);
      assert CollapseRuns(s) == [c] + rt;
      ConsKeepsSpacing(c, rt, IsSpace(s[0]));
    }
  }

  lemma ConsKeepsSpacing(c: char, r: string, blank: bool)
    requires OnlyPlainSpaces(r) && SingleSpaced(r)
    requires blank ==> c == ' ' && (|r| == 0 || !IsSpace(r[0]))
    requires !blank ==> !IsSpace(c)
    ensures OnlyPlainSpaces([c] + r) && SingleSpaced([c] + r)
  {
    var x := [c] + r;
    assert forall i :: 0 < i < |x| ==> x[i] == r[i - 1];
  }

  /** Collapsing keeps every non-whitespace character, in order. */
  lemma {:induction false} CollapseRunsNonSpace(s: string)
    ensures NonSpace(CollapseRuns(s)) == NonSpace(s)
    decreases |s|
  {
    if |s| > 0 {
      if IsSpace(s[0]) {
        var t := TrimStart(s);
        CollapseRunsNonSpace(t);
        assert (" " + CollapseRuns(t))[1..] == CollapseRuns(t);
      } else {
        CollapseRunsNonSpace(s[1..]);
        assert ([s[0]] + CollapseRuns(s[1..]))[1..] == CollapseRuns(s[1..]);
      }
    }
  }


  /** The markup-removal steps of the cleaner, in their order. */
  function StripMarkup(text: string): (r: string)
    ensures NoTag(r)
    ensures '<' !in text ==> r == text
  {
    RemoveTags(RemoveBlocks(RemoveBlocks(text, "script"), "style"))
  }

  /** `re.sub(r'\s+', ' ', s).strip()`: the words of `s` separated by
      single spaces, `" ".join(s.split())`. */
  function Squeeze(s: string): (r: string)
    ensures r == JoinWords(Words(s))
    ensures Trimmed(r)
    ensures SingleSpaced(r)
    ensures OnlyPlainSpaces(r)
    ensures NonSpace(r) == NonSpace(s)
  {
    var c := CollapseSpaces(s);
    var t := TrimStart(c);
    var r := TrimEnd(t);
    SqueezeFacts(s, c, t, r);
    SqueezeJoinsWords(s);
    r
  }

  /** `re.sub(r'\s+', ' ', w + c)` copies a whitespace-free `w` unchanged. */
  lemma {:induction false} CollapseCopiesWord(w: string, c: string)
    requires forall i :: 0 <= i < |w| ==> !IsSpace(w[i])
    ensures CollapseRuns(w + c) == w + CollapseRuns(c)
    decreases |w|
  {
    if |w| == 0 {
      assert w + c == c;
    } else {
      var x, v := w[0], w[1..];
      assert w == [x] + v;
      assert forall i :: 0 <= i < |v| ==> v[i] == w[i + 1];
      calc {
        CollapseRuns(w + c);
        { assert w + c == [x] + (v + c); }
        CollapseRuns([x] + (v + c));
        { assert ([x] + (v + c))[1..] == v + c; }
        [x] + CollapseRuns(v + c);
        { CollapseCopiesWord(v, c); }
        [x] + (v + CollapseRuns(c));
      }
    }
  }

  /** `s` ends in whitespace. */
  predicate BlankEnd(s: string)
  {
    |s| > 0 && IsSpace(s[|s| - 1])
  }

  /** Collapsing a string that starts with a word gives its words joined by
      single spaces, followed by one space when the string ended in
      whitespace. */
  lemma {:induction false} CollapseJoinsWords(s: string)
    requires |s| == 0 || !IsSpace(s[0])
    ensures CollapseRuns(s) == JoinWords(Words(s)) + (if BlankEnd(s) then " " else "")
    decreases |s|
  {
    if |s| > 0 {
      var n := WordLength(s);
      var w, rest := s[..n], s[n..];
      WordSplit(s);
      if |rest| == 0 {
        assert Words(rest) == [] && CollapseRuns(rest) == "";
        assert [w] + [] == [w] && w + "" == w;
      } else {
        var u := TrimStart(rest);
        SpaceSplit(rest);
        if |u| == 0 {
          assert Words(u) == [] && CollapseRuns(u) == "";
          assert [w] + [] == [w] && " " + "" == " ";
        } else {
          CollapseJoinsWords(u);
          WordsOfWordStart(u);
          JoinStep(w, CollapseRuns(u), Words(u), if BlankEnd(s) then " " else "");
        }
      }
    }
  }

  /** A string that starts with a word: the word comes first both in the
      word list and in the collapsed text. */
  lemma WordSplit(s: string)
    requires |s| > 0 && !IsSpace(s[0])
    ensures var n := WordLength(s);
      && 0 < n
      && Words(s) == [s[..n]] + Words(s[n..])
      && CollapseRuns(s) == s[..n] + CollapseRuns(s[n..])
      && (n < |s| ==> IsSpace(s[n]))
      && BlankEnd(s) == (n < |s| && BlankEnd(s[n..]))
  {
    WordsSplitAtWord(s);
    CollapseAfterWord(s);
    BlankEndAfterWord(s);
  }

  lemma CollapseAfterWord(s: string)
    ensures var n := WordLength(s); CollapseRuns(s) == s[..n] + CollapseRuns(s[n..])
  {
    var n := WordLength(s);
    var w, rest := s[..n], s[n..];
    assert forall i :: 0 <= i < |w| ==> w[i] == s[i];
    CollapseCopiesWord(w, rest);
    assert w + rest == s;
  }

  lemma WordsSplitAtWord(s: string)
    requires |s| > 0 && !IsSpace(s[0])
    ensures var n := WordLength(s); Words(s) == [s[..n]] + Words(s[n..])
  {
    TrimStartNoop(s);
  }

  lemma BlankEndAfterWord(s: string)
    requires |s| > 0 && !IsSpace(s[0])
    ensures var n := WordLength(s); BlankEnd(s) == (n < |s| && BlankEnd(s[n..]))
  {
    var n := WordLength(s);
    if n < |s| {
      var t := s[n..];
      assert t[|t| - 1] == s[|s| - 1];
    } else {
      assert !IsSpace(s[n - 1]);
    }
  }

  /** A string that starts with whitespace: the run becomes one space and
      contributes no word. */
  lemma SpaceSplit(s: string)
    requires |s| > 0 && IsSpace(s[0])
    ensures var u := TrimStart(s);
      && CollapseRuns(s) == " " + CollapseRuns(u)
      && Words(s) == Words(u)
      && (|u| == 0 ==> BlankEnd(s))
      && (|u| > 0 ==> BlankEnd(u) == BlankEnd(s))
  {
    var u := TrimStart(s);
    WordsSkipLeadingSpaces(s);
    if |u| > 0 {
      assert u[|u| - 1] == s[|s| - 1];
    }
  }

  /** A string that starts with a word has at least one. */
  lemma WordsOfWordStart(s: string)
    requires |s| > 0 && !IsSpace(s[0])
    ensures |Words(s)| > 0
  {
    TrimStartNoop(s);
  }

  /** The inductive step of `CollapseJoinsWords`, on plain strings. */
  lemma JoinStep(w: string, c: string, ws: seq<string>, tail: string)
    requires |ws| > 0 && c == JoinWords(ws) + tail
    ensures w + (" " + c) == JoinWords([w] + ws) + tail
  {
    var v := [w] + ws;
    assert v[0] == w && v[1..] == ws;
    calc {
      JoinWords(v) + tail;
      (w + " " + JoinWords(ws)) + tail;
      w + (" " + (JoinWords(ws) + tail));
    }
  }

  /** `re.sub(r'\s+', ' ', s).strip()` is `" ".join(s.split())`. */
  lemma SqueezeJoinsWords(s: string)
    ensures TrimEnd(TrimStart(CollapseSpaces(s))) == JoinWords(Words(s))
  {
    var u := TrimStart(s);
    WordsSkipLeadingSpaces(s);
    CollapseAfterLeadingSpaces(s);
    CollapseJoinsWords(u);
    if |u| > 0 {
      WordsOfWordStart(u);
    }
    StripJoined(Words(u), JoinWords(Words(u)), if BlankEnd(u) then " " else "");
  }

  /** Leading whitespace collapses to at most one space, which `strip()`
      then removes. */
  lemma CollapseAfterLeadingSpaces(s: string)
    ensures TrimStart(CollapseSpaces(s)) == TrimStart(CollapseRuns(TrimStart(s)))
  {
    if |s| > 0 && IsSpace(s[0]) {
      var c := CollapseRuns(TrimStart(s));
      assert CollapseRuns(s) == " " + c;
      assert (" " + c)[1..] == c;
    } else {
      TrimStartNoop(s);
    }
  }

  /** Stripping words joined by single spaces, with at most a space after
      them, leaves the joined words. */
  lemma StripJoined(ws: seq<string>, j: string, tail: string)
    requires forall k :: 0 <= k < |ws| ==> IsWord(ws[k])
    requires j == JoinWords(ws)
    requires tail == "" || tail == " "
    requires |ws| == 0 ==> tail == ""
    ensures TrimEnd(TrimStart(j + tail)) == j
  {
    if |ws| > 0 {
      JoinWordsEnds(ws);
      StripTrimmedWithSpace(j, tail);
    } else {
      StripEmpty(j + tail);
    }
  }

  lemma StripEmpty(s: string)
    requires s == ""
    ensures TrimEnd(TrimStart(s)) == ""
  {
    assert LeadingSpaces(s) == 0 && TrailingSpaces(s) == 0;
  }

  lemma StripTrimmedWithSpace(j: string, tail: string)
    requires |j| > 0 && !IsSpace(j[0]) && !IsSpace(j[|j| - 1])
    requires tail == "" || tail == " "
    ensures TrimEnd(TrimStart(j + tail)) == j
  {
    var x := j + tail;
    assert x[0] == j[0];
    calc {
      TrimEnd(TrimStart(x));
      { TrimStartNoop(x); }
      TrimEnd(x);
      { TrimEndOfBlankTail(j, tail); }
      j;
    }
  }

  lemma SqueezeFacts(s: string, c: string, t: string, r: string)
    requires c == CollapseSpaces(s) && t == TrimStart(c) && r == TrimEnd(t)
    ensures Trimmed(r) && SingleSpaced(r) && OnlyPlainSpaces(r) && NonSpace(r) == NonSpace(s)
  {
    assert Trimmed(r) by {
      assert |r| > 0 ==> r[0] == t[0];
    }
    SliceKeepsSpacing(c, |c| - |t|, t, r);
  }

  /** `clean_text`: empty input gives empty output; otherwise the markup is
      removed, whitespace is collapsed and the ends are trimmed. The result
      keeps every non-whitespace character of the markup-free text, in order,
      and holds no tag, no leading or trailing whitespace, no whitespace
      other than single spaces. */
  function CleanText(text: string): (r: string)
    ensures |text| == 0 ==> r == ""
    ensures r == JoinWords(Words(StripMarkup(text)))
    ensures Trimmed(r)
    ensures SingleSpaced(r)
    ensures OnlyPlainSpaces(r)
    ensures NonSpace(r) == NonSpace(StripMarkup(text))
    ensures NoTag(r)
  {
    if |text| == 0 then ""
    else
      var m := StripMarkup(text);
      var r := Squeeze(m);
      NoTagKeptByNonSpace(m, r);
      r
  }

  /** A slice of a single-spaced, plainly spaced string is one too. */
  lemma SliceKeepsSpacing(s: string, a: nat, t: string, r: string)
    requires a <= |s| && t == s[a..] && |r| <= |t| && r == t[..|r|]
    requires OnlyPlainSpaces(s) && SingleSpaced(s)
    ensures OnlyPlainSpaces(r) && SingleSpaced(r)
  {
    forall i | 0 <= i < |r|
      ensures r[i] == s[a + i]
    {
      assert r[i] == t[i];
    }
    forall i, j | 0 <= i && j == i + 1 && j < |r|
      ensures !IsSpace(r[i]) || !IsSpace(r[j])
    {
      assert r[i] == s[a + i] && r[j] == s[a + j];
    }
  }

  /** Two strings with the same non-whitespace characters agree on `NoTag`. */
  lemma NoTagKeptByNonSpace(a: string, b: string)
    requires NoTag(a)
    requires NonSpace(a) == NonSpace(b)
    ensures NoTag(b)
  {
    NoTagNonSpace(a);
    NoTagNonSpace(b);
  }

  /** A tag in a string is a tag in its whitespace-free form, and back:
      whitespace plays no part in `NoTag`. */
  lemma {:induction false} NoTagNonSpace(s: string)
    ensures NoTag(s) <==> NoTag(NonSpace(s))
    decreases |s|
  {
    if |s| > 0 {
      var c, rest := s[0], s[1..];
      assert s == [c] + rest;
      NoTagNonSpace(rest);
      NoTagCons(c, rest);
      CloseInNonSpace(rest);
      if IsSpace(c) {
        assert NonSpace(s) == NonSpace(rest);
      } else {
        assert NonSpace(s) == [c] + NonSpace(rest);
        NoTagCons(c, NonSpace(rest));
      }
    }
  }

  lemma NoTagCons(c: char, s: string)
    ensures NoTag([c] + s) <==> (c == '<' ==> '>' !in s) && NoTag(s)
  {
    var t := [c] + s;
    if NoTag(t) {
      if c == '<' {
        forall j | 0 <= j < |s|
          ensures s[j] != '>'
        {
          assert t[0] == '<' && t[j + 1] == s[j];
        }
      }
      forall i, j | 0 <= i < j < |s| && s[i] == '<'
        ensures s[j] != '>'
      {
        assert t[i + 1] == s[i] && t[j + 1] == s[j];
      }
    }
    if (c == '<' ==> '>' !in s) && NoTag(s) {
      forall i, j | 0 <= i < j < |t| && t[i] == '<'
        ensures t[j] != '>'
      {
        if i == 0 {
          assert t[j] == s[j - 1];
        } else {
          assert t[i] == s[i - 1] && t[j] == s[j - 1];
        }
      }
    }
  }

  lemma {:induction false} CloseInNonSpace(s: string)
    ensures '>' in s <==> '>' in NonSpace(s)
    decreases |s|
  {
    if |s| > 0 {
      CloseInNonSpace(s[1..]);
      assert s == [s[0]] + s[1..];
    }
  }

  /** Text the cleaner could have produced: no tag, no whitespace at the
      ends, only single plain spaces. */
  ghost predicate IsClean(s: string)
  {
    NoTag(s) && Trimmed(s) && SingleSpaced(s) && OnlyPlainSpaces(s)
  }

  lemma {:induction false} RemoveBlocksKeepsTagFree(s: string, tag: string)
    requires NoTag(s)
    ensures RemoveBlocks(s, tag) == s
    decreases |s|
  {
    if |s| > 0 {
      assert BlockMatch(s, tag).None?;
      NoTagCons(s[0], s[1..]);
      assert s == [s[0]] + s[1..];
      RemoveBlocksKeepsTagFree(s[1..], tag);
    }
  }

  lemma {:induction false} RemoveTagsKeepsTagFree(s: string)
    requires NoTag(s)
    ensures RemoveTags(s) == s
    decreases |s|
  {
    if |s| > 0 {
      NoTagCons(s[0], s[1..]);
      assert s == [s[0]] + s[1..];
      RemoveTagsKeepsTagFree(s[1..]);
    }
  }

  lemma {:induction false} CollapseKeepsSingleSpaces(s: string)
    requires SingleSpaced(s) && OnlyPlainSpaces(s)
    ensures CollapseSpaces(s) == s
    decreases |s|
  {
    if |s| > 0 {
      var rest := s[1..];
      assert SingleSpaced(rest) && OnlyPlainSpaces(rest) by {
        forall i, j | 0 <= i && j == i + 1 && j < |rest|
          ensures !IsSpace(rest[i]) || !IsSpace(rest[j])
        {
          assert rest[i] == s[i + 1] && rest[j] == s[j + 1];
        }
      }
      CollapseKeepsSingleSpaces(rest);
      if IsSpace(s[0]) {
        if |rest| > 0 {
          assert rest[0] == s[1];
        }
        assert TrimStart(rest) == rest;
        assert TrimStart(s) == rest;
        assert s == " " + rest;
      } else {
        assert s == [s[0]] + rest;
      }
    }
  }

  /** The cleaner leaves clean text as it is, and only clean text: its
      results are exactly its fixed points. */
  lemma CleanTextFixedPoints(s: string)
    ensures CleanText(s) == s <==> IsClean(s)
  {
    if IsClean(s) && |s| > 0 {
      RemoveBlocksKeepsTagFree(s, "script");
      RemoveBlocksKeepsTagFree(s, "style");
      RemoveTagsKeepsTagFree(s);
      assert StripMarkup(s) == s;
      CollapseKeepsSingleSpaces(s);
      assert TrimStart(s) == s;
      assert TrimEnd(s) == s;
    }
  }

  /** Cleaning twice is cleaning once. */
  lemma CleanTextIdempotent(text: string)
    ensures CleanText(CleanText(text)) == CleanText(text)
  {
    CleanTextFixedPoints(CleanText(text));
  }
}
