/** The block-page detector: decides whether fetched text is an anti-bot,
    paywall or error page rather than real content. */
module Blocked {
  import opened Strings

  /** Real documents are longer than this; shorter text is judged blocked. */
  const MinContentLength: nat := 300

  /** The block-indicator phrases, in the order they are tried. */
  const BlockedKeywords: seq<string> := [
    "access denied", "cloudflare", "security check", "forbidden",
    "please enable cookies", "checking your browser", "robot",
    "captcha", "403 forbidden", "403 error", "bot detection",
    "not authorized", "limit reached", "Taylor & Francis Online: Access Denied",
    "verify you are a human", "wait a moment", "standard terms and conditions"
  ]

  /** Some keyword at index `from` or later occurs, ignoring case, in the
      already lower-cased text. */
  function AnyKeywordFrom(textLower: string, from: nat): (found: bool)
    decreases |BlockedKeywords| - from
    ensures found <==> exists k :: from <= k < |BlockedKeywords| && Occurs(textLower, Lower(BlockedKeywords[k]))
  {
    if from >= |BlockedKeywords| then false
    else Contains(textLower, Lower(BlockedKeywords[from])) || AnyKeywordFrom(textLower, from + 1)
  }

  /** The text is empty, shorter than the threshold, or contains one of the
      block-indicator phrases case-insensitively. */
  function IsBlockedContent(text: string): (blocked: bool)
    ensures blocked <==>
      || |text| == 0
      || |text| < MinContentLength
      || exists k :: 0 <= k < |BlockedKeywords| && Occurs(Lower(text), Lower(BlockedKeywords[k]))
  {
    if |text| == 0 || |text| < MinContentLength then true
    else AnyKeywordFrom(Lower(text), 0)
  }

  /** Lower-casing keeps an occurrence at the same place. */
  lemma LowerKeepsOccurrence(s: string, p: string, i: nat)
    requires ContainsAt(s, p, i)
    ensures ContainsAt(Lower(s), Lower(p), i)
  {
    assert Lower(s)[i..i + |p|] == Lower(p) by {
      forall j | 0 <= j < |p|
        ensures Lower(s)[i..i + |p|][j] == Lower(p)[j]
      {
        assert s[i + j] == p[j];
      }
    }
  }

  /** Text of usable length that contains a block phrase written in any
      letter case (say "Access Denied") is judged blocked. */
  lemma PhraseInAnyCaseIsBlocked(text: string, phrase: string, k: nat)
    requires k < |BlockedKeywords|
    requires Lower(phrase) == Lower(BlockedKeywords[k])
    requires Occurs(text, phrase)
    ensures IsBlockedContent(text)
  {
    var i: nat :| ContainsAt(text, phrase, i);
    LowerKeepsOccurrence(text, phrase, i);
    assert Occurs(Lower(text), Lower(BlockedKeywords[k]));
  }
}
