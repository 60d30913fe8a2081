/** The heuristic metadata extractor: a title from the file name, the first
    plausible year and the first known publisher found near the start of the
    text, and fixed defaults for the rest. */
module Heuristics {
  import opened Options
  import opened Strings
  import opened Values

  /** The year is looked for in this many leading characters. */
  const YearWindow: nat := 5000

  /** The publisher is looked for in this many leading characters. */
  const PublisherWindow: nat := 10000

  /** The known publishers and outlets, in priority order. */
  const Publishers: seq<string> := [
    "Elsevier", "Springer", "IEEE", "MDPI", "Nature", "Science", "Wiley",
    "Taylor & Francis", "ACM", "Frontiers", "Sage", "Medium", "BBC", "CNN",
    "Wikipedia"
  ]

  const DefaultCategory: string := "Original Research"
  const DefaultType: string := "Literature"

  /** The keys of the heuristic record. */
  const MetadataKeys: set<string> :=
    {"title", "authors", "year", "publisher", "keywords", "category", "type"}

  // Title

  /** `s.replace("_", " ")`. */
  function ReplaceUnderscores(s: string): (r: string)
    ensures |r| == |s|
    ensures forall i :: 0 <= i < |s| ==> r[i] == (if s[i] == '_' then ' ' else s[i])
  {
    seq(|s|, i requires 0 <= i < |s| => if s[i] == '_' then ' ' else s[i])
  }

  /** A name without a dot is the title as it stands; otherwise the title is
      the text before the last dot with each underscore made a space. */
  function TitleFromName(name: string): (title: string)
    ensures '.' !in name ==> title == name
    ensures '.' in name ==>
      && |title| < |name|
      && name[|title|] == '.'
      && '.' !in name[|title| + 1..]
      && forall i :: 0 <= i < |title| ==> title[i] == (if name[i] == '_' then ' ' else name[i])
  {
    match FindLastChar(name, '.')
    case None => name
    case Some(k) =>
      ReplaceUnderscores(name[..k])
  }

  // Year

  /** `\b(19|20)\d{2}\b` matches `w` at index `i`: four digits starting with
      19 or 20, with no word character just before or just after. */
  predicate YearAt(w: string, i: nat)
  {
    && i + 4 <= |w|
    && (i == 0 || !IsWordChar(w[i - 1]))
    && ((w[i] == '1' && w[i + 1] == '9') || (w[i] == '2' && w[i + 1] == '0'))
    && IsDigit(w[i + 2]) && IsDigit(w[i + 3])
    && (i + 4 == |w| || !IsWordChar(w[i + 4]))
  }

  /** A four-digit string starting with 19 or 20. */
  predicate YearShaped(y: string)
  {
    |y| == 4 && (y[..2] == "19" || y[..2] == "20") && IsDigit(y[2]) && IsDigit(y[3])
  }

  /** `re.search` for the year pattern: the leftmost match at or after `from`. */
  function FindYear(w: string, from: nat): (r: Option<nat>)
    decreases |w| - from
    ensures r.Some? ==> from <= r.value && YearAt(w, r.value)
    ensures r.Some? ==> forall j: nat :: from <= j < r.value ==> !YearAt(w, j)
    ensures r.None? ==> forall j: nat :: from <= j ==> !YearAt(w, j)
  {
    if from + 4 > |w| then None
    else if YearAt(w, from) then Some(from)
    else FindYear(w, from + 1)
  }

  /** The year is empty exactly when no year token lies within the first
      5,000 characters; otherwise it is the leftmost such token. */
  function ExtractYear(text: string): (year: string)
    ensures var w := Prefix(text, YearWindow);
      && (year == "" <==> forall i: nat :: !YearAt(w, i))
      && (year != "" ==> exists i: nat :: YearAt(w, i) && year == w[i..i + 4] && forall j: nat :: j < i ==> !YearAt(w, j))
    ensures year == "" || YearShaped(year)
  {
    var w := Prefix(text, YearWindow);
    match FindYear(w, 0)
    case None => ""
    case Some(i) =>
      var year := w[i..i + 4];
      assert year[..2] == w[i..i + 2];
      year
  }

  // Publisher

  /** The first publisher at index `from` or later in the list that occurs in
      the lower-cased window. */
  function FirstPublisher(windowLower: string, from: nat): (r: Option<nat>)
    decreases |Publishers| - from
    ensures r.Some? ==> from <= r.value < |Publishers| && Occurs(windowLower, Lower(Publishers[r.value]))
    ensures r.Some? ==> forall j :: from <= j < r.value ==> !Occurs(windowLower, Lower(Publishers[j]))
    ensures r.None? ==> forall j :: from <= j < |Publishers| ==> !Occurs(windowLower, Lower(Publishers[j]))
  {
    if from >= |Publishers| then None
    else if Contains(windowLower, Lower(Publishers[from])) then Some(from)
    else FirstPublisher(windowLower, from + 1)
  }

  /** The publisher is empty exactly when no list entry occurs, ignoring
      case, in the first 10,000 characters; otherwise it is the earliest entry
      in list order that does. */
  function ExtractPublisher(text: string): (publisher: string)
    ensures var w := Lower(Prefix(text, PublisherWindow));
      && (publisher == "" <==> forall k :: 0 <= k < |Publishers| ==> !Occurs(w, Lower(Publishers[k])))
      && (publisher != "" ==> exists k :: && 0 <= k < |Publishers|
                                         && publisher == Publishers[k]
                                         && Occurs(w, Lower(Publishers[k]))
                                         && forall j :: 0 <= j < k ==> !Occurs(w, Lower(Publishers[j])))
  {
    match FirstPublisher(Lower(Prefix(text, PublisherWindow)), 0)
    case None => ""
    case Some(k) =>
      assert |Publishers[k]| > 0;
      Publishers[k]
  }

  // The record

  /** `extract_metadata_heuristics`: the seven fields, with the title, year
      and publisher found as above, no authors or keywords, and the default
      category and type. */
  function ExtractMetadataHeuristics(fullText: string, filenameOrTitle: string): (m: Dict)
    ensures m.Keys == MetadataKeys
    ensures m["title"] == Str(TitleFromName(filenameOrTitle))
    ensures m["year"] == Str(ExtractYear(fullText))
    ensures m["publisher"] == Str(ExtractPublisher(fullText))
    ensures m["authors"] == List([]) && m["keywords"] == List([])
    ensures m["category"] == Str(DefaultCategory) && m["type"] == Str(DefaultType)
  {
    map[
      "title" := Str(TitleFromName(filenameOrTitle)),
      "authors" := List([]),
      "year" := Str(ExtractYear(fullText)),
      "publisher" := Str(ExtractPublisher(fullText)),
      "keywords" := List([]),
      "category" := Str(DefaultCategory),
      "type" := Str(DefaultType)
    ]
  }
}
