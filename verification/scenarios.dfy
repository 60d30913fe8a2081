/** Concrete and general consequences of the model for the behaviours the
    service documents: file-name titles, the year and publisher of a report,
    the metadata merge, and the bounds on long and short texts. */
module Scenarios {
  import opened Strings
  import opened Values
  import opened Heuristics
  import opened Blocked
  import opened Clean
  import opened Record
  import opened Options
  import opened ExtractRoute

  /** `Climate_Report.pdf` is titled `Climate Report`. */
  lemma TitleOfReportFile()
    ensures TitleFromName("Climate_Report.pdf") == "Climate Report"
  {
  }

  /** A name without a dot keeps its underscores. */
  lemma TitleWithoutExtension()
    ensures TitleFromName("Climate_Report") == "Climate_Report"
  {
  }

  /** Only the last dot starts the extension. */
  lemma TitleWithTwoDots()
    ensures TitleFromName("v1.2_notes.txt") == "v1.2 notes"
  {
  }

  /** The year of a report that names it near the start. */
  lemma YearOfReport()
    ensures ExtractYear("in 2019 by Springer") == "2019"
  {
    var w := "in 2019 by Springer";
    assert Prefix(w, YearWindow) == w;
    assert YearAt(w, 3);
    forall j: nat | j < 3
      ensures !YearAt(w, j)
    {
    }
  }

  /** The publisher of a report that names it near the start. */
  lemma PublisherOfReport()
    ensures ExtractPublisher("in 2019 by Springer") == "Springer"
  {
    var w := "in 2019 by Springer";
    var lw := "in 2019 by springer";
    assert Prefix(w, PublisherWindow) == w;
    assert Lower(w) == lw;
    assert Lower(Publishers[1]) == "springer";
    assert ContainsAt(lw, "springer", 11);
    assert !Occurs(lw, Lower(Publishers[0])) by {
      assert Lower(Publishers[0]) == "elsevier";
      forall i: nat
        ensures !ContainsAt(lw, "elsevier", i)
      {
        if i + 8 <= |lw| {
          assert lw[i..i + 8][0] == lw[i];
          assert lw[i..i + 8][1] == lw[i + 1];
        }
      }
    }
  }

  /** A year glued to a word is no year. */
  lemma YearNeedsWordBoundaries()
    ensures ExtractYear("ISBN2019x") == ""
  {
  }

  /** A non-empty override wins and an empty one keeps the heuristic value. */
  lemma MergeExample()
    ensures MergeTruthy(map["year" := Str("2020"), "publisher" := Str("Elsevier")],
                        map["year" := Str("2021"), "publisher" := Str("")])
         == map["year" := Str("2021"), "publisher" := Str("Elsevier")]
  {
  }

  /** Text of 300 characters or more that contains none of the phrases is
      accepted. */
  lemma LongPlainTextIsAccepted(text: string)
    requires |text| >= MinContentLength
    requires forall k :: 0 <= k < |BlockedKeywords| ==> !Occurs(Lower(text), Lower(BlockedKeywords[k]))
    ensures !IsBlockedContent(text)
  {
  }

  /** Cleaned text of 200,000 characters or more fills all ten chunks, each
      exactly 20,000 characters long. */
  lemma LongTextFillsTenChunks(cleaned: string, metadata: Dict)
    requires |cleaned| >= LimitTotal
    ensures var r := Assemble(cleaned, metadata);
      && |r.fullText| == LimitTotal
      && |r.chunks| == MaxChunks
      && forall k :: 0 <= k < |r.chunks| ==> |r.chunks[k]| == ChunkSize
  {
    var r := Assemble(cleaned, metadata);
    TenFullChunks(r.fullText, r.chunks);
  }

  lemma TenFullChunks(t: string, chunks: seq<string>)
    requires |t| == LimitTotal
    requires |chunks| == ChunkCount(|t|)
    requires forall k :: 0 <= k < |chunks| - 1 ==> |chunks[k]| == ChunkSize
    requires Concat(chunks) == t
    ensures |chunks| == MaxChunks
    ensures forall k :: 0 <= k < |chunks| ==> |chunks[k]| == ChunkSize
  {
    assert ChunkCount(LimitTotal) == MaxChunks by {
      assert (MaxChunks - 1) * ChunkSize < LimitTotal;
      assert MaxChunks * ChunkSize >= LimitTotal;
    }
    var front := chunks[..MaxChunks - 1];
    assert chunks == front + [chunks[MaxChunks - 1]];
    ConcatOfFullChunks(front);
  }

  /** Chunks of full size concatenate to a text of their total size. */
  lemma {:induction false} ConcatOfFullChunks(xs: seq<string>)
    requires forall k :: 0 <= k < |xs| ==> |xs[k]| == ChunkSize
    ensures |Concat(xs)| == |xs| * ChunkSize
  {
    if |xs| > 0 {
      ConcatOfFullChunks(xs[..|xs| - 1]);
    }
  }

  /** Cleaned text no longer than the snippet is its own snippet. */
  lemma ShortTextIsItsOwnSnippet(cleaned: string, metadata: Dict)
    requires |cleaned| <= SnippetLength
    ensures Assemble(cleaned, metadata).aiSnippet == cleaned
  {
  }

  /** The last-dot rule applies to every title hint, so a URL used as the
      title of a page without one loses everything after its last dot. */
  lemma UrlTitleIsCutAtLastDot()
    ensures TitleFromName("https://ex.com/a_b") == "https://ex"
  {
  }

  /** A comparison sign `<` with no `>` after it is not a tag, even when a
      `>` comes earlier: the text passes tag replacement unchanged. */
  lemma StrayOpenAfterCloseIsKept()
    ensures RemoveTags("if a > b and c < d") == "if a > b and c < d"
  {
    RemoveTagsKeepsStrayOpen("if a > b and c ", " d");
    assert "if a > b and c " + "<" + " d" == "if a > b and c < d";
  }

  /** Two words separated by any run of whitespace are cleaned to the two
      words separated by one space. */
  lemma WhitespaceRunSeparatesWords(a: string, gap: string, b: string)
    requires IsWord(a) && IsWord(b) && '<' !in a && '<' !in b
    requires |gap| > 0 && forall i :: 0 <= i < |gap| ==> IsSpace(gap[i])
    ensures CleanText(a + gap + b) == a + " " + b
  {
    var s := a + gap + b;
    assert '<' !in s by {
      assert forall i :: 0 <= i < |gap| ==> gap[i] != '<';
    }
    calc {
      CleanText(s);
      JoinWords(Words(StripMarkup(s)));
      JoinWords(Words(s));
      { WordsAcrossRun(a, gap, b); }
      JoinWords([a] + Words(b));
      { assert JoinWords([b]) == b; WordsOfJoin([b]); }
      JoinWords([a] + [b]);
      { assert ([a] + [b])[1..] == [b]; }
      a + " " + b;
    }
  }

  /** The text of the report is already clean. */
  lemma ReportTextIsClean()
    ensures CleanText("in 2019 by Springer") == "in 2019 by Springer"
  {
    var text := "in 2019 by Springer";
    assert '<' !in text;
    assert NoTag(text);
    assert Trimmed(text);
    assert OnlyPlainSpaces(text);
    assert SingleSpaced(text);
    CleanTextFixedPoints(text);
  }

  /** `Climate_Report.pdf` is read as a PDF. */
  lemma ReportFileIsPdf()
    ensures ClassifyFilename(Lower("Climate_Report.pdf")) == Some(Pdf)
  {
    assert Lower("Climate_Report.pdf") == "climate_report.pdf";
    assert EndsWith("climate_report.pdf", ".pdf");
  }

  /** An upload with a supported name and text that is not blank is
      processed under its file name. */
  lemma UploadIsProcessed(name: string, bytes: seq<byte>, fmt: Format, reader: string -> Option<ReaderReply>,
                          decode: (seq<byte>, Format) -> string)
    requires name != "" && ClassifyFilename(Lower(name)) == Some(fmt)
    requires |decode(bytes, fmt)| > 0 && !IsSpace(decode(bytes, fmt)[0])
    ensures Extract(FileRequest(Some(Upload(name, bytes))), reader, decode)
         == Success(ProcessExtractedText(decode(bytes, fmt), name))
  {
  }

  /** A PDF upload named `Climate_Report.pdf` whose text mentions the year
      and the publisher is titled, dated and attributed accordingly. */
  lemma ReportUploadEndToEnd(bytes: seq<byte>, reader: string -> Option<ReaderReply>,
                             decode: (seq<byte>, Format) -> string)
    requires decode(bytes, Pdf) == "in 2019 by Springer"
    ensures var r := Extract(FileRequest(Some(Upload("Climate_Report.pdf", bytes))), reader, decode);
      && r.Success?
      && r.data.fullText == "in 2019 by Springer"
      && "title" in r.data.metadata && r.data.metadata["title"] == Str("Climate Report")
      && "year" in r.data.metadata && r.data.metadata["year"] == Str("2019")
      && "publisher" in r.data.metadata && r.data.metadata["publisher"] == Str("Springer")
  {
    var name := "Climate_Report.pdf";
    var text := "in 2019 by Springer";
    ReportFileIsPdf();
    UploadIsProcessed(name, bytes, Pdf, reader, decode);
    var p := ProcessExtractedText(text, name);
    ReportTextIsClean();
    assert p.fullText == text;
    HeuristicFieldsWithoutOverrides(text, name);
    var m := ExtractMetadataHeuristics(text, name);
    assert "title" in MetadataKeys && "year" in MetadataKeys && "publisher" in MetadataKeys;
    assert p.metadata["title"] == m["title"];
    assert p.metadata["year"] == m["year"];
    assert p.metadata["publisher"] == m["publisher"];
    TitleOfReportFile();
    YearOfReport();
    PublisherOfReport();
  }
}
