/** The front end's twin of the record assembler (`processExtractedText`):
    it truncates, takes a snippet and chunks the text with a loop, but does
    not clean the text and carries only a title besides the text fields. */
module GasService {
  import opened Strings
  import opened Record

  datatype TextRecord = TextRecord(title: string, fullText: string, aiSnippet: string, chunks: seq<string>)

  /** `processExtractedText(extractedText, defaultTitle = "")`. The full text
      is the input's prefix of length `min(200000, |input|)`, the snippet the
      full text's prefix of length `min(7500, |fullText|)`; the loop yields
      `ceil(|fullText| / 20000)` chunks, at most ten, each at most 20,000
      characters, all but the last exactly 20,000, concatenating to the full
      text. The full text, snippet and chunks are the Python service's
      `Prefix`, `Prefix` and `ChunkText` of the same text, so on the output of
      the Python cleaner the two implementations agree field by field. */
  method ProcessExtractedTextTs(extractedText: string, defaultTitle: string := "") returns (r: TextRecord)
    ensures r.title == defaultTitle
    ensures r.fullText == extractedText[..Min(LimitTotal, |extractedText|)]
    ensures r.aiSnippet == r.fullText[..Min(SnippetLength, |r.fullText|)]
    ensures |r.chunks| == ChunkCount(|r.fullText|) <= MaxChunks
    ensures forall k :: 0 <= k < |r.chunks| ==> |r.chunks[k]| <= ChunkSize
    ensures forall k :: 0 <= k < |r.chunks| - 1 ==> |r.chunks[k]| == ChunkSize
    ensures Concat(r.chunks) == r.fullText
    ensures r.fullText == Prefix(extractedText, LimitTotal)
    ensures r.aiSnippet == Prefix(r.fullText, SnippetLength)
    ensures r.chunks == ChunkText(r.fullText)
  {
    var limited := JsSubstring(extractedText, 0, LimitTotal);
    var aiSnippet := JsSubstring(limited, 0, SnippetLength);
    var chunks: seq<string> := [];
    var i: nat := 0;
    while i < |limited|
      invariant |chunks| <= MaxChunks
      invariant i == |chunks| * ChunkSize
      invariant |chunks| <= ChunkCount(|limited|)
      invariant forall k :: 0 <= k < |chunks| ==> chunks[k] == ChunkAt(limited, k)
      decreases |limited| - i
    {
      if |chunks| >= MaxChunks {
        break;
      }
      chunks := chunks + [JsSubstring(limited, i, i + ChunkSize)];
      i := i + ChunkSize;
    }
    assert |chunks| == Min(MaxChunks, ChunkCount(|limited|));
    assert chunks == ChunkText(limited);
    assert Prefix(limited, MaxChunks * ChunkSize) == limited;
    r := TextRecord(defaultTitle, limited, aiSnippet, chunks);
  }
}
