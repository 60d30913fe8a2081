/** The record assembler and chunker of the Python service
    (`process_extracted_text`): cleans the text, truncates it, takes a
    snippet, slices it into chunks and merges override metadata. */
module Record {
  import opened Strings
  import opened Values
  import opened Heuristics
  import opened Clean

  /** The cleaned text is truncated to this many characters. */
  const LimitTotal: nat := 200000
  /** The snippet handed to the language model is this long at most. */
  const SnippetLength: nat := 7500
  /** Each chunk holds this many characters, the last one possibly fewer. */
  const ChunkSize: nat := 20000
  /** No more than this many chunks are kept. */
  const MaxChunks: nat := 10

  /** The keys the result sets itself; they shadow metadata keys of the same
      name when the record is flattened into one dictionary. */
  const ReservedKeys: set<string> := {"aiSnippet", "chunks", "fullText"}

  /** The assembled record. `metadata` holds the metadata fields other than
      the reserved keys. */
  datatype Extraction = Extraction(metadata: Dict, aiSnippet: string, chunks: seq<string>, fullText: string)

  function CeilDiv(n: nat, d: nat): (q: nat)
    requires d > 0
    ensures q * d >= n && (q == 0 || (q - 1) * d < n)
  {
    (n + d - 1) / d
  }

  /** The number of chunk start offsets `range(0, n, ChunkSize)` yields. */
  function ChunkCount(n: nat): (c: nat)
    ensures forall k: nat :: k < c <==> k * ChunkSize < n
  {
    var c := CeilDiv(n, ChunkSize);
    assert forall k: nat :: k < c ==> k * ChunkSize <= (c - 1) * ChunkSize;
    assert forall k: nat :: k >= c ==> k * ChunkSize >= c * ChunkSize;
    c
  }

  /** The chunk starting at offset `k * ChunkSize`: `t[i:i + ChunkSize]`. */
  function ChunkAt(t: string, k: nat): string
  {
    PySlice(t, k * ChunkSize, k * ChunkSize + ChunkSize)
  }

  /** A chunk that starts inside the text is the non-empty slice up to the
      next chunk boundary or the end of the text. */
  lemma ChunkAtShape(t: string, k: nat)
    requires k < ChunkCount(|t|)
    ensures ChunkAt(t, k) == t[k * ChunkSize..Min(k * ChunkSize + ChunkSize, |t|)]
    ensures 0 < |ChunkAt(t, k)| <= ChunkSize
    ensures k + 1 < ChunkCount(|t|) ==> |ChunkAt(t, k)| == ChunkSize
  {
  }

  /** `[t[i:i+ChunkSize] for i in range(0, len(t), ChunkSize)][:MaxChunks]`.
      At most ten chunks, none empty, none longer than the chunk size, all
      but the last exactly the chunk size; together they spell the first
      ten chunk sizes' worth of the text. */
  function ChunkText(t: string): (chunks: seq<string>)
    ensures |chunks| == Min(MaxChunks, ChunkCount(|t|))
    ensures forall k :: 0 <= k < |chunks| ==> chunks[k] == ChunkAt(t, k)
    ensures forall k :: 0 <= k < |chunks| ==> 0 < |chunks[k]| <= ChunkSize
    ensures forall k :: 0 <= k < |chunks| - 1 ==> |chunks[k]| == ChunkSize
    ensures Concat(chunks) == Prefix(t, MaxChunks * ChunkSize)
  {
    var n := ChunkCount(|t|);
    var all := seq(n, k requires 0 <= k < n => ChunkAt(t, k));
    var chunks := all[..Min(MaxChunks, n)];
    forall k | 0 <= k < |chunks|
      ensures 0 < |chunks[k]| <= ChunkSize
      ensures k < |chunks| - 1 ==> |chunks[k]| == ChunkSize
    {
      ChunkAtShape(t, k);
    }
    ConcatChunks(t, chunks, |chunks|);
    assert chunks[..|chunks|] == chunks;
    assert Min(|chunks| * ChunkSize, |t|) == Min(MaxChunks * ChunkSize, |t|);
    chunks
  }

  /** The first `m` chunks concatenate to the text up to the `m`-th chunk
      boundary. */
  lemma {:induction false} ConcatChunks(t: string, chunks: seq<string>, m: nat)
    requires m <= |chunks| <= ChunkCount(|t|)
    requires forall k :: 0 <= k < |chunks| ==> chunks[k] == ChunkAt(t, k)
    ensures Concat(chunks[..m]) == t[..Min(m * ChunkSize, |t|)]
  {
    if m > 0 {
      ConcatChunks(t, chunks, m - 1);
      assert chunks[..m][..m - 1] == chunks[..m - 1];
      ChunkAtShape(t, m - 1);
      var a := (m - 1) * ChunkSize;
      var b := Min(m * ChunkSize, |t|);
      assert t[..b] == t[..a] + t[a..b];
    }
  }

  /** `base_metadata` fields win over the heuristic ones exactly when they are
      truthy; falsy ones leave the heuristic value, and other keys are kept. */
  function MergeTruthy(m: Dict, base: Dict): (r: Dict)
    ensures r.Keys == m.Keys + (set k | k in base && Truthy(base[k]))
    ensures forall k :: k in base && Truthy(base[k]) ==> r[k] == base[k]
    ensures forall k :: k in m && !(k in base && Truthy(base[k])) ==> r[k] == m[k]
  {
    m + map k | k in base && Truthy(base[k]) :: base[k]
  }

  /** The text part of the record: the full text is the cleaned text cut to
      200,000 characters, the snippet its first 7,500 characters, and the
      chunks slice it exactly. */
  function Assemble(cleaned: string, metadata: Dict): (r: Extraction)
    ensures r.fullText == Prefix(cleaned, LimitTotal) && r.metadata == metadata
    ensures r.aiSnippet == Prefix(r.fullText, SnippetLength)
    ensures |r.chunks| == ChunkCount(|r.fullText|) <= MaxChunks
    ensures forall k :: 0 <= k < |r.chunks| ==> 0 < |r.chunks[k]| <= ChunkSize
    ensures forall k :: 0 <= k < |r.chunks| - 1 ==> |r.chunks[k]| == ChunkSize
    ensures Concat(r.chunks) == r.fullText
    ensures r.chunks == ChunkText(r.fullText)
  {
    var limited := Prefix(cleaned, LimitTotal);
    var chunks := ChunkText(limited);
    assert ChunkCount(|limited|) <= MaxChunks by {
      assert MaxChunks * ChunkSize >= |limited|;
    }
    Extraction(metadata, Prefix(limited, SnippetLength), chunks, limited)
  }

  /** `process_extracted_text`: the full text is the cleaned input cut to
      200,000 characters, the snippet its first 7,500, the chunks slice it
      exactly, and the metadata is the heuristic record with the truthy
      overrides merged in. */
  function ProcessExtractedText(text: string, title: string, base: Dict := map[]): (r: Extraction)
    ensures r.fullText == Prefix(CleanText(text), LimitTotal)
    ensures r.aiSnippet == Prefix(r.fullText, SnippetLength)
    ensures |r.chunks| == ChunkCount(|r.fullText|) <= MaxChunks
    ensures forall k :: 0 <= k < |r.chunks| ==> 0 < |r.chunks[k]| <= ChunkSize
    ensures forall k :: 0 <= k < |r.chunks| - 1 ==> |r.chunks[k]| == ChunkSize
    ensures Concat(r.chunks) == r.fullText
    ensures r.chunks == ChunkText(r.fullText)
    ensures r.metadata == MergeTruthy(ExtractMetadataHeuristics(r.fullText, title), base) - ReservedKeys
  {
    var cleaned := CleanText(text);
    var limited := Prefix(cleaned, LimitTotal);
    Assemble(cleaned, MergeTruthy(ExtractMetadataHeuristics(limited, title), base) - ReservedKeys)
  }

  /** Without overrides, every heuristic field reaches the record as the
      heuristics computed it on the full text. */
  lemma HeuristicFieldsWithoutOverrides(text: string, title: string)
    ensures var r := ProcessExtractedText(text, title);
      forall k :: k in MetadataKeys ==>
        k in r.metadata && r.metadata[k] == ExtractMetadataHeuristics(r.fullText, title)[k]
  {
    var r := ProcessExtractedText(text, title);
    FieldsSurviveEmptyMerge(ExtractMetadataHeuristics(r.fullText, title));
  }

  lemma FieldsSurviveEmptyMerge(m: Dict)
    requires m.Keys == MetadataKeys
    ensures var r := MergeTruthy(m, map[]) - ReservedKeys;
      forall k :: k in MetadataKeys ==> k in r && r[k] == m[k]
  {
    assert MergeTruthy(m, map[]) == m;
    MetadataKeysAreNotReserved();
  }

  /** The record's own keys do not shadow any heuristic field. */
  lemma MetadataKeysAreNotReserved()
    ensures MetadataKeys !! ReservedKeys
  {
    assert "publisher"[0] != "aiSnippet"[0];
    assert "keywords"[0] != "fullText"[0];
    assert "category"[0] != "fullText"[0];
  }
}
