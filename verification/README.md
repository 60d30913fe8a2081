# Document extraction: text normalisation and record building

This project models the deterministic core of a document-ingestion service,
written in Dafny. The service takes an uploaded file or a web URL. It turns the
content into plain text and returns one record. The record holds the cleaned
full text, a short snippet for a language model, the text cut into bounded
chunks, and best-effort bibliographic metadata.

The model covers:

- **Block-page detector** (`Blocked`). Text is judged an anti-bot, paywall
  or error page when it is shorter than 300 characters, or when its
  lower-cased form contains one of seventeen fixed phrases.
- **Text cleaner** (`Clean`). It removes `<script>` and `<style>` blocks,
  then every other tag, collapses whitespace runs to one space and trims the
  ends. Each regular-expression substitution is modelled the way Python's
  `re.sub` does it: the leftmost match first, no overlaps, a lazy closing tag.
- **Heuristic metadata** (`Heuristics`). The title comes from the file name.
  The year is the first word-bounded `19xx`/`20xx` token in the first 5,000
  characters. The publisher is the first known name, in list order, found
  ignoring case in the first 10,000 characters. The other fields take fixed
  defaults.
- **Record assembler and chunker** (`Record`). The Python service cleans
  the text and truncates it to 200,000 characters. The snippet is the first
  7,500 of those. The text is cut into chunks of 20,000, at most ten. Override
  metadata is merged in field by field, and only truthy values win.
- **The front end's twin** (`GasService`). This is the TypeScript version of
  the assembler. It truncates, snips and chunks with a loop, but does not
  clean. The model proves that its chunks are the same as the Python ones.
- **Request classification** of the `/api/extract` route (`ExtractRoute`).
  A blank URL gives 400. A missing or unnamed file gives 400. An extension
  outside `.pdf .docx .pptx .xlsx .txt .md .csv` gives 400 before any decoding.
  Fetched content that the block detector rejects gives 422. Decoded text
  that is blank gives 422. The acceptance gate of the reader-service fetch is
  part of the model.

Strings are `seq<char>`. The character classes are ASCII: `\s` and
`str.isspace()`, `\d`, and the `\w` class behind `\b`. `str.lower()` is
ASCII lower-casing, one character at a time. `Strings.LowerChar`,
`Strings.Lower`, `Strings.EndsWith` and `Heuristics.ReplaceUnderscores` are
these definitions of `str.lower()`, `str.endswith()` and
`str.replace("_", " ")`; they state no property of their own and have no row. Python dictionaries are
`map<string, Value>`, and `Value` has Python's truthiness. The document
decoders are an abstract function parameter `decode(bytes, format)`. So is
the reader service's HTTP call, `reader(url)`.

In these places the model follows the code:

- The 422 "empty file" test strips the *raw* decoded text. It does not look
  at the cleaned text. A file holding only markup therefore passes the test,
  and it yields a record with empty text and no chunks.
- The block check runs on the raw content returned by the reader service.
  It does not run on normalised text.
- The TypeScript `processExtractedText` does not clean its input. It only
  agrees with the Python assembler on text that is already clean.
- The year's word boundaries are judged inside the 5,000-character window.
  A four-digit token that ends exactly at the window's end therefore counts,
  even when a word character follows it in the full text: a token "20191"
  that follows a space and starts at index 4996 gives the year "2019". A year split by the window's end
  does not count.
- The code tries only one fetch strategy: the reader service. The code has
  no strategy chain and no registry lookup.
- The title rule cuts at the last dot whatever the hint is. A URL used as a
  page's title, because the page has none (api/extract.py:149), therefore
  loses everything after its last dot: `https://ex.com/a_b` becomes
  `https://ex`.

## Model

| member | source | states |
|---|---|---|
| `Strings.Contains` | api/extract.py:31 | Python's `p in s` holds exactly when `p` occurs at some index of `s` |
| `Strings.IndexOf` | api/extract.py:31 | the result is the leftmost occurrence at or after `from`, or none when no occurrence exists there |
| `Strings.Prefix` | api/extract.py:109 | `s[:n]` has length `min(n, |s|)` and is a prefix of `s` |
| `Strings.PySlice` | api/extract.py:118 | `s[i:j]` has length `min(j, |s|) - i` when `i` lies inside `s` before `j`, and 0 otherwise; its `k`-th character is `s[i + k]` |
| `Strings.JsSubstring` | services/gasService.ts:108-115 | `substring(i, j)` agrees with the Python slice when `i <= j` and swaps its bounds otherwise |
| `Strings.TrimStart` | api/extract.py:51 | removes exactly the leading whitespace and keeps every non-whitespace character |
| `Strings.TrimEnd` | api/extract.py:51 | removes exactly the trailing whitespace and keeps every non-whitespace character |
| `Strings.Strip` | api/extract.py:51 | `s.strip()` is the piece of `s` after its leading whitespace with only whitespace after it; it neither starts nor ends with whitespace and keeps every non-whitespace character in order |
| `Strings.Words` | api/extract.py:50-51 | each element of the word list is a non-empty run without whitespace |
| `Strings.WordsOfJoin` | api/extract.py:50-51 | splitting words joined by single spaces gives the same words back |
| `Strings.StripEmptyIffBlank` | api/extract.py:189 | `s.strip()` is empty if and only if every character of `s` is whitespace |
| `Blocked.AnyKeywordFrom` | api/extract.py:29-33 | the keyword loop finds a match exactly when some remaining keyword occurs, ignoring case |
| `Blocked.IsBlockedContent` | api/extract.py:16-33 | blocked if and only if the text is empty, shorter than 300, or contains a listed phrase ignoring case |
| `Blocked.LowerKeepsOccurrence` | api/extract.py:29-31 | an occurrence of a phrase remains an occurrence at the same index after lower-casing both |
| `Blocked.PhraseInAnyCaseIsBlocked` | api/extract.py:21-32 | text that contains a listed phrase in any letter case, such as "Access Denied", is blocked |
| `Clean.BlockMatch` | api/extract.py:44-45 | the match length is given exactly when the text starts with `<tag` (ignoring case, not running on into a word character), then up to its first `>`, then up to the first `</tag>` after that, ignoring case; none when that pattern fails |
| `Clean.RemoveBlocks` | api/extract.py:44-45 | block removal never lengthens the text and leaves text without `<` unchanged |
| `Clean.RemoveTags` | api/extract.py:47 | after tag replacement no `<` is followed by a `>`; text without `<` or without `>` is unchanged |
| `Clean.RemoveTagsOneTag` | api/extract.py:47 | a tag-free prefix, then a tag `<…>` with no `>` inside, then the rest: the prefix is kept, the tag becomes one space, and the rest is replaced in turn |
| `Clean.RemoveTagsKeepsStrayOpen` | api/extract.py:47 | a `<` with no `>` after it starts no tag, so it and the rest of the text are kept, after a tag-free prefix that may hold `>` |
| `Clean.CollapseSpaces` | api/extract.py:50 | runs become single plain spaces, the ends keep their whitespace status, no non-whitespace character is lost or added |
| `Clean.StripMarkup` | api/extract.py:43-47 | the markup-free text holds no tag, and text without `<` passes unchanged |
| `Clean.SqueezeJoinsWords` | api/extract.py:50-51 | collapsing whitespace runs and stripping gives the words of the text joined by single spaces |
| `Clean.Squeeze` | api/extract.py:50-51 | collapsing and stripping gives exactly `" ".join(s.split())`: trimmed, single-spaced text with the same non-whitespace characters |
| `Clean.CleanText` | api/extract.py:35-51 | empty gives empty; the result is the words of the markup-free text joined by single spaces, so it has no tag, no whitespace at the ends, no two adjacent whitespace characters, and keeps the non-whitespace characters of the markup-free text in order |
| `Clean.NoTagKeptByNonSpace` | api/extract.py:47-51 | collapsing and trimming whitespace cannot bring back a tag |
| `Clean.RemoveBlocksKeepsTagFree` | api/extract.py:44-45 | text without tags has no script or style block to remove |
| `Clean.RemoveTagsKeepsTagFree` | api/extract.py:47 | text without tags is left unchanged by tag replacement |
| `Clean.CollapseKeepsSingleSpaces` | api/extract.py:50 | text that is already single-spaced with plain spaces is left unchanged |
| `Clean.CleanTextFixedPoints` | api/extract.py:35-51 | `clean_text(s) == s` if and only if `s` is clean: no tag, trimmed, single plain spaces |
| `Clean.CleanTextIdempotent` | api/extract.py:35-51 | cleaning cleaned text changes nothing |
| `Heuristics.TitleFromName` | api/extract.py:84 | without a dot, the name itself; with one, the text before the last dot with `_` made spaces |
| `Heuristics.FindYear` | api/extract.py:93 | the leftmost index at or after `from` where a word-bounded 19xx/20xx token starts, or none |
| `Heuristics.ExtractYear` | api/extract.py:93-95 | empty if and only if no year token lies in the first 5,000 characters; otherwise the leftmost one, always four digits starting 19 or 20 |
| `Heuristics.FirstPublisher` | api/extract.py:97-101 | the first list entry at or after `from` that occurs in the lower-cased window, and none before it |
| `Heuristics.ExtractPublisher` | api/extract.py:97-101 | empty if and only if no entry occurs, ignoring case, in the first 10,000 characters; otherwise the earliest entry in list order that does |
| `Heuristics.ExtractMetadataHeuristics` | api/extract.py:81-103 | the record has exactly the seven keys; title, year and publisher come from the heuristics; authors and keywords are empty; category and type are "Original Research" and "Literature" |
| `Record.ChunkCount` | api/extract.py:118 | `range(0, n, 20000)` yields an offset `k*20000` exactly when that offset is below `n` |
| `Record.ChunkAtShape` | api/extract.py:118 | a chunk starting inside the text is non-empty, at most 20,000 long, and exactly 20,000 unless it is the last |
| `Record.ChunkText` | api/extract.py:117-118 | at most ten chunks, `min(10, ceil(n/20000))` of them, none empty, all but the last full, concatenating to the text's first 200,000 characters |
| `Record.ConcatChunks` | api/extract.py:118 | the first `m` chunks concatenate to the text up to the `m`-th chunk boundary |
| `Record.MergeTruthy` | api/extract.py:112-114 | truthy overrides replace or add their keys; falsy overrides and keys absent from the overrides keep the heuristic value |
| `Record.Assemble` | api/extract.py:108-118 | full text is the 200,000-character prefix; the snippet is its 7,500-character prefix; the chunks are `ChunkText` of the full text, number `ceil(|fullText|/20000)` (at most 10), are bounded, and concatenate to the full text |
| `Record.HeuristicFieldsWithoutOverrides` | api/extract.py:111-125 | without overrides, each of the seven heuristic fields reaches the record as computed on the full text |
| `Record.ProcessExtractedText` | api/extract.py:105-125 | full text is `clean_text(input)[:200000]`, snippet `fullText[:7500]`, chunks the `ChunkText` of the full text (bounded and reproducing it), metadata the heuristic record with truthy overrides merged in, without the result's own keys |
| `GasService.ProcessExtractedTextTs` | services/gasService.ts:106-124 | title is `defaultTitle` (default `""`); full text the input's prefix of length `min(200000, |input|)`; the snippet its prefix of length `min(7500, |fullText|)`; `ceil(|fullText|/20000)` ≤ 10 chunks, bounded, all but the last full, concatenating to the full text; the full text, snippet and chunks are the Python assembler's prefix, prefix and `ChunkText` of the same text, so both implementations agree on cleaned text |
| `ExtractRoute.ClassifyFilename` | api/extract.py:161-187 | each decoder is chosen if and only if the lower-cased name ends in its extension; the name is refused if and only if it ends in no supported extension |
| `ExtractRoute.EndChars` | api/extract.py:166-184 | a name ending in an extension ends in that extension's last two characters |
| `ExtractRoute.ExtensionTails` | api/extract.py:166-184 | the supported extensions differ in their last two characters, so a name ends in at most one of them |
| `ExtractRoute.AcceptReply` | api/extract.py:60-76 | a reply is used if and only if the call returned status 200 with content that is not blocked; the content and title are passed on unchanged |
| `ExtractRoute.Extract` | api/extract.py:130-193 | blank URL gives 400; a refused fetch gives 422; a missing file part, an empty name or an unsupported extension gives 400; blank decoded text gives 422; otherwise success with the assembled record, titled by the page title or URL, or by the file name |
| `ExtractRoute.UnsupportedNeverDecodes` | api/extract.py:161-187 | for an unsupported extension the response is a 400, the same whatever the decoders do |
| `ExtractRoute.UrlSuccessIsNotBlocked` | api/extract.py:137-151 | a URL request never consults the decoders, and it succeeds only with a status-200 reply whose content is not blocked |
| `Scenarios.TitleOfReportFile` | api/extract.py:84 | `Climate_Report.pdf` is titled `Climate Report` |
| `Scenarios.TitleWithoutExtension` | api/extract.py:84 | `Climate_Report` keeps its underscore |
| `Scenarios.TitleWithTwoDots` | api/extract.py:84 | only the last dot starts the extension: `v1.2_notes.txt` gives `v1.2 notes` |
| `Scenarios.YearOfReport` | api/extract.py:93-95 | the year of "in 2019 by Springer" is "2019" |
| `Scenarios.PublisherOfReport` | api/extract.py:97-101 | the publisher of "in 2019 by Springer" is "Springer" |
| `Scenarios.YearNeedsWordBoundaries` | api/extract.py:93 | "ISBN2019x" holds no year |
| `Scenarios.MergeExample` | api/extract.py:112-114 | merging `{year: "2021", publisher: ""}` into `{year: "2020", publisher: "Elsevier"}` gives `{year: "2021", publisher: "Elsevier"}` |
| `Scenarios.LongPlainTextIsAccepted` | api/extract.py:18-33 | text of at least 300 characters that contains no phrase is not blocked |
| `Scenarios.LongTextFillsTenChunks` | api/extract.py:108-118 | cleaned text of at least 200,000 characters gives a 200,000-character full text and ten full chunks |
| `Scenarios.TenFullChunks` | api/extract.py:117-118 | ten chunks that concatenate to a 200,000-character text are all exactly 20,000 characters long |
| `Scenarios.ShortTextIsItsOwnSnippet` | api/extract.py:108-116 | cleaned text of at most 7,500 characters is its own snippet |
| `Scenarios.UrlTitleIsCutAtLastDot` | api/extract.py:84 | the URL `https://ex.com/a_b` used as a title becomes `https://ex` |
| `Scenarios.StrayOpenAfterCloseIsKept` | api/extract.py:47 | "if a > b and c < d" passes tag replacement unchanged |
| `Scenarios.WhitespaceRunSeparatesWords` | api/extract.py:50-51 | two words with any whitespace run between them are cleaned to the two words with one space between |
| `Scenarios.ReportUploadEndToEnd` | api/extract.py:153-193 | a PDF upload `Climate_Report.pdf` whose text is "in 2019 by Springer" succeeds with that full text, title "Climate Report", year "2019" and publisher "Springer" |

## Left out

- The HTTP call to the reader service in `fetch_with_jina` (api/extract.py:53-79). It is network I/O, so the model takes it as the parameter `reader`. A call that raised is `None`, and its logging is left out. The status-200 and block-page gate is modelled.
- Binary decoding with pypdf, python-docx, python-pptx and openpyxl (api/extract.py:166-183). UTF-8 decoding with `errors='ignore'` (api/extract.py:38-39, 185) is left out too. These are foreign libraries, so the model takes them as the parameter `decode`. `clean_text`'s `bytes` and `str(text)` branches therefore have no counterpart, and its input is always a string.
- Flask routing, `request.is_json` and JSON parsing are transport concerns and are left out. So are the JSON responses, the 25 MB `MAX_CONTENT_LENGTH` (api/extract.py:9-14) and the exception-to-500 catch-all (api/extract.py:195-197). A URL request carries a string, and `""` stands for a missing key. A `null` URL, which raises in the source, is not modelled.
- Every function in services/gasService.ts except `processExtractedText` is left out: they are Google Apps Script and HTTP calls, toasts and console logging.
- Non-ASCII characters are left out. Python's `\s`, `\d`, `\w`, `str.isspace()` and `str.lower()` also act on non-ASCII characters, and `re.I` folds letters such as `ſ` and `K` (Kelvin). The model's classes stop at ASCII.
- UTF-16 and code-point indexing are not told apart: TypeScript's `substring` and Python's slicing both work on one abstract `seq<char>` here.
- The code has no strategy chain, registry lookup, browser automation or metadata-only success, so none is modelled.
- The result of `process_extracted_text` is one flat dictionary. The model splits it into the metadata dictionary and three text fields. Metadata keys named `aiSnippet`, `chunks` or `fullText` are dropped, because the source's later keys overwrite them.
- Clean.RemoveBlocks: its contract states only that it never lengthens text and leaves text without `<` alone. It does not state that no block survives. That would be false: `re.sub` does not rescan, so removing an inner block can join the text around it into a new block.
- Clean.CollapseSpaces: its contract fixes the characters kept and the spacing shape, but not where each single space stands. Where the spaces stand after stripping is stated by `Clean.Squeeze` and `Clean.SqueezeJoinsWords`.
- Clean.RemoveTags: its contract states only that no tag is left and the identity cases. That each tag becomes one space is stated separately, by `Clean.RemoveTagsOneTag`. That a `<` with no `>` after it is kept is stated by `Clean.RemoveTagsKeepsStrayOpen`. Together with the identity for text without `<`, these two lemmas fix the result on every string.
- Clean.StripMarkup: its contract has the same gap as `Clean.RemoveBlocks`. It does not state that no script or style block survives.
