/** The request classification of the `/api/extract` route: which decoder a
    file name selects, which requests are refused before anything is
    decoded or fetched, and the gate that accepts fetched web content only
    when it is not a block page. Decoders and the HTTP call to the reader
    service are parameters of the model. */
module ExtractRoute {
  import opened Options
  import opened Strings
  import opened Values
  import opened Blocked
  import opened Record

  newtype byte = x: int | 0 <= x < 256

  /** The decoder kinds the route dispatches to. */
  datatype Format = Pdf | Docx | Pptx | Xlsx | PlainText

  datatype Upload = Upload(filename: string, bytes: seq<byte>)

  /** A JSON body carrying a URL (`""` when the key is missing), or a
      multipart form whose `file` part may be missing. */
  datatype Request = UrlRequest(url: string) | FileRequest(file: Option<Upload>)

  datatype Response = Success(data: Extraction) | Error(status: int, message: string)

  /** What the reader service answers for a URL: the HTTP status and the
      `content`, `title` and `description` of its `data` object (`""` for a
      missing one). */
  datatype ReaderReply = ReaderReply(status: int, content: string, title: string, description: string)

  /** Content the reader service returned and the gate accepted. */
  datatype Fetched = Fetched(content: string, title: string, description: string)

  const NoUrlMessage: string := "No URL provided"
  const BlockedMessage: string := "Content is protected or blocked by security."
  const NoFilePartMessage: string := "No file part"
  const NoFileSelectedMessage: string := "No file selected"
  const EmptyFileMessage: string := "The file seems to be empty or contains only images/scans."

  function UnsupportedMessage(filenameLower: string): string
  {
    "Format " + filenameLower + " is not supported yet."
  }

  /** The name ends in one of the extensions the route accepts:
      `.pdf .docx .pptx .xlsx .txt .md .csv`. */
  predicate EndsWithSupported(n: string)
  {
    || EndsWith(n, ".pdf") || EndsWith(n, ".docx") || EndsWith(n, ".pptx") || EndsWith(n, ".xlsx")
    || EndsWith(n, ".txt") || EndsWith(n, ".md") || EndsWith(n, ".csv")
  }

  /** The decoder a lower-cased file name selects by its extension, tried in
      the route's order; `None` for a name that ends in no supported
      extension. */
  function ClassifyFilename(filenameLower: string): (f: Option<Format>)
    ensures f == Some(Pdf) <==> EndsWith(filenameLower, ".pdf")
    ensures f == Some(Docx) <==> EndsWith(filenameLower, ".docx")
    ensures f == Some(Pptx) <==> EndsWith(filenameLower, ".pptx")
    ensures f == Some(Xlsx) <==> EndsWith(filenameLower, ".xlsx")
    ensures f == Some(PlainText) <==>
      EndsWith(filenameLower, ".txt") || EndsWith(filenameLower, ".md") || EndsWith(filenameLower, ".csv")
    ensures f.None? <==> !EndsWithSupported(filenameLower)
  {
    var n := filenameLower;
    ExtensionTails(n);
    if EndsWith(n, ".pdf") then Some(Pdf)
    else if EndsWith(n, ".docx") then Some(Docx)
    else if EndsWith(n, ".pptx") then Some(Pptx)
    else if EndsWith(n, ".xlsx") then Some(Xlsx)
    else if EndsWith(n, ".txt") || EndsWith(n, ".md") || EndsWith(n, ".csv") then Some(PlainText)
    else None
  }

  /** A string ending in a suffix ends in the suffix's last two characters. */
  lemma EndChars(n: string, e: string)
    requires |e| >= 2 && EndsWith(n, e)
    ensures n[|n| - 1] == e[|e| - 1] && n[|n| - 2] == e[|e| - 2]
  {
    assert n[|n| - |e|..][|e| - 1] == n[|n| - 1];
    assert n[|n| - |e|..][|e| - 2] == n[|n| - 2];
  }

  /** The last two characters that tell the supported extensions apart. */
  lemma ExtensionTails(n: string)
    ensures EndsWith(n, ".pdf") ==> n[|n| - 1] == 'f'
    ensures EndsWith(n, ".docx") ==> n[|n| - 1] == 'x' && n[|n| - 2] == 'c'
    ensures EndsWith(n, ".pptx") ==> n[|n| - 1] == 'x' && n[|n| - 2] == 't'
    ensures EndsWith(n, ".xlsx") ==> n[|n| - 1] == 'x' && n[|n| - 2] == 's'
    ensures EndsWith(n, ".txt") ==> n[|n| - 1] == 't'
    ensures EndsWith(n, ".md") ==> n[|n| - 1] == 'd'
    ensures EndsWith(n, ".csv") ==> n[|n| - 1] == 'v'
  {
    if EndsWith(n, ".pdf") { EndChars(n, ".pdf"); }
    if EndsWith(n, ".docx") { EndChars(n, ".docx"); }
    if EndsWith(n, ".pptx") { EndChars(n, ".pptx"); }
    if EndsWith(n, ".xlsx") { EndChars(n, ".xlsx"); }
    if EndsWith(n, ".txt") { EndChars(n, ".txt"); }
    if EndsWith(n, ".md") { EndChars(n, ".md"); }
    if EndsWith(n, ".csv") { EndChars(n, ".csv"); }
  }

  /** The acceptance gate of the reader fetch: a reply is used only when the
      call returned, with status 200, content that is not a block page. */
  function AcceptReply(reply: Option<ReaderReply>): (r: Option<Fetched>)
    ensures r.Some? <==> reply.Some? && reply.value.status == 200 && !IsBlockedContent(reply.value.content)
    ensures r.Some? ==> r.value.content == reply.value.content && r.value.title == reply.value.title
    ensures r.Some? ==> |r.value.content| >= MinContentLength
  {
    match reply
    case None => None
    case Some(rep) =>
      if rep.status != 200 then None
      else if IsBlockedContent(rep.content) then None
      else if |rep.content| > 0 then Some(Fetched(rep.content, rep.title, rep.description))
      else None
  }

  /** The `/api/extract` route. `reader` is the reader service's HTTP call
      (`None` when it raised); `decode` turns the bytes of a supported file
      into text. A blank URL, a missing file part, an empty file name and an
      unsupported extension give 400; fetched content that the gate refuses,
      and decoded text that is blank, give 422; anything else is processed
      into a record titled by the page title (or the URL) or the file name. */
  function Extract(req: Request, reader: string -> Option<ReaderReply>, decode: (seq<byte>, Format) -> string): (r: Response)
    ensures req.UrlRequest? && Strip(req.url) == "" ==> r == Error(400, NoUrlMessage)
    ensures req.UrlRequest? && Strip(req.url) != "" ==>
      var url := Strip(req.url);
      match AcceptReply(reader(url))
      case None => r == Error(422, BlockedMessage)
      case Some(got) =>
        && !IsBlockedContent(got.content)
        && r == Success(ProcessExtractedText(got.content, if got.title != "" then got.title else url))
    ensures req.FileRequest? && req.file.None? ==> r == Error(400, NoFilePartMessage)
    ensures req.FileRequest? && req.file.Some? && req.file.value.filename == "" ==> r == Error(400, NoFileSelectedMessage)
    ensures req.FileRequest? && req.file.Some? && req.file.value.filename != "" ==>
      var name := req.file.value.filename;
      match ClassifyFilename(Lower(name))
      case None => r == Error(400, UnsupportedMessage(Lower(name)))
      case Some(fmt) =>
        var text := decode(req.file.value.bytes, fmt);
        && ((forall i :: 0 <= i < |text| ==> IsSpace(text[i])) ==> r == Error(422, EmptyFileMessage))
        && (!(forall i :: 0 <= i < |text| ==> IsSpace(text[i])) ==> r == Success(ProcessExtractedText(text, name)))
  {
    match req
    case UrlRequest(raw) =>
      var url := Strip(raw);
      if url == "" then Error(400, NoUrlMessage)
      else
        (match AcceptReply(reader(url))
         case None => Error(422, BlockedMessage)
         case Some(got) =>
           if got.content == "" then Error(422, BlockedMessage)
           else Success(ProcessExtractedText(got.content, if got.title != "" then got.title else url)))
    case FileRequest(None) => Error(400, NoFilePartMessage)
    case FileRequest(Some(file)) =>
      if file.filename == "" then Error(400, NoFileSelectedMessage)
      else
        var lower := Lower(file.filename);
        match ClassifyFilename(lower)
        case None => Error(400, UnsupportedMessage(lower))
        case Some(fmt) =>
          var text := decode(file.bytes, fmt);
          StripEmptyIffBlank(text);
          if Strip(text) == "" then Error(422, EmptyFileMessage)
          else Success(ProcessExtractedText(text, file.filename))
  }

  /** A file with an unsupported extension is refused before any decoder
      runs: the response is the same whatever the decoders would do. */
  lemma UnsupportedNeverDecodes(req: Request, reader: string -> Option<ReaderReply>,
                                decode1: (seq<byte>, Format) -> string, decode2: (seq<byte>, Format) -> string)
    requires req.FileRequest? && req.file.Some?
    requires ClassifyFilename(Lower(req.file.value.filename)).None?
    ensures Extract(req, reader, decode1) == Extract(req, reader, decode2)
    ensures Extract(req, reader, decode1).Error? && Extract(req, reader, decode1).status == 400
  {
  }

  /** A URL request succeeds only with fetched content the block detector
      accepts, and never consults the decoders. */
  lemma UrlSuccessIsNotBlocked(url: string, reader: string -> Option<ReaderReply>,
                               decode1: (seq<byte>, Format) -> string, decode2: (seq<byte>, Format) -> string)
    ensures Extract(UrlRequest(url), reader, decode1) == Extract(UrlRequest(url), reader, decode2)
    ensures Extract(UrlRequest(url), reader, decode1).Success? ==>
      && reader(Strip(url)).Some?
      && reader(Strip(url)).value.status == 200
      && !IsBlockedContent(reader(Strip(url)).value.content)
  {
  }
}
