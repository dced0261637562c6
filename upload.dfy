/**
 * The decisions of the upload handler: JSON or HTML, the name the upload
 * is stored under, the reply for each outcome, and the escaping of the
 * transcript on the HTML page.
 */
module Upload {
  import opened Wrappers
  import opened Text
  import opened Http
  import opened Paths
  import opened Ocr

  // ---------------------------------------------------------------- negotiation

  /** The request wants JSON: its Accept header is there, is text, and mentions `application/json`. */
  function IsApiRequest(accept: Option<HeaderValue>): bool {
    match accept
    case None => false
    case Some(v) =>
      match ToStr(v)
      case None => false
      case Some(text) => Contains(text, "application/json")
  }

  /** JSON is chosen exactly when `application/json` occurs in a readable Accept header; HTML otherwise. */
  lemma ApiRequestIffJsonAccepted(accept: Option<HeaderValue>)
    ensures IsApiRequest(accept) <==>
      accept.Some? && ToStr(accept.value).Some? && exists i :: OccursAt(ToStr(accept.value).value, "application/json", i)
  {
    if accept.Some? && ToStr(accept.value).Some? {
      ContainsIffOccurs(ToStr(accept.value).value, "application/json");
    }
  }

  // ---------------------------------------------------------------- stored name

  predicate IsLowerHex(c: char) {
    '0' <= c <= '9' || 'a' <= c <= 'f'
  }

  /** The text of a UUID as `Uuid::to_string` writes it: 32 lower-case hex digits in groups of 8-4-4-4-12. */
  predicate IsHyphenatedUuid(u: string) {
    |u| == 36 &&
    forall i :: 0 <= i < |u| ==> if i == 8 || i == 13 || i == 18 || i == 23 then u[i] == '-' else IsLowerHex(u[i])
  }

  /** The file name the client sent, or "unnamed". */
  function OriginalName(fileName: Option<string>): string {
    fileName.GetOr("unnamed")
  }

  /** The name an upload is stored under: the UUID, followed by "." and the original extension if it has a non-empty one. */
  function RandomName(fileName: Option<string>, uuid: string): string {
    var extension := Extension(OriginalName(fileName)).GetOr("");
    if extension == "" then uuid else uuid + "." + extension
  }

  /** A UUID's text holds neither '/' nor '.'. */
  lemma UuidIsPlain(uuid: string)
    requires IsHyphenatedUuid(uuid)
    ensures '/' !in uuid && '.' !in uuid
  {
    forall i | 0 <= i < |uuid| ensures uuid[i] != '/' && uuid[i] != '.' { }
  }

  /** A plain stem, '.', and a plain extension make one component with that extension. */
  lemma StemDotExtension(stem: string, e: string)
    requires stem != "" && '/' !in stem && '.' !in stem
    requires e != "" && '/' !in e && '.' !in e
    ensures var name := stem + "." + e; FileName(name) == Some(name) && Extension(name) == Some(e)
  {
    var name := stem + "." + e;
    assert '/' !in name by {
      forall c | c in name ensures c != '/' {
        assert c in stem || c == '.' || c in e;
      }
    }
    assert name[..|stem|] == stem && name[|stem|] == '.' && name[|stem| + 1..] == e;
    PlainFileName(name);
    LastIndexOfAt(name, '.', |stem|);
  }

  /**
   * The stored name is a single path component beginning with the UUID,
   * so it names a file directly inside the upload directory, and its
   * extension is the original's (a missing or empty one gives none).
   */
  lemma StoredNameKeepsExtension(fileName: Option<string>, uuid: string)
    requires IsHyphenatedUuid(uuid)
    ensures var stored, original := RandomName(fileName, uuid), Extension(OriginalName(fileName));
      StartsWith(stored, uuid) &&
      FileName(stored) == Some(stored) &&
      Extension(stored) == (if original == Some("") then None else original)
  {
    var original := Extension(OriginalName(fileName));
    var stored := RandomName(fileName, uuid);
    UuidIsPlain(uuid);
    if original.None? || original == Some("") {
      assert stored == uuid;
      PlainFileName(uuid);
    } else {
      var e := original.value;
      ExtensionIsPlain(OriginalName(fileName));
      assert stored == uuid + "." + e;
      assert stored[..|uuid|] == uuid;
      StemDotExtension(uuid, e);
    }
  }

  /** An upload without a file name is stored under the bare UUID. */
  lemma UnnamedIsBareUuid(uuid: string)
    ensures RandomName(None, uuid) == uuid
  {
    assert '.' !in "unnamed";
  }

  // ---------------------------------------------------------------- escaping

  /** The transcript as the HTML page shows it: `&`, then `<`, then `>` replaced by their entities. */
  function EscapeHtml(s: string): string {
    ReplaceChar(ReplaceChar(ReplaceChar(s, '&', "&amp;"), '<', "&lt;"), '>', "&gt;")
  }

  /** The escape of a single character. */
  function EscapeChar(c: char): string {
    if c == '&' then "&amp;" else if c == '<' then "&lt;" else if c == '>' then "&gt;" else [c]
  }

  /** Escaping character by character: the reference the chained replacements are held to. */
  function EscapeEach(s: string): string
    decreases |s|
  {
    if s == [] then [] else EscapeChar(s[0]) + EscapeEach(s[1..])
  }

  lemma EscapeHtmlAppend(a: string, b: string)
    ensures EscapeHtml(a + b) == EscapeHtml(a) + EscapeHtml(b)
  {
    ReplaceCharAppend(a, b, '&', "&amp;");
    var a1, b1 := ReplaceChar(a, '&', "&amp;"), ReplaceChar(b, '&', "&amp;");
    ReplaceCharAppend(a1, b1, '<', "&lt;");
    ReplaceCharAppend(ReplaceChar(a1, '<', "&lt;"), ReplaceChar(b1, '<', "&lt;"), '>', "&gt;");
  }

  lemma ReplaceOne(c: char, from: char, repl: string)
    ensures ReplaceChar([c], from, repl) == if c == from then repl else [c]
  {
    assert [c][1..] == [];
  }

  lemma EscapeHtmlChar(c: char)
    ensures EscapeHtml([c]) == EscapeChar(c)
  {
    ReplaceOne(c, '&', "&amp;");
    if c == '&' {
      ReplaceCharAbsent("&amp;", '<', "&lt;");
      ReplaceCharAbsent("&amp;", '>', "&gt;");
    } else {
      ReplaceOne(c, '<', "&lt;");
      if c == '<' {
        ReplaceCharAbsent("&lt;", '>', "&gt;");
      } else {
        ReplaceOne(c, '>', "&gt;");
      }
    }
  }

  /** The three chained replacements escape each character on its own; the `&` pass going first keeps the later entities intact. */
  lemma {:induction false} EscapeHtmlIsPerCharacter(s: string)
    ensures EscapeHtml(s) == EscapeEach(s)
    decreases |s|
  {
    if s != [] {
      assert s == [s[0]] + s[1..];
      EscapeHtmlAppend([s[0]], s[1..]);
      EscapeHtmlChar(s[0]);
      EscapeHtmlIsPerCharacter(s[1..]);
    }
  }

  /** An escaped string holds no `<` and no `>`. */
  lemma {:induction false} EscapedHasNoAngleBrackets(s: string)
    ensures '<' !in EscapeHtml(s) && '>' !in EscapeHtml(s)
  {
    EscapeHtmlIsPerCharacter(s);
    EachHasNoAngleBrackets(s);
  }

  lemma {:induction false} EachHasNoAngleBrackets(s: string)
    ensures '<' !in EscapeEach(s) && '>' !in EscapeEach(s)
    decreases |s|
  {
    if s != [] {
      EachHasNoAngleBrackets(s[1..]);
    }
  }

  /** `&` followed by an entity name the escaping produces. */
  predicate BeginsEntity(s: string) {
    StartsWith(s, "&amp;") || StartsWith(s, "&lt;") || StartsWith(s, "&gt;")
  }

  /** Every `&` of an escaped string begins `&amp;`, `&lt;` or `&gt;`. */
  lemma EscapedAmpersandsBeginEntities(s: string)
    ensures forall i :: 0 <= i < |EscapeHtml(s)| && EscapeHtml(s)[i] == '&' ==> BeginsEntity(EscapeHtml(s)[i..])
  {
    EscapeHtmlIsPerCharacter(s);
    EachAmpersandsBeginEntities(s);
  }

  lemma {:induction false} EachAmpersandsBeginEntities(s: string)
    ensures forall i :: 0 <= i < |EscapeEach(s)| && EscapeEach(s)[i] == '&' ==> BeginsEntity(EscapeEach(s)[i..])
    decreases |s|
  {
    if s != [] {
      var head, rest := EscapeChar(s[0]), EscapeEach(s[1..]);
      EachAmpersandsBeginEntities(s[1..]);
      var r := head + rest;
      forall i | 0 <= i < |r| && r[i] == '&'
        ensures BeginsEntity(r[i..])
      {
        if i < |head| {
          assert i == 0;
          assert r[..|head|] == head;
        } else {
          assert r[i..] == rest[i - |head|..];
        }
      }
    }
  }

  /** Text with no `&`, `<` or `>` is shown as it is. */
  lemma EscapeLeavesPlainTextAlone(s: string)
    requires '&' !in s && '<' !in s && '>' !in s
    ensures EscapeHtml(s) == s
  {
    ReplaceCharAbsent(s, '&', "&amp;");
    ReplaceCharAbsent(s, '<', "&lt;");
    ReplaceCharAbsent(s, '>', "&gt;");
  }

  /** Reading the three entities back: the inverse of the escaping. */
  function Unescape(s: string): string
    decreases |s|
  {
    if s == [] then []
    else if StartsWith(s, "&amp;") then "&" + Unescape(s[5..])
    else if StartsWith(s, "&lt;") then "<" + Unescape(s[4..])
    else if StartsWith(s, "&gt;") then ">" + Unescape(s[4..])
    else [s[0]] + Unescape(s[1..])
  }

  /** Escaping loses nothing: the page's text reads back as the transcript. */
  lemma {:induction false} UnescapeEscape(s: string)
    ensures Unescape(EscapeHtml(s)) == s
  {
    EscapeHtmlIsPerCharacter(s);
    UnescapeEach(s);
  }

  lemma UnescapeOne(c: char, rest: string)
    ensures Unescape(EscapeChar(c) + rest) == [c] + Unescape(rest)
  {
    var r := EscapeChar(c) + rest;
    if c == '&' {
      assert r[..5] == "&amp;" && r[5..] == rest;
    } else if c == '<' {
      assert r[..4] == "&lt;" && r[4..] == rest;
      assert !StartsWith(r, "&amp;") by { assert r[1] == 'l'; }
    } else if c == '>' {
      assert r[..4] == "&gt;" && r[4..] == rest;
      assert !StartsWith(r, "&amp;") by { assert r[1] == 'g'; }
      assert !StartsWith(r, "&lt;") by { assert r[1] == 'g'; }
    } else {
      assert r[0] == c && r[1..] == rest;
    }
  }

  lemma {:induction false} UnescapeEach(s: string)
    ensures Unescape(EscapeEach(s)) == s
    decreases |s|
  {
    if s != [] {
      UnescapeOne(s[0], EscapeEach(s[1..]));
      UnescapeEach(s[1..]);
      assert s == [s[0]] + s[1..];
    }
  }

  // ---------------------------------------------------------------- replies

  /** The first multipart field: only the file name it carries matters to the reply. */
  datatype Field = Field(fileName: Option<string>)

  /** The outcome of `File::create` and `write_all` on the stored name. */
  datatype Storage = CreateFailed | WriteFailed | Written

  /** What the written file turned out to be. */
  datatype Analysis =
    | PathNotText                              // the saved path is not valid UTF-8
    | NotAnImage                               // content sniffing found no image
    | Analyzed(ocr: Result<OcrResult, IoError>) // an image, and what `get_ocr_result` gave

  /** `UploadResponse`: the JSON body. */
  datatype UploadReply = UploadReply(
    success: bool, message: string, ocrResult: string,
    imageWidth: u32, imageHeight: u32, ocrBoxes: seq<BoxItem>)

  /** What the handler answers: the JSON body, or an HTML page with its heading and, on a result page, the escaped transcript. */
  datatype Page = JsonPage(reply: UploadReply) | HtmlPage(heading: string, preformatted: Option<string>)

  const NotAnImageTitle := "\U{274C} The file type is not an image"
  const NotAnImageMessage := "The file type is not an image"
  const SuccessTitle := "OCR Result:"
  const SuccessMessage := "File uploaded successfully"

  /** The reply of a request that failed before anything was recognized. */
  function Failed(message: string): UploadReply {
    UploadReply(false, message, "", 0, 0, [])
  }

  /** The answer to a request stopped by `message`, as JSON or as an error page with `heading`. */
  function ErrorPage(api: bool, message: string, heading: string): Page {
    if api then JsonPage(Failed(message)) else HtmlPage(heading, None)
  }

  /** The OCR result when the saved file is an image whose recognition succeeded. */
  function RecognizedResult(analysis: Analysis): Option<OcrResult> {
    match analysis
    case Analyzed(Ok(r)) => Some(r)
    case _ => None
  }

  /**
   * `upload_file` with its collaborators as parameters: the Accept header,
   * the first multipart field, the UUID drawn for the stored name, and what
   * storing and analysing the file gave.
   */
  method UploadFile(accept: Option<HeaderValue>, field: Option<Field>, uuid: string, storage: Storage, analysis: Analysis)
    returns (page: Page, storedAs: Option<string>)
    ensures page.JsonPage? <==> IsApiRequest(accept)
    ensures storedAs == if field.Some? then Some(RandomName(field.value.fileName, uuid)) else None
    ensures page.JsonPage? ==>
      (page.reply.success <==> field.Some? && storage == Written && RecognizedResult(analysis).Some?)
    ensures field.None? ==>
      page == ErrorPage(IsApiRequest(accept), "No file received", "\U{274C} No file received")
    ensures field.Some? && storage == CreateFailed ==>
      page == ErrorPage(IsApiRequest(accept), "Unable to create file", "\U{274C} Unable to create file.")
    ensures field.Some? && storage == WriteFailed ==>
      page == ErrorPage(IsApiRequest(accept), "Failed to write file", "\U{274C} Failed to write file.")
    ensures field.Some? && storage == Written && RecognizedResult(analysis).None? ==>
      page == if IsApiRequest(accept) then JsonPage(Failed(NotAnImageMessage)) else HtmlPage(NotAnImageTitle, Some(""))
    ensures field.Some? && storage == Written && RecognizedResult(analysis).Some? ==>
      var r := RecognizedResult(analysis).value;
      page == if IsApiRequest(accept)
        then JsonPage(UploadReply(true, SuccessMessage, r.text, r.imageWidth, r.imageHeight, r.boxes))
        else HtmlPage(SuccessTitle, Some(EscapeHtml(r.text)))
    // the result page shows the transcript unaltered, and no markup can come from it
    ensures page.HtmlPage? && page.preformatted.Some? ==>
      '<' !in page.preformatted.value && '>' !in page.preformatted.value &&
      Unescape(page.preformatted.value) == if RecognizedResult(analysis).Some? then RecognizedResult(analysis).value.text else ""
  {
    var api := IsApiRequest(accept);
    if field.None? {
      page := ErrorPage(api, "No file received", "\U{274C} No file received");
      storedAs := None;
      return;
    }
    var randomName := RandomName(field.value.fileName, uuid);
    storedAs := Some(randomName);
    match storage {
      case CreateFailed =>
        page := ErrorPage(api, "Unable to create file", "\U{274C} Unable to create file.");
      case WriteFailed =>
        page := ErrorPage(api, "Failed to write file", "\U{274C} Failed to write file.");
      case Written =>
        var success := false;
        var title := NotAnImageTitle;
        var message := NotAnImageMessage;
        var ocrResultText := "";
        var imageWidth: u32 := 0;
        var imageHeight: u32 := 0;
        var ocrBoxes: seq<BoxItem> := [];
        if analysis.Analyzed? && analysis.ocr.Ok? {
          var r := analysis.ocr.value;
          ocrResultText := r.text;
          imageWidth := r.imageWidth;
          imageHeight := r.imageHeight;
          ocrBoxes := r.boxes;
          message := SuccessMessage;
          title := SuccessTitle;
          success := true;
        }
        if api {
          page := JsonPage(UploadReply(success, message, ocrResultText, imageWidth, imageHeight, ocrBoxes));
        } else {
          EscapedHasNoAngleBrackets(ocrResultText);
          UnescapeEscape(ocrResultText);
          page := HtmlPage(title, Some(EscapeHtml(ocrResultText)));
        }
    }
  }
}
