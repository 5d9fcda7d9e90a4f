/**
 The OCR.space helper: the guards before a request (the file must exist and
 its extension must name a known image or PDF type), the request it sends,
 and how the parsed JSON answer is turned into the extracted text.

 JSON values stand for the Python objects `response.json()` returns, so
 `null` is `None`, an object is a `dict` (the last of repeated keys wins)
 and an array is a `list`.
 */
module OcrSpace {
  import opened Wrappers
  import opened Json
  import Text
  import PyPath

  const ApiUrl := "https://api.ocr.space/parse/image"
  const DefaultLanguage := "eng"
  const Engine := 2

  /**
   The MIME type for a file extension (including its dot), compared after
   lower-casing. Only ASCII letters lower-case into the known extensions,
   so Latin-1 lower-casing decides membership the same way Python's does.
   */
  function MimeFor(ext: string): (m: Option<string>)
    ensures m.Some? <==> Text.ToLower(ext) in [".jpg", ".jpeg", ".png", ".gif", ".bmp", ".pdf"]
    ensures Text.ToLower(ext) in [".jpg", ".jpeg"] ==> m == Some("image/jpeg")
    ensures Text.ToLower(ext) == ".png" ==> m == Some("image/png")
    ensures Text.ToLower(ext) == ".gif" ==> m == Some("image/gif")
    ensures Text.ToLower(ext) == ".bmp" ==> m == Some("image/bmp")
    ensures Text.ToLower(ext) == ".pdf" ==> m == Some("application/pdf")
  {
    var e := Text.ToLower(ext);
    if e == ".jpg" || e == ".jpeg" then Some("image/jpeg")
    else if e == ".png" then Some("image/png")
    else if e == ".gif" then Some("image/gif")
    else if e == ".bmp" then Some("image/bmp")
    else if e == ".pdf" then Some("application/pdf")
    else None
  }

  /** The lookup ignores case: an extension and its lower-cased form map alike. */
  lemma MimeIgnoresCase(ext: string)
    ensures MimeFor(Text.ToLower(ext)) == MimeFor(ext)
  {
    Text.ToLowerIdempotent(ext);
  }

  /** Upper-case extensions are recognised. */
  lemma UpperCaseJpeg()
    ensures MimeFor(".JPG") == Some("image/jpeg")
    ensures MimeFor(".PDF") == Some("application/pdf")
  {
    assert Text.ToLower(".JPG") == ".jpg";
    assert Text.ToLower(".PDF") == ".pdf";
  }

  /** Python truthiness of a value taken from a JSON document. */
  predicate PyTruthy(v: Json) {
    match v
    case JNull => false
    case JBool(b) => b
    case JNum(n) => n != 0.0
    case JStr(s) => s != ""
    case JArr(elems) => elems != []
    case JObj(fields) => fields != []
  }

  /** `x == False` in Python holds for `False` and for numeric zero; a missing key gives `None`. */
  predicate EqualsFalse(v: Option<Json>) {
    v == Some(JBool(false)) || v == Some(JNum(0.0))
  }

  /**
   The answer's interpretation: the stripped text of the first parsed
   result when processing did not fail. Every other shape, and every lookup
   that would raise (a missing key, indexing a non-list, stripping a
   non-string), ends in `None`.
   */
  function Interpret(result: Json): (text: Option<string>)
    ensures text.Some? ==>
      && result.JObj? && EqualsFalse(Lookup(result.fields, "IsErroredOnProcessing"))
      && var pr := Lookup(result.fields, "ParsedResults");
         pr.Some? && pr.value.JArr? && |pr.value.elems| > 0 && pr.value.elems[0].JObj?
         && var t := Lookup(pr.value.elems[0].fields, "ParsedText");
            t.Some? && t.value.JStr? && text == Some(Text.PyStrip(t.value.s))
    ensures result.JObj? && EqualsFalse(Lookup(result.fields, "IsErroredOnProcessing")) ==>
      var pr := Lookup(result.fields, "ParsedResults");
      pr.Some? && pr.value.JArr? && |pr.value.elems| > 0 && pr.value.elems[0].JObj? ==>
        var t := Lookup(pr.value.elems[0].fields, "ParsedText");
        t.Some? && t.value.JStr? ==> text == Some(Text.PyStrip(t.value.s))
  {
    if !PyTruthy(result) || !result.JObj? then None
    else if EqualsFalse(Lookup(result.fields, "IsErroredOnProcessing")) then
      var pr := Lookup(result.fields, "ParsedResults");
      if pr.None? || !PyTruthy(pr.value) || !pr.value.JArr? then None
      else
        var first := pr.value.elems[0];
        if !first.JObj? then None
        else
          var t := Lookup(first.fields, "ParsedText");
          if t.Some? && t.value.JStr? then Some(Text.PyStrip(t.value.s)) else None
    else None
  }

  /** A processing error, or a missing or empty result list, yields no text. */
  lemma FailuresYieldNothing(result: Json)
    ensures result.JObj? && Lookup(result.fields, "IsErroredOnProcessing") == Some(JBool(true)) ==>
      Interpret(result).None?
    ensures result.JObj? && Lookup(result.fields, "ParsedResults") in [None, Some(JArr([]))] ==>
      Interpret(result).None?
  {
  }

  /** The extracted text carries no leading or trailing whitespace. */
  lemma TextIsStripped(result: Json)
    ensures var text := Interpret(result);
      text.Some? && |text.value| > 0 ==>
        !Text.IsPySpace(text.value[0]) && !Text.IsPySpace(text.value[|text.value| - 1])
  {
  }

  /** The multipart request: the file's basename and MIME type, and the form fields. */
  datatype OcrRequest = OcrRequest(url: string, fileName: string, mime: string, apiKey: string,
                                   language: string, isOverlayRequired: bool, engine: int)

  /** What posting gave: `Failed` for a network error, an error status or a body that is not JSON. */
  datatype Transport = Failed | Parsed(result: Json)

  /** The request sent, if any, and the function's result. */
  datatype OcrRun = OcrRun(sent: Option<OcrRequest>, text: Option<string>)

  function ExtensionOf(imagePath: string): string {
    PyPath.SplitExt(imagePath).1
  }

  /**
   `get_text_from_image_ocr_space`. `found` is `os.path.exists`, `readable`
   whether opening the file for reading succeeds, and `post` the API's answer
   to a request.
   */
  function GetText(found: bool, readable: bool, imagePath: string, apiKey: string, language: string,
                   post: OcrRequest -> Transport): (run: OcrRun)
    ensures !found ==> run == OcrRun(None, None)
    ensures MimeFor(ExtensionOf(imagePath)).None? ==> run == OcrRun(None, None)
    ensures run.sent.Some? <==> found && readable && MimeFor(ExtensionOf(imagePath)).Some?
    ensures run.sent.Some? ==>
      run.sent.value == OcrRequest(ApiUrl, PyPath.Basename(imagePath), MimeFor(ExtensionOf(imagePath)).value,
                                   apiKey, language, false, Engine)
    ensures run.text.Some? ==> run.sent.Some? && post(run.sent.value).Parsed?
                               && run.text == Interpret(post(run.sent.value).result)
    ensures run.sent.Some? && post(run.sent.value).Parsed? ==> run.text == Interpret(post(run.sent.value).result)
  {
    if !found then OcrRun(None, None)
    else
      var mime := MimeFor(ExtensionOf(imagePath));
      if mime.None? || !readable then OcrRun(None, None)
      else
        var req := OcrRequest(ApiUrl, PyPath.Basename(imagePath), mime.value, apiKey, language, false, Engine);
        match post(req)
        case Failed => OcrRun(Some(req), None)
        case Parsed(result) => OcrRun(Some(req), Interpret(result))
  }

  /** A receipt photo in a directory is sent under its own name as a JPEG. */
  lemma ReceiptPhotoSent(dir: string, stem: string, apiKey: string, post: OcrRequest -> Transport)
    requires '/' !in stem && |stem| > 0 && stem[0] != '.'
    ensures var run := GetText(true, true, dir + "/" + stem + ".JPG", apiKey, DefaultLanguage, post);
      run.sent.Some? && run.sent.value.fileName == stem + ".JPG" && run.sent.value.mime == "image/jpeg"
  {
    PhotoParts(dir, stem);
    UpperCaseJpeg();
  }

  lemma PhotoParts(dir: string, stem: string)
    requires '/' !in stem && |stem| > 0 && stem[0] != '.'
    ensures var p := dir + "/" + stem + ".JPG";
      PyPath.Basename(p) == stem + ".JPG" && ExtensionOf(p) == ".JPG"
  {
    var ext, jpg := "JPG", ".JPG";
    assert '/' !in ext && '.' !in ext;
    assert jpg == "." + ext;
    var x := dir + "/" + stem;
    assert x + jpg == x + "." + ext && stem + jpg == stem + "." + ext;
    PathParts(dir, stem, ext);
  }

  /** The basename and extension of "dir/stem.ext", for any dot-free extension. */
  lemma PathParts(dir: string, stem: string, ext: string)
    requires '/' !in stem && |stem| > 0 && stem[0] != '.'
    requires '/' !in ext && '.' !in ext
    ensures var p := dir + "/" + stem + "." + ext;
      PyPath.Basename(p) == stem + "." + ext && ExtensionOf(p) == "." + ext
  {
    var file := stem + "." + ext;
    assert dir + "/" + stem + "." + ext == dir + "/" + file;
    assert '/' !in file by {
      PyPath.PrefixHasNoSlash(stem + ".", ext);
      assert forall k :: 0 <= k < |file| ==> file[k] == (if k < |stem| then stem[k] else if k == |stem| then '.' else ext[k - |stem| - 1]);
    }
    PyPath.BasenameOfChild(dir, file);
    PyPath.SplitExtOfPath(dir, stem, ext);
  }
}
