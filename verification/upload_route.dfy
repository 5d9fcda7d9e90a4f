/**
 `POST /api/upload`: the session and form guards, the clean-up of the
 model's answer (markdown code fences removed, whitespace trimmed) and the
 mapping of a parse failure to a 500 reply.
 */
module UploadRoute {
  import opened Wrappers
  import opened Json
  import Seqs
  import Text

  const Fence := "```"
  const JsonFence := "```json"

  /**
   `s.replace(/```json/g, '').replace(/```/g, '').trim()`: the result is no
   longer than the answer and neither starts nor ends with whitespace.
   */
  function Cleanup(s: string): (r: string)
    ensures |r| <= |s|
    ensures |r| > 0 ==> !Text.IsJsSpace(r[0]) && !Text.IsJsSpace(r[|r| - 1])
  {
    Text.JsTrim(Text.RemoveAll(Text.RemoveAll(s, JsonFence), Fence))
  }

  /** The clean-up only deletes characters: what is left appears in the answer in the same order. */
  lemma CleanupIsSubsequence(s: string)
    ensures Seqs.IsSubsequence(Cleanup(s), s)
  {
    var m1 := Text.RemoveAll(s, JsonFence);
    var m2 := Text.RemoveAll(m1, Fence);
    var e1 := Text.RemoveAllEmbedding(s, JsonFence);
    var e2 := Text.RemoveAllEmbedding(m1, Fence);
    var lo := Text.StartIndex(m2, Text.IsJsSpace, 0);
    var hi := Text.EndIndex(m2, Text.IsJsSpace, lo, |m2|);
    var e3 := Seqs.SliceEmbedding(m2, lo, hi);
    var e23 := Seqs.EmbeddingCompose(e3, m2[lo..hi], m2, e2, m1);
    var e := Seqs.EmbeddingCompose(e23, m2[lo..hi], m1, e1, s);
    Seqs.EmbeddingIsSubsequence(e, Cleanup(s), s);
  }

  predicate NoFence(s: string) {
    forall j :: 0 <= j < |s| ==> !Text.OccursAt(s, Fence, j)
  }

  /** Text with no fence is only trimmed. */
  lemma CleanupUnfenced(s: string)
    requires NoFence(s)
    ensures Cleanup(s) == Text.JsTrim(s)
  {
    forall j | 0 <= j < |s|
      ensures !Text.OccursAt(s, JsonFence, j)
    {
      if Text.OccursAt(s, JsonFence, j) {
        assert s[j..j + 3] == s[j..j + 7][..3];
        assert Text.OccursAt(s, Fence, j);
      }
    }
    Text.RemoveAllNoOccurrence(s, JsonFence);
    Text.RemoveAllNoOccurrence(s, Fence);
  }

  /** Whitespace around a fence-free text contributes no fence: no whitespace character is a backtick. */
  lemma NoFenceInPadded(w1: string, s: string, w2: string)
    requires Text.AllSatisfy(w1, Text.IsJsSpace) && Text.AllSatisfy(w2, Text.IsJsSpace) && NoFence(s)
    ensures NoFence(w1 + s + w2)
  {
    var t := w1 + s + w2;
    forall j | 0 <= j < |t|
      ensures !Text.OccursAt(t, Fence, j)
    {
      if Text.OccursAt(t, Fence, j) {
        assert t[j] == '`' && t[j + 2] == '`';
        assert j >= |w1|;
        assert j + 2 < |w1| + |s|;
        var k := j - |w1|;
        assert t[j..j + 3] == s[k..k + 3];
        assert Text.OccursAt(s, Fence, k);
      }
    }
  }

  /** The first pass removes the opening "```json" and nothing else. */
  lemma RemoveOpeningFence(t: string)
    requires NoFence(t)
    ensures Text.RemoveAll(JsonFence + t + Fence, JsonFence) == t + Fence
  {
    var u := JsonFence + t + Fence;
    assert Text.StartsWith(u, JsonFence);
    assert u[|JsonFence|..] == t + Fence;
    var v := t + Fence;
    forall j | 0 <= j < |v|
      ensures !Text.OccursAt(v, JsonFence, j)
    {
      if Text.OccursAt(v, JsonFence, j) {
        assert j + 3 <= |t|;
        assert v[j..j + 3] == v[j..j + 7][..3];
        assert t[j..j + 3] == v[j..j + 3];
        assert Text.OccursAt(t, Fence, j);
      }
    }
    Text.RemoveAllNoOccurrence(v, JsonFence);
  }

  /** A fence that starts inside `t` but ends in the appended fence starts with backticks of `t`. */
  lemma FenceStraddlesEnd(t: string, j: nat)
    requires j < |t| < j + 3 && Text.OccursAt(t + Fence, Fence, j)
    ensures t[j] == '`' && (j + 1 < |t| ==> t[j + 1] == '`')
  {
    var f := (t + Fence)[j..j + 3];
    assert f[0] == '`' && f[1] == '`';
    assert t[j] == f[0];
    if j + 1 < |t| {
      assert t[j + 1] == f[1];
    }
  }

  /** The start of the trailing run of at most two backticks of `t`. */
  function TrailingTicks(t: string): (p: nat)
    ensures |t| - 2 <= p <= |t|
    ensures forall k :: p <= k < |t| ==> t[k] == '`'
  {
    if |t| >= 2 && t[|t| - 2] == '`' && t[|t| - 1] == '`' then |t| - 2
    else if |t| >= 1 && t[|t| - 1] == '`' then |t| - 1
    else |t|
  }

  /** Before the trailing backticks of a fence-free `t`, no fence starts in `t + "```"`. */
  lemma NoEarlyFence(t: string)
    requires NoFence(t)
    ensures forall j :: 0 <= j < TrailingTicks(t) ==> !Text.OccursAt(t + Fence, Fence, j)
  {
    var v := t + Fence;
    var p := TrailingTicks(t);
    forall j | 0 <= j < p
      ensures !Text.OccursAt(v, Fence, j)
    {
      if Text.OccursAt(v, Fence, j) {
        if j + 3 <= |t| {
          assert t[j..j + 3] == v[j..j + 3];
          assert Text.OccursAt(t, Fence, j);
        } else {
          FenceStraddlesEnd(t, j);
        }
      }
    }
  }

  /** Up to two backticks before a fence survive its removal: the match is the last three. */
  lemma RemoveFenceAfterTicks(ticks: string)
    requires |ticks| <= 2 && forall k :: 0 <= k < |ticks| ==> ticks[k] == '`'
    ensures Text.RemoveAll(ticks + Fence, Fence) == ticks
  {
    if |ticks| == 2 {
      assert ticks == "``";
      assert ticks + Fence == "`````";
      assert Text.RemoveAll("``", Fence) == "``" by {
        assert !Text.StartsWith("``", Fence);
        assert !Text.StartsWith("`", Fence);
      }
    } else if |ticks| == 1 {
      assert ticks == "`";
      assert ticks + Fence == "````";
      assert Text.RemoveAll("`", Fence) == "`" by {
        assert !Text.StartsWith("`", Fence);
      }
    } else {
      assert ticks + Fence == Fence;
    }
  }

  /**
   The second pass removes the closing fence: the first match starts in the
   last two characters of `t` at the earliest, and backticks removed there
   are given back by the fence's own.
   */
  lemma RemoveClosingFence(t: string)
    requires NoFence(t)
    ensures Text.RemoveAll(t + Fence, Fence) == t
  {
    var v := t + Fence;
    var p := TrailingTicks(t);
    NoEarlyFence(t);
    Text.RemoveAllKeepsUnmatchedPrefix(v, Fence, p);
    var ticks := t[p..];
    assert v[..p] == t[..p] && v[p..] == ticks + Fence;
    RemoveFenceAfterTicks(ticks);
    assert t == t[..p] + ticks;
  }

  /**
   A fenced answer `"```json" + w1 + s + w2 + "```"` with whitespace padding
   and no fence inside `s` cleans to `s` trimmed.
   */
  lemma CleanupFenced(w1: string, s: string, w2: string)
    requires Text.AllSatisfy(w1, Text.IsJsSpace) && Text.AllSatisfy(w2, Text.IsJsSpace)
    requires NoFence(s)
    ensures Cleanup(JsonFence + w1 + s + w2 + Fence) == Text.JsTrim(s)
  {
    var t := w1 + s + w2;
    NoFenceInPadded(w1, s, w2);
    assert JsonFence + w1 + s + w2 + Fence == JsonFence + t + Fence;
    RemoveOpeningFence(t);
    RemoveClosingFence(t);
    Text.TrimPadded(w1, s, w2, Text.IsJsSpace);
  }

  /** A form field's value: an uploaded file or a plain text value. */
  datatype FormEntry = FileEntry(fileName: string) | TextEntry(text: string)

  /** What `processImageToNormalizedJson` did with the image. */
  datatype AiOutcome = AiText(text: string) | AiError(message: string) | AiThrewNonError

  const UnauthorizedMessage := "Unauthorized: You must be logged in to upload files."
  const NoFileMessage := "No file was provided."
  const FailedMessage := "Failed to process receipt."
  const NotJsonDetails := "AI returned a response that was not valid JSON."
  const UnknownDetails := "An unknown error occurred."
  /** What V8 reports when `fileToBase64` calls `arrayBuffer` on a text value. */
  const NotAFileDetails := "file.arrayBuffer is not a function"

  function FailureBody(details: string): Json {
    JObj([("error", JStr(FailedMessage)), ("details", JStr(details))])
  }

  /** `session?.user` is truthy. */
  predicate HasUser(session: Option<Json>) {
    TruthyOpt(Chain(session, "user"))
  }

  /** `!file`: no `image` field, or an empty text value. */
  predicate MissingFile(image: Option<FormEntry>) {
    image.None? || image.value == TextEntry("")
  }

  /**
   The handler. `decrypt` is session verification, `ai` is what the model did
   with this image and `parse` is `JSON.parse` (None where it throws).
   */
  function Handle(cookie: Option<string>, decrypt: string -> Option<Json>, image: Option<FormEntry>,
                  ai: AiOutcome, parse: string -> Option<Json>): (r: Reply)
    ensures r.status == 401 <==> !HasUser(decrypt(cookie.GetOr("")))
    ensures r.status == 401 ==> r == ErrorReply(401, UnauthorizedMessage)
    ensures r.status == 400 <==> HasUser(decrypt(cookie.GetOr(""))) && MissingFile(image)
    ensures r.status == 400 ==> r == ErrorReply(400, NoFileMessage)
    ensures r.status == 200 <==> HasUser(decrypt(cookie.GetOr(""))) && image.Some? && image.value.FileEntry?
                                 && ai.AiText? && parse(Cleanup(ai.text)).Some?
    ensures r.status == 200 ==> r.body == JObj([("text", parse(Cleanup(ai.text)).value)])
    ensures r.status !in {200, 400, 401} ==> r.status == 500 && r.body.JObj?
                                              && Lookup(r.body.fields, "error") == Some(JStr(FailedMessage))
    ensures r.status == 500 && image.Some? && image.value.FileEntry? && ai.AiText? ==>
      r.body == FailureBody(NotJsonDetails)
  {
    if !HasUser(decrypt(cookie.GetOr(""))) then ErrorReply(401, UnauthorizedMessage)
    else if MissingFile(image) then ErrorReply(400, NoFileMessage)
    else if image.value.TextEntry? then Reply(500, FailureBody(NotAFileDetails))
    else
      match ai
      case AiError(m) => Reply(500, FailureBody(m))
      case AiThrewNonError => Reply(500, FailureBody(UnknownDetails))
      case AiText(text) =>
        match parse(Cleanup(text))
        case None => Reply(500, FailureBody(NotJsonDetails))
        case Some(parsed) => Reply(200, JObj([("text", parsed)]))
  }

  /** A well-formed fenced answer reaches the client as the parsed trimmed JSON text. */
  lemma FencedAnswerAccepted(cookie: Option<string>, decrypt: string -> Option<Json>, fileName: string,
                             w1: string, s: string, w2: string, parse: string -> Option<Json>)
    requires HasUser(decrypt(cookie.GetOr("")))
    requires Text.AllSatisfy(w1, Text.IsJsSpace) && Text.AllSatisfy(w2, Text.IsJsSpace) && NoFence(s)
    requires parse(Text.JsTrim(s)).Some?
    ensures Handle(cookie, decrypt, Some(FileEntry(fileName)), AiText(JsonFence + w1 + s + w2 + Fence), parse)
         == Reply(200, JObj([("text", parse(Text.JsTrim(s)).value)]))
  {
    CleanupFenced(w1, s, w2);
  }
}
