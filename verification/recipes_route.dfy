/**
 `POST /api/recipes`: the session, API-key and body guards, the URL of the
 recipe search request, and how the upstream answer is passed on.
 */
module RecipesRoute {
  import opened Wrappers
  import opened Json
  import Uri
  import Text

  const Endpoint := "https://api.spoonacular.com/recipes/findByIngredients"
  const IngredientsKey := "ingredients="
  const NumberParam := "number=9"
  const RankingParam := "ranking=2"
  const PantryParam := "ignorePantry=true"
  const KeyKey := "apiKey="
  const SearchBase := Endpoint + "?" + IngredientsKey
  const FixedParams := "&" + NumberParam + "&" + RankingParam + "&" + PantryParam + "&" + KeyKey

  const UnauthorizedMessage := "Unauthorized: You must be logged in."
  const NoKeyMessage := "Spoonacular API key is not configured."
  const BadIngredientsMessage := "Ingredients must be provided as a string."
  const UpstreamFallback := "Failed to fetch recipes."
  const InternalMessage := "An internal server error occurred."

  /**
   The search URL: the endpoint, then a query that splits at "&" into the
   encoded ingredient list, the three fixed options and the key. The list
   decodes back to its UTF-8 bytes; a key holding "&" would add parameters.
   */
  function SearchUrl(ingredients: string, apiKey: string): (url: string)
    ensures Text.StartsWith(url, Endpoint + "?")
    ensures '&' !in apiKey ==>
      var params := Text.Split(url[|Endpoint| + 1..], '&');
      && |params| == 5
      && Text.StartsWith(params[0], IngredientsKey)
      && Uri.DecodeBytes(params[0][|IngredientsKey|..]) == Some(Uri.Utf8String(ingredients))
      && params[1..] == [NumberParam, RankingParam, PantryParam, KeyKey + apiKey]
  {
    var enc := Uri.Encode(ingredients);
    EncodingIsSeparable(ingredients);
    var url := SearchBase + enc + FixedParams + apiKey;
    QueryOf(enc, apiKey);
    if '&' !in apiKey then
      QueryParams(enc, apiKey);
      url
    else
      url
  }

  /** The encoded list holds no "&" and decodes to the list's UTF-8 bytes. */
  lemma EncodingIsSeparable(ingredients: string)
    ensures '&' !in Uri.Encode(ingredients)
    ensures Uri.DecodeBytes(Uri.Encode(ingredients)) == Some(Uri.Utf8String(ingredients))
  {
    var enc := Uri.Encode(ingredients);
    forall i | 0 <= i < |enc|
      ensures enc[i] != '&'
    {
      assert Uri.IsEncodedChar(enc[i]);
    }
    Uri.EncodeRoundTrip(ingredients);
  }

  /** The URL is the endpoint, "?", then the query. */
  lemma QueryOf(enc: string, apiKey: string)
    ensures var url := SearchBase + enc + FixedParams + apiKey;
      && Text.StartsWith(url, Endpoint + "?")
      && url[|Endpoint| + 1..] == IngredientsKey + enc + FixedParams + apiKey
  {
    var url := SearchBase + enc + FixedParams + apiKey;
    assert url == (Endpoint + "?") + (IngredientsKey + enc + FixedParams + apiKey);
  }

  /** The query splits at "&" into its five parameters when neither variable part holds "&". */
  lemma QueryParams(enc: string, apiKey: string)
    requires '&' !in enc && '&' !in apiKey
    ensures Text.Split(IngredientsKey + enc + FixedParams + apiKey, '&')
         == [IngredientsKey + enc, NumberParam, RankingParam, PantryParam, KeyKey + apiKey]
  {
    FixedPartsHaveNoAmpersand();
    assert '&' !in IngredientsKey + enc;
    assert '&' !in KeyKey + apiKey;
    var sep := ['&'];
    assert FixedParams == sep + NumberParam + sep + RankingParam + sep + PantryParam + sep + KeyKey;
    var joined := (IngredientsKey + enc) + sep + (NumberParam + sep + (RankingParam + sep + (PantryParam + sep + (KeyKey + apiKey))));
    assert IngredientsKey + enc + FixedParams + apiKey == joined;
    SplitFive(IngredientsKey + enc, NumberParam, RankingParam, PantryParam, KeyKey + apiKey, '&');
  }

  /** Five separator-free parts joined by the separator split back apart. */
  lemma SplitFive(a: string, b: string, c: string, d: string, e: string, sep: char)
    requires sep !in a && sep !in b && sep !in c && sep !in d && sep !in e
    ensures Text.Split(a + [sep] + (b + [sep] + (c + [sep] + (d + [sep] + e))), sep) == [a, b, c, d, e]
  {
    var t3 := c + [sep] + (d + [sep] + e);
    Text.SplitNoSeparator(e, sep);
    Text.SplitAtSeparator(d, sep, e);
    Text.SplitAtSeparator(c, sep, d + [sep] + e);
    Text.SplitAtSeparator(b, sep, t3);
    Text.SplitAtSeparator(a, sep, b + [sep] + t3);
  }

  lemma FixedPartsHaveNoAmpersand()
    ensures '&' !in IngredientsKey && '&' !in NumberParam && '&' !in RankingParam
    ensures '&' !in PantryParam && '&' !in KeyKey
  {
  }

  /** What `fetch` and `apiResponse.json()` gave; `data` is None when the body is not JSON. */
  datatype Upstream = Answered(ok: bool, status: int, data: Option<Json>) | FetchThrew

  /** `session?.user` is truthy. */
  predicate HasUser(session: Option<Json>) {
    TruthyOpt(Chain(session, "user"))
  }

  /** `!ingredients || typeof ingredients !== 'string'` is false: a non-empty string. */
  predicate ValidIngredients(v: Access) {
    v.Value? && v.v.JStr? && v.v.s != ""
  }

  /** `{ error: data.message || 'Failed to fetch recipes.' }`; the message is passed on as it is. */
  function UpstreamError(data: Json): (body: Json)
    requires !data.JNull?
    ensures body.JObj? && Lookup(body.fields, "error").Some?
    ensures data.JObj? && TruthyOpt(Lookup(data.fields, "message")) ==>
      Lookup(body.fields, "error") == Lookup(data.fields, "message")
    ensures !(data.JObj? && TruthyOpt(Lookup(data.fields, "message"))) ==>
      Lookup(body.fields, "error") == Some(JStr(UpstreamFallback))
  {
    var m := Member(data, "message");
    JObj([("error", if m.Value? && Truthy(m.v) then m.v else JStr(UpstreamFallback))])
  }

  /**
   The handler. `decrypt` is session verification, `apiKey` the configured key
   (None when unset), `body` the parsed request body (None when
   `request.json()` throws), and `upstream` what fetching a URL gives.
   */
  function Handle(cookie: Option<string>, decrypt: string -> Option<Json>, apiKey: Option<string>,
                  body: Option<Json>, upstream: string -> Upstream): (r: Reply)
    ensures !HasUser(decrypt(cookie.GetOr(""))) ==> r == ErrorReply(401, UnauthorizedMessage)
    ensures HasUser(decrypt(cookie.GetOr(""))) && (apiKey.None? || apiKey == Some("")) ==>
      r == ErrorReply(500, NoKeyMessage)
    ensures HasUser(decrypt(cookie.GetOr(""))) && apiKey.Some? && apiKey != Some("") ==>
      && (body.None? || body.value.JNull? ==> r == ErrorReply(500, InternalMessage))
      && (body.Some? && !body.value.JNull? && !ValidIngredients(Member(body.value, "ingredients")) ==>
            r == ErrorReply(400, BadIngredientsMessage))
    ensures HasUser(decrypt(cookie.GetOr(""))) && apiKey.Some? && apiKey != Some("")
            && body.Some? && ValidIngredients(Member(body.value, "ingredients")) ==>
      var up := upstream(SearchUrl(Member(body.value, "ingredients").v.s, apiKey.value));
      && (up.Answered? && up.data.Some? && up.ok ==> r == Reply(200, up.data.value))
      && (up.Answered? && up.data.Some? && !up.ok && !up.data.value.JNull? ==>
            r == Reply(up.status, UpstreamError(up.data.value)))
      && (up.FetchThrew? || up.data.None? || (!up.ok && up.data.value.JNull?) ==>
            r == ErrorReply(500, InternalMessage))
  {
    if !HasUser(decrypt(cookie.GetOr(""))) then ErrorReply(401, UnauthorizedMessage)
    else if apiKey.None? || apiKey.value == "" then ErrorReply(500, NoKeyMessage)
    else match body
      case None => ErrorReply(500, InternalMessage)
      case Some(b) =>
        var access := Member(b, "ingredients");
        if access.TypeError? then ErrorReply(500, InternalMessage)
        else if !ValidIngredients(access) then ErrorReply(400, BadIngredientsMessage)
        else
          match upstream(SearchUrl(access.v.s, apiKey.value))
          case FetchThrew => ErrorReply(500, InternalMessage)
          case Answered(ok, status, data) =>
            if data.None? then ErrorReply(500, InternalMessage)
            else if ok then Reply(200, data.value)
            else if data.value.JNull? then ErrorReply(500, InternalMessage)
            else Reply(status, UpstreamError(data.value))
  }

  /** The guards run in order: without a session nothing else is looked at. */
  lemma SessionCheckedFirst(cookie: Option<string>, decrypt: string -> Option<Json>,
                            key1: Option<string>, key2: Option<string>, body1: Option<Json>, body2: Option<Json>,
                            up1: string -> Upstream, up2: string -> Upstream)
    requires !HasUser(decrypt(cookie.GetOr("")))
    ensures Handle(cookie, decrypt, key1, body1, up1) == Handle(cookie, decrypt, key2, body2, up2)
  {
  }

  /** A missing key is reported before the body is read: no body makes a difference. */
  lemma KeyCheckedBeforeBody(cookie: Option<string>, decrypt: string -> Option<Json>,
                             body1: Option<Json>, body2: Option<Json>, up: string -> Upstream)
    requires HasUser(decrypt(cookie.GetOr("")))
    ensures Handle(cookie, decrypt, Some(""), body1, up) == Handle(cookie, decrypt, Some(""), body2, up)
  {
  }
}
