/**
 The Python Spoonacular helper: how the ingredients argument becomes the
 comma-separated `ingredients` parameter, and the request it sends.

 The argument is any Python value; JSON values stand for the shapes that
 matter (a `list`, a `str`, anything else).
 */
module Spoontac {
  import opened Wrappers
  import opened Json
  import Text

  const BaseUrl := "https://api.spoonacular.com"
  const SearchByIngredientsEndpoint := "/recipes/findByIngredients"
  const DefaultNumber := 5
  /** `f"{BASE_URL}{SEARCH_BY_INGREDIENTS_ENDPOINT}"`. */
  const SearchUrl := BaseUrl + SearchByIngredientsEndpoint

  predicate AllStrings(elems: seq<Json>) {
    forall i :: 0 <= i < |elems| ==> elems[i].JStr?
  }

  function Strings(elems: seq<Json>): (r: seq<string>)
    requires AllStrings(elems)
    ensures |r| == |elems| && forall i :: 0 <= i < |elems| ==> elems[i] == JStr(r[i])
  {
    seq(|elems|, i requires 0 <= i < |elems| => elems[i].s)
  }

  /**
   How the argument was turned into the parameter: `Raised` when `",".join`
   meets a non-string element (a `TypeError` that is not caught), `Rejected`
   for an argument that is neither a list nor a string.
   */
  datatype Formation = Formed(s: string) | Rejected | Raised

  /** A list is joined with ","; a string is used as it is; anything else is rejected. */
  function IngredientsString(arg: Json): (f: Formation)
    ensures arg.JStr? ==> f == Formed(arg.s)
    ensures arg.JArr? && AllStrings(arg.elems) ==> f == Formed(Text.Join(Strings(arg.elems), ","))
    ensures arg.JArr? && !AllStrings(arg.elems) <==> f.Raised?
    ensures f.Rejected? <==> !arg.JArr? && !arg.JStr?
  {
    match arg
    case JArr(elems) => if AllStrings(elems) then Formed(Text.Join(Strings(elems), ",")) else Raised
    case JStr(s) => Formed(s)
    case _ => Rejected
  }

  /** Ingredients without commas can be read back from the joined string, in order. */
  lemma IngredientsRecoverable(names: seq<string>)
    requires |names| > 0 && forall i :: 0 <= i < |names| ==> ',' !in names[i]
    ensures var arg := JArr(seq(|names|, i requires 0 <= i < |names| => JStr(names[i])));
      IngredientsString(arg).Formed? && Text.Split(IngredientsString(arg).s, ',') == names
  {
    var arg := JArr(seq(|names|, i requires 0 <= i < |names| => JStr(names[i])));
    assert Strings(arg.elems) == names;
    Text.SplitJoin(names, ',');
  }

  /** The GET request: the endpoint and exactly the three query parameters. */
  datatype SearchRequest = SearchRequest(url: string, apiKey: string, ingredients: string, number: int)

  /** What `search_recipes_by_ingredients` did: no request, a raised `TypeError`, or a request and its result. */
  datatype SearchRun = NotSent | JoinRaised | Sent(request: SearchRequest, data: Option<Json>)

  /**
   `search_recipes_by_ingredients(ingredients_list, number, API_KEY)`. `get`
   is the API's decoded answer, `None` when the request fails, the status is
   an error or the body is not JSON.
   */
  function Search(ingredients: Json, number: int, apiKey: string, get: SearchRequest -> Option<Json>): (run: SearchRun)
    ensures IngredientsString(ingredients).Rejected? <==> run.NotSent?
    ensures IngredientsString(ingredients).Raised? <==> run.JoinRaised?
    ensures run.Sent? ==>
      && IngredientsString(ingredients).Formed?
      && run.request == SearchRequest(SearchUrl, apiKey, IngredientsString(ingredients).s, number)
      && run.data == get(run.request)
  {
    match IngredientsString(ingredients)
    case Rejected => NotSent
    case Raised => JoinRaised
    case Formed(s) =>
      var req := SearchRequest(SearchUrl, apiKey, s, number);
      Sent(req, get(req))
  }

  /** With the defaults, a plain string is sent unchanged to the endpoint, asking for five recipes with an empty key. */
  lemma DefaultSearch(s: string, get: SearchRequest -> Option<Json>)
    ensures var req := SearchRequest(SearchUrl, "", s, 5);
      Search(JStr(s), DefaultNumber, "", get) == Sent(req, get(req))
  {
  }
}
