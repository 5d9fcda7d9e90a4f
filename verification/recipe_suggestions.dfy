/**
 The recipe panel of the dashboard: which of the loading placeholders, the
 error alert, the empty-state hint and the recipe cards are shown, and the
 link each card points to.
 */
module RecipeSuggestions {
  import opened Wrappers
  import Text
  import Decimal

  /** One entry of the recipe API's `findByIngredients` answer. */
  datatype Recipe = Recipe(id: int, title: string, image: string,
                           usedIngredientCount: int, missedIngredientCount: int)

  const RecipePageBase := "https://spoonacular.com/recipes/"
  const SkeletonCount := 6

  /**
   `title.replace(/\s+/g, "-")`: every maximal run of whitespace becomes a
   single hyphen. A whitespace character followed by more whitespace is
   dropped; the last one of each run turns into the hyphen.
   */
  function CollapseSpaces(s: string): (r: string)
    ensures forall i :: 0 <= i < |r| ==> !Text.IsJsSpace(r[i])
    decreases |s|
  {
    if |s| == 0 then ""
    else if !Text.IsJsSpace(s[0]) then [s[0]] + CollapseSpaces(s[1..])
    else if |s| > 1 && Text.IsJsSpace(s[1]) then CollapseSpaces(s[1..])
    else "-" + CollapseSpaces(s[1..])
  }

  /** A title without whitespace is used as it is. */
  lemma {:induction false} CollapseSpacesNoSpace(s: string)
    requires forall i :: 0 <= i < |s| ==> !Text.IsJsSpace(s[i])
    ensures CollapseSpaces(s) == s
    decreases |s|
  {
    if |s| > 0 {
      CollapseSpacesNoSpace(s[1..]);
      assert [s[0]] + s[1..] == s;
    }
  }

  /** A whitespace run followed by a non-space (or by nothing) yields exactly one hyphen. */
  lemma {:induction false} CollapseSpacesRunStart(w: string, b: string)
    requires |w| > 0 && Text.AllSatisfy(w, Text.IsJsSpace)
    requires |b| > 0 ==> !Text.IsJsSpace(b[0])
    ensures CollapseSpaces(w + b) == "-" + CollapseSpaces(b)
    decreases |w|
  {
    var s := w + b;
    assert s[0] == w[0] && s[1..] == w[1..] + b;
    if |w| > 1 {
      assert s[1] == w[1];
      CollapseSpacesRunStart(w[1..], b);
    } else {
      assert w[1..] + b == b;
    }
  }

  /**
   Each maximal whitespace run is replaced by exactly one hyphen: a run `w`
   between text `a` that does not end in whitespace and text `b` that does
   not start with it contributes one "-".
   */
  lemma {:induction false} CollapseSpacesRun(a: string, w: string, b: string)
    requires |a| > 0 ==> !Text.IsJsSpace(a[|a| - 1])
    requires |w| > 0 && Text.AllSatisfy(w, Text.IsJsSpace)
    requires |b| > 0 ==> !Text.IsJsSpace(b[0])
    ensures CollapseSpaces(a + w + b) == CollapseSpaces(a) + "-" + CollapseSpaces(b)
    decreases |a|
  {
    if |a| == 0 {
      CollapseSpacesRunStart(w, b);
      assert a + w + b == w + b;
    } else {
      var t := a[1..];
      assert a == [a[0]] + t && a + w + b == [a[0]] + (t + w + b);
      assert |t| > 0 ==> t[|t| - 1] == a[|a| - 1] && (t + w + b)[0] == t[0];
      CollapseSpacesRun(t, w, b);
      CollapseSpacesCons(a[0], t);
      CollapseSpacesCons(a[0], t + w + b);
    }
  }

  /** One step of the replacement, on a text split into its first character and the rest. */
  lemma CollapseSpacesCons(c: char, t: string)
    ensures CollapseSpaces([c] + t) ==
      if !Text.IsJsSpace(c) then [c] + CollapseSpaces(t)
      else if |t| > 0 && Text.IsJsSpace(t[0]) then CollapseSpaces(t)
      else "-" + CollapseSpaces(t)
  {
    var s := [c] + t;
    assert s[0] == c && s[1..] == t;
  }

  /**
   The link of a recipe card: the recipe page base, the title with each
   whitespace run turned into one hyphen, a hyphen and the recipe id. The
   link holds no whitespace, and a title without whitespace is kept as it is.
   */
  function RecipeLink(r: Recipe): (link: string)
    ensures Text.StartsWith(link, RecipePageBase)
    ensures forall i :: 0 <= i < |link| ==> !Text.IsJsSpace(link[i])
    ensures (forall i :: 0 <= i < |r.title| ==> !Text.IsJsSpace(r.title[i])) ==>
      link == RecipePageBase + r.title + "-" + Decimal.IntToString(r.id)
  {
    var slug := CollapseSpaces(r.title);
    var id := Decimal.IntToString(r.id);
    var link := RecipePageBase + slug + "-" + id;
    BaseHasNoSpace();
    assert forall i :: 0 <= i < |id| ==> !Text.IsJsSpace(id[i]) by {
      forall i | 0 <= i < |id|
        ensures !Text.IsJsSpace(id[i])
      {
        assert Decimal.IsDigit(id[i]) || id[i] == '-';
      }
    }
    assert link == RecipePageBase + (slug + "-" + id);
    if forall i :: 0 <= i < |r.title| ==> !Text.IsJsSpace(r.title[i]) then
      CollapseSpacesNoSpace(r.title);
      link
    else
      link
  }

  lemma BaseHasNoSpace()
    ensures forall i :: 0 <= i < |RecipePageBase| ==> !Text.IsJsSpace(RecipePageBase[i])
  {
  }

  /**
   A whitespace run inside a title becomes one hyphen of the link: for a
   title `a + w + b` where `w` is a maximal run, the link is the base, the
   slug of `a`, "-", the slug of `b`, "-" and the id.
   */
  lemma RecipeLinkOfRun(r: Recipe, a: string, w: string, b: string)
    requires r.title == a + w + b
    requires |a| > 0 ==> !Text.IsJsSpace(a[|a| - 1])
    requires |w| > 0 && Text.AllSatisfy(w, Text.IsJsSpace)
    requires |b| > 0 ==> !Text.IsJsSpace(b[0])
    ensures RecipeLink(r) == RecipePageBase + CollapseSpaces(a) + "-" + CollapseSpaces(b) + "-" + Decimal.IntToString(r.id)
  {
    var ca, cb, id := CollapseSpaces(a), CollapseSpaces(b), Decimal.IntToString(r.id);
    assert CollapseSpaces(r.title) == ca + "-" + cb by {
      CollapseSpacesRun(a, w, b);
    }
    LinkParts(RecipePageBase, ca, cb, id);
  }

  lemma LinkParts(base: string, ca: string, cb: string, id: string)
    ensures base + (ca + "-" + cb) + "-" + id == base + ca + "-" + cb + "-" + id
  {
  }

  /** One rendered recipe card: its link and the used/missed counts it prints. */
  datatype Card = Card(link: string, title: string, used: int, missed: int)

  /** What the panel renders. */
  datatype Panel = Panel(skeletons: nat, showError: Option<string>, showEmptyHint: bool, cards: seq<Card>)

  function CardOf(r: Recipe): Card {
    Card(RecipeLink(r), r.title, r.usedIngredientCount, r.missedIngredientCount)
  }

  /** The panel for the given props; an empty error string is falsy and so shows nothing. */
  function Render(recipes: seq<Recipe>, isLoading: bool, error: Option<string>): (p: Panel)
    ensures p.skeletons == (if isLoading then SkeletonCount else 0)
    ensures p.showError.Some? <==> error.Some? && error.value != ""
    ensures p.showError.Some? ==> p.showError == error
    ensures p.showEmptyHint <==> !isLoading && |recipes| == 0 && (error.None? || error.value == "")
    ensures |p.cards| == |recipes|
    ensures forall i :: 0 <= i < |recipes| ==>
      p.cards[i].link == RecipeLink(recipes[i]) && p.cards[i].used == recipes[i].usedIngredientCount
      && p.cards[i].missed == recipes[i].missedIngredientCount
  {
    var errorShown := if error.Some? && error.value != "" then error else None;
    Panel(if isLoading then SkeletonCount else 0,
          errorShown,
          !isLoading && |recipes| == 0 && errorShown.None?,
          seq(|recipes|, i requires 0 <= i < |recipes| => CardOf(recipes[i])))
  }
}
