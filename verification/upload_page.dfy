/**
 The receipt upload page: normalising the categories the extraction returns,
 editing and removing reviewed items, and the state changes of the file
 picker, the "Process Receipt" request and the "Save All Items" request.
 */
module UploadPage {
  import opened Wrappers
  import opened Json
  import Decimal

  /** The categories a reviewed item may carry. */
  const Categories: seq<string> := [
    "Produce", "Dairy & Eggs", "Meat & Seafood", "Bakery & Bread", "Pantry",
    "Frozen Foods", "Beverages", "Snacks", "Household", "Personal Care", "Other"
  ]

  const OtherCategory := "Other"

  /** An item as the extraction returns it; its category may be missing or of any JSON type. */
  datatype ExtractedItem = ExtractedItem(name: string, price: real, quantity: real, unit: string,
                                         category: Option<Json>)

  /** An item on the review form. */
  datatype ReviewItem = ReviewItem(name: string, price: real, quantity: real, unit: string,
                                   category: string)

  /** `item.category && categories.includes(item.category) ? item.category : "Other"`. */
  function NormaliseCategory(c: Option<Json>): (r: string)
    ensures r in Categories
    ensures r == OtherCategory || c == Some(JStr(r))
    ensures (c.Some? && c.value.JStr? && c.value.s in Categories) ==> c == Some(JStr(r))
  {
    if TruthyOpt(c) && c.value.JStr? && c.value.s in Categories then c.value.s else OtherCategory
  }

  function Normalise(item: ExtractedItem): ReviewItem {
    ReviewItem(item.name, item.price, item.quantity, item.unit, NormaliseCategory(item.category))
  }

  /** The items of a non-empty extraction, with categories checked against the whitelist. */
  function NormaliseAll(items: seq<ExtractedItem>): (r: seq<ReviewItem>)
    ensures |r| == |items|
    ensures forall i :: 0 <= i < |items| ==>
      && r[i].name == items[i].name && r[i].price == items[i].price
      && r[i].quantity == items[i].quantity && r[i].unit == items[i].unit
      && r[i].category in Categories
      && (r[i].category == OtherCategory || items[i].category == Some(JStr(r[i].category)))
  {
    seq(|items|, i requires 0 <= i < |items| => Normalise(items[i]))
  }

  /** Every category on the form is one the category menu offers. */
  predicate AllWhitelisted(items: seq<ReviewItem>) {
    forall i :: 0 <= i < |items| ==> items[i].category in Categories
  }

  /** The review item read back as the extraction would return it. */
  function Resubmit(item: ReviewItem): ExtractedItem {
    ExtractedItem(item.name, item.price, item.quantity, item.unit, Some(JStr(item.category)))
  }

  /** Normalising is idempotent: a reviewed list passes the whitelist unchanged. */
  lemma NormaliseIdempotent(items: seq<ExtractedItem>)
    ensures var r := NormaliseAll(items);
      NormaliseAll(seq(|r|, i requires 0 <= i < |r| => Resubmit(r[i]))) == r
  {
  }

  /** The form field an edit targets (`keyof ReceiptItem`). */
  datatype Field = Name | Price | Quantity | Unit | Category

  /** `parseFloat(value) || 0`; `parse` yields None where `parseFloat` gives NaN. */
  function NumberOr0(value: string, parse: string -> Option<real>): (x: real)
    ensures parse(value).None? ==> x == 0.0
    ensures parse(value).Some? ==> x == parse(value).value
  {
    match parse(value)
    case None => 0.0
    case Some(v) => v
  }

  /**
   `handleItemChange`: one field of the item at `index` takes the new value;
   price and quantity store the parsed number, 0 when it does not parse.
   */
  function ItemChange(items: seq<ReviewItem>, index: nat, field: Field, value: string,
                      parse: string -> Option<real>): (r: seq<ReviewItem>)
    requires index < |items|
    ensures |r| == |items|
    ensures forall j :: 0 <= j < |items| && j != index ==> r[j] == items[j]
    ensures r[index].name == (if field == Name then value else items[index].name)
    ensures r[index].price == (if field == Price then NumberOr0(value, parse) else items[index].price)
    ensures r[index].quantity == (if field == Quantity then NumberOr0(value, parse) else items[index].quantity)
    ensures r[index].unit == (if field == Unit then value else items[index].unit)
    ensures r[index].category == (if field == Category then value else items[index].category)
  {
    var old_ := items[index];
    var updated := match field
      case Name => old_.(name := value)
      case Price => old_.(price := NumberOr0(value, parse))
      case Quantity => old_.(quantity := NumberOr0(value, parse))
      case Unit => old_.(unit := value)
      case Category => old_.(category := value);
    items[index := updated]
  }

  /** Writing back a text field's current value changes nothing. */
  lemma ItemChangeSameText(items: seq<ReviewItem>, index: nat, field: Field, parse: string -> Option<real>)
    requires index < |items| && (field == Name || field == Unit || field == Category)
    ensures var cur := match field
                       case Name => items[index].name
                       case Unit => items[index].unit
                       case _ => items[index].category;
      ItemChange(items, index, field, cur, parse) == items
  {
  }

  /** Edits through the form keep every category on the whitelist, as the menu offers only those. */
  lemma ItemChangeKeepsWhitelist(items: seq<ReviewItem>, index: nat, field: Field, value: string,
                                 parse: string -> Option<real>)
    requires index < |items| && AllWhitelisted(items)
    requires field == Category ==> value in Categories
    ensures AllWhitelisted(ItemChange(items, index, field, value, parse))
  {
  }

  /**
   `handleRemoveItem`: `filter((_, i) => i !== indexToRemove)`, written as the
   per-position filter it is.
   */
  function RemoveItem(items: seq<ReviewItem>, indexToRemove: int): (r: seq<ReviewItem>)
    ensures 0 <= indexToRemove < |items| ==> r == items[..indexToRemove] + items[indexToRemove + 1..]
    ensures !(0 <= indexToRemove < |items|) ==> r == items
    decreases |items|
  {
    if |items| == 0 then []
    else
      var rest := RemoveItem(items[1..], indexToRemove - 1);
      assert items == [items[0]] + items[1..];
      if indexToRemove == 0 then rest else [items[0]] + rest
  }

  /** Removing keeps every category on the whitelist. */
  lemma RemoveItemKeepsWhitelist(items: seq<ReviewItem>, indexToRemove: int)
    requires AllWhitelisted(items)
    ensures AllWhitelisted(RemoveItem(items, indexToRemove))
  {
    var r := RemoveItem(items, indexToRemove);
    forall i | 0 <= i < |r|
      ensures r[i].category in Categories
    {
      if 0 <= indexToRemove < |items| && i >= indexToRemove {
        assert r[i] == items[i + 1];
      } else {
        assert r[i] == items[i];
      }
    }
  }

  /** The page's state; the selected file is represented by its name. */
  datatype PageState = PageState(file: Option<string>, isLoading: bool, error: Option<string>,
                                 success: Option<string>, items: seq<ReviewItem>)

  /** `handleFileChange`: picking a file resets the review; an empty pick changes nothing. */
  function FileChange(st: PageState, files: seq<string>): (r: PageState)
    ensures |files| == 0 ==> r == st
    ensures |files| > 0 ==> r == PageState(Some(files[0]), st.isLoading, None, None, [])
  {
    if |files| > 0 then st.(file := Some(files[0]), items := [], success := None, error := None) else st
  }

  /** The "Process Receipt" button's `disabled`. */
  predicate ProcessDisabled(st: PageState) {
    st.file.None? || st.isLoading || |st.items| > 0
  }

  /** The "Save All Items" button's `disabled`. */
  predicate SubmitDisabled(st: PageState) {
    st.isLoading
  }

  /** The "Save All Items" button is rendered only while items await review. */
  predicate SaveShown(st: PageState) {
    |st.items| > 0
  }

  /**
   The two buttons never both accept a click: while items await review the
   receipt cannot be processed again, and during a request neither works.
   */
  lemma OneActionAtATime(st: PageState)
    ensures !(!ProcessDisabled(st) && SaveShown(st) && !SubmitDisabled(st))
    ensures st.isLoading ==> ProcessDisabled(st) && SubmitDisabled(st)
    ensures SaveShown(st) && !st.isLoading ==> ProcessDisabled(st) && !SubmitDisabled(st)
  {
  }

  /** After picking a file while idle, the receipt can be processed. */
  lemma ProcessEnabledAfterFileChange(st: PageState, files: seq<string>)
    requires |files| > 0 && !st.isLoading
    ensures !ProcessDisabled(FileChange(st, files))
  {
  }

  /** How the `/api/upload` request ended, as the page sees it. */
  datatype UploadAnswer =
    | UploadFailed(message: string)                    // fetch or `response.json()` threw
    | UploadRefused(error: Option<Json>)               // `!response.ok`, with `result.error`
    | UploadNotList                                    // `result.text` is not an array: `.map` throws
    | UploadExtracted(items: seq<ExtractedItem>)       // `result.text` as returned

  /** The message `map` on a non-array throws; the engine's wording is not modelled. */
  const TypeErrorMessage := "TypeError"

  function ExtractedMessage(n: nat): string {
    "Successfully extracted " + Decimal.NatToString(n) + " items! Please review below."
  }

  const NoItemsMessage := "File processed, but no items were found in the response."

  /**
   `handleFileUpload` from click to settled state. Without a file only the
   error changes; otherwise loading ends, and the outcome sets either the
   items with a success message or an error.
   */
  function FileUpload(st: PageState, answer: UploadAnswer, str: Json -> string): (r: PageState)
    ensures st.file.None? ==> r == st.(error := Some("No file selected!"))
    ensures st.file.Some? ==> !r.isLoading && r.file == st.file
    ensures st.file.Some? && answer.UploadExtracted? && |answer.items| > 0 ==>
      r.items == NormaliseAll(answer.items) && r.error.None?
      && r.success == Some(ExtractedMessage(|answer.items|))
    ensures st.file.Some? && answer.UploadExtracted? && |answer.items| == 0 ==>
      r.items == [] && r.error.None? && r.success == Some(NoItemsMessage)
    ensures st.file.Some? && !answer.UploadExtracted? ==>
      r.items == st.items && r.success.None? && r.error.Some?
    ensures st.file.Some? && answer.UploadRefused? ==>
      r.error == Some(ErrorMessage(answer.error, "An unknown error occurred during processing.", str))
    ensures st.file.Some? && answer.UploadFailed? ==> r.error == Some(answer.message)
    ensures st.file.Some? && answer.UploadNotList? ==> r.error == Some(TypeErrorMessage)
  {
    if st.file.None? then st.(error := Some("No file selected!"))
    else
      var started := st.(isLoading := true, error := None, success := None);
      var settled := match answer
        case UploadFailed(m) => started.(error := Some(m))
        case UploadRefused(e) =>
          started.(error := Some(ErrorMessage(e, "An unknown error occurred during processing.", str)))
        case UploadNotList => started.(error := Some(TypeErrorMessage))
        case UploadExtracted(list) =>
          var items := NormaliseAll(list);
          if |items| > 0 then started.(success := Some(ExtractedMessage(|items|)), items := items)
          else started.(success := Some(NoItemsMessage), items := []);
      settled.(isLoading := false)
  }

  /** The success message states the number of items shown for review. */
  lemma ExtractedMessageCount(st: PageState, list: seq<ExtractedItem>, str: Json -> string)
    requires st.file.Some? && |list| > 0
    ensures var r := FileUpload(st, UploadExtracted(list), str);
      r.success == Some(ExtractedMessage(|r.items|)) && AllWhitelisted(r.items)
      && ProcessDisabled(r)
  {
  }

  /** How the `/api/commit` request ended, as the page sees it. */
  datatype SaveAnswer =
    | SaveFailed(message: string)          // fetch or `response.json()` threw
    | SaveRefused(error: Option<Json>)     // `!response.ok`, with `result.error`
    | Saved

  /**
   `handleDataSubmit`: None when there is nothing to save (no request);
   otherwise the items sent and the settled state. Success clears the items
   and the selected file.
   */
  function DataSubmit(st: PageState, answer: SaveAnswer, str: Json -> string): (r: Option<(seq<ReviewItem>, PageState)>)
    ensures r.None? <==> |st.items| == 0
    ensures r.Some? ==> r.value.0 == st.items && !r.value.1.isLoading
    ensures r.Some? && answer.Saved? ==>
      r.value.1 == PageState(None, false, None, Some("Receipt data saved successfully!"), [])
    ensures r.Some? && !answer.Saved? ==>
      r.value.1.items == st.items && r.value.1.file == st.file && r.value.1.success.None? && r.value.1.error.Some?
    ensures r.Some? && answer.SaveRefused? ==>
      r.value.1.error == Some(ErrorMessage(answer.error, "Unknown error while saving", str))
    ensures r.Some? && answer.SaveFailed? ==> r.value.1.error == Some(answer.message)
  {
    if |st.items| == 0 then None
    else
      var started := st.(isLoading := true, error := None, success := None);
      var settled := match answer
        case Saved => started.(success := Some("Receipt data saved successfully!"), items := [], file := None)
        case SaveRefused(e) => started.(error := Some(ErrorMessage(e, "Unknown error while saving", str)))
        case SaveFailed(m) => started.(error := Some(m));
      Some((st.items, settled.(isLoading := false)))
  }

  /** A successful save leaves nothing to save and nothing to process until a new file is picked. */
  lemma SaveClearsPage(st: PageState, str: Json -> string)
    requires |st.items| > 0
    ensures var after := DataSubmit(st, Saved, str).value.1;
      DataSubmit(after, Saved, str).None? && ProcessDisabled(after)
  {
  }
}
