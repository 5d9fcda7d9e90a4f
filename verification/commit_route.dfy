/**
 `POST /api/commit`: the cookie and session guards, the array check, and the
 create-only loop that turns each reviewed item into one owned record of the
 store, with the mapping of a failed create to a 401 or 500 reply.
 */
module CommitRoute {
  import opened Wrappers
  import opened Json
  import Decimal

  /** A `receipt_items` record; an absent source field stays absent (`undefined`). */
  datatype Record = Record(name: Option<Json>, price: Option<Json>, quantity: Option<Json>,
                           unit: Option<Json>, category: Option<Json>, owner: Json)

  /** What one `create` call did: stored the record, or threw with an optional numeric `status`. */
  datatype CreateResult = Created | CreateFailed(status: Option<int>)

  /** `item.key` as the loop reads it: absent when `undefined`, None overall when reading it throws. */
  function Field(item: Json, key: string): (r: Option<Option<Json>>)
    ensures r.None? <==> item.JNull?
  {
    match Member(item, key)
    case TypeError => None
    case Undefined => Some(None)
    case Value(v) => Some(Some(v))
  }

  /** The record built for one item; None when the item is `null` and reading its fields throws. */
  function RecordOf(item: Json, owner: Json): (r: Option<Record>)
    ensures r.None? <==> item.JNull?
    ensures r.Some? ==> r.value.owner == owner
    ensures r.Some? && item.JObj? ==>
      && r.value.name == Lookup(item.fields, "name") && r.value.price == Lookup(item.fields, "price")
      && r.value.quantity == Lookup(item.fields, "quantity") && r.value.unit == Lookup(item.fields, "unit")
      && r.value.category == Lookup(item.fields, "category")
  {
    if item.JNull? then None
    else Some(Record(Field(item, "name").value, Field(item, "price").value, Field(item, "quantity").value,
                     Field(item, "unit").value, Field(item, "category").value, owner))
  }

  /** How the loop ended. */
  datatype LoopEnd = AllCreated | ThrewTypeError | CreateThrew(status: Option<int>)

  /**
   The `for … of` loop: builds each record and calls `create`, which sees the
   store as it is so far. The loop stops at the first throw; records created
   before it stay.
   */
  function CreateAll(items: seq<Json>, owner: Json, store: seq<Record>,
                     create: (seq<Record>, Record) -> CreateResult): (r: (LoopEnd, seq<Record>))
    ensures |store| <= |r.1| <= |store| + |items| && r.1[..|store|] == store
    ensures forall i :: |store| <= i < |r.1| ==> RecordOf(items[i - |store|], owner) == Some(r.1[i])
    ensures r.0.AllCreated? <==> |r.1| == |store| + |items|
    ensures r.0.ThrewTypeError? ==> items[|r.1| - |store|].JNull?
    ensures r.0.CreateThrew? ==>
      var rec := RecordOf(items[|r.1| - |store|], owner);
      rec.Some? && create(r.1, rec.value) == CreateFailed(r.0.status)
    decreases |items|
  {
    if |items| == 0 then (AllCreated, store)
    else
      match RecordOf(items[0], owner)
      case None => (ThrewTypeError, store)
      case Some(rec) =>
        match create(store, rec)
        case CreateFailed(status) => (CreateThrew(status), store)
        case Created =>
          var rest := CreateAll(items[1..], owner, store + [rec], create);
          assert rest.1[..|store|] == (store + [rec])[..|store|];
          assert rest.1[|store|] == (store + [rec])[|store|];
          assert forall k :: 0 < k < |items| ==> items[1..][k - 1] == items[k];
          rest
  }

  /** A store that accepts every record. */
  function AcceptAll(store: seq<Record>, rec: Record): CreateResult {
    Created
  }

  /**
   Create-only: committing `a` and then `b` against an accepting store leaves
   the same records as committing `a + b` at once; nothing is merged.
   */
  lemma {:induction false} CreateAllAppend(a: seq<Json>, b: seq<Json>, owner: Json, store: seq<Record>)
    requires CreateAll(a, owner, store, AcceptAll).0.AllCreated?
    ensures var first := CreateAll(a, owner, store, AcceptAll).1;
      CreateAll(a + b, owner, store, AcceptAll) == CreateAll(b, owner, first, AcceptAll)
    decreases |a|
  {
    if |a| == 0 {
      assert a + b == b;
    } else {
      var rec := RecordOf(a[0], owner).value;
      assert (a + b)[0] == a[0] && (a + b)[1..] == a[1..] + b;
      CreateAllAppend(a[1..], b, owner, store + [rec]);
    }
  }

  /** Repeated items give repeated records: the loop performs no lookup. */
  lemma RepeatedItemsRepeatRecords(item: Json, owner: Json, store: seq<Record>)
    requires !item.JNull?
    ensures var r := CreateAll([item, item], owner, store, AcceptAll);
      r.0.AllCreated? && |r.1| == |store| + 2 && r.1[|store|] == r.1[|store| + 1]
  {
    var r := CreateAll([item, item], owner, store, AcceptAll);
    assert RecordOf([item, item][0], owner) == Some(r.1[|store|]);
    assert RecordOf([item, item][1], owner) == Some(r.1[|store| + 1]);
  }

  const NoTokenMessage := "Authentication token not found."
  const BadSessionMessage := "Invalid or expired session. Please log in again."
  const NotArrayMessage := "Invalid data format. Expected an array of items."
  const ExpiredMessage := "Session expired. Please log in again."
  const ServerErrorMessage := "Failed to save items due to a server error."

  function SavedMessage(n: nat): string {
    Decimal.NatToString(n) + " items saved successfully."
  }

  /** `session?.user?.id && session.externalApiToken`, both truthy. */
  predicate ValidSession(session: Option<Json>) {
    TruthyOpt(Chain(Chain(session, "user"), "id")) && TruthyOpt(Chain(session, "externalApiToken"))
  }

  /** The user id the records are stamped with. */
  function UserId(session: Option<Json>): Json
    requires ValidSession(session)
  {
    Chain(Chain(session, "user"), "id").value
  }

  /** The error a thrown create maps to: 401 when its numeric status is 401, else 500. */
  function CreateErrorReply(status: Option<int>): (r: Reply)
    ensures r.status == 401 <==> status == Some(401)
    ensures r == ErrorReply(401, ExpiredMessage) || r == ErrorReply(500, ServerErrorMessage)
  {
    if status == Some(401) then ErrorReply(401, ExpiredMessage) else ErrorReply(500, ServerErrorMessage)
  }

  /**
   The handler. `decrypt` is session verification; `body` is the parsed
   request body (None when `request.json()` throws); `create` is the store.
   Returns the reply and the store afterwards.
   */
  function Handle(cookie: Option<string>, decrypt: string -> Option<Json>, body: Option<Json>,
                  store: seq<Record>, create: (seq<Record>, Record) -> CreateResult): (r: (Reply, seq<Record>))
    ensures (cookie.None? || cookie == Some("")) ==> r == (ErrorReply(401, NoTokenMessage), store)
    ensures cookie.Some? && cookie != Some("") && !ValidSession(decrypt(cookie.value)) ==>
      r == (ErrorReply(401, BadSessionMessage), store)
    ensures r.0.status == 400 ==> r == (ErrorReply(400, NotArrayMessage), store)
    ensures cookie.Some? && cookie != Some("") && ValidSession(decrypt(cookie.value)) && body.None? ==>
      r == (ErrorReply(500, ServerErrorMessage), store)
    ensures r.0.status == 400 <==> cookie.Some? && cookie != Some("") && ValidSession(decrypt(cookie.value))
                                   && body.Some? && !body.value.JArr?
    ensures |store| <= |r.1| && r.1[..|store|] == store
    ensures r.0.status == 200 <==>
              (&& cookie.Some? && cookie != Some("") && ValidSession(decrypt(cookie.value))
               && body.Some? && body.value.JArr?
               && CreateAll(body.value.elems, UserId(decrypt(cookie.value)), store, create).0.AllCreated?)
    ensures r.0.status == 200 ==>
      && |r.1| == |store| + |body.value.elems|
      && r.0.body == JObj([("success", JBool(true)), ("message", JStr(SavedMessage(|body.value.elems|)))])
      && forall i :: |store| <= i < |r.1| ==> r.1[i].owner == UserId(decrypt(cookie.value))
    ensures cookie.Some? && cookie != Some("") && ValidSession(decrypt(cookie.value)) && body.Some? && body.value.JArr? ==>
      var loop := CreateAll(body.value.elems, UserId(decrypt(cookie.value)), store, create);
      && r.1 == loop.1
      && (loop.0.CreateThrew? ==> r.0 == CreateErrorReply(loop.0.status))
      && (loop.0.ThrewTypeError? ==> r.0 == ErrorReply(500, ServerErrorMessage))
  {
    if cookie.None? || cookie.value == "" then (ErrorReply(401, NoTokenMessage), store)
    else
      var session := decrypt(cookie.value);
      if !ValidSession(session) then (ErrorReply(401, BadSessionMessage), store)
      else match body
        case None => (ErrorReply(500, ServerErrorMessage), store)
        case Some(items) =>
          if !items.JArr? then (ErrorReply(400, NotArrayMessage), store)
          else
            var owner := UserId(session);
            var (end, after) := CreateAll(items.elems, owner, store, create);
            match end
            case AllCreated =>
              forall i | |store| <= i < |after|
                ensures after[i].owner == owner
              {
                assert RecordOf(items.elems[i - |store|], owner) == Some(after[i]);
              }
              (Reply(200, JObj([("success", JBool(true)), ("message", JStr(SavedMessage(|items.elems|)))])), after)
            case ThrewTypeError => (ErrorReply(500, ServerErrorMessage), after)
            case CreateThrew(status) => (CreateErrorReply(status), after)
  }

  /**
   A successful commit against an accepting store appends exactly one owned
   record per item, copying its fields, and reports that many items.
   */
  lemma CommitRecordsEachItem(cookie: string, decrypt: string -> Option<Json>, items: seq<Json>,
                              store: seq<Record>, i: nat)
    requires cookie != "" && ValidSession(decrypt(cookie))
    requires forall k :: 0 <= k < |items| ==> items[k].JObj?
    requires i < |items|
    ensures var r := Handle(Some(cookie), decrypt, Some(JArr(items)), store, AcceptAll);
      && r.0.status == 200
      && r.1 == store + r.1[|store|..]
      && r.1[|store| + i].owner == UserId(decrypt(cookie))
      && r.1[|store| + i].name == Lookup(items[i].fields, "name")
      && r.1[|store| + i].category == Lookup(items[i].fields, "category")
  {
    var owner := UserId(decrypt(cookie));
    forall k | 0 <= k < |items|
      ensures !items[k].JNull?
    {
    }
    AllObjectsCreated(items, owner, store);
    var loop := CreateAll(items, owner, store, AcceptAll);
    HandleRunsLoop(cookie, decrypt, items, store, AcceptAll);
    assert RecordOf(items[i], owner) == Some(loop.1[|store| + i]);
    assert loop.1 == loop.1[..|store|] + loop.1[|store|..];
  }

  /** With a valid session and an array body, the store afterwards is the loop's. */
  lemma HandleRunsLoop(cookie: string, decrypt: string -> Option<Json>, items: seq<Json>,
                       store: seq<Record>, create: (seq<Record>, Record) -> CreateResult)
    requires cookie != "" && ValidSession(decrypt(cookie))
    ensures var r := Handle(Some(cookie), decrypt, Some(JArr(items)), store, create);
      var loop := CreateAll(items, UserId(decrypt(cookie)), store, create);
      r.1 == loop.1 && (r.0.status == 200 <==> loop.0.AllCreated?)
  {
  }

  /** With an accepting store and no `null` item, the loop runs to the end. */
  lemma {:induction false} AllObjectsCreated(items: seq<Json>, owner: Json, store: seq<Record>)
    requires forall k :: 0 <= k < |items| ==> !items[k].JNull?
    ensures CreateAll(items, owner, store, AcceptAll).0.AllCreated?
    decreases |items|
  {
    if |items| > 0 {
      var rec := RecordOf(items[0], owner).value;
      AllObjectsCreated(items[1..], owner, store + [rec]);
    }
  }

  /** The count in the success message reads back as the number of records created. */
  lemma SavedMessageCount(n: nat)
    ensures var m := SavedMessage(n);
      var digits := m[..|Decimal.NatToString(n)|];
      Decimal.DigitsValue(digits) == n
  {
    var m := SavedMessage(n);
    assert m[..|Decimal.NatToString(n)|] == Decimal.NatToString(n);
    Decimal.NatToStringValue(n);
  }
}
