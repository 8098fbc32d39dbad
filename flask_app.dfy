/**
  The request logic of the API server (flask_app.py): the input validators, the relationship
  label of a graph edge, and the e-text collection queries over the link table. The routing,
  the JSON rendering and the loading of the data files are not modelled; the entity store and
  the link table are parameters.
*/
module FlaskApp {
  import opened Options
  import opened Text
  import opened DataModels
  import opened EtextLinks
  import opened RowFold
  import opened Linkage

  // ---------------------------------------------------------------------------------------
  // Validating a comma-separated id list (lines 51-61)

  const BracketError := "List input should be comma-separated string. Do not use square brackets."
  const SpaceError := "Input should not contain whitespace."

  /**
    `validate_comma_separated_list_input(string_input)` on the query parameter as
    `request.args.get` returns it: `Ok(None)` accepts, `Ok(Some(e))` is the error message the
    caller answers 400 with, and `Err(e)` is the exception `string_input[0]` raises on a
    missing or empty parameter.
  */
  function ValidateListInput(input: Option<string>): (r: Result<Option<string>, string>)
    ensures input.None? ==> r == Err("'NoneType' object is not subscriptable")
    ensures input == Some("") ==> r == Err("string index out of range")
    ensures r == Ok(None) <==> input.Some? && input.value != "" && input.value[0] != '[' && ' ' !in input.value
    ensures r == Ok(Some(BracketError)) <==> input.Some? && input.value != "" && input.value[0] == '['
    ensures r == Ok(Some(SpaceError)) <==> input.Some? && input.value != "" && input.value[0] != '[' && ' ' in input.value
  {
    match input
    case None => Err("'NoneType' object is not subscriptable")
    case Some(s) =>
      if s == "" then Err("string index out of range")
      else if s[0] == '[' then Ok(Some(BracketError))
      else if ' ' in s then Ok(Some(SpaceError))
      else Ok(None)
  }

  lemma {:induction false} JoinChars(parts: seq<string>, glue: string, c: char)
    requires c !in glue && forall i :: 0 <= i < |parts| ==> c !in parts[i]
    ensures c !in Join(parts, glue)
  {
    if |parts| > 1 {
      JoinChars(parts[1..], glue, c);
    }
  }

  /** A join starts with its first part, or with the glue when that part is empty. */
  lemma JoinStart(parts: seq<string>, glue: string)
    requires parts != [] && Join(parts, glue) != "" && glue != ""
    ensures parts[0] != "" ==> Join(parts, glue)[0] == parts[0][0]
    ensures parts[0] == "" ==> Join(parts, glue)[0] == glue[0]
  {
  }

  /**
    An id list as a client writes it: a non-empty comma-joined list of ids without spaces whose
    first id, unless it is empty, does not start with `[`. An empty first id is allowed: `,a`
    is such a list.
  */
  predicate IdList(ids: seq<string>) {
    && ids != [] && Join(ids, ",") != ""
    && (ids[0] == "" || ids[0][0] != '[')
    && forall i :: 0 <= i < |ids| ==> ' ' !in ids[i]
  }

  /** The validator accepts every id list joined with commas... */
  lemma JoinedListAccepted(ids: seq<string>)
    requires IdList(ids)
    ensures ValidateListInput(Some(Join(ids, ","))) == Ok(None)
  {
    JoinedListFacts(ids);
  }

  lemma JoinedListFacts(ids: seq<string>)
    requires IdList(ids)
    ensures var s := Join(ids, ","); s != "" && s[0] != '[' && ' ' !in s
  {
    JoinChars(ids, ",", ' ');
    JoinStart(ids, ",");
  }

  /** ...and accepts nothing else: what it accepts splits at its commas into an id list that joins back to it. */
  lemma AcceptedIsJoinedList(s: string)
    requires ValidateListInput(Some(s)) == Ok(None)
    ensures IdList(Split(s, ',')) && Join(Split(s, ','), ",") == s
  {
    assert s != "" && s[0] != '[' && ' ' !in s;
    var pieces := Split(s, ',');
    JoinSplit(s, ',');
    forall i | 0 <= i < |pieces| ensures ' ' !in pieces[i] {
      SplitPieceChars(s, ',', i, ' ');
    }
    if s[0] != ',' {
      SplitFirst(s, ',');
    } else {
      assert IndexOf(s, ',') == 0;
    }
  }

  lemma {:induction false} SplitPieceChars(s: string, sep: char, i: nat, c: char)
    requires c !in s && i < |Split(s, sep)|
    ensures c !in Split(s, sep)[i]
    decreases |s|
  {
    if sep in s {
      var k := IndexOf(s, sep);
      if i > 0 {
        SplitPieceChars(s[k + 1..], sep, i - 1, c);
      }
    }
  }

  /** A string that does not start with the separator splits into a first piece that starts as it does. */
  lemma SplitFirst(s: string, sep: char)
    requires s != [] && s[0] != sep
    ensures Split(s, sep)[0] != "" && Split(s, sep)[0][0] == s[0]
  {
    if sep in s {
      var k := IndexOf(s, sep);
      assert k > 0;
      assert s[..k][0] == s[0];
    }
  }

  // ---------------------------------------------------------------------------------------
  // The by-work query (lines 400-412)

  const NoIdsError := "No IDs provided"

  /** What the by-work route answers: a 400 message, the link data of the ids, or an uncaught exception (a 500). */
  datatype ByWorkAnswer = BadRequest(message: string) | LinkData(data: LinkTable) | Crashed(message: string)

  /** Line 406: `[id.strip() for id in ids_param.split(',')] if ids_param else []`. */
  function WorkIdsOf(ids: string): (r: seq<string>)
    ensures ids == "" ==> r == []
    ensures ids != "" ==> |r| == |Split(ids, ',')| && forall i :: 0 <= i < |r| ==> r[i] == Strip(Split(ids, ',')[i])
  {
    if ids == "" then []
    else
      var pieces := Split(ids, ',');
      seq(|pieces|, i requires 0 <= i < |pieces| => Strip(pieces[i]))
  }

  /** A comma-joined list of non-empty ids without commas or surrounding spaces gives back exactly those ids. */
  lemma WorkIdsOfJoin(xs: seq<string>)
    requires xs != []
    requires forall i :: 0 <= i < |xs| ==> xs[i] != "" && IsStripped(xs[i]) && ',' !in xs[i]
    ensures WorkIdsOf(Join(xs, ",")) == xs
  {
    var ids := Join(xs, ",");
    assert ids != "" && Split(ids, ',') == xs by {
      assert [','] == ",";
      JoinStartsWith(xs, ",");
      SplitJoin(xs, ',');
    }
    forall i | 0 <= i < |xs| ensures Strip(xs[i]) == xs[i] {
      StrippedIsFixed(xs[i]);
    }
    StrippedPieces(ids, xs);
  }

  /** Pieces that stripping leaves alone are the ids themselves. */
  lemma StrippedPieces(ids: string, xs: seq<string>)
    requires ids != "" && Split(ids, ',') == xs
    requires forall i :: 0 <= i < |xs| ==> Strip(xs[i]) == xs[i]
    ensures WorkIdsOf(ids) == xs
  {
  }

  /** Lines 406-412 once the validator has let the parameter through. */
  function AnswerIds(links: LinkTable, ids: string): (r: ByWorkAnswer)
    ensures !r.Crashed?
    ensures r.BadRequest? <==> ids == ""
    ensures r.BadRequest? ==> r.message == NoIdsError
    ensures r.LinkData? ==>
      forall w :: (w in r.data <==> w in links && w in WorkIdsOf(ids)) && (w in r.data ==> r.data[w] == links[w])
  {
    var workIds := WorkIdsOf(ids);
    if workIds == [] then BadRequest(NoIdsError)
    else LinkData(map w | w in workIds && w in links :: links[w])
  }

  /** Lines 400-412 as written: the validator runs first, on the parameter as `request.args.get` returns it. */
  function ByWork(links: LinkTable, input: Option<string>): (r: ByWorkAnswer)
    ensures r.Crashed? <==> input.None? || input.value == ""
  {
    match ValidateListInput(input)
    case Err(e) => Crashed(e)
    case Ok(Some(e)) => BadRequest(e)
    case Ok(None) => AnswerIds(links, input.value)
  }

  /**
    As written, the "No IDs provided" answer of lines 407-408 is never given: a missing or empty
    parameter makes the validator raise first, and anything it lets through splits into at
    least one id.
  */
  lemma NoIdsUnreachable(links: LinkTable, input: Option<string>)
    ensures ByWork(links, input) != BadRequest(NoIdsError)
    ensures ByWork(links, None).Crashed? && ByWork(links, Some("")).Crashed?
  {
    assert |NoIdsError| != |BracketError| && |NoIdsError| != |SpaceError|;
  }

  /**
    The validator with the emptiness guard that lines 406-408 rely on: a missing or empty
    parameter passes, to be answered there; anything else is checked as before.
  */
  function ValidateListInputGuarded(input: Option<string>): (r: Option<string>)
    ensures input.Some? && input.value != "" ==> Ok(r) == ValidateListInput(input)
  {
    if input.None? || input.value == "" then None
    else if input.value[0] == '[' then Some(BracketError)
    else if ' ' in input.value then Some(SpaceError)
    else None
  }

  /** Lines 400-412 with the guarded validator. */
  function ByWorkGuarded(links: LinkTable, input: Option<string>): ByWorkAnswer {
    match ValidateListInputGuarded(input)
    case Some(e) => BadRequest(e)
    case None => AnswerIds(links, if input.None? then "" else input.value)
  }

  /**
    With the guard the route never raises, answers "No IDs provided" exactly for a missing or
    empty parameter, answers every other parameter as the code as written does, and returns
    the link data of exactly the requested ids the table has.
  */
  lemma ByWorkGuardedMeaning(links: LinkTable, input: Option<string>)
    ensures !ByWorkGuarded(links, input).Crashed?
    ensures ByWorkGuarded(links, input) == BadRequest(NoIdsError) <==> input.None? || input == Some("")
    ensures input.Some? && input.value != "" ==> ByWorkGuarded(links, input) == ByWork(links, input)
    ensures ByWorkGuarded(links, input).LinkData? ==> input.Some? && var r := ByWorkGuarded(links, input).data;
      forall w :: (w in r <==> w in links && w in WorkIdsOf(input.value)) && (w in r ==> r[w] == links[w])
  {
    assert |NoIdsError| != |BracketError| && |NoIdsError| != |SpaceError|;
  }

  // ---------------------------------------------------------------------------------------
  // Validating a subgraph request (lines 131-138)

  /** A JSON value of the request body. */
  datatype Json =
    | JNull
    | JBool(b: bool)
    | JInt(i: int)
    | JFloat(text: string)
    | JString(s: string)
    | JArray(items: seq<Json>)
    | JObject(fields: seq<(string, Json)>)

  const NoCenterError := "require either one or both of authors or works"
  const HopsError := "hops must be a non-negative integer"
  const ExcludeError := "exclude_list must be a list"

  /** `isinstance(hops, int) and hops >= 0`; a JSON boolean is a Python `bool`, which is an `int`. */
  predicate HopsAccepted(hops: Json) {
    hops.JBool? || (hops.JInt? && hops.i >= 0)
  }

  /** The hop count an accepted value stands for, with `True == 1` and `False == 0`. */
  function HopCount(hops: Json): (n: nat)
    requires HopsAccepted(hops)
    ensures hops.JInt? ==> n == hops.i
    ensures hops.JBool? ==> (n == 1 <==> hops.b)
  {
    if hops.JBool? then (if hops.b then 1 else 0) else hops.i
  }

  /** `validate_subgraph_inputs`: the first check that fails names its error, else `None`. */
  function ValidateSubgraphInputs(authors: set<string>, works: set<string>, hops: Json, excludeList: Json): (r: Option<string>)
    ensures r.None? <==> (authors != {} || works != {}) && HopsAccepted(hops) && excludeList.JArray?
    ensures authors == {} && works == {} ==> r == Some(NoCenterError)
    ensures (authors != {} || works != {}) && !HopsAccepted(hops) ==> r == Some(HopsError)
    ensures (authors != {} || works != {}) && HopsAccepted(hops) && !excludeList.JArray? ==> r == Some(ExcludeError)
  {
    if authors == {} && works == {} then Some(NoCenterError)
    else if !(hops.JBool? || hops.JInt?) || (hops.JInt? && hops.i < 0) then Some(HopsError)
    else if !excludeList.JArray? then Some(ExcludeError)
    else None
  }

  // ---------------------------------------------------------------------------------------
  // Edge relationships (lines 141-148, 190-193 and 210-212)

  const WroteRelationship := "source author wrote target work"
  const InspiredRelationship := "source base text inspired target commentary"

  /**
    `get_edge_relationship(source, target)`: `Err(k)` is the `KeyError` for the first id of
    the two that is not stored; `Ok(None)` is the logged mismatch, which returns `None`.
  */
  function EdgeRelationship(entities: Store, source: string, target: string): (r: Result<Option<string>, string>)
    ensures r.Err? <==> source !in entities || target !in entities
    ensures r.Err? ==> r.error == (if source !in entities then source else target)
    ensures r == Ok(Some(WroteRelationship)) <==>
      source in entities && target in entities && entities[source].entityType == "author" && entities[target].entityType == "work"
    ensures r == Ok(Some(InspiredRelationship)) <==>
      source in entities && target in entities && entities[source].entityType == "work" && entities[target].entityType == "work"
  {
    if source !in entities then Err(source)
    else if target !in entities then Err(target)
    else
      var types := (entities[source].entityType, entities[target].entityType);
      if types == ("author", "work") then Ok(Some(WroteRelationship))
      else if types == ("work", "work") then Ok(Some(InspiredRelationship))
      else Ok(None)
  }

  /**
    Every edge the store records gets a relationship: in a store in the shape the loader
    builds, an author-to-work edge is authorship and a work-to-work edge is a base text
    inspiring its commentary, so the logged mismatch cannot happen for them.
  */
  lemma RecordedEdgesLabelled(entities: Store, w: string, a: string, b: string)
    requires Valid(entities) && w in entities && entities[w].Work?
    ensures a in entities[w].authorIds ==> EdgeRelationship(entities, a, w) == Ok(Some(WroteRelationship))
    ensures b in entities[w].baseTextIds ==> EdgeRelationship(entities, b, w) == Ok(Some(InspiredRelationship))
  {
  }

  /** The `KeyError` answer of line 212: `str(KeyError(k))` is the key's `repr`. */
  function InvalidId(key: string): string {
    "Invalid ID: " + Quoted(key)
  }

  datatype Edge = Edge(source: string, target: string, relationship: Option<string>)

  /** The edge names an id the store lacks. */
  predicate Dangling(entities: Store, edge: (string, string)) {
    edge.0 !in entities || edge.1 !in entities
  }

  /** The position of the first dangling edge, or the number of edges when there is none. */
  function FirstDangling(entities: Store, edges: seq<(string, string)>): (k: nat)
    ensures k <= |edges| && forall j :: 0 <= j < k ==> !Dangling(entities, edges[j])
    ensures k < |edges| ==> Dangling(entities, edges[k])
  {
    if edges == [] then 0
    else if Dangling(entities, edges[0]) then 0
    else 1 + FirstDangling(entities, edges[1..])
  }

  /**
    Lines 190-193 with the handler of lines 210-212: the edge records in order, or the 400
    error for the first edge that names an id the store lacks.
  */
  function EdgeRecords(entities: Store, edges: seq<(string, string)>): (r: Result<seq<Edge>, string>)
    ensures r.Ok? <==> FirstDangling(entities, edges) == |edges|
    ensures r.Ok? ==> |r.value| == |edges| && forall i :: 0 <= i < |edges| ==>
      && r.value[i].source == edges[i].0 && r.value[i].target == edges[i].1
      && Ok(r.value[i].relationship) == EdgeRelationship(entities, edges[i].0, edges[i].1)
    ensures r.Err? ==>
      r.error == InvalidId(EdgeRelationship(entities, edges[FirstDangling(entities, edges)].0,
                                            edges[FirstDangling(entities, edges)].1).error)
  {
    if edges == [] then Ok([])
    else
      match EdgeRelationship(entities, edges[0].0, edges[0].1)
      case Err(k) => Err(InvalidId(k))
      case Ok(rel) =>
        match EdgeRecords(entities, edges[1..])
        case Err(e) => Err(e)
        case Ok(rest) => Ok([Edge(edges[0].0, edges[0].1, rel)] + rest)
  }

  // ---------------------------------------------------------------------------------------
  // Collections of the e-text link table (lines 14-16, 224-256, 318-322, 360-373)

  /** `VALID_COLLECTIONS`: every collection some work has. */
  function ValidCollections(links: LinkTable): set<string> {
    set w, c | w in links && c in links[w] :: c
  }

  /** The 400 message of lines 241, 283, 315. */
  function InvalidCollection(collection: string, valid: set<string>): string {
    "Invalid collection: " + collection + ". Valid options: " + ListRepr(SortedStrings(valid))
  }

  /** The placeholder work id the collection query drops (lines 253-254). */
  const Placeholder := "..."

  /** One work's entry as the collection query returns it. */
  function Restrict(entry: map<string, Entry>, collection: string, includeOthers: bool): map<string, Entry>
    requires collection in entry
  {
    if includeOthers then entry else map[collection := entry[collection]]
  }

  /** What `get_works_by_collection` returns, the `200` case as `Ok`, the `400` case as `Err`. */
  function WorksByCollection(links: LinkTable, collection: string, includeOthers: bool): Result<LinkTable, string> {
    if Lower(collection) == "all" then Ok(links)
    else if collection !in ValidCollections(links) then Err(InvalidCollection(collection, ValidCollections(links)))
    else Ok(map w | w in links && collection in links[w] && w != Placeholder :: Restrict(links[w], collection, includeOthers))
  }

  /**
    `get_works_by_collection`, with the loop of lines 250-251 over the filtered works, in
    whatever order the dictionary yields them.
  */
  method GetWorksByCollection(links: LinkTable, collection: string, includeOthers: bool) returns (r: Result<LinkTable, string>)
    ensures r == WorksByCollection(links, collection, includeOthers)
  {
    if Lower(collection) == "all" {
      return Ok(links);
    }
    if collection !in ValidCollections(links) {
      return Err(InvalidCollection(collection, ValidCollections(links)));
    }
    var data := map w | w in links && collection in links[w] :: links[w];
    if !includeOthers {
      data := HideOtherCollections(data, collection);
    }
    if Placeholder in data {
      data := data - {Placeholder};
    }
    assert forall w :: w in data <==> w in links && collection in links[w] && w != Placeholder;
    assert forall w :: w in data ==> data[w] == Restrict(links[w], collection, includeOthers);
    QueryByKeys(links, collection, includeOthers, data);
    r := Ok(data);
  }

  /** Lines 250-251: keep only `collection`'s entry of each work, visiting the works in any order. */
  method HideOtherCollections(data: LinkTable, collection: string) returns (r: LinkTable)
    requires forall w :: w in data ==> collection in data[w]
    ensures r.Keys == data.Keys
    ensures forall w :: w in r ==> r[w] == map[collection := data[w][collection]]
  {
    r := data;
    var pending := data.Keys;
    while pending != {}
      invariant pending <= data.Keys && r.Keys == data.Keys
      invariant forall w :: w in r ==> r[w] == if w in pending then data[w] else map[collection := data[w][collection]]
      decreases |pending|
    {
      var w :| w in pending;
      r := r[w := map[collection := r[w][collection]]];
      pending := pending - {w};
    }
  }

  lemma QueryByKeys(links: LinkTable, collection: string, includeOthers: bool, data: LinkTable)
    requires forall w :: w in data <==> w in links && collection in links[w] && w != Placeholder
    requires forall w :: w in data ==> data[w] == Restrict(links[w], collection, includeOthers)
    ensures data == map w | w in links && collection in links[w] && w != Placeholder :: Restrict(links[w], collection, includeOthers)
  {
  }

  /**
    What a collection query returns: every work that has the collection, apart from the
    placeholder, and nothing else, each with that collection's entry and, unless the other
    collections are asked for, only that one. `all`, in any case, returns the whole table,
    and a collection no work has is the 400 error that lists the valid ones in order.
  */
  lemma CollectionQuery(links: LinkTable, collection: string, includeOthers: bool)
    ensures Lower(collection) == "all" ==> WorksByCollection(links, collection, includeOthers) == Ok(links)
    ensures WorksByCollection(links, collection, includeOthers).Err? <==>
      Lower(collection) != "all" && forall w :: w in links ==> collection !in links[w]
    ensures Lower(collection) != "all" && WorksByCollection(links, collection, includeOthers).Ok? ==>
      var r := WorksByCollection(links, collection, includeOthers).value;
      && (forall w :: w in r <==> w in links && collection in links[w] && w != Placeholder)
      && (forall w :: w in r ==> collection in r[w] && r[w][collection] == links[w][collection])
      && (forall w :: w in r ==> (if includeOthers then r[w] == links[w] else r[w].Keys == {collection}))
  {
    if collection !in ValidCollections(links) {
      forall w | w in links ensures collection !in links[w] {
        assert collection in links[w] ==> collection in ValidCollections(links);
      }
    } else {
      var w, c :| w in links && c in links[w] && c == collection;
    }
  }

  /** The collection list of the 400 message holds each valid collection once, in code-point order. */
  lemma InvalidCollectionListsOptions(collection: string, valid: set<string>)
    ensures var options := SortedStrings(valid);
      && InvalidCollection(collection, valid) == "Invalid collection: " + collection + ". Valid options: " + ListRepr(options)
      && |options| == |valid| && (forall c :: c in options <==> c in valid)
      && forall i, j :: 0 <= i < j < |options| ==> LexLess(options[i], options[j])
  {
  }

  /** Lines 318-322: the works whose only collection is `collection`, with their entry. */
  function UniqueToCollection(links: LinkTable, collection: string): (r: LinkTable)
    ensures forall w :: w in r <==> w in links && links[w].Keys == {collection}
    ensures forall w :: w in r ==> r[w] == links[w]
  {
    forall w | w in links && collection in links[w] {
      OneKey(links[w], collection);
    }
    map w | w in links && collection in links[w] && |links[w]| == 1 :: map[collection := links[w][collection]]
  }

  lemma OneKey<K, V>(m: map<K, V>, k: K)
    requires k in m
    ensures |m| == 1 <==> m.Keys == {k}
  {
    if |m| == 1 && m.Keys != {k} {
      var j :| j in m && j != k;
      assert {j, k} <= m.Keys;
      assert |{j, k}| == 2;
      SubsetSize({j, k}, m.Keys);
    }
    if m.Keys == {k} {
      assert |m.Keys| == 1;
    }
  }

  lemma SubsetSize<T>(a: set<T>, b: set<T>)
    requires a <= b
    ensures |a| <= |b|
  {
    assert b == a + (b - a);
  }

  /**
    A work unique to a collection is in that collection's query without the other
    collections, with the same entry, unless it is the placeholder.
  */
  lemma UniqueWithinQuery(links: LinkTable, collection: string)
    requires Lower(collection) != "all"
    ensures forall w :: w in UniqueToCollection(links, collection) && w != Placeholder ==>
      WorksByCollection(links, collection, false).Ok? &&
      w in WorksByCollection(links, collection, false).value &&
      WorksByCollection(links, collection, false).value[w] == UniqueToCollection(links, collection)[w]
  {
    forall w | w in UniqueToCollection(links, collection) && w != Placeholder
      ensures WorksByCollection(links, collection, false).Ok? &&
        w in WorksByCollection(links, collection, false).value &&
        WorksByCollection(links, collection, false).value[w] == UniqueToCollection(links, collection)[w]
    {
      assert collection in links[w];
      assert collection in ValidCollections(links);
      assert links[w] == map[collection := links[w][collection]];
    }
  }

  /** Lines 364-369: the works in both collections, with both entries. */
  function Overlap(links: LinkTable, c1: string, c2: string): map<string, map<string, Entry>> {
    map w | w in links && c1 in links[w] && c2 in links[w] :: map[c1 := links[w][c1], c2 := links[w][c2]]
  }

  /** Lines 370-373: the works in `c1` and not in `c2`, with their `c1` entry. */
  function OnlyIn(links: LinkTable, c1: string, c2: string): map<string, map<string, Entry>> {
    map w | w in links && c1 in links[w] && c2 !in links[w] :: map[c1 := links[w][c1]]
  }

  /** The loop of lines 364-373, over the works in whatever order the dictionary yields them. */
  method OverlapBetween(links: LinkTable, c1: string, c2: string)
    returns (overlap: LinkTable, only1: LinkTable, only2: LinkTable)
    ensures overlap == Overlap(links, c1, c2)
    ensures only1 == OnlyIn(links, c1, c2)
    ensures only2 == OnlyIn(links, c2, c1)
  {
    overlap, only1, only2 := map[], map[], map[];
    var pending := links.Keys;
    while pending != {}
      invariant pending <= links.Keys
      invariant forall w :: w in overlap <==> w in links && w !in pending && c1 in links[w] && c2 in links[w]
      invariant forall w :: w in only1 <==> w in links && w !in pending && c1 in links[w] && c2 !in links[w]
      invariant forall w :: w in only2 <==> w in links && w !in pending && c2 in links[w] && c1 !in links[w]
      invariant forall w :: w in overlap ==> overlap[w] == map[c1 := links[w][c1], c2 := links[w][c2]]
      invariant forall w :: w in only1 ==> only1[w] == map[c1 := links[w][c1]]
      invariant forall w :: w in only2 ==> only2[w] == map[c2 := links[w][c2]]
      decreases |pending|
    {
      var workId :| workId in pending;
      var collections := links[workId];
      var inCol1 := c1 in collections;
      var inCol2 := c2 in collections;
      if inCol1 && inCol2 {
        overlap := overlap[workId := map[c1 := collections[c1], c2 := collections[c2]]];
      } else if inCol1 {
        only1 := only1[workId := map[c1 := collections[c1]]];
      } else if inCol2 {
        only2 := only2[workId := map[c2 := collections[c2]]];
      }
      pending := pending - {workId};
    }
    OverlapByKeys(links, c1, c2, overlap);
    OnlyInByKeys(links, c1, c2, only1);
    OnlyInByKeys(links, c2, c1, only2);
  }

  lemma OverlapByKeys(links: LinkTable, c1: string, c2: string, r: LinkTable)
    requires forall w :: w in r <==> w in links && c1 in links[w] && c2 in links[w]
    requires forall w :: w in r ==> r[w] == map[c1 := links[w][c1], c2 := links[w][c2]]
    ensures r == Overlap(links, c1, c2)
  {
  }

  lemma OnlyInByKeys(links: LinkTable, c1: string, c2: string, r: LinkTable)
    requires forall w :: w in r <==> w in links && c1 in links[w] && c2 !in links[w]
    requires forall w :: w in r ==> r[w] == map[c1 := links[w][c1]]
    ensures r == OnlyIn(links, c1, c2)
  {
  }

  /**
    The three answers split the works that have either collection: each such work is in
    exactly one of them, and the overlap holds both entries. Naming the same collection twice
    leaves both "only" answers empty.
  */
  lemma OverlapPartition(links: LinkTable, c1: string, c2: string)
    ensures forall w :: ((w in Overlap(links, c1, c2) || w in OnlyIn(links, c1, c2) || w in OnlyIn(links, c2, c1))
      <==> w in links && (c1 in links[w] || c2 in links[w]))
    ensures forall w :: !(w in Overlap(links, c1, c2) && w in OnlyIn(links, c1, c2))
    ensures forall w :: !(w in Overlap(links, c1, c2) && w in OnlyIn(links, c2, c1))
    ensures forall w :: !(w in OnlyIn(links, c1, c2) && w in OnlyIn(links, c2, c1))
    ensures forall w :: w in Overlap(links, c1, c2) ==>
      Overlap(links, c1, c2)[w][c1] == links[w][c1] && Overlap(links, c1, c2)[w][c2] == links[w][c2]
    ensures c1 == c2 ==> OnlyIn(links, c1, c2) == map[] && Overlap(links, c1, c2).Keys == set w | w in links && c1 in links[w]
  {
  }

  /** A work unique to one collection is only in that one when set against any other. */
  lemma UniqueIsOnlyIn(links: LinkTable, c1: string, c2: string)
    requires c1 != c2
    ensures forall w :: w in UniqueToCollection(links, c1) ==>
      w in OnlyIn(links, c1, c2) && OnlyIn(links, c1, c2)[w] == UniqueToCollection(links, c1)[w]
  {
    forall w | w in UniqueToCollection(links, c1)
      ensures w in OnlyIn(links, c1, c2) && OnlyIn(links, c1, c2)[w] == UniqueToCollection(links, c1)[w]
    {
      assert c2 !in links[w].Keys;
      assert links[w] == map[c1 := links[w][c1]];
    }
  }

  // ---------------------------------------------------------------------------------------
  // Authors of a set of works (lines 415-422)

  /** What a lookup may raise: a `KeyError`, or the wrapped `AttributeError` of line 421. */
  datatype Failure = KeyError(key: string) | Raised(message: string)

  /** Line 421 for an id that names an author, which has no `author_ids`. */
  function NotAWork(workId: string): string {
    "for work_id=" + Quoted(workId) + ": 'Author' object has no attribute 'author_ids'"
  }

  /** The union of the works' author lists, or the failure at the first id that is not a stored work. */
  function AuthorsOfWorks(entities: Store, workIds: seq<string>): Result<set<string>, Failure> {
    if workIds == [] then Ok({})
    else
      var last := workIds[|workIds| - 1];
      match AuthorsOfWorks(entities, workIds[..|workIds| - 1])
      case Err(f) => Err(f)
      case Ok(s) =>
        if last !in entities then Err(KeyError(last))
        else if !entities[last].Work? then Err(Raised(NotAWork(last)))
        else Ok(s + set a | a in entities[last].authorIds)
  }

  /** The ids before the `i`-th name stored works and the `i`-th does not: its failure is the result. */
  predicate FailsAt(entities: Store, workIds: seq<string>, i: nat) {
    && i < |workIds|
    && (forall j :: 0 <= j < i ==> workIds[j] in entities && entities[workIds[j]].Work?)
    && AuthorsOfWorks(entities, workIds)
       == Err(if workIds[i] !in entities then KeyError(workIds[i]) else Raised(NotAWork(workIds[i])))
  }

  /**
    The lookup succeeds exactly when every id names a stored work, and then yields the
    authors of those works and no one else; otherwise it fails at the first id that does not.
  */
  lemma AuthorsOfWorksMeaning(entities: Store, workIds: seq<string>)
    ensures AuthorsOfWorks(entities, workIds).Ok? <==>
      forall i :: 0 <= i < |workIds| ==> workIds[i] in entities && entities[workIds[i]].Work?
    ensures AuthorsOfWorks(entities, workIds).Ok? ==> forall a ::
      a in AuthorsOfWorks(entities, workIds).value <==>
      exists i :: 0 <= i < |workIds| && a in entities[workIds[i]].authorIds
    ensures AuthorsOfWorks(entities, workIds).Err? ==> exists i :: FailsAt(entities, workIds, i)
  {
    AuthorsOfWorksOk(entities, workIds);
    if AuthorsOfWorks(entities, workIds).Ok? {
      AuthorsOfWorksValue(entities, workIds);
    } else {
      AuthorsOfWorksError(entities, workIds);
    }
  }

  lemma {:induction false} AuthorsOfWorksOk(entities: Store, workIds: seq<string>)
    ensures AuthorsOfWorks(entities, workIds).Ok? <==>
      forall i :: 0 <= i < |workIds| ==> workIds[i] in entities && entities[workIds[i]].Work?
  {
    if workIds != [] {
      var n := |workIds| - 1;
      var prefix := workIds[..n];
      AuthorsOfWorksOk(entities, prefix);
      assert forall i :: 0 <= i < n ==> prefix[i] == workIds[i];
    }
  }

  lemma {:induction false} AuthorsOfWorksValue(entities: Store, workIds: seq<string>)
    requires forall i :: 0 <= i < |workIds| ==> workIds[i] in entities && entities[workIds[i]].Work?
    ensures AuthorsOfWorks(entities, workIds).Ok? && forall a ::
      a in AuthorsOfWorks(entities, workIds).value <==>
      exists i :: 0 <= i < |workIds| && a in entities[workIds[i]].authorIds
  {
    AuthorsOfWorksOk(entities, workIds);
    if workIds != [] {
      var n := |workIds| - 1;
      var prefix := workIds[..n];
      assert forall i :: 0 <= i < n ==> prefix[i] == workIds[i];
      AuthorsOfWorksValue(entities, prefix);
      var before := AuthorsOfWorks(entities, prefix).value;
      assert AuthorsOfWorks(entities, workIds).value == before + set a | a in entities[workIds[n]].authorIds;
      forall a | a in AuthorsOfWorks(entities, workIds).value
        ensures exists i :: 0 <= i < |workIds| && a in entities[workIds[i]].authorIds
      {
        if a !in entities[workIds[n]].authorIds {
          var i :| 0 <= i < n && a in entities[prefix[i]].authorIds;
          assert a in entities[workIds[i]].authorIds;
        }
      }
      forall a | exists i :: 0 <= i < |workIds| && a in entities[workIds[i]].authorIds
        ensures a in AuthorsOfWorks(entities, workIds).value
      {
        var i :| 0 <= i < |workIds| && a in entities[workIds[i]].authorIds;
        if i < n {
          assert a in entities[prefix[i]].authorIds;
        }
      }
    }
  }

  lemma {:induction false} AuthorsOfWorksError(entities: Store, workIds: seq<string>)
    ensures AuthorsOfWorks(entities, workIds).Err? ==> exists i :: FailsAt(entities, workIds, i)
  {
    if workIds != [] && AuthorsOfWorks(entities, workIds).Err? {
      var n := |workIds| - 1;
      var prefix := workIds[..n];
      assert forall i :: 0 <= i < n ==> prefix[i] == workIds[i];
      if AuthorsOfWorks(entities, prefix).Err? {
        AuthorsOfWorksError(entities, prefix);
        var i :| 0 <= i < n
          && (forall j :: 0 <= j < i ==> prefix[j] in entities && entities[prefix[j]].Work?)
          && AuthorsOfWorks(entities, prefix).error ==
             (if prefix[i] !in entities then KeyError(prefix[i]) else Raised(NotAWork(prefix[i])));
        assert workIds[i] == prefix[i];
        assert FailsAt(entities, workIds, i);
      } else {
        AuthorsOfWorksOk(entities, prefix);
        assert FailsAt(entities, workIds, n);
      }
    }
  }

  /** In a store in the loader's shape, every author found is a stored author of one of the works. */
  lemma AuthorsOfWorksAreAuthors(entities: Store, workIds: seq<string>)
    requires Valid(entities) && AuthorsOfWorks(entities, workIds).Ok?
    ensures forall a :: a in AuthorsOfWorks(entities, workIds).value ==>
      a in entities && entities[a].Author? && exists i :: 0 <= i < |workIds| && workIds[i] in entities[a].workIds
  {
    AuthorsOfWorksMeaning(entities, workIds);
  }

  /**
    `get_author_ids_for_work_ids`: the loop of lines 418-419 grows a set, which `list` then
    turns into a list in no particular order.
  */
  method GetAuthorIdsForWorkIds(entities: Store, workIds: seq<string>) returns (r: Result<seq<string>, Failure>)
    ensures AuthorsOfWorks(entities, workIds).Err? ==> r == Err(AuthorsOfWorks(entities, workIds).error)
    ensures AuthorsOfWorks(entities, workIds).Ok? ==>
      r.Ok? && NoDup(r.value) && forall a :: a in r.value <==> a in AuthorsOfWorks(entities, workIds).value
  {
    var authorIds: set<string> := {};
    var i := 0;
    while i < |workIds|
      invariant 0 <= i <= |workIds|
      invariant AuthorsOfWorks(entities, workIds[..i]) == Ok(authorIds)
    {
      var workId := workIds[i];
      assert workIds[..i + 1][..i] == workIds[..i];
      if workId !in entities {
        PrefixFailure(entities, workIds, i + 1);
        return Err(KeyError(workId));
      }
      if !entities[workId].Work? {
        PrefixFailure(entities, workIds, i + 1);
        return Err(Raised(NotAWork(workId)));
      }
      authorIds := authorIds + set a | a in entities[workId].authorIds;
      i := i + 1;
    }
    assert workIds[..i] == workIds;
    var list := [];
    var rest := authorIds;
    while rest != {}
      invariant rest <= authorIds && NoDup(list)
      invariant forall a :: a in list <==> a in authorIds && a !in rest
      decreases |rest|
    {
      var a :| a in rest;
      list := list + [a];
      rest := rest - {a};
    }
    r := Ok(list);
  }

  /** A failure in a prefix is the failure of the whole list. */
  lemma {:induction false} PrefixFailure(entities: Store, workIds: seq<string>, k: nat)
    requires k <= |workIds| && AuthorsOfWorks(entities, workIds[..k]).Err?
    ensures AuthorsOfWorks(entities, workIds) == AuthorsOfWorks(entities, workIds[..k])
    decreases |workIds|
  {
    if k < |workIds| {
      var n := |workIds| - 1;
      assert workIds[..n][..k] == workIds[..k];
      PrefixFailure(entities, workIds[..n], k);
    } else {
      assert workIds[..k] == workIds;
    }
  }
}
