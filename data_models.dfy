/**
  The entity records of `data_models.py`: a closed two-variant hierarchy (`Work`, `Author`)
  sharing the base fields of `Entity`, the per-class attribute lists `ATTRIBUTES`, the
  constructors with their defaults, `to_dict`, the `setattr` loop of `from_dict`, and the
  type-discriminant factory `create_from_dict`.
*/
module DataModels {
  import opened Options
  import opened Text

  datatype Kind = WorkKind | AuthorKind

  /** The attribute names of the three classes; each constructor's comment gives its JSON key. */
  datatype Attr =
    | Id                  // "id"
    | Type                // "type"
    | Name                // "name"
    | Aka                 // "aka"
    | HighestYear         // "highest_year"
    | LowestYear          // "lowest_year"
    | AuthorIds           // "author_ids"
    | BaseTextIds         // "base_text_ids"
    | CommentaryIds       // "commentary_ids"
    | Discipline          // "discipline"
    | AuthorHighestYear   // "author_highest_year"
    | AuthorLowestYear    // "author_lowest_year"
    | SocialIdentifiers   // "social_identifiers"
    | WorkIds             // "work_ids"
    | Disciplines         // "disciplines"

  /** A JSON value as `from_dict` reads it and `to_dict` writes it; `Null` is Python's `None`. */
  datatype Value = Null | Str(s: string) | Int(i: int) | StrList(items: seq<string>)

  /** A JSON object, keyed by the attribute names `from_dict` looks up. */
  type Dict = map<Attr, Value>

  /**
    One entity. `entityType` is the `type` attribute: the constructors set it to "work" or
    "author", and `from_dict` may overwrite it with whatever string the data holds.
  */
  datatype Entity =
    | Work(id: string, entityType: string, name: string, aka: string,
           highestYear: Option<int>, lowestYear: Option<int>,
           authorIds: seq<string>, baseTextIds: seq<string>, commentaryIds: seq<string>,
           discipline: Option<string>, authorHighestYear: Option<int>, authorLowestYear: Option<int>)
    | Author(id: string, entityType: string, name: string, aka: string,
             highestYear: Option<int>, lowestYear: Option<int>,
             socialIdentifiers: Option<string>, workIds: seq<string>, disciplines: Option<string>)

  function KindOf(e: Entity): Kind {
    if e.Work? then WorkKind else AuthorKind
  }

  /** The `type` string each constructor sets. */
  function TypeName(k: Kind): string {
    if k == WorkKind then "work" else "author"
  }

  /** `Entity.ATTRIBUTES`. */
  const EntityAttributes: seq<Attr> := [Id, Type, Name, Aka, HighestYear, LowestYear]

  /** `Work.ATTRIBUTES`: the base list followed by the six attributes `Work` adds. */
  const WorkAttributes: seq<Attr> := EntityAttributes +
    [AuthorIds, BaseTextIds, CommentaryIds, Discipline, AuthorHighestYear, AuthorLowestYear]

  /** `Author.ATTRIBUTES`: the base list followed by the three attributes `Author` adds. */
  const AuthorAttributes: seq<Attr> := EntityAttributes + [SocialIdentifiers, WorkIds, Disciplines]

  /** The class attribute `ATTRIBUTES` of `Work` or `Author`. */
  function Attributes(k: Kind): seq<Attr> {
    if k == WorkKind then WorkAttributes else AuthorAttributes
  }

  /** The attributes of class `k`: those an instance of it has. */
  predicate Declares(k: Kind, a: Attr) {
    match a
    case AuthorIds | BaseTextIds | CommentaryIds | Discipline | AuthorHighestYear | AuthorLowestYear =>
      k == WorkKind
    case SocialIdentifiers | WorkIds | Disciplines => k == AuthorKind
    case _ => true
  }

  /** `ATTRIBUTES` lists each attribute of its class exactly once. */
  lemma AttributesListDeclared(k: Kind)
    ensures forall a :: a in Attributes(k) <==> Declares(k, a)
    ensures forall i, j :: 0 <= i < j < |Attributes(k)| ==> Attributes(k)[i] != Attributes(k)[j]
  {
    if k == WorkKind {
      WorkAttributesDistinct();
    } else {
      AuthorAttributesDistinct();
    }
  }

  lemma WorkAttributesDistinct()
    ensures forall a :: a in WorkAttributes <==> Declares(WorkKind, a)
    ensures forall i, j :: 0 <= i < j < |WorkAttributes| ==> WorkAttributes[i] != WorkAttributes[j]
  {
  }

  lemma AuthorAttributesDistinct()
    ensures forall a :: a in AuthorAttributes <==> Declares(AuthorKind, a)
    ensures forall i, j :: 0 <= i < j < |AuthorAttributes| ==> AuthorAttributes[i] != AuthorAttributes[j]
  {
  }

  /** The JSON shape each attribute holds (the annotations of the constructors). */
  predicate HasType(a: Attr, v: Value) {
    match a
    case Id | Type | Name | Aka => v.Str?
    case HighestYear | LowestYear | AuthorHighestYear | AuthorLowestYear => v.Int? || v.Null?
    case AuthorIds | BaseTextIds | CommentaryIds | WorkIds => v.StrList?
    case Discipline | SocialIdentifiers | Disciplines => v.Str? || v.Null?
  }

  /** Every attribute in `data` has the shape its field is declared with. */
  predicate WellTyped(data: Dict) {
    forall a :: a in data ==> HasType(a, data[a])
  }

  /** An optional int as JSON; `o` can be read back from the value. */
  function OfInt(o: Option<int>): (v: Value)
    ensures v.Null? || v.Int?
    ensures v.Null? ==> o == None
    ensures v.Int? ==> o == Some(v.i)
  {
    match o
    case None => Null
    case Some(i) => Int(i)
  }

  /** An optional string as JSON; `o` can be read back from the value. */
  function OfStr(o: Option<string>): (v: Value)
    ensures v.Null? || v.Str?
    ensures v.Null? ==> o == None
    ensures v.Str? ==> o == Some(v.s)
  {
    match o
    case None => Null
    case Some(s) => Str(s)
  }

  function AsInt(v: Value): (o: Option<int>)
    requires v.Int? || v.Null?
    ensures OfInt(o) == v
  {
    if v.Int? then Some(v.i) else None
  }

  function AsStr(v: Value): (o: Option<string>)
    requires v.Str? || v.Null?
    ensures OfStr(o) == v
  {
    if v.Str? then Some(v.s) else None
  }

  /**
    Python's `getattr(e, a)`. An attribute `e`'s class lacks reads as `Null`; the code only
    asks for attributes of the entity's own class.
  */
  function GetAttr(e: Entity, a: Attr): (v: Value)
    ensures Declares(KindOf(e), a) ==> HasType(a, v)
  {
    match a
    case Id => Str(e.id)
    case Type => Str(e.entityType)
    case Name => Str(e.name)
    case Aka => Str(e.aka)
    case HighestYear => OfInt(e.highestYear)
    case LowestYear => OfInt(e.lowestYear)
    case AuthorIds => if e.Work? then StrList(e.authorIds) else Null
    case BaseTextIds => if e.Work? then StrList(e.baseTextIds) else Null
    case CommentaryIds => if e.Work? then StrList(e.commentaryIds) else Null
    case Discipline => if e.Work? then OfStr(e.discipline) else Null
    case AuthorHighestYear => if e.Work? then OfInt(e.authorHighestYear) else Null
    case AuthorLowestYear => if e.Work? then OfInt(e.authorLowestYear) else Null
    case SocialIdentifiers => if e.Author? then OfStr(e.socialIdentifiers) else Null
    case WorkIds => if e.Author? then StrList(e.workIds) else Null
    case Disciplines => if e.Author? then OfStr(e.disciplines) else Null
  }

  /** Python's `setattr(e, a, v)` for an attribute of `e`'s class and a value of its shape. */
  function SetAttr(e: Entity, a: Attr, v: Value): (r: Entity)
    requires Declares(KindOf(e), a) && HasType(a, v)
    ensures KindOf(r) == KindOf(e)
    ensures GetAttr(r, a) == v
    ensures forall b :: Declares(KindOf(e), b) && b != a ==> GetAttr(r, b) == GetAttr(e, b)
  {
    match a
    case Id => e.(id := v.s)
    case Type => e.(entityType := v.s)
    case Name => e.(name := v.s)
    case Aka => e.(aka := v.s)
    case HighestYear => e.(highestYear := AsInt(v))
    case LowestYear => e.(lowestYear := AsInt(v))
    case AuthorIds => e.(authorIds := v.items)
    case BaseTextIds => e.(baseTextIds := v.items)
    case CommentaryIds => e.(commentaryIds := v.items)
    case Discipline => e.(discipline := AsStr(v))
    case AuthorHighestYear => e.(authorHighestYear := AsInt(v))
    case AuthorLowestYear => e.(authorLowestYear := AsInt(v))
    case SocialIdentifiers => e.(socialIdentifiers := AsStr(v))
    case WorkIds => e.(workIds := v.items)
    case Disciplines => e.(disciplines := AsStr(v))
  }

  /** The attributes both classes declare fix the shared fields. */
  lemma SharedFieldsAgree(e1: Entity, e2: Entity)
    requires KindOf(e1) == KindOf(e2)
    requires forall a :: Declares(KindOf(e1), a) ==> GetAttr(e1, a) == GetAttr(e2, a)
    ensures e1.id == e2.id && e1.entityType == e2.entityType
    ensures e1.name == e2.name && e1.aka == e2.aka
    ensures e1.highestYear == e2.highestYear && e1.lowestYear == e2.lowestYear
  {
    assert GetAttr(e1, Id) == GetAttr(e2, Id);
    assert GetAttr(e1, Type) == GetAttr(e2, Type);
    assert GetAttr(e1, Name) == GetAttr(e2, Name);
    assert GetAttr(e1, Aka) == GetAttr(e2, Aka);
    assert GetAttr(e1, HighestYear) == GetAttr(e2, HighestYear);
    assert GetAttr(e1, LowestYear) == GetAttr(e2, LowestYear);
  }

  /** The attributes only `Work` declares fix the remaining fields of a work. */
  lemma WorkFieldsAgree(e1: Entity, e2: Entity)
    requires e1.Work? && e2.Work?
    requires forall a :: Declares(WorkKind, a) ==> GetAttr(e1, a) == GetAttr(e2, a)
    ensures e1.authorIds == e2.authorIds && e1.baseTextIds == e2.baseTextIds
    ensures e1.commentaryIds == e2.commentaryIds && e1.discipline == e2.discipline
    ensures e1.authorHighestYear == e2.authorHighestYear && e1.authorLowestYear == e2.authorLowestYear
  {
    assert GetAttr(e1, AuthorIds) == GetAttr(e2, AuthorIds);
    assert GetAttr(e1, BaseTextIds) == GetAttr(e2, BaseTextIds);
    assert GetAttr(e1, CommentaryIds) == GetAttr(e2, CommentaryIds);
    assert GetAttr(e1, Discipline) == GetAttr(e2, Discipline);
    assert GetAttr(e1, AuthorHighestYear) == GetAttr(e2, AuthorHighestYear);
    assert GetAttr(e1, AuthorLowestYear) == GetAttr(e2, AuthorLowestYear);
  }

  /** The attributes only `Author` declares fix the remaining fields of an author. */
  lemma AuthorFieldsAgree(e1: Entity, e2: Entity)
    requires e1.Author? && e2.Author?
    requires forall a :: Declares(AuthorKind, a) ==> GetAttr(e1, a) == GetAttr(e2, a)
    ensures e1.socialIdentifiers == e2.socialIdentifiers
    ensures e1.workIds == e2.workIds && e1.disciplines == e2.disciplines
  {
    assert GetAttr(e1, SocialIdentifiers) == GetAttr(e2, SocialIdentifiers);
    assert GetAttr(e1, WorkIds) == GetAttr(e2, WorkIds);
    assert GetAttr(e1, Disciplines) == GetAttr(e2, Disciplines);
  }

  /** Two entities of one class that agree on every attribute are the same entity. */
  lemma AttributesDetermine(e1: Entity, e2: Entity)
    requires KindOf(e1) == KindOf(e2)
    requires forall a :: Declares(KindOf(e1), a) ==> GetAttr(e1, a) == GetAttr(e2, a)
    ensures e1 == e2
  {
    SharedFieldsAgree(e1, e2);
    if e1.Work? {
      WorkFieldsAgree(e1, e2);
    } else {
      AuthorFieldsAgree(e1, e2);
    }
  }

  /** `Work(entity_id)`: the defaults of `Entity.__init__` and `Work.__init__`. */
  function NewWork(id: string): Entity {
    Work(id, "work", "", "", None, None, [], [], [], None, None, None)
  }

  /** `Author(entity_id)`: the defaults of `Entity.__init__` and `Author.__init__`. */
  function NewAuthor(id: string): Entity {
    Author(id, "author", "", "", None, None, None, [], None)
  }

  /** `Work(entity_id)` or `Author(entity_id)`: an entity of class `k`, tagged with its own type. */
  function New(k: Kind, id: string): (r: Entity)
    ensures KindOf(r) == k && r.id == id && Tagged(r)
  {
    LowerNoCapitals(TypeName(k));
    if k == WorkKind then NewWork(id) else NewAuthor(id)
  }

  /** `e.to_dict()`: every attribute of `e`'s class whose value is not `None`. */
  function ToDict(e: Entity): Dict {
    map a | a in Attributes(KindOf(e)) && GetAttr(e, a) != Null :: GetAttr(e, a)
  }

  /** The keys `to_dict` writes: the attributes of the entity's class that are not `None`. */
  lemma ToDictKeys(e: Entity)
    ensures forall a :: a in ToDict(e) <==> Declares(KindOf(e), a) && GetAttr(e, a) != Null
    ensures forall a :: a in ToDict(e) ==> ToDict(e)[a] == GetAttr(e, a)
  {
    AttributesListDeclared(KindOf(e));
  }

  /** `to_dict` writes exactly the attributes of the entity's class that are not `None`. */
  lemma ToDictIs(e: Entity, expected: Dict)
    requires forall a :: a in expected <==> Declares(KindOf(e), a) && GetAttr(e, a) != Null
    requires forall a :: a in expected ==> expected[a] == GetAttr(e, a)
    ensures ToDict(e) == expected
  {
    ToDictKeys(e);
  }

  /** A fresh `Work` writes its id, its type, empty name and aka, and its three empty lists. */
  lemma NewWorkDict(id: string)
    ensures ToDict(NewWork(id)) == map[
      Id := Str(id), Type := Str("work"), Name := Str(""), Aka := Str(""),
      AuthorIds := StrList([]), BaseTextIds := StrList([]), CommentaryIds := StrList([])]
  {
    var expected := map[
      Id := Str(id), Type := Str("work"), Name := Str(""), Aka := Str(""),
      AuthorIds := StrList([]), BaseTextIds := StrList([]), CommentaryIds := StrList([])];
    ToDictIs(NewWork(id), expected);
  }

  /** A fresh `Author` writes its id, its type, empty name and aka, and its empty `work_ids`. */
  lemma NewAuthorDict(id: string)
    ensures ToDict(NewAuthor(id)) == map[
      Id := Str(id), Type := Str("author"), Name := Str(""), Aka := Str(""), WorkIds := StrList([])]
  {
    var expected := map[
      Id := Str(id), Type := Str("author"), Name := Str(""), Aka := Str(""), WorkIds := StrList([])];
    ToDictIs(NewAuthor(id), expected);
  }

  /** What `to_dict` writes always has the shapes `from_dict` expects, and always has an id. */
  lemma ToDictWellTyped(e: Entity)
    ensures WellTyped(ToDict(e))
    ensures Id in ToDict(e) && ToDict(e)[Id] == Str(e.id)
  {
    AttributesListDeclared(KindOf(e));
  }

  /** Why `from_dict` or `create_from_dict` raised. */
  datatype LoadError =
    | MissingId                      // KeyError on `data["id"]`
    | UnknownEntityType(t: string)   // ValueError(f"Unknown entity type: {t}")

  /** `data.get("type", "").lower()`. */
  function TypeTag(data: Dict): string {
    if Type in data && data[Type].Str? then Lower(data[Type].s) else ""
  }

  /** `data["id"]`, for data that has one. */
  function IdOf(data: Dict): string {
    if Id in data && data[Id].Str? then data[Id].s else ""
  }

  /** The value `from_dict` leaves in `a`: the data's own when present, else the constructor's default. */
  function Decoded(k: Kind, data: Dict, a: Attr): Value
    requires Declares(k, a)
  {
    if a in data then data[a] else GetAttr(New(k, IdOf(data)), a)
  }

  /**
    `e` is what `cls.from_dict(data)` builds for the class of kind `k`: exactly the attributes
    present in both `data` and `ATTRIBUTES` are copied; every other attribute keeps its default.
  */
  ghost predicate Decodes(k: Kind, data: Dict, e: Entity) {
    KindOf(e) == k && forall a :: Declares(k, a) ==> GetAttr(e, a) == Decoded(k, data, a)
  }

  /** `Work.from_dict(data)` or `Author.from_dict(data)`: the `setattr` loop over `ATTRIBUTES`. */
  method FromDict(k: Kind, data: Dict) returns (r: Result<Entity, LoadError>)
    requires WellTyped(data)
    ensures r.Err? <==> Id !in data
    ensures r.Err? ==> r.error == MissingId
    ensures r.Ok? ==> Decodes(k, data, r.value)
  {
    if Id !in data {
      return Err(MissingId);
    }
    AttributesListDeclared(k);
    var entity := CopyAttributes(New(k, data[Id].s), Attributes(k), data);
    return Ok(entity);
  }

  /** Lines of `from_dict` that loop over `ATTRIBUTES`: `setattr` for each one present in `data`. */
  method CopyAttributes(initial: Entity, attrs: seq<Attr>, data: Dict) returns (entity: Entity)
    requires WellTyped(data) && forall i :: 0 <= i < |attrs| ==> Declares(KindOf(initial), attrs[i])
    ensures KindOf(entity) == KindOf(initial)
    ensures forall a :: Declares(KindOf(initial), a) ==>
      GetAttr(entity, a) == (if a in data && a in attrs then data[a] else GetAttr(initial, a))
  {
    entity := initial;
    for i := 0 to |attrs|
      invariant KindOf(entity) == KindOf(initial)
      invariant forall a :: Declares(KindOf(initial), a) ==>
        GetAttr(entity, a) == (if a in data && a in attrs[..i] then data[a] else GetAttr(initial, a))
    {
      assert attrs[..i + 1] == attrs[..i] + [attrs[i]];
      if attrs[i] in data {
        entity := SetAttr(entity, attrs[i], data[attrs[i]]);
      }
    }
    assert attrs[..|attrs|] == attrs;
  }

  /** What `Entity.create_from_dict(data)` returns or raises. */
  ghost predicate Created(data: Dict, r: Result<Entity, LoadError>) {
    var t := TypeTag(data);
    if t == "work" || t == "author" then
      var k := if t == "work" then WorkKind else AuthorKind;
      if Id in data then r.Ok? && Decodes(k, data, r.value) else r == Err(MissingId)
    else
      r == Err(UnknownEntityType(t))
  }

  /** `Entity.create_from_dict(data)`: dispatch on the lower-cased `type`. */
  method CreateFromDict(data: Dict) returns (r: Result<Entity, LoadError>)
    requires WellTyped(data)
    ensures Created(data, r)
  {
    var t := TypeTag(data);
    if t == "work" {
      r := FromDict(WorkKind, data);
    } else if t == "author" {
      r := FromDict(AuthorKind, data);
    } else {
      r := Err(UnknownEntityType(t));
    }
  }

  /** The `type` string names the entity's own class, in any letter case. */
  predicate Tagged(e: Entity) {
    Lower(e.entityType) == TypeName(KindOf(e))
  }

  /** Every entity `create_from_dict` returns is tagged with its own class. */
  lemma CreatedIsTagged(data: Dict, r: Result<Entity, LoadError>)
    requires WellTyped(data)
    requires Created(data, r) && r.Ok?
    ensures Tagged(r.value)
  {
    var k := KindOf(r.value);
    assert GetAttr(r.value, Type) == Decoded(k, data, Type);
  }

  /** `from_dict` copies `type` verbatim: no lower-casing is applied to the stored value. */
  lemma TypeKeptVerbatim(id: string, r: Result<Entity, LoadError>)
    requires Created(map[Id := Str(id), Type := Str("WORK")], r)
    ensures r.Ok? && r.value.Work? && r.value.entityType == "WORK" && r.value.id == id
  {
    var data := map[Id := Str(id), Type := Str("WORK")];
    assert Lower("WORK") == "work";
    assert TypeTag(data) == "work";
    assert GetAttr(r.value, Type) == Decoded(WorkKind, data, Type);
    assert GetAttr(r.value, Id) == Decoded(WorkKind, data, Id);
  }

  /** An attribute that reads as `None` is one whose constructor default is `None` too. */
  lemma NullDefaults(e: Entity, a: Attr)
    requires Declares(KindOf(e), a) && GetAttr(e, a) == Null
    ensures GetAttr(New(KindOf(e), e.id), a) == Null
  {
  }

  /**
    The writer/reader pair: `create_from_dict(e.to_dict())` rebuilds `e` exactly, for every
    entity whose `type` names its own class.
  */
  lemma RoundTrip(e: Entity, r: Result<Entity, LoadError>)
    requires Tagged(e)
    requires Created(ToDict(e), r)
    ensures r == Ok(e)
  {
    var d := ToDict(e);
    ToDictWellTyped(e);
    var k := KindOf(e);
    assert d[Type] == Str(e.entityType);
    assert TypeTag(d) == TypeName(k);
    assert r.Ok? && Decodes(k, d, r.value);
    ToDictKeys(e);
    forall a | Declares(k, a) ensures GetAttr(r.value, a) == GetAttr(e, a) {
      if a !in d {
        NullDefaults(e, a);
      }
    }
    AttributesDetermine(r.value, e);
  }
}
