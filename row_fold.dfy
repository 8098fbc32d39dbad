/**
  The row fold of `create_entities` (utils/transform.py) as functions on values: each CSV row,
  a record of column name to cell text, updates a store `id -> Entity`. A "work" row creates
  or updates its work and links it both ways to its authors and base texts; a "person" row
  creates or updates an author; any other row is skipped. The class `EntityBuilder` in module
  `Transform` performs the same fold in place and is proved equal to these functions.
*/
module RowFold {
  import opened Options
  import opened Text
  import opened DataModels

  /** One `csv.DictReader` row. */
  type Row = map<string, string>

  /** `entities_by_id`. */
  type Store = map<string, Entity>

  /** `row.get(key, default)`. */
  function Get(row: Row, key: string, default: string): string {
    if key in row then row[key] else default
  }

  /** `[item.strip() for item in pieces if item.strip()]`. */
  function KeepNonEmpty(pieces: seq<string>): (r: seq<string>)
    ensures forall i :: 0 <= i < |r| ==> r[i] != "" && IsStripped(r[i])
  {
    if pieces == [] then []
    else (if Strip(pieces[0]) != "" then [Strip(pieces[0])] else []) + KeepNonEmpty(pieces[1..])
  }

  /** `split_field(field)`: the comma-separated pieces, trimmed, empty pieces dropped, order kept. */
  function SplitField(field: string): (r: seq<string>)
    ensures forall i :: 0 <= i < |r| ==> r[i] != "" && IsStripped(r[i]) && ',' !in r[i]
  {
    KeepNonEmptyAvoids(Split(field, ','), ',');
    KeepNonEmpty(Split(field, ','))
  }

  lemma {:induction false} KeepNonEmptyMembers(pieces: seq<string>, x: string)
    ensures x in KeepNonEmpty(pieces) <==> x != "" && exists p :: p in pieces && Strip(p) == x
  {
    if pieces != [] {
      KeepNonEmptyMembers(pieces[1..], x);
      assert pieces == [pieces[0]] + pieces[1..];
      if x != "" && Strip(pieces[0]) != x && (exists p :: p in pieces && Strip(p) == x) {
        var p :| p in pieces && Strip(p) == x;
        assert p in pieces[1..];
      }
    }
  }

  /**
    The pieces of `split_field(field)` are exactly the non-empty trimmed comma-separated pieces
    of `field`, and none of them holds a comma or surrounding whitespace.
  */
  lemma SplitFieldMembers(field: string, x: string)
    ensures x in SplitField(field) <==> x != "" && exists p :: p in Split(field, ',') && Strip(p) == x
    ensures x in SplitField(field) ==> IsStripped(x) && ',' !in x
  {
    KeepNonEmptyMembers(Split(field, ','), x);
    KeepNonEmptyAvoids(Split(field, ','), ',');
  }

  lemma {:induction false} KeepNonEmptyAvoids(pieces: seq<string>, c: char)
    requires forall i :: 0 <= i < |pieces| ==> c !in pieces[i]
    ensures forall i :: 0 <= i < |KeepNonEmpty(pieces)| ==> c !in KeepNonEmpty(pieces)[i]
  {
    if pieces != [] {
      KeepNonEmptyAvoids(pieces[1..], c);
      assert c !in pieces[0];
    }
  }

  /** A list cell written as the comma-joined ids reads back as those ids. */
  lemma {:induction false} SplitFieldOfJoin(ids: seq<string>)
    requires |ids| >= 1
    requires forall i :: 0 <= i < |ids| ==> ids[i] != "" && IsStripped(ids[i]) && ',' !in ids[i]
    ensures SplitField(Join(ids, [','])) == ids
  {
    SplitJoin(ids, ',');
    KeepAllClean(ids);
  }

  lemma {:induction false} KeepAllClean(ids: seq<string>)
    requires forall i :: 0 <= i < |ids| ==> ids[i] != "" && IsStripped(ids[i])
    ensures KeepNonEmpty(ids) == ids
  {
    if ids != [] {
      StrippedIsFixed(ids[0]);
      KeepAllClean(ids[1..]);
    }
  }

  /** `zip(ids, names)`: the pairs up to the shorter of the two lists. */
  function Zip(ids: seq<string>, names: seq<string>): (r: seq<(string, string)>)
    ensures |r| == if |ids| <= |names| then |ids| else |names|
    ensures forall i :: 0 <= i < |r| ==> r[i] == (ids[i], names[i])
  {
    if ids == [] || names == [] then [] else [(ids[0], names[0])] + Zip(ids[1..], names[1..])
  }

  /** The ids of a list of `(id, name)` pairs. */
  function PairIds(pairs: seq<(string, string)>): set<string> {
    set i | 0 <= i < |pairs| :: pairs[i].0
  }

  // ---------------------------------------------------------------------------------------
  // Reading one row

  /** `row.get("Content type", "").strip().lower()`. */
  function ContentType(row: Row): string {
    Lower(Strip(Get(row, "Content type", "")))
  }

  /**
    What a row must hold for lines 59-65 not to raise: "ID" and "Name", both year cells
    (`row.get(..., None).strip()` fails on a missing one), and integer literals in both when
    "Highest Year" is not blank. A person row also needs "Social identifiers".
  */
  predicate RowParses(row: Row) {
    && "ID" in row && "Name" in row && "Highest Year" in row && "Lowest Year" in row
    && (Strip(row["Highest Year"]) != "" ==>
          IsIntLiteral(Strip(row["Highest Year"])) && IsIntLiteral(Strip(row["Lowest Year"])))
    && (ContentType(row) == "person" ==> "Social identifiers" in row)
  }

  /** `(highest_year, lowest_year)`: both parsed when "Highest Year" is not blank, else both `None`. */
  function Years(row: Row): (r: (Option<int>, Option<int>))
    requires RowParses(row)
    ensures r.0.Some? <==> Strip(row["Highest Year"]) != ""
    ensures r.0.Some? <==> r.1.Some?
    ensures r.0.Some? ==> r.0.value == ParseInt(Strip(row["Highest Year"])) && r.1.value == ParseInt(Strip(row["Lowest Year"]))
  {
    var hs := Strip(row["Highest Year"]);
    if hs != "" then (Some(ParseInt(hs)), Some(ParseInt(Strip(row["Lowest Year"])))) else (None, None)
  }

  /** The fields lines 59-65, 68 and 84-105 read from one row, by content type. */
  datatype Parsed =
    | WorkRow(id: string, name: string, aka: string, discipline: string,
              highestYear: Option<int>, lowestYear: Option<int>,
              authors: seq<(string, string)>, baseTexts: seq<(string, string)>)
    | PersonRow(id: string, name: string, aka: string, socialIdentifiers: string,
                highestYear: Option<int>, lowestYear: Option<int>)
    | OtherRow

  function ParseRow(row: Row): (p: Parsed)
    requires RowParses(row)
  {
    var ct := ContentType(row);
    var years := Years(row);
    var id := Strip(row["ID"]);
    var name := Strip(row["Name"]);
    var aka := Strip(Get(row, "Aka", ""));
    if ct == "work" then
      WorkRow(id, name, aka, Strip(Get(row, "Discipline", "")), years.0, years.1,
              AuthorPairs(row), BaseTextPairs(row))
    else if ct == "person" then
      PersonRow(id, name, aka, Strip(row["Social identifiers"]), years.0, years.1)
    else OtherRow
  }

  /** The content type alone picks the kind of row; a work or person row carries the stripped id and name. */
  lemma ParseRowMeaning(row: Row)
    requires RowParses(row)
    ensures ParseRow(row).WorkRow? <==> ContentType(row) == "work"
    ensures ParseRow(row).PersonRow? <==> ContentType(row) == "person"
    ensures !ParseRow(row).OtherRow? ==> ParseRow(row).id == Strip(row["ID"]) && ParseRow(row).name == Strip(row["Name"])
    ensures !ParseRow(row).OtherRow? ==> (ParseRow(row).highestYear, ParseRow(row).lowestYear) == Years(row)
  {
  }

  predicate AllParse(rows: seq<Row>) {
    forall i :: 0 <= i < |rows| ==> RowParses(rows[i])
  }

  /** The rows in order, each read as `ParseRow` reads it. */
  function ParseAll(rows: seq<Row>): (ps: seq<Parsed>)
    requires AllParse(rows)
  {
    seq(|rows|, i requires 0 <= i < |rows| => ParseRow(rows[i]))
  }

  /** Every id a work row links to is a non-empty, trimmed, comma-free piece of its cell. */
  lemma ZipMembers(ids: seq<string>, names: seq<string>, q: (string, string))
    requires q in Zip(ids, names)
    ensures q.0 in ids && q.1 in names
  {
    var i :| 0 <= i < |Zip(ids, names)| && Zip(ids, names)[i] == q;
  }

  function AuthorPairs(row: Row): seq<(string, string)> {
    Zip(SplitField(Get(row, "Authors (IDs)", "")), SplitField(Get(row, "Authors (names)", "")))
  }

  function BaseTextPairs(row: Row): seq<(string, string)> {
    Zip(SplitField(Get(row, "Base texts (IDs)", "")), SplitField(Get(row, "Base texts (names)", "")))
  }

  lemma PairsClean(ids: string, names: string, q: (string, string))
    requires q in Zip(SplitField(ids), SplitField(names))
    ensures q.0 != "" && IsStripped(q.0) && ',' !in q.0
    ensures q.1 != "" && IsStripped(q.1) && ',' !in q.1
  {
    ZipMembers(SplitField(ids), SplitField(names), q);
    SplitFieldMembers(ids, q.0);
    SplitFieldMembers(names, q.1);
  }

  /** Every id and name a work row links is a non-empty, trimmed, comma-free piece of its cell. */
  lemma ParsedIdsClean(row: Row, q: (string, string))
    requires RowParses(row) && ParseRow(row).WorkRow?
    requires q in ParseRow(row).authors || q in ParseRow(row).baseTexts
    ensures q.0 != "" && IsStripped(q.0) && ',' !in q.0
    ensures q.1 != "" && IsStripped(q.1) && ',' !in q.1
  {
    var p := ParseRow(row);
    assert p.authors == AuthorPairs(row) && p.baseTexts == BaseTextPairs(row);
    if q in p.authors {
      PairsClean(Get(row, "Authors (IDs)", ""), Get(row, "Authors (names)", ""), q);
    } else {
      PairsClean(Get(row, "Base texts (IDs)", ""), Get(row, "Base texts (names)", ""), q);
    }
  }

  // ---------------------------------------------------------------------------------------
  // Applying one row to the store

  /** `if x not in ids: ids.append(x)`. */
  function AppendNew(ids: seq<string>, x: string): (r: seq<string>)
    ensures x in r && ids <= r
    ensures forall y :: y in r <==> y in ids || y == x
    ensures NoDup(ids) ==> NoDup(r)
  {
    if x in ids then ids else ids + [x]
  }

  /** No id occurs twice in a list. */
  predicate NoDup(ids: seq<string>) {
    forall i, j :: 0 <= i < j < |ids| ==> ids[i] != ids[j]
  }

  /**
    Lines 87-101 for one `(aid, aname)` pair of the work `wid`: fetch or create the author,
    rename it and link the two both ways. Work and author are distinct entities.
  */
  function LinkAuthor(m: Store, wid: string, aid: string, aname: string): (r: Store)
    requires wid in m && m[wid].Work? && aid != wid && (aid in m ==> m[aid].Author?)
    ensures r.Keys == m.Keys + {aid}
    ensures r[wid].Work? && r[aid].Author?
    ensures forall k :: k in m ==> KindOf(r[k]) == KindOf(m[k])
  {
    var a := if aid in m then m[aid] else NewAuthor(aid);
    var w := m[wid];
    m[aid := a.(name := aname, workIds := AppendNew(a.workIds, wid))][wid := w.(authorIds := AppendNew(w.authorIds, aid))]
  }

  /** The `zip` loop over the author pairs, one pair at a time. */
  function LinkAuthors(m: Store, wid: string, pairs: seq<(string, string)>): (r: Store)
    requires wid in m && m[wid].Work?
    requires forall i :: 0 <= i < |pairs| ==> pairs[i].0 != wid && (pairs[i].0 in m ==> m[pairs[i].0].Author?)
    ensures forall k :: k in m ==> k in r && KindOf(r[k]) == KindOf(m[k])
    ensures forall k :: k in r && k !in m ==> k in PairIds(pairs) && r[k].Author?
    decreases |pairs|
  {
    if pairs == [] then m
    else
      var n := |pairs| - 1;
      var r := LinkAuthors(m, wid, pairs[..n]);
      var r' := LinkAuthor(r, wid, pairs[n].0, pairs[n].1);
      PairIdsSnoc(pairs);
      NewKeysStep(m, r, r', PairIds(pairs[..n]), pairs[n].0, AuthorKind);
      r'
  }

  /** One more pair adds at most its own id, of the kind the loop creates. */
  lemma NewKeysStep(m: Store, r: Store, r': Store, ids: set<string>, id: string, kind: Kind)
    requires forall k :: k in r && k !in m ==> k in ids && KindOf(r[k]) == kind
    requires r'.Keys == r.Keys + {id} && KindOf(r'[id]) == kind
    requires forall k :: k in r ==> KindOf(r'[k]) == KindOf(r[k])
    ensures forall k :: k in r' && k !in m ==> k in ids + {id} && KindOf(r'[k]) == kind
  {
  }

  lemma PairIdsSnoc(pairs: seq<(string, string)>)
    requires pairs != []
    ensures PairIds(pairs) == PairIds(pairs[..|pairs| - 1]) + {pairs[|pairs| - 1].0}
  {
    var n := |pairs| - 1;
    forall x | x in PairIds(pairs) ensures x in PairIds(pairs[..n]) + {pairs[n].0} {
      var i :| 0 <= i < |pairs| && pairs[i].0 == x;
      if i < n {
        assert pairs[..n][i] == pairs[i];
      }
    }
  }

  /**
    Lines 107-120 for one `(bid, bname)` pair of the work `wid`: fetch or create the base text,
    rename it and link the two both ways. When `bid` is `wid` itself the two names denote one
    object, so the rename and both appends land on the same work.
  */
  function LinkBaseText(m: Store, wid: string, bid: string, bname: string): (r: Store)
    requires wid in m && m[wid].Work? && (bid in m ==> m[bid].Work?)
    ensures r.Keys == m.Keys + {bid}
    ensures r[wid].Work? && r[bid].Work?
    ensures forall k :: k in m ==> KindOf(r[k]) == KindOf(m[k])
  {
    var w := m[wid];
    if bid == wid then
      m[wid := w.(name := bname, commentaryIds := AppendNew(w.commentaryIds, wid),
                  baseTextIds := AppendNew(w.baseTextIds, wid))]
    else
      var b := if bid in m then m[bid] else NewWork(bid);
      m[bid := b.(name := bname, commentaryIds := AppendNew(b.commentaryIds, wid))][wid := w.(baseTextIds := AppendNew(w.baseTextIds, bid))]
  }

  /** The `zip` loop over the base-text pairs, one pair at a time. */
  function LinkBaseTexts(m: Store, wid: string, pairs: seq<(string, string)>): (r: Store)
    requires wid in m && m[wid].Work?
    requires forall i :: 0 <= i < |pairs| ==> (pairs[i].0 in m ==> m[pairs[i].0].Work?)
    ensures forall k :: k in m ==> k in r && KindOf(r[k]) == KindOf(m[k])
    ensures forall k :: k in r && k !in m ==> k in PairIds(pairs) && r[k].Work?
    decreases |pairs|
  {
    if pairs == [] then m
    else
      var n := |pairs| - 1;
      var r := LinkBaseTexts(m, wid, pairs[..n]);
      var r' := LinkBaseText(r, wid, pairs[n].0, pairs[n].1);
      PairIdsSnoc(pairs);
      NewKeysStep(m, r, r', PairIds(pairs[..n]), pairs[n].0, WorkKind);
      r'
  }

  /** The ids a row uses as works: a work row's own id and its base texts. */
  function WorkRole(p: Parsed): set<string> {
    if p.WorkRow? then {p.id} + PairIds(p.baseTexts) else {}
  }

  /** The ids a row uses as authors: a person row's own id, or a work row's authors. */
  function AuthorRole(p: Parsed): set<string> {
    if p.WorkRow? then PairIds(p.authors) else if p.PersonRow? then {p.id} else {}
  }

  /**
    The row can be applied to `m` without an `AttributeError`: every id it uses as a work is
    absent or a work, and every id it uses as an author is absent or an author.
  */
  predicate Applicable(m: Store, p: Parsed) {
    && WorkRole(p) !! AuthorRole(p)
    && (forall k :: k in WorkRole(p) && k in m ==> m[k].Work?)
    && (forall k :: k in AuthorRole(p) && k in m ==> m[k].Author?)
  }

  /** Lines 71-81: fetch or create the work and overwrite its scalar fields from the row. */
  function WorkScalars(m: Store, p: Parsed): (r: Store)
    requires p.WorkRow? && (p.id in m ==> m[p.id].Work?)
    ensures r.Keys == m.Keys + {p.id} && r[p.id].Work?
    ensures forall k :: k in m ==> KindOf(r[k]) == KindOf(m[k])
  {
    var w := if p.id in m then m[p.id] else NewWork(p.id);
    m[p.id := w.(name := p.name, aka := p.aka, discipline := Some(p.discipline),
                 highestYear := p.highestYear, lowestYear := p.lowestYear)]
  }

  /** The store after lines 71-101 of a work row: its scalars and its author pairs. */
  function WithAuthors(m: Store, p: Parsed): (r: Store)
    requires p.WorkRow? && Applicable(m, p)
    ensures forall k :: k in m ==> k in r && KindOf(r[k]) == KindOf(m[k])
    ensures p.id in r && r[p.id].Work?
    ensures forall k :: k in r && k !in m && k != p.id ==> k in AuthorRole(p) && r[k].Author?
  {
    var m1 := WorkScalars(m, p);
    LinkAuthors(m1, p.id, p.authors)
  }

  lemma BaseTextsAreWorks(m: Store, p: Parsed)
    requires p.WorkRow? && Applicable(m, p)
    ensures forall i :: 0 <= i < |p.baseTexts| ==>
      (p.baseTexts[i].0 in WithAuthors(m, p) ==> WithAuthors(m, p)[p.baseTexts[i].0].Work?)
  {
    var r := WithAuthors(m, p);
    forall i | 0 <= i < |p.baseTexts| && p.baseTexts[i].0 in r
      ensures r[p.baseTexts[i].0].Work?
    {
      var b := p.baseTexts[i].0;
      assert b in PairIds(p.baseTexts) && b in WorkRole(p);
      if b in m {
        assert m[b].Work?;
      }
    }
  }

  /** Lines 66-120: one work row. */
  function ApplyWorkRow(m: Store, p: Parsed): (r: Store)
    requires p.WorkRow? && Applicable(m, p)
    ensures forall k :: k in m ==> k in r && KindOf(r[k]) == KindOf(m[k])
    ensures forall k :: k in r && k !in m ==> (r[k].Work? && k in WorkRole(p)) || (r[k].Author? && k in AuthorRole(p))
  {
    BaseTextsAreWorks(m, p);
    LinkBaseTexts(WithAuthors(m, p), p.id, p.baseTexts)
  }

  /** Lines 122-136: one person row. */
  function ApplyPersonRow(m: Store, p: Parsed): (r: Store)
    requires p.PersonRow? && (p.id in m ==> m[p.id].Author?)
    ensures r.Keys == m.Keys + {p.id} && r[p.id].Author?
    ensures forall k :: k in m ==> KindOf(r[k]) == KindOf(m[k])
  {
    var a := if p.id in m then m[p.id] else NewAuthor(p.id);
    m[p.id := a.(name := p.name, aka := p.aka, socialIdentifiers := Some(p.socialIdentifiers),
                 highestYear := p.highestYear, lowestYear := p.lowestYear)]
  }

  /** One pass of the loop at line 57; a row of any other content type is skipped. */
  function ApplyRow(m: Store, p: Parsed): (r: Store)
    requires Applicable(m, p)
    ensures forall k :: k in m ==> k in r && KindOf(r[k]) == KindOf(m[k])
    ensures forall k :: k in r && k !in m ==> (r[k].Work? && k in WorkRole(p)) || (r[k].Author? && k in AuthorRole(p))
  {
    if p.WorkRow? then ApplyWorkRow(m, p)
    else if p.PersonRow? then ApplyPersonRow(m, p)
    else m
  }

  // ---------------------------------------------------------------------------------------
  // The whole fold

  /** The ids the rows use as works. */
  function WorkUse(ps: seq<Parsed>): set<string> {
    if ps == [] then {} else WorkUse(ps[..|ps| - 1]) + WorkRole(ps[|ps| - 1])
  }

  /** The ids the rows use as authors. */
  function AuthorUse(ps: seq<Parsed>): set<string> {
    if ps == [] then {} else AuthorUse(ps[..|ps| - 1]) + AuthorRole(ps[|ps| - 1])
  }

  lemma {:induction false} RolesUsed(ps: seq<Parsed>, j: nat)
    requires j < |ps|
    ensures WorkRole(ps[j]) <= WorkUse(ps) && AuthorRole(ps[j]) <= AuthorUse(ps)
  {
    if j < |ps| - 1 {
      RolesUsed(ps[..|ps| - 1], j);
    }
  }

  /** No id is used as a work by one row and as an author by another (or the same) row. */
  predicate RolesDisjoint(ps: seq<Parsed>) {
    WorkUse(ps) !! AuthorUse(ps)
  }

  /** Every entity in `m` has the kind the rows use its id with. */
  predicate Conforms(m: Store, ps: seq<Parsed>) {
    forall k :: k in m ==> (m[k].Work? ==> k !in AuthorUse(ps)) && (m[k].Author? ==> k !in WorkUse(ps))
  }

  /** No author holds a `disciplines` value: the constructor leaves it `None` and the rows never set it. */
  predicate Undisciplined(m: Store) {
    forall k :: k in m && m[k].Author? ==> m[k].disciplines == None
  }

  lemma ConformsApplicable(m: Store, ps: seq<Parsed>, j: nat)
    requires RolesDisjoint(ps) && j < |ps| && Conforms(m, ps)
    ensures Applicable(m, ps[j])
  {
    RolesUsed(ps, j);
  }

  lemma ApplyConforms(m: Store, ps: seq<Parsed>, j: nat)
    requires RolesDisjoint(ps) && j < |ps| && Conforms(m, ps) && Applicable(m, ps[j])
    ensures Conforms(ApplyRow(m, ps[j]), ps)
  {
    RolesUsed(ps, j);
    var r := ApplyRow(m, ps[j]);
    forall k | k in r ensures (r[k].Work? ==> k !in AuthorUse(ps)) && (r[k].Author? ==> k !in WorkUse(ps)) {
      if k in m {
        assert KindOf(r[k]) == KindOf(m[k]);
      } else if r[k].Work? {
        assert k in WorkRole(ps[j]);
      } else {
        assert k in AuthorRole(ps[j]);
      }
    }
  }
}
