/**
  What one row of `create_entities` does to the store, entity by entity, and what survives
  the later rows: the pairs of a work row end up linked both ways, re-reading an id only
  overwrites its scalar fields, the last name given to an id is the one it keeps, and link
  lists only ever grow.
*/
module RowEffects {
  import opened Options
  import opened DataModels
  import opened RowFold
  import opened Linkage

  /** `e` with its link lists emptied: the scalar part of the entity. */
  function WithoutLinks(e: Entity): (r: Entity)
    ensures KindOf(r) == KindOf(e) && r.id == e.id && r.name == e.name
  {
    if e.Work? then e.(authorIds := [], baseTextIds := [], commentaryIds := []) else e.(workIds := [])
  }

  /** `e2` is `e1` with each link list possibly extended at its end. */
  ghost predicate ListsGrow(e1: Entity, e2: Entity) {
    if e1.Work? then
      e2.Work? && e1.authorIds <= e2.authorIds && e1.baseTextIds <= e2.baseTextIds
      && e1.commentaryIds <= e2.commentaryIds
    else
      e2.Author? && e1.workIds <= e2.workIds
  }

  /** Every entity of `m` is still in `r`, of the same class, with its link lists extended. */
  ghost predicate Grows(m: Store, r: Store) {
    forall k :: k in m ==> k in r && ListsGrow(m[k], r[k])
  }

  lemma GrowsTransitive(m1: Store, m2: Store, m3: Store)
    requires Grows(m1, m2) && Grows(m2, m3)
    ensures Grows(m1, m3)
  {
    forall k | k in m1 ensures k in m3 && ListsGrow(m1[k], m3[k]) {
      assert ListsGrow(m1[k], m2[k]) && ListsGrow(m2[k], m3[k]);
    }
  }

  lemma PrefixMember(x: string, a: seq<string>, b: seq<string>)
    requires x in a && a <= b
    ensures x in b
  {
    var i :| 0 <= i < |a| && a[i] == x;
    assert b[i] == x;
  }

  /** A link recorded on both ends in `m` is still recorded in any store `m` grows into. */
  lemma GrowsKeepsLink(m: Store, r: Store, w: string, x: string)
    requires Grows(m, r) && w in m && m[w].Work? && x in m
    ensures m[x].Author? && x in m[w].authorIds && w in m[x].workIds ==>
      x in r[w].authorIds && w in r[x].workIds
    ensures m[x].Work? && x in m[w].baseTextIds && w in m[x].commentaryIds ==>
      r[x].Work? && x in r[w].baseTextIds && w in r[x].commentaryIds
  {
    assert ListsGrow(m[w], r[w]) && ListsGrow(m[x], r[x]);
    if m[x].Author? && x in m[w].authorIds && w in m[x].workIds {
      PrefixMember(x, m[w].authorIds, r[w].authorIds);
      PrefixMember(w, m[x].workIds, r[x].workIds);
    }
    if m[x].Work? && x in m[w].baseTextIds && w in m[x].commentaryIds {
      PrefixMember(x, m[w].baseTextIds, r[w].baseTextIds);
      PrefixMember(w, m[x].commentaryIds, r[x].commentaryIds);
    }
  }

  // ---------------------------------------------------------------------------------------
  // The author pairs

  lemma LinkAuthorGrows(m: Store, wid: string, aid: string, aname: string)
    requires wid in m && m[wid].Work? && aid != wid && (aid in m ==> m[aid].Author?)
    ensures Grows(m, LinkAuthor(m, wid, aid, aname))
  {
    var r := LinkAuthor(m, wid, aid, aname);
    forall k | k in m ensures k in r && ListsGrow(m[k], r[k]) {
      if k != aid && k != wid {
        assert r[k] == m[k];
      }
    }
  }

  lemma {:induction false} LinkAuthorsGrows(m: Store, wid: string, pairs: seq<(string, string)>)
    requires wid in m && m[wid].Work?
    requires forall i :: 0 <= i < |pairs| ==> pairs[i].0 != wid && (pairs[i].0 in m ==> m[pairs[i].0].Author?)
    ensures Grows(m, LinkAuthors(m, wid, pairs))
    decreases |pairs|
  {
    if pairs != [] {
      var n := |pairs| - 1;
      var r := LinkAuthors(m, wid, pairs[..n]);
      LinkAuthorsGrows(m, wid, pairs[..n]);
      PairIdsSnoc(pairs);
      LinkAuthorGrows(r, wid, pairs[n].0, pairs[n].1);
      GrowsTransitive(m, r, LinkAuthors(m, wid, pairs));
    }
  }

  /** Each paired author is a stored entity and it and the work `wid` list each other. */
  ghost predicate AuthorsListed(r: Store, wid: string, pairs: seq<(string, string)>) {
    wid in r && r[wid].Work? && forall i :: 0 <= i < |pairs| ==>
      pairs[i].0 in r && r[pairs[i].0].Author? && pairs[i].0 in r[wid].authorIds && wid in r[pairs[i].0].workIds
  }

  lemma AuthorsListedGrow(m: Store, r: Store, wid: string, pairs: seq<(string, string)>)
    requires AuthorsListed(m, wid, pairs) && Grows(m, r)
    ensures AuthorsListed(r, wid, pairs)
  {
    forall i | 0 <= i < |pairs|
      ensures pairs[i].0 in r && r[pairs[i].0].Author? && pairs[i].0 in r[wid].authorIds && wid in r[pairs[i].0].workIds
    {
      GrowsKeepsLink(m, r, wid, pairs[i].0);
    }
  }

  lemma AuthorsListedSnoc(r: Store, wid: string, pairs: seq<(string, string)>)
    requires pairs != [] && AuthorsListed(r, wid, pairs[..|pairs| - 1])
    requires var a := pairs[|pairs| - 1].0;
      a in r && r[a].Author? && a in r[wid].authorIds && wid in r[a].workIds
    ensures AuthorsListed(r, wid, pairs)
  {
    var front := pairs[..|pairs| - 1];
    assert forall i :: 0 <= i < |front| ==> front[i] == pairs[i];
  }

  lemma LinkAuthorLinks(m: Store, wid: string, aid: string, aname: string)
    requires wid in m && m[wid].Work? && aid != wid && (aid in m ==> m[aid].Author?)
    ensures var r := LinkAuthor(m, wid, aid, aname);
      aid in r[wid].authorIds && wid in r[aid].workIds && r[aid].name == aname
  {
  }

  /** Each zip-paired author and the work list each other (lines 98-101). */
  lemma {:induction false} LinkAuthorsLinks(m: Store, wid: string, pairs: seq<(string, string)>)
    requires wid in m && m[wid].Work?
    requires forall i :: 0 <= i < |pairs| ==> pairs[i].0 != wid && (pairs[i].0 in m ==> m[pairs[i].0].Author?)
    ensures AuthorsListed(LinkAuthors(m, wid, pairs), wid, pairs)
    decreases |pairs|
  {
    if pairs != [] {
      var n := |pairs| - 1;
      var front := pairs[..n];
      var r0 := LinkAuthors(m, wid, front);
      var r := LinkAuthors(m, wid, pairs);
      LinkAuthorsLinks(m, wid, front);
      PairIdsSnoc(pairs);
      LinkAuthorGrows(r0, wid, pairs[n].0, pairs[n].1);
      LinkAuthorLinks(r0, wid, pairs[n].0, pairs[n].1);
      AuthorsListedGrow(r0, r, wid, front);
      AuthorsListedSnoc(r, wid, pairs);
    }
  }

  /** Entities the pairs do not name are untouched, and the work keeps its scalar fields. */
  lemma {:induction false} LinkAuthorsKeeps(m: Store, wid: string, pairs: seq<(string, string)>)
    requires wid in m && m[wid].Work?
    requires forall i :: 0 <= i < |pairs| ==> pairs[i].0 != wid && (pairs[i].0 in m ==> m[pairs[i].0].Author?)
    ensures forall k :: k in m && k != wid && k !in PairIds(pairs) ==> LinkAuthors(m, wid, pairs)[k] == m[k]
    ensures WithoutLinks(LinkAuthors(m, wid, pairs)[wid]) == WithoutLinks(m[wid])
    decreases |pairs|
  {
    if pairs != [] {
      var n := |pairs| - 1;
      LinkAuthorsKeeps(m, wid, pairs[..n]);
      PairIdsSnoc(pairs);
    }
  }

  /** The author of a pair that no later pair repeats keeps that pair's name (line 97). */
  lemma {:induction false} LinkAuthorsLastName(m: Store, wid: string, pairs: seq<(string, string)>, i: nat)
    requires wid in m && m[wid].Work?
    requires forall j :: 0 <= j < |pairs| ==> pairs[j].0 != wid && (pairs[j].0 in m ==> m[pairs[j].0].Author?)
    requires i < |pairs| && forall j :: i < j < |pairs| ==> pairs[j].0 != pairs[i].0
    ensures pairs[i].0 in LinkAuthors(m, wid, pairs) && LinkAuthors(m, wid, pairs)[pairs[i].0].name == pairs[i].1
    decreases |pairs|
  {
    var n := |pairs| - 1;
    PairIdsSnoc(pairs);
    if i < n {
      assert pairs[..n][i] == pairs[i];
      LinkAuthorsLastName(m, wid, pairs[..n], i);
    }
  }

  // ---------------------------------------------------------------------------------------
  // The base-text pairs

  lemma LinkBaseTextGrows(m: Store, wid: string, bid: string, bname: string)
    requires wid in m && m[wid].Work? && (bid in m ==> m[bid].Work?)
    ensures Grows(m, LinkBaseText(m, wid, bid, bname))
  {
    var r := LinkBaseText(m, wid, bid, bname);
    forall k | k in m ensures k in r && ListsGrow(m[k], r[k]) {
      if k != bid && k != wid {
        assert r[k] == m[k];
      }
    }
  }

  lemma {:induction false} LinkBaseTextsGrows(m: Store, wid: string, pairs: seq<(string, string)>)
    requires wid in m && m[wid].Work?
    requires forall i :: 0 <= i < |pairs| ==> (pairs[i].0 in m ==> m[pairs[i].0].Work?)
    ensures Grows(m, LinkBaseTexts(m, wid, pairs))
    decreases |pairs|
  {
    if pairs != [] {
      var n := |pairs| - 1;
      var r := LinkBaseTexts(m, wid, pairs[..n]);
      LinkBaseTextsGrows(m, wid, pairs[..n]);
      PairIdsSnoc(pairs);
      LinkBaseTextGrows(r, wid, pairs[n].0, pairs[n].1);
      GrowsTransitive(m, r, LinkBaseTexts(m, wid, pairs));
    }
  }

  /** Each paired base text is a stored work and it and the commentary `wid` list each other. */
  ghost predicate BasesListed(r: Store, wid: string, pairs: seq<(string, string)>) {
    wid in r && r[wid].Work? && forall i :: 0 <= i < |pairs| ==>
      pairs[i].0 in r && r[pairs[i].0].Work? && pairs[i].0 in r[wid].baseTextIds && wid in r[pairs[i].0].commentaryIds
  }

  lemma BasesListedGrow(m: Store, r: Store, wid: string, pairs: seq<(string, string)>)
    requires BasesListed(m, wid, pairs) && Grows(m, r)
    ensures BasesListed(r, wid, pairs)
  {
    forall i | 0 <= i < |pairs|
      ensures pairs[i].0 in r && r[pairs[i].0].Work? && pairs[i].0 in r[wid].baseTextIds && wid in r[pairs[i].0].commentaryIds
    {
      GrowsKeepsLink(m, r, wid, pairs[i].0);
    }
  }

  lemma BasesListedSnoc(r: Store, wid: string, pairs: seq<(string, string)>)
    requires pairs != [] && BasesListed(r, wid, pairs[..|pairs| - 1])
    requires var b := pairs[|pairs| - 1].0;
      b in r && r[b].Work? && b in r[wid].baseTextIds && wid in r[b].commentaryIds
    ensures BasesListed(r, wid, pairs)
  {
    var front := pairs[..|pairs| - 1];
    assert forall i :: 0 <= i < |front| ==> front[i] == pairs[i];
  }

  lemma LinkBaseTextLinks(m: Store, wid: string, bid: string, bname: string)
    requires wid in m && m[wid].Work? && (bid in m ==> m[bid].Work?)
    ensures var r := LinkBaseText(m, wid, bid, bname);
      bid in r[wid].baseTextIds && wid in r[bid].commentaryIds && r[bid].name == bname
  {
  }

  lemma LinkBaseTextKeepsName(m: Store, wid: string, bid: string, bname: string, x: string)
    requires wid in m && m[wid].Work? && (bid in m ==> m[bid].Work?)
    requires x in m && x != bid
    ensures LinkBaseText(m, wid, bid, bname)[x].name == m[x].name
  {
  }

  /** Each zip-paired base text is a work and it and the commentary list each other (lines 116-120). */
  lemma {:induction false} LinkBaseTextsLinks(m: Store, wid: string, pairs: seq<(string, string)>)
    requires wid in m && m[wid].Work?
    requires forall i :: 0 <= i < |pairs| ==> (pairs[i].0 in m ==> m[pairs[i].0].Work?)
    ensures BasesListed(LinkBaseTexts(m, wid, pairs), wid, pairs)
    decreases |pairs|
  {
    if pairs != [] {
      var n := |pairs| - 1;
      var front := pairs[..n];
      var r0 := LinkBaseTexts(m, wid, front);
      var r := LinkBaseTexts(m, wid, pairs);
      LinkBaseTextsLinks(m, wid, front);
      PairIdsSnoc(pairs);
      LinkBaseTextGrows(r0, wid, pairs[n].0, pairs[n].1);
      LinkBaseTextLinks(r0, wid, pairs[n].0, pairs[n].1);
      BasesListedGrow(r0, r, wid, front);
      BasesListedSnoc(r, wid, pairs);
    }
  }

  /** Entities the pairs do not name, other than the work, are untouched. */
  lemma {:induction false} LinkBaseTextsKeeps(m: Store, wid: string, pairs: seq<(string, string)>)
    requires wid in m && m[wid].Work?
    requires forall i :: 0 <= i < |pairs| ==> (pairs[i].0 in m ==> m[pairs[i].0].Work?)
    ensures forall k :: k in m && k != wid && k !in PairIds(pairs) ==> LinkBaseTexts(m, wid, pairs)[k] == m[k]
    ensures wid !in PairIds(pairs) ==> WithoutLinks(LinkBaseTexts(m, wid, pairs)[wid]) == WithoutLinks(m[wid])
    decreases |pairs|
  {
    if pairs != [] {
      var n := |pairs| - 1;
      LinkBaseTextsKeeps(m, wid, pairs[..n]);
      PairIdsSnoc(pairs);
    }
  }

  /**
    The base text of a pair that no later pair repeats keeps that pair's name (line 116); when
    the base text is the work itself, that rename lands on the work.
  */
  lemma {:induction false} LinkBaseTextsLastName(m: Store, wid: string, pairs: seq<(string, string)>, i: nat)
    requires wid in m && m[wid].Work?
    requires forall j :: 0 <= j < |pairs| ==> (pairs[j].0 in m ==> m[pairs[j].0].Work?)
    requires i < |pairs| && forall j :: i < j < |pairs| ==> pairs[j].0 != pairs[i].0
    ensures pairs[i].0 in LinkBaseTexts(m, wid, pairs) && LinkBaseTexts(m, wid, pairs)[pairs[i].0].name == pairs[i].1
    decreases |pairs|
  {
    var n := |pairs| - 1;
    var front := pairs[..n];
    PairIdsSnoc(pairs);
    var r0 := LinkBaseTexts(m, wid, front);
    if i < n {
      assert front[i] == pairs[i];
      LinkBaseTextsLastName(m, wid, front, i);
      LinkBaseTextKeepsName(r0, wid, pairs[n].0, pairs[n].1, pairs[i].0);
    } else {
      LinkBaseTextLinks(r0, wid, pairs[n].0, pairs[n].1);
    }
  }

  // ---------------------------------------------------------------------------------------
  // One row

  lemma WorkScalarsGrows(m: Store, p: Parsed)
    requires p.WorkRow? && (p.id in m ==> m[p.id].Work?)
    ensures Grows(m, WorkScalars(m, p))
    ensures WorkScalars(m, p)[p.id].name == p.name && WorkScalars(m, p)[p.id].aka == p.aka
    ensures WorkScalars(m, p)[p.id].discipline == Some(p.discipline)
    ensures WorkScalars(m, p)[p.id].highestYear == p.highestYear && WorkScalars(m, p)[p.id].lowestYear == p.lowestYear
    ensures forall k :: k in m && k != p.id ==> WorkScalars(m, p)[k] == m[k]
  {
  }

  /** The author pairs of a work row never name the row's own work, nor an entity that is a work. */
  lemma AuthorPairsFit(m: Store, p: Parsed)
    requires p.WorkRow? && Applicable(m, p)
    ensures forall i :: 0 <= i < |p.authors| ==>
      p.authors[i].0 != p.id && (p.authors[i].0 in WorkScalars(m, p) ==> WorkScalars(m, p)[p.authors[i].0].Author?)
  {
    forall i | 0 <= i < |p.authors|
      ensures p.authors[i].0 != p.id && (p.authors[i].0 in WorkScalars(m, p) ==> WorkScalars(m, p)[p.authors[i].0].Author?)
    {
      assert p.authors[i].0 in AuthorRole(p);
    }
  }

  /** `WithAuthors` grows `m` and leaves the ids the author pairs do not name, except the work, alone. */
  lemma WithAuthorsEffect(m: Store, p: Parsed)
    requires p.WorkRow? && Applicable(m, p)
    ensures Grows(m, WithAuthors(m, p))
    ensures AuthorsListed(WithAuthors(m, p), p.id, p.authors)
    ensures forall k :: k in m && k != p.id && k !in PairIds(p.authors) ==> WithAuthors(m, p)[k] == m[k]
    ensures WithoutLinks(WithAuthors(m, p)[p.id]) == WithoutLinks(WorkScalars(m, p)[p.id])
  {
    var m1 := WorkScalars(m, p);
    WorkScalarsGrows(m, p);
    AuthorPairsFit(m, p);
    LinkAuthorsGrows(m1, p.id, p.authors);
    GrowsTransitive(m, m1, WithAuthors(m, p));
    LinkAuthorsLinks(m1, p.id, p.authors);
    LinkAuthorsKeeps(m1, p.id, p.authors);
  }

  /**
    After a work row (lines 66-120) every author pair and every base-text pair it names is
    linked both ways with the row's work, and every other entity is as it was.
  */
  lemma WorkRowLinks(m: Store, p: Parsed)
    requires p.WorkRow? && Applicable(m, p)
    ensures Grows(m, ApplyRow(m, p))
    ensures AuthorsListed(ApplyRow(m, p), p.id, p.authors)
    ensures BasesListed(ApplyRow(m, p), p.id, p.baseTexts)
    ensures forall k :: k in m && k != p.id && k !in PairIds(p.authors) && k !in PairIds(p.baseTexts) ==>
      ApplyRow(m, p)[k] == m[k]
  {
    var m2 := WithAuthors(m, p);
    WithAuthorsEffect(m, p);
    BaseTextsAreWorks(m, p);
    LinkBaseTextsGrows(m2, p.id, p.baseTexts);
    GrowsTransitive(m, m2, ApplyRow(m, p));
    AuthorsListedGrow(m2, ApplyRow(m, p), p.id, p.authors);
    LinkBaseTextsLinks(m2, p.id, p.baseTexts);
    LinkBaseTextsKeeps(m2, p.id, p.baseTexts);
  }

  /**
    Lines 72-81: the work row overwrites its work's scalar fields, leaving its link lists to
    grow; only a base-text pair naming the work itself renames it again.
  */
  lemma WorkRowScalars(m: Store, p: Parsed)
    requires p.WorkRow? && Applicable(m, p)
    ensures var w := ApplyRow(m, p)[p.id];
      w.Work? && w.aka == p.aka && w.discipline == Some(p.discipline)
      && w.highestYear == p.highestYear && w.lowestYear == p.lowestYear
      && (p.id !in PairIds(p.baseTexts) ==> w.name == p.name)
  {
    var m1 := WorkScalars(m, p);
    var m2 := WithAuthors(m, p);
    WorkScalarsGrows(m, p);
    WithAuthorsEffect(m, p);
    BaseTextsAreWorks(m, p);
    LinkBaseTextsKeeps(m2, p.id, p.baseTexts);
    BaseTextsKeepScalars(m2, p.id, p.baseTexts);
    assert WithoutLinks(m2[p.id]) == WithoutLinks(m1[p.id]);
  }

  /** The base-text loop never touches a work's `aka`, `discipline` or years. */
  lemma {:induction false} BaseTextsKeepScalars(m: Store, wid: string, pairs: seq<(string, string)>)
    requires wid in m && m[wid].Work?
    requires forall i :: 0 <= i < |pairs| ==> (pairs[i].0 in m ==> m[pairs[i].0].Work?)
    ensures var r := LinkBaseTexts(m, wid, pairs);
      r[wid].aka == m[wid].aka && r[wid].discipline == m[wid].discipline
      && r[wid].highestYear == m[wid].highestYear && r[wid].lowestYear == m[wid].lowestYear
    decreases |pairs|
  {
    if pairs != [] {
      var n := |pairs| - 1;
      BaseTextsKeepScalars(m, wid, pairs[..n]);
      PairIdsSnoc(pairs);
    }
  }

  /**
    The author of a pair no later pair of the row repeats ends the row with that pair's name
    (line 97): the base-text loop after it never touches an author.
  */
  lemma WorkRowAuthorName(m: Store, p: Parsed, i: nat)
    requires p.WorkRow? && Applicable(m, p)
    requires i < |p.authors| && forall j :: i < j < |p.authors| ==> p.authors[j].0 != p.authors[i].0
    ensures p.authors[i].0 in ApplyRow(m, p) && ApplyRow(m, p)[p.authors[i].0].name == p.authors[i].1
  {
    var m1 := WorkScalars(m, p);
    var m2 := WithAuthors(m, p);
    var aid := p.authors[i].0;
    AuthorPairsFit(m, p);
    LinkAuthorsLastName(m1, p.id, p.authors, i);
    BaseTextsAreWorks(m, p);
    LinkBaseTextsKeeps(m2, p.id, p.baseTexts);
    assert aid in AuthorRole(p);
    assert aid !in PairIds(p.baseTexts);
  }

  /** The base text of a pair no later pair of the row repeats ends the row with that pair's name (line 116). */
  lemma WorkRowBaseTextName(m: Store, p: Parsed, i: nat)
    requires p.WorkRow? && Applicable(m, p)
    requires i < |p.baseTexts| && forall j :: i < j < |p.baseTexts| ==> p.baseTexts[j].0 != p.baseTexts[i].0
    ensures p.baseTexts[i].0 in ApplyRow(m, p) && ApplyRow(m, p)[p.baseTexts[i].0].name == p.baseTexts[i].1
  {
    BaseTextsAreWorks(m, p);
    LinkBaseTextsLastName(WithAuthors(m, p), p.id, p.baseTexts, i);
  }

  /**
    Lines 122-136: a person row overwrites its author's scalar fields, keeps its work list (empty
    for a new author) and leaves every other entity alone.
  */
  lemma PersonRowEffect(m: Store, p: Parsed)
    requires p.PersonRow? && Applicable(m, p)
    ensures var r := ApplyRow(m, p);
      && r.Keys == m.Keys + {p.id}
      && (forall k :: k in m && k != p.id ==> r[k] == m[k])
      && r[p.id].Author? && r[p.id].name == p.name && r[p.id].aka == p.aka
      && r[p.id].socialIdentifiers == Some(p.socialIdentifiers)
      && r[p.id].highestYear == p.highestYear && r[p.id].lowestYear == p.lowestYear
      && r[p.id].workIds == (if p.id in m then m[p.id].workIds else [])
  {
    assert p.id in AuthorRole(p);
  }

  lemma ApplyRowGrows(m: Store, p: Parsed)
    requires Applicable(m, p)
    ensures Grows(m, ApplyRow(m, p))
  {
    if p.WorkRow? {
      WorkRowLinks(m, p);
    } else if p.PersonRow? {
      PersonRowEffect(m, p);
    }
  }

  lemma GrowsReflexive(m: Store)
    ensures Grows(m, m)
  {
  }

  // ---------------------------------------------------------------------------------------
  // One more row of the whole fold

  lemma FoldStepGrows(ps: seq<Parsed>, i: nat)
    requires i < |ps| && RolesDisjoint(ps)
    ensures Grows(Fold(ps, i), Fold(ps, i + 1))
  {
    var m := Fold(ps, i);
    ConformsApplicable(m, ps, i);
    ApplyRowGrows(m, ps[i]);
  }

  /** The step of an induction over the rows after the `i`-th: row `i` itself only adds. */
  lemma FoldGrowsFromNext(ps: seq<Parsed>, i: nat, n: nat)
    requires i < n <= |ps| && RolesDisjoint(ps)
    requires Grows(Fold(ps, i + 1), Fold(ps, n))
    ensures Grows(Fold(ps, i), Fold(ps, n))
  {
    FoldStepGrows(ps, i);
    GrowsTransitive(Fold(ps, i), Fold(ps, i + 1), Fold(ps, n));
  }
}
