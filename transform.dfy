/**
  `create_entities` (utils/transform.py lines 49-165) as the program runs it: a dictionary
  `entities_by_id` updated in place, row by row, then one post-processing pass over a snapshot
  of its items. Each method is proved to leave the dictionary exactly as the functions of
  `RowFold` and `PostPass` describe. Entities are values here: where the Python code holds a
  reference (`W`, `A`, `BT`) and mutates it, the method re-reads the entry from the dictionary
  before each change, which is what the shared reference amounts to, also when a base text is
  the work itself.
*/
module Transform {
  import opened Options
  import opened Text
  import opened DataModels
  import opened RowFold
  import opened Linkage
  import opened RowEffects
  import opened FoldEffects
  import opened PostPass

  lemma LinkAuthorsPrefix(m: Store, wid: string, pairs: seq<(string, string)>, i: nat)
    requires wid in m && m[wid].Work? && i < |pairs|
    requires forall j :: 0 <= j < |pairs| ==> pairs[j].0 != wid && (pairs[j].0 in m ==> m[pairs[j].0].Author?)
    ensures var r := LinkAuthors(m, wid, pairs[..i]);
      pairs[i].0 != wid && (pairs[i].0 in r ==> r[pairs[i].0].Author?)
      && LinkAuthors(m, wid, pairs[..i + 1]) == LinkAuthor(r, wid, pairs[i].0, pairs[i].1)
  {
    PrefixKinds(m, wid, pairs, i);
    var q := pairs[..i + 1];
    assert forall j :: 0 <= j < |q| ==> q[j] == pairs[j];
    assert q[..i] == pairs[..i];
    LinkAuthorsUnfold(m, wid, q);
  }

  lemma LinkAuthorsUnfold(m: Store, wid: string, pairs: seq<(string, string)>)
    requires wid in m && m[wid].Work? && pairs != []
    requires forall j :: 0 <= j < |pairs| ==> pairs[j].0 != wid && (pairs[j].0 in m ==> m[pairs[j].0].Author?)
    ensures var n := |pairs| - 1;
      LinkAuthors(m, wid, pairs) == LinkAuthor(LinkAuthors(m, wid, pairs[..n]), wid, pairs[n].0, pairs[n].1)
  {
  }

  /** Before pair `i` is linked, its id, if stored, is still an author. */
  lemma PrefixKinds(m: Store, wid: string, pairs: seq<(string, string)>, i: nat)
    requires wid in m && m[wid].Work? && i < |pairs|
    requires forall j :: 0 <= j < |pairs| ==> pairs[j].0 != wid && (pairs[j].0 in m ==> m[pairs[j].0].Author?)
    ensures forall j :: 0 <= j < i ==> pairs[..i][j] == pairs[j]
    ensures var r := LinkAuthors(m, wid, pairs[..i]);
      pairs[i].0 in r ==> r[pairs[i].0].Author?
  {
    assert forall j :: 0 <= j < i ==> pairs[..i][j] == pairs[j];
  }

  lemma LinkBaseTextsPrefix(m: Store, wid: string, pairs: seq<(string, string)>, i: nat)
    requires wid in m && m[wid].Work? && i < |pairs|
    requires forall j :: 0 <= j < |pairs| ==> (pairs[j].0 in m ==> m[pairs[j].0].Work?)
    ensures var r := LinkBaseTexts(m, wid, pairs[..i]);
      (pairs[i].0 in r ==> r[pairs[i].0].Work?)
      && LinkBaseTexts(m, wid, pairs[..i + 1]) == LinkBaseText(r, wid, pairs[i].0, pairs[i].1)
  {
    var q := pairs[..i + 1];
    assert q[..i] == pairs[..i] && q[i] == pairs[i];
    assert LinkBaseTexts(m, wid, q) == LinkBaseText(LinkBaseTexts(m, wid, q[..i]), wid, q[i].0, q[i].1);
  }

  /** The state of `create_entities`: the dictionary `entities_by_id`. */
  class EntityBuilder {
    var entities: Store

    /** `entities_by_id = {}`. */
    constructor ()
      ensures entities == map[]
    {
      entities := map[];
    }

    /** Lines 71-81: fetch or create the work `p.id` and overwrite its scalar fields. */
    method SetWorkScalars(p: Parsed)
      requires p.WorkRow? && (p.id in entities ==> entities[p.id].Work?)
      modifies this
      ensures entities == WorkScalars(old(entities), p)
    {
      var w: Entity;
      if p.id in entities {
        w := entities[p.id];
      } else {
        w := NewWork(p.id);
        entities := entities[p.id := w];
      }
      w := w.(name := p.name, aka := p.aka, discipline := Some(p.discipline),
              highestYear := p.highestYear, lowestYear := p.lowestYear);
      entities := entities[p.id := w];
    }

    /** Lines 87-101 for one pair: fetch or create the author, rename it, link both ways. */
    method AddAuthor(wid: string, aid: string, aname: string)
      requires wid in entities && entities[wid].Work? && aid != wid
      requires aid in entities ==> entities[aid].Author?
      modifies this
      ensures entities == LinkAuthor(old(entities), wid, aid, aname)
    {
      var a: Entity;
      if aid in entities {
        a := entities[aid];
      } else {
        a := NewAuthor(aid);
        entities := entities[aid := a];
      }
      var workIds := a.workIds;
      if wid !in workIds {
        workIds := workIds + [wid];
      }
      entities := entities[aid := a.(name := aname, workIds := workIds)];
      var w := entities[wid];
      if aid !in w.authorIds {
        w := w.(authorIds := w.authorIds + [aid]);
      }
      entities := entities[wid := w];
    }

    /** Lines 84-101: the `zip` loop over a work row's author pairs. */
    method AddAuthors(wid: string, pairs: seq<(string, string)>)
      requires wid in entities && entities[wid].Work?
      requires forall i :: 0 <= i < |pairs| ==>
        pairs[i].0 != wid && (pairs[i].0 in entities ==> entities[pairs[i].0].Author?)
      modifies this
      ensures entities == LinkAuthors(old(entities), wid, pairs)
    {
      ghost var m := entities;
      var i := 0;
      while i < |pairs|
        invariant 0 <= i <= |pairs|
        invariant entities == LinkAuthors(m, wid, pairs[..i])
      {
        LinkAuthorsPrefix(m, wid, pairs, i);
        AddAuthor(wid, pairs[i].0, pairs[i].1);
        i := i + 1;
      }
      assert pairs[..i] == pairs;
    }

    /**
      Lines 107-120 for one pair: fetch or create the base text as a work, rename it, link it
      and the commentary `wid` both ways. When `bid == wid` the work is its own base text and
      the rename and both appends land on it.
    */
    method AddBaseText(wid: string, bid: string, bname: string)
      requires wid in entities && entities[wid].Work?
      requires bid in entities ==> entities[bid].Work?
      modifies this
      ensures entities == LinkBaseText(old(entities), wid, bid, bname)
    {
      ghost var m := entities;
      var b: Entity;
      if bid in entities {
        b := entities[bid];
      } else {
        b := NewWork(bid);
        entities := entities[bid := b];
      }
      var commentaryIds := b.commentaryIds;
      if wid !in commentaryIds {
        commentaryIds := commentaryIds + [wid];
      }
      assert commentaryIds == AppendNew(b.commentaryIds, wid);
      entities := entities[bid := b.(name := bname, commentaryIds := commentaryIds)];
      assert entities == m[bid := b.(name := bname, commentaryIds := commentaryIds)];
      var w := entities[wid];
      ghost var w0 := w;
      if bid !in w.baseTextIds {
        w := w.(baseTextIds := w.baseTextIds + [bid]);
      }
      assert w == w0.(baseTextIds := AppendNew(w0.baseTextIds, bid));
      entities := entities[wid := w];
      if bid == wid {
        assert entities == m[wid := w];
      }
    }

    /** Lines 104-120: the `zip` loop over a work row's base-text pairs. */
    method AddBaseTexts(wid: string, pairs: seq<(string, string)>)
      requires wid in entities && entities[wid].Work?
      requires forall i :: 0 <= i < |pairs| ==> (pairs[i].0 in entities ==> entities[pairs[i].0].Work?)
      modifies this
      ensures entities == LinkBaseTexts(old(entities), wid, pairs)
    {
      ghost var m := entities;
      var i := 0;
      while i < |pairs|
        invariant 0 <= i <= |pairs|
        invariant entities == LinkBaseTexts(m, wid, pairs[..i])
      {
        LinkBaseTextsPrefix(m, wid, pairs, i);
        AddBaseText(wid, pairs[i].0, pairs[i].1);
        i := i + 1;
      }
      assert pairs[..i] == pairs;
    }

    /** Lines 122-136: fetch or create the author `p.id` and overwrite its scalar fields. */
    method SetPersonScalars(p: Parsed)
      requires p.PersonRow? && (p.id in entities ==> entities[p.id].Author?)
      modifies this
      ensures entities == ApplyPersonRow(old(entities), p)
    {
      var a: Entity;
      if p.id in entities {
        a := entities[p.id];
      } else {
        a := NewAuthor(p.id);
        entities := entities[p.id := a];
      }
      a := a.(name := p.name, aka := p.aka, socialIdentifiers := Some(p.socialIdentifiers),
              highestYear := p.highestYear, lowestYear := p.lowestYear);
      entities := entities[p.id := a];
    }

    /** Lines 66-120: a work row. */
    method AddWorkRow(p: Parsed)
      requires p.WorkRow? && Applicable(entities, p)
      modifies this
      ensures entities == ApplyWorkRow(old(entities), p)
    {
      ghost var m := entities;
      SetWorkScalars(p);
      AuthorPairsFit(m, p);
      AddAuthors(p.id, p.authors);
      BaseTextsAreWorks(m, p);
      AddBaseTexts(p.id, p.baseTexts);
    }

    /** One pass of the loop at line 57: a work row, a person row, or a skipped row. */
    method AddRow(row: Row)
      requires RowParses(row) && Applicable(entities, ParseRow(row))
      modifies this
      ensures entities == ApplyRow(old(entities), ParseRow(row))
    {
      var p := ParseRow(row);
      if p.WorkRow? {
        AddWorkRow(p);
      } else if p.PersonRow? {
        SetPersonScalars(p);
      }
    }

    // -------------------------------------------------------------------------------------
    // The post-processing pass

    /** Lines 147-151: count the non-empty disciplines of the works `wids`, read from the dictionary. */
    method CountDisciplines(wids: seq<string>) returns (t: Tally)
      ensures t == TallyOf(entities, wids)
    {
      t := [];
      var i := 0;
      while i < |wids|
        invariant 0 <= i <= |wids|
        invariant t == TallyOf(entities, wids[..i])
      {
        assert wids[..i + 1][..i] == wids[..i];
        var wid := wids[i];
        if wid in entities && entities[wid].Work? && entities[wid].discipline.Some?
          && entities[wid].discipline.value != "" {
          t := Bump(t, entities[wid].discipline.value);
        }
        i := i + 1;
      }
      assert wids[..i] == wids;
    }

    /** Lines 159-165: the first author in `aids` with a year, up to the `break`. */
    method FindDatedAuthor(aids: seq<string>) returns (r: Option<nat>)
      ensures r == FirstDated(entities, aids)
    {
      r := None;
      var i := 0;
      while i < |aids|
        invariant 0 <= i <= |aids|
        invariant forall j :: 0 <= j < i ==> !Dated(entities, aids[j])
      {
        if aids[i] in entities && entities[aids[i]].highestYear.Some? {
          FirstDatedIs(entities, aids, i);
          return Some(i);
        }
        i := i + 1;
      }
    }

    /** Lines 146-156 for one author: its summary, when any of its works has a discipline. */
    method SummariseAuthor(a: Entity) returns (r: Entity)
      requires a.Author?
      ensures r == FinishAuthor(entities, a)
    {
      var t := CountDisciplines(a.workIds);
      r := a;
      if t != [] {
        r := a.(disciplines := Some(Summary(t)));
      }
    }

    /** Lines 157-165 for one work: the years of its first dated author, when it has none. */
    method FillAuthorYears(w: Entity) returns (r: Entity)
      requires w.Work?
      ensures r == FinishWork(entities, w)
    {
      r := w;
      if w.highestYear.None? {
        var f := FindDatedAuthor(w.authorIds);
        if f.Some? {
          var author := entities[w.authorIds[f.value]];
          r := w.(authorHighestYear := author.highestYear, authorLowestYear := author.lowestYear);
        }
      }
    }

    /** Lines 142-156: drop an author without works, or update it in place. */
    method VisitAuthor(ghost m: Store, ghost pending: set<string>, eid: string)
      requires Midway(m, entities, pending) && eid in pending && m[eid].Author?
      modifies this
      ensures Midway(m, entities, pending - {eid})
    {
      ghost var live := entities;
      MidwayAt(m, live, pending, eid);
      var entity := entities[eid];
      if entity.workIds == [] {
        entities := entities - {eid};
      } else {
        var e := SummariseAuthor(entity);
        MidwayTally(m, live, pending, entity.workIds);
        entities := entities[eid := e];
      }
      MidwayStep(m, live, pending, eid, entities);
    }

    /** Lines 157-165: update a work in place. */
    method VisitWork(ghost m: Store, ghost pending: set<string>, eid: string)
      requires Valid(m) && Midway(m, entities, pending) && eid in pending && m[eid].Work?
      modifies this
      ensures Midway(m, entities, pending - {eid})
    {
      ghost var live := entities;
      MidwayAt(m, live, pending, eid);
      var e := FillAuthorYears(entities[eid]);
      MidwayAuthors(m, live, pending, eid);
      entities := entities[eid := e];
      MidwayStep(m, live, pending, eid, entities);
    }

    /**
      Lines 140-165: visit every entity of a snapshot of the dictionary, in any order, reading
      the live dictionary as the loop does; the result is the order-independent `Finished`.
    */
    method PostProcess()
      requires Valid(entities)
      modifies this
      ensures entities == Finished(old(entities))
    {
      ghost var m := entities;
      var pending := entities.Keys;
      while pending != {}
        invariant Midway(m, entities, pending)
        decreases |pending|
      {
        var eid :| eid in pending;
        MidwayAt(m, entities, pending, eid);
        if entities[eid].Author? {
          VisitAuthor(m, pending, eid);
        } else {
          VisitWork(m, pending, eid);
        }
        pending := pending - {eid};
      }
      MidwayDone(m, entities);
    }
  }

  /**
    Partway through the pass: the ids still `pending` hold their snapshot value, the others
    hold their finished value or, for an author without works, are gone.
  */
  ghost predicate Midway(m: Store, live: Store, pending: set<string>) {
    && pending <= m.Keys && live.Keys <= m.Keys
    && (forall k :: k in pending ==> k in live && live[k] == m[k])
    && (forall k :: k in m && k !in pending ==>
         (k in live <==> Kept(m[k])) && (k in live ==> live[k] == Finish(m, m[k])))
  }

  lemma MidwayAt(m: Store, live: Store, pending: set<string>, eid: string)
    requires Midway(m, live, pending) && eid in pending
    ensures eid in m && eid in live && live[eid] == m[eid]
  {
  }

  /** Every entry still present differs from the snapshot only in the fields the pass writes. */
  lemma MidwayWritten(m: Store, live: Store, pending: set<string>)
    requires Midway(m, live, pending)
    ensures forall k :: k in live ==> k in m && Written(live[k]) == Written(m[k])
  {
    forall k | k in live ensures k in m && Written(live[k]) == Written(m[k]) {
      if k !in pending {
        FinishWritesLittle(m, m[k]);
      }
    }
  }

  /** Works are never dropped and keep their discipline, so line 149 reads the snapshot's. */
  lemma MidwayTally(m: Store, live: Store, pending: set<string>, wids: seq<string>)
    requires Midway(m, live, pending)
    ensures TallyOf(live, wids) == TallyOf(m, wids)
  {
    MidwayWritten(m, live, pending);
    forall wid ensures DisciplineOf(live, wid) == DisciplineOf(m, wid) {
      if wid in m && m[wid].Work? {
        assert wid in live;
        assert Written(live[wid]) == Written(m[wid]);
      } else if wid in live {
        assert KindOf(Written(live[wid])) == KindOf(live[wid]);
      }
    }
    TallyAgrees(m, live, wids);
  }

  /**
    An author some work lists has that work, so it is never dropped, and it keeps its years:
    line 161 reads what the snapshot holds.
  */
  lemma MidwayAuthors(m: Store, live: Store, pending: set<string>, w: string)
    requires Valid(m) && Midway(m, live, pending) && w in m && m[w].Work?
    ensures forall a :: a in m[w].authorIds ==>
      a in m && a in live && live[a].highestYear == m[a].highestYear && live[a].lowestYear == m[a].lowestYear
    ensures FirstDated(live, m[w].authorIds) == FirstDated(m, m[w].authorIds)
    ensures FinishWork(live, m[w]) == FinishWork(m, m[w])
  {
    MidwayWritten(m, live, pending);
    forall a | a in m[w].authorIds
      ensures a in m && a in live && live[a].highestYear == m[a].highestYear && live[a].lowestYear == m[a].lowestYear
    {
      assert a in m && m[a].Author? && w in m[a].workIds;
      assert Kept(m[a]);
      assert Written(live[a]) == Written(m[a]);
    }
    DatedAgrees(m, live, m[w].authorIds);
    FinishWorkAgrees(m, live, m[w]);
  }

  lemma FinishWorkAgrees(m: Store, live: Store, w: Entity)
    requires w.Work? && FirstDated(live, w.authorIds) == FirstDated(m, w.authorIds)
    requires forall a :: a in w.authorIds ==>
      a in m && a in live && live[a].highestYear == m[a].highestYear && live[a].lowestYear == m[a].lowestYear
    ensures FinishWork(live, w) == FinishWork(m, w)
  {
    var f := FirstDated(m, w.authorIds);
    if f.Some? {
      assert w.authorIds[f.value] in w.authorIds;
    }
  }

  /** One visit keeps `Midway`: the entity is finished, dropped, or already final. */
  lemma MidwayStep(m: Store, live: Store, pending: set<string>, eid: string, r: Store)
    requires Midway(m, live, pending) && eid in pending
    requires || (Kept(m[eid]) && r == live[eid := Finish(m, m[eid])])
             || (!Kept(m[eid]) && r == live - {eid})
    ensures Midway(m, r, pending - {eid})
  {
  }

  lemma MidwayDone(m: Store, live: Store)
    requires Midway(m, live, {})
    ensures live == Finished(m)
  {
  }

  lemma {:induction false} TallyAgrees(m: Store, live: Store, wids: seq<string>)
    requires forall wid :: DisciplineOf(live, wid) == DisciplineOf(m, wid)
    ensures TallyOf(live, wids) == TallyOf(m, wids)
  {
    if wids != [] {
      TallyAgrees(m, live, wids[..|wids| - 1]);
    }
  }

  lemma {:induction false} DatedAgrees(m: Store, live: Store, aids: seq<string>)
    requires forall a :: a in aids ==> a in m && a in live && live[a].highestYear == m[a].highestYear
    ensures FirstDated(live, aids) == FirstDated(m, aids)
  {
    if aids != [] {
      DatedAgrees(m, live, aids[1..]);
    }
  }

  /**
    `create_entities` on the rows of the works CSV: the row fold, then the post-processing
    pass; the dictionary it returns is the value `json.dump` writes.
  */
  method CreateEntities(rows: seq<Row>) returns (result: Store)
    requires Loadable(rows)
    ensures result == Finished(FoldRows(rows))
    ensures Valid(result)
    ensures DisciplinesFollowWorks(FoldRows(rows), result)
  {
    var builder := new EntityBuilder();
    ghost var ps := ParseAll(rows);
    var i := 0;
    while i < |rows|
      invariant 0 <= i <= |rows|
      invariant builder.entities == Fold(ps, i)
    {
      ConformsApplicable(Fold(ps, i), ps, i);
      builder.AddRow(rows[i]);
      i := i + 1;
    }
    builder.PostProcess();
    result := builder.entities;
    FinishedValid(Fold(ps, |rows|));
    FoldUndisciplined(ps, |rows|);
    FinishedDisciplines(Fold(ps, |rows|));
  }
}
