/**
  The shape `create_entities` leaves `entities_by_id` in: every entity is filed under its own
  id and keeps the `type` its constructor gave it, no id list repeats an id, and the
  authorship and base-text relations are recorded on both ends. Each step of the row fold
  keeps this shape, so the whole fold does.
*/
module Linkage {
  import opened Options
  import opened DataModels
  import opened RowFold

  /** Every entity is stored under its own id. */
  ghost predicate Keyed(m: Store) {
    forall k :: k in m ==> m[k].id == k
  }

  /** Every entity has the `type` string of its class. */
  ghost predicate Typed(m: Store) {
    forall k :: k in m ==> m[k].entityType == TypeName(KindOf(m[k]))
  }

  predicate ListsNoDup(e: Entity) {
    if e.Work? then NoDup(e.authorIds) && NoDup(e.baseTextIds) && NoDup(e.commentaryIds)
    else NoDup(e.workIds)
  }

  /** No id list holds an id twice (the `not in` tests before each `append`). */
  ghost predicate Distinct(m: Store) {
    forall k :: k in m ==> ListsNoDup(m[k])
  }

  /** Each author of a work is a stored author that lists the work. */
  ghost predicate AuthorsLinked(m: Store) {
    forall w, a :: w in m && m[w].Work? && a in m[w].authorIds ==> a in m && m[a].Author? && w in m[a].workIds
  }

  /** Each work of an author is a stored work that lists the author. */
  ghost predicate WorksLinked(m: Store) {
    forall a, w :: a in m && m[a].Author? && w in m[a].workIds ==> w in m && m[w].Work? && a in m[w].authorIds
  }

  /** Each base text of a work is a stored work that lists it as a commentary. */
  ghost predicate BasesLinked(m: Store) {
    forall w, b :: w in m && m[w].Work? && b in m[w].baseTextIds ==> b in m && m[b].Work? && w in m[b].commentaryIds
  }

  /** Each commentary on a work is a stored work that lists it as a base text. */
  ghost predicate CommentariesLinked(m: Store) {
    forall b, c :: b in m && m[b].Work? && c in m[b].commentaryIds ==> c in m && m[c].Work? && b in m[c].baseTextIds
  }

  /** Authorship is recorded on both ends. */
  ghost predicate Authorship(m: Store) {
    AuthorsLinked(m) && WorksLinked(m)
  }

  /** Base texts and commentaries are recorded on both ends. */
  ghost predicate Lineage(m: Store) {
    BasesLinked(m) && CommentariesLinked(m)
  }

  ghost predicate Valid(m: Store) {
    EachWellFormed(m) && Authorship(m) && Lineage(m)
  }

  /** The per-entity parts of `Valid`. */
  ghost predicate EachWellFormed(m: Store) {
    Keyed(m) && Typed(m) && Distinct(m)
  }

  lemma EmptyValid()
    ensures Valid(map[])
  {
  }

  // ---------------------------------------------------------------------------------------
  // Frames: a step that leaves one relation's lists alone keeps that relation

  /** `r` keeps every entity of `m` with its kind and adds entities of any kind. */
  ghost predicate KeepsKinds(m: Store, r: Store) {
    forall k :: k in m ==> k in r && KindOf(r[k]) == KindOf(m[k])
  }

  /** `r` keeps the author and work lists of `m`; entities new in `r` have empty ones. */
  ghost predicate KeepsAuthorship(m: Store, r: Store) {
    && KeepsKinds(m, r)
    && (forall k :: k in r && r[k].Work? ==> if k in m then r[k].authorIds == m[k].authorIds else r[k].authorIds == [])
    && (forall k :: k in r && r[k].Author? ==> if k in m then r[k].workIds == m[k].workIds else r[k].workIds == [])
  }

  /** `r` keeps the base-text and commentary lists of `m`; works new in `r` have empty ones. */
  ghost predicate KeepsLineage(m: Store, r: Store) {
    && KeepsKinds(m, r)
    && (forall k :: k in r && r[k].Work? ==> if k in m then r[k].baseTextIds == m[k].baseTextIds else r[k].baseTextIds == [])
    && (forall k :: k in r && r[k].Work? ==> if k in m then r[k].commentaryIds == m[k].commentaryIds else r[k].commentaryIds == [])
  }

  lemma AuthorshipFrame(m: Store, r: Store)
    requires AuthorsLinked(m) && WorksLinked(m) && KeepsAuthorship(m, r)
    ensures AuthorsLinked(r) && WorksLinked(r)
  {
    forall w, a | w in r && r[w].Work? && a in r[w].authorIds ensures a in r && r[a].Author? && w in r[a].workIds {
      assert w in m;
    }
    forall a, w | a in r && r[a].Author? && w in r[a].workIds ensures w in r && r[w].Work? && a in r[w].authorIds {
      assert a in m;
    }
  }

  lemma LineageFrame(m: Store, r: Store)
    requires BasesLinked(m) && CommentariesLinked(m) && KeepsLineage(m, r)
    ensures BasesLinked(r) && CommentariesLinked(r)
  {
    forall w, b | w in r && r[w].Work? && b in r[w].baseTextIds ensures b in r && r[b].Work? && w in r[b].commentaryIds {
      assert w in m;
    }
    forall b, c | b in r && r[b].Work? && c in r[b].commentaryIds ensures c in r && r[c].Work? && b in r[c].baseTextIds {
      assert b in m;
    }
  }

  // ---------------------------------------------------------------------------------------
  // One pair

  lemma LinkAuthorWellFormed(m: Store, wid: string, aid: string, aname: string)
    requires EachWellFormed(m) && wid in m && m[wid].Work? && aid != wid && (aid in m ==> m[aid].Author?)
    ensures EachWellFormed(LinkAuthor(m, wid, aid, aname))
  {
    var r := LinkAuthor(m, wid, aid, aname);
    forall k | k in r
      ensures r[k].id == k && r[k].entityType == TypeName(KindOf(r[k])) && ListsNoDup(r[k])
    {
      if k != wid && k != aid {
        assert r[k] == m[k];
      } else if k == aid && aid !in m {
        assert r[k].id == NewAuthor(aid).id && r[k].entityType == "author";
      }
    }
  }

  lemma LinkAuthorAuthors(m: Store, wid: string, aid: string, aname: string)
    requires AuthorsLinked(m) && wid in m && m[wid].Work? && aid != wid && (aid in m ==> m[aid].Author?)
    ensures AuthorsLinked(LinkAuthor(m, wid, aid, aname))
  {
    var r := LinkAuthor(m, wid, aid, aname);
    forall w, a | w in r && r[w].Work? && a in r[w].authorIds
      ensures a in r && r[a].Author? && w in r[a].workIds
    {
      if w != wid {
        assert r[w] == m[w];
        if a != aid {
          assert r[a] == m[a];
        }
      } else if a != aid {
        assert a in m[wid].authorIds;
        assert r[a] == m[a];
      }
    }
  }

  lemma LinkAuthorWorks(m: Store, wid: string, aid: string, aname: string)
    requires WorksLinked(m) && wid in m && m[wid].Work? && aid != wid && (aid in m ==> m[aid].Author?)
    ensures WorksLinked(LinkAuthor(m, wid, aid, aname))
  {
    var r := LinkAuthor(m, wid, aid, aname);
    forall a, w | a in r && r[a].Author? && w in r[a].workIds
      ensures w in r && r[w].Work? && a in r[w].authorIds
    {
      if a != aid {
        assert r[a] == m[a];
        if w != wid {
          assert r[w] == m[w];
        }
      } else if w != wid {
        assert w in m[aid].workIds;
        assert r[w] == m[w];
      }
    }
  }

  lemma LinkAuthorValid(m: Store, wid: string, aid: string, aname: string)
    requires Valid(m) && wid in m && m[wid].Work? && aid != wid && (aid in m ==> m[aid].Author?)
    ensures Valid(LinkAuthor(m, wid, aid, aname))
  {
    var r := LinkAuthor(m, wid, aid, aname);
    assert EachWellFormed(r) by {
      LinkAuthorWellFormed(m, wid, aid, aname);
    }
    assert Authorship(r) by {
      LinkAuthorAuthors(m, wid, aid, aname);
      LinkAuthorWorks(m, wid, aid, aname);
    }
    assert Lineage(r) by {
      LinkAuthorKeepsLineage(m, wid, aid, aname);
      LineageFrame(m, r);
    }
  }

  /** Linking an author touches no base-text or commentary list. */
  lemma LinkAuthorKeepsLineage(m: Store, wid: string, aid: string, aname: string)
    requires wid in m && m[wid].Work? && aid != wid && (aid in m ==> m[aid].Author?)
    ensures KeepsLineage(m, LinkAuthor(m, wid, aid, aname))
  {
    var r := LinkAuthor(m, wid, aid, aname);
    forall k | k in r && r[k].Work?
      ensures k in m && m[k].Work? && r[k].baseTextIds == m[k].baseTextIds && r[k].commentaryIds == m[k].commentaryIds
    {
      assert k != aid;
      if k != wid {
        assert r[k] == m[k];
      }
    }
  }

  lemma LinkBaseTextWellFormed(m: Store, wid: string, bid: string, bname: string)
    requires EachWellFormed(m) && wid in m && m[wid].Work? && (bid in m ==> m[bid].Work?)
    ensures EachWellFormed(LinkBaseText(m, wid, bid, bname))
  {
    var r := LinkBaseText(m, wid, bid, bname);
    forall k | k in r
      ensures r[k].id == k && r[k].entityType == TypeName(KindOf(r[k])) && ListsNoDup(r[k])
    {
      if k != wid && k != bid {
        assert r[k] == m[k];
      } else if k == bid && bid !in m {
        assert r[k].id == NewWork(bid).id && r[k].entityType == "work";
      }
    }
  }

  lemma LinkBaseTextBases(m: Store, wid: string, bid: string, bname: string)
    requires BasesLinked(m) && wid in m && m[wid].Work? && (bid in m ==> m[bid].Work?)
    ensures BasesLinked(LinkBaseText(m, wid, bid, bname))
  {
    var r := LinkBaseText(m, wid, bid, bname);
    forall w, b | w in r && r[w].Work? && b in r[w].baseTextIds
      ensures b in r && r[b].Work? && w in r[b].commentaryIds
    {
      if w != wid {
        assert r[w] == m[w] || (w == bid && r[w].baseTextIds == m[w].baseTextIds);
        assert b in m[w].baseTextIds;
        if b != bid && b != wid {
          assert r[b] == m[b];
        }
      } else if b != bid {
        assert b in m[wid].baseTextIds;
        if b != wid {
          assert r[b] == m[b];
        }
      }
    }
  }

  lemma LinkBaseTextCommentaries(m: Store, wid: string, bid: string, bname: string)
    requires CommentariesLinked(m) && wid in m && m[wid].Work? && (bid in m ==> m[bid].Work?)
    ensures CommentariesLinked(LinkBaseText(m, wid, bid, bname))
  {
    var r := LinkBaseText(m, wid, bid, bname);
    if bid == wid {
      forall b, c | b in r && r[b].Work? && c in r[b].commentaryIds
        ensures c in r && r[c].Work? && b in r[c].baseTextIds
      {
        if b != wid {
          assert r[b] == m[b];
          if c != wid {
            assert r[c] == m[c];
          }
        } else if c != wid {
          assert c in m[wid].commentaryIds;
          assert r[c] == m[c];
        }
      }
    } else {
      forall b, c | b in r && r[b].Work? && c in r[b].commentaryIds
        ensures c in r && r[c].Work? && b in r[c].baseTextIds
      {
        if b != bid {
          assert r[b] == m[b] || (b == wid && r[b].commentaryIds == m[b].commentaryIds);
          assert c in m[b].commentaryIds;
          if c != wid && c != bid {
            assert r[c] == m[c];
          }
        } else if c != wid {
          assert c in m[bid].commentaryIds;
          if c != bid {
            assert r[c] == m[c];
          }
        }
      }
    }
  }

  lemma LinkBaseTextValid(m: Store, wid: string, bid: string, bname: string)
    requires Valid(m) && wid in m && m[wid].Work? && (bid in m ==> m[bid].Work?)
    ensures Valid(LinkBaseText(m, wid, bid, bname))
  {
    var r := LinkBaseText(m, wid, bid, bname);
    assert EachWellFormed(r) by {
      LinkBaseTextWellFormed(m, wid, bid, bname);
    }
    assert Lineage(r) by {
      LinkBaseTextBases(m, wid, bid, bname);
      LinkBaseTextCommentaries(m, wid, bid, bname);
    }
    assert Authorship(r) by {
      LinkBaseTextKeepsAuthorship(m, wid, bid, bname);
      AuthorshipFrame(m, r);
    }
  }

  /** Linking a base text touches no author or work list. */
  lemma LinkBaseTextKeepsAuthorship(m: Store, wid: string, bid: string, bname: string)
    requires wid in m && m[wid].Work? && (bid in m ==> m[bid].Work?)
    ensures KeepsAuthorship(m, LinkBaseText(m, wid, bid, bname))
  {
    var r := LinkBaseText(m, wid, bid, bname);
    forall k | k in r && r[k].Work?
      ensures if k in m then r[k].authorIds == m[k].authorIds else r[k].authorIds == []
    {
      if k != wid && k != bid {
        assert r[k] == m[k];
      }
    }
    forall k | k in r && r[k].Author?
      ensures if k in m then r[k].workIds == m[k].workIds else r[k].workIds == []
    {
      assert k != wid && k != bid;
      assert r[k] == m[k];
    }
  }

  // ---------------------------------------------------------------------------------------
  // The pair loops

  lemma {:induction false} LinkAuthorsValid(m: Store, wid: string, pairs: seq<(string, string)>)
    requires Valid(m) && wid in m && m[wid].Work?
    requires forall i :: 0 <= i < |pairs| ==> pairs[i].0 != wid && (pairs[i].0 in m ==> m[pairs[i].0].Author?)
    ensures Valid(LinkAuthors(m, wid, pairs))
    decreases |pairs|
  {
    if pairs != [] {
      var n := |pairs| - 1;
      LinkAuthorsValid(m, wid, pairs[..n]);
      LinkAuthorValid(LinkAuthors(m, wid, pairs[..n]), wid, pairs[n].0, pairs[n].1);
    }
  }

  lemma {:induction false} LinkBaseTextsValid(m: Store, wid: string, pairs: seq<(string, string)>)
    requires Valid(m) && wid in m && m[wid].Work?
    requires forall i :: 0 <= i < |pairs| ==> (pairs[i].0 in m ==> m[pairs[i].0].Work?)
    ensures Valid(LinkBaseTexts(m, wid, pairs))
    decreases |pairs|
  {
    if pairs != [] {
      var n := |pairs| - 1;
      LinkBaseTextsValid(m, wid, pairs[..n]);
      LinkBaseTextValid(LinkBaseTexts(m, wid, pairs[..n]), wid, pairs[n].0, pairs[n].1);
    }
  }

  // ---------------------------------------------------------------------------------------
  // Rows

  lemma WorkScalarsValid(m: Store, p: Parsed)
    requires Valid(m) && p.WorkRow? && (p.id in m ==> m[p.id].Work?)
    ensures Valid(WorkScalars(m, p))
  {
    var r := WorkScalars(m, p);
    assert EachWellFormed(r);
    WorkScalarsKeepLinks(m, p);
    assert Authorship(r) by {
      AuthorshipFrame(m, r);
    }
    assert Lineage(r) by {
      LineageFrame(m, r);
    }
  }

  /** Overwriting a work's scalars touches none of its lists; a new work has empty ones. */
  lemma WorkScalarsKeepLinks(m: Store, p: Parsed)
    requires p.WorkRow? && (p.id in m ==> m[p.id].Work?)
    ensures KeepsAuthorship(m, WorkScalars(m, p)) && KeepsLineage(m, WorkScalars(m, p))
  {
    var r := WorkScalars(m, p);
    forall k | k in r && k != p.id
      ensures r[k] == m[k]
    {
    }
  }

  lemma PersonRowValid(m: Store, p: Parsed)
    requires Valid(m) && p.PersonRow? && (p.id in m ==> m[p.id].Author?)
    ensures Valid(ApplyPersonRow(m, p))
  {
    var r := ApplyPersonRow(m, p);
    assert EachWellFormed(r);
    assert KeepsAuthorship(m, r);
    AuthorshipFrame(m, r);
    assert KeepsLineage(m, r);
    LineageFrame(m, r);
  }

  /** Each row keeps the store's shape. */
  lemma ApplyRowValid(m: Store, p: Parsed)
    requires Valid(m) && Applicable(m, p)
    ensures Valid(ApplyRow(m, p))
  {
    if p.WorkRow? {
      WorkScalarsValid(m, p);
      var m1 := WorkScalars(m, p);
      assert forall i :: 0 <= i < |p.authors| ==> p.authors[i].0 in AuthorRole(p);
      LinkAuthorsValid(m1, p.id, p.authors);
      BaseTextsAreWorks(m, p);
      LinkBaseTextsValid(WithAuthors(m, p), p.id, p.baseTexts);
    } else if p.PersonRow? {
      assert p.id in AuthorRole(p);
      PersonRowValid(m, p);
    }
  }

  // ---------------------------------------------------------------------------------------
  // The whole fold

  /**
    `entities_by_id` after the first `n` rows, from the empty dictionary it starts as: every
    step keeps the shape above, so every prefix of the rows leaves a valid store.
  */
  function Fold(ps: seq<Parsed>, n: nat): (r: Store)
    requires n <= |ps| && RolesDisjoint(ps)
    ensures Conforms(r, ps) && Valid(r)
  {
    if n == 0 then
      EmptyValid();
      map[]
    else
      var m := Fold(ps, n - 1);
      ConformsApplicable(m, ps, n - 1);
      ApplyConforms(m, ps, n - 1);
      ApplyRowValid(m, ps[n - 1]);
      ApplyRow(m, ps[n - 1])
  }

  /** The precondition of `create_entities`: rows that parse and keep works and authors apart. */
  predicate Loadable(rows: seq<Row>) {
    AllParse(rows) && RolesDisjoint(ParseAll(rows))
  }

  /** `entities_by_id` when the row loop of lines 57-137 ends. */
  function FoldRows(rows: seq<Row>): (r: Store)
    requires Loadable(rows)
    ensures Valid(r)
  {
    Fold(ParseAll(rows), |rows|)
  }
}
