/**
  What survives the whole row fold of `create_entities`: later rows only add entities and
  extend link lists, so every link a work row records is still there after the last row.
*/
module FoldEffects {
  import opened RowFold
  import opened Linkage
  import opened RowEffects

  /** Later rows only add entities and extend link lists. */
  lemma {:induction false} FoldGrows(ps: seq<Parsed>, i: nat, n: nat)
    requires i <= n <= |ps| && RolesDisjoint(ps)
    ensures Grows(Fold(ps, i), Fold(ps, n))
    decreases n - i
  {
    if i < n {
      FoldGrows(ps, i + 1, n);
      FoldGrowsFromNext(ps, i, n);
    } else {
      GrowsReflexive(Fold(ps, i));
    }
  }

  /**
    The links a work row records survive every later row: in the store after all the rows, each
    work row's work lists every author and base text the row paired with it, and they list it.
  */
  lemma RowLinksPersist(ps: seq<Parsed>, j: nat)
    requires j < |ps| && RolesDisjoint(ps) && ps[j].WorkRow?
    ensures AuthorsListed(Fold(ps, |ps|), ps[j].id, ps[j].authors)
    ensures BasesListed(Fold(ps, |ps|), ps[j].id, ps[j].baseTexts)
  {
    var m := Fold(ps, j);
    ConformsApplicable(m, ps, j);
    WorkRowLinks(m, ps[j]);
    FoldGrows(ps, j + 1, |ps|);
    AuthorsListedGrow(Fold(ps, j + 1), Fold(ps, |ps|), ps[j].id, ps[j].authors);
    BasesListedGrow(Fold(ps, j + 1), Fold(ps, |ps|), ps[j].id, ps[j].baseTexts);
  }

  // ---------------------------------------------------------------------------------------
  // The field the post-processing pass writes

  lemma LinkAuthorUndisciplined(m: Store, wid: string, aid: string, aname: string)
    requires wid in m && m[wid].Work? && aid != wid && (aid in m ==> m[aid].Author?)
    requires Undisciplined(m)
    ensures Undisciplined(LinkAuthor(m, wid, aid, aname))
  {
  }

  lemma LinkBaseTextUndisciplined(m: Store, wid: string, bid: string, bname: string)
    requires wid in m && m[wid].Work? && (bid in m ==> m[bid].Work?)
    requires Undisciplined(m)
    ensures Undisciplined(LinkBaseText(m, wid, bid, bname))
  {
  }

  lemma {:induction false} LinkAuthorsUndisciplined(m: Store, wid: string, pairs: seq<(string, string)>)
    requires wid in m && m[wid].Work?
    requires forall i :: 0 <= i < |pairs| ==> pairs[i].0 != wid && (pairs[i].0 in m ==> m[pairs[i].0].Author?)
    requires Undisciplined(m)
    ensures Undisciplined(LinkAuthors(m, wid, pairs))
    decreases |pairs|
  {
    if pairs != [] {
      var n := |pairs| - 1;
      var r := LinkAuthors(m, wid, pairs[..n]);
      LinkAuthorsUndisciplined(m, wid, pairs[..n]);
      LinkAuthorUndisciplined(r, wid, pairs[n].0, pairs[n].1);
    }
  }

  lemma {:induction false} LinkBaseTextsUndisciplined(m: Store, wid: string, pairs: seq<(string, string)>)
    requires wid in m && m[wid].Work?
    requires forall i :: 0 <= i < |pairs| ==> (pairs[i].0 in m ==> m[pairs[i].0].Work?)
    requires Undisciplined(m)
    ensures Undisciplined(LinkBaseTexts(m, wid, pairs))
    decreases |pairs|
  {
    if pairs != [] {
      var n := |pairs| - 1;
      var r := LinkBaseTexts(m, wid, pairs[..n]);
      LinkBaseTextsUndisciplined(m, wid, pairs[..n]);
      LinkBaseTextUndisciplined(r, wid, pairs[n].0, pairs[n].1);
    }
  }

  /** No row writes an author's `disciplines`. */
  lemma ApplyRowUndisciplined(m: Store, p: Parsed)
    requires Applicable(m, p) && Undisciplined(m)
    ensures Undisciplined(ApplyRow(m, p))
  {
    if p.WorkRow? {
      var m1 := WorkScalars(m, p);
      LinkAuthorsUndisciplined(m1, p.id, p.authors);
      BaseTextsAreWorks(m, p);
      LinkBaseTextsUndisciplined(WithAuthors(m, p), p.id, p.baseTexts);
    }
  }

  /**
    After any number of rows no author has a `disciplines` value: the summary lines 146-156
    write is the field's only source.
  */
  lemma {:induction false} FoldUndisciplined(ps: seq<Parsed>, n: nat)
    requires n <= |ps| && RolesDisjoint(ps)
    ensures Undisciplined(Fold(ps, n))
  {
    if n > 0 {
      FoldUndisciplined(ps, n - 1);
      ConformsApplicable(Fold(ps, n - 1), ps, n - 1);
      ApplyRowUndisciplined(Fold(ps, n - 1), ps[n - 1]);
    }
  }
}
