/**
  The post-processing pass of `create_entities` (utils/transform.py lines 140-165) as functions
  on values. An author with no works is dropped; any other author gets a `disciplines` summary
  of its works' disciplines, most frequent first and alphabetical on ties, written
  "Nyaya (3), Yoga (1)"; a work without a year of its own takes the years of its first dated
  author.
*/
module PostPass {
  import opened Options
  import opened Text
  import opened DataModels
  import opened RowFold
  import opened Linkage

  // ---------------------------------------------------------------------------------------
  // The discipline counter

  /** A `Counter` of discipline names: its items in the order the keys were first counted. */
  type Tally = seq<(string, nat)>


  /** `counter[d]`: the count of `d` (zero when absent). */
  function CountIn(t: Tally, d: string): nat {
    if t == [] then 0 else (if t[0].0 == d then t[0].1 else 0) + CountIn(t[1..], d)
  }

  /** `d in counter`. */
  predicate HasKey(t: Tally, d: string) {
    t != [] && (t[0].0 == d || HasKey(t[1..], d))
  }

  /** A counter never holds a key twice nor a zero count. */
  predicate IsCounter(t: Tally) {
    t == [] || (t[0].1 >= 1 && !HasKey(t[1..], t[0].0) && IsCounter(t[1..]))
  }

  lemma {:induction false} CountAbsent(t: Tally, d: string)
    requires !HasKey(t, d)
    ensures CountIn(t, d) == 0
  {
    if t != [] {
      CountAbsent(t[1..], d);
    }
  }

  lemma {:induction false} MemberHasKey(t: Tally, x: (string, nat))
    requires x in t
    ensures HasKey(t, x.0)
  {
    if t[0] != x {
      assert x in t[1..];
      MemberHasKey(t[1..], x);
    }
  }

  /** `counter[d] += 1`. */
  function Bump(t: Tally, d: string): (r: Tally)
    requires IsCounter(t)
    ensures IsCounter(r)
    ensures forall x :: HasKey(r, x) <==> HasKey(t, x) || x == d
    ensures CountIn(r, d) == CountIn(t, d) + 1
    ensures forall x :: x != d ==> CountIn(r, x) == CountIn(t, x)
  {
    if t == [] then [(d, 1)]
    else if t[0].0 == d then
      CountAbsent(t[1..], d);
      [(d, t[0].1 + 1)] + t[1..]
    else
      [t[0]] + Bump(t[1..], d)
  }

  /** `work.discipline`, when `entities_by_id.get(wid)` is a work whose discipline is a non-empty string. */
  function DisciplineOf(m: Store, wid: string): Option<string> {
    if wid in m && m[wid].Work? && m[wid].discipline.Some? && m[wid].discipline.value != "" then
      Some(m[wid].discipline.value)
    else None
  }

  /** How many of the works `wids` have the discipline `d`. */
  function Occurrences(m: Store, wids: seq<string>, d: string): nat {
    if wids == [] then 0
    else Occurrences(m, wids[..|wids| - 1], d) + (if DisciplineOf(m, wids[|wids| - 1]) == Some(d) then 1 else 0)
  }

  /**
    Lines 146-151: the counter built over an author's works in order. It counts each
    discipline exactly as often as it occurs among those works and holds no other key.
  */
  function TallyOf(m: Store, wids: seq<string>): (t: Tally)
    ensures IsCounter(t)
    ensures forall d :: CountIn(t, d) == Occurrences(m, wids, d)
    ensures forall d :: HasKey(t, d) <==> Occurrences(m, wids, d) > 0
  {
    if wids == [] then []
    else
      var t := TallyOf(m, wids[..|wids| - 1]);
      match DisciplineOf(m, wids[|wids| - 1])
      case None => t
      case Some(d) => Bump(t, d)
  }

  // ---------------------------------------------------------------------------------------
  // Sorting the counter's items by the key (-count, discipline)

  /** `(-x[1], x[0]) < (-y[1], y[0])`. */
  predicate Precedes(x: (string, nat), y: (string, nat)) {
    x.1 > y.1 || (x.1 == y.1 && LexLess(x.0, y.0))
  }

  /** No item is preceded by a later one: the order `sorted` produces for this key. */
  predicate SortedTally(t: Tally) {
    t == [] || ((forall y :: y in t[1..] ==> !Precedes(y, t[0])) && SortedTally(t[1..]))
  }

  lemma PrecedesTotal(x: (string, nat), y: (string, nat))
    requires x.0 != y.0
    ensures Precedes(x, y) || Precedes(y, x)
  {
    LexLessTotal(x.0, y.0);
  }

  lemma PrecedesAsymmetric(x: (string, nat), y: (string, nat))
    requires Precedes(x, y)
    ensures !Precedes(y, x)
  {
    if x.1 == y.1 {
      LexLessAsymmetric(x.0, y.0);
    }
  }

  /** "Not preceded by" is transitive. */
  lemma NotPrecedesTransitive(x: (string, nat), y: (string, nat), z: (string, nat))
    requires !Precedes(y, x) && !Precedes(z, y)
    ensures !Precedes(z, x)
  {
    if z.1 == x.1 {
      NotLexLessTransitive(x.0, y.0, z.0);
    }
  }

  lemma NotLexLessTransitive(x: string, y: string, z: string)
    requires !LexLess(y, x) && !LexLess(z, y)
    ensures !LexLess(z, x)
  {
    if x != y && y != z {
      LexLessTotal(x, y);
      LexLessTotal(y, z);
      LexLessTransitive(x, y, z);
      LexLessAsymmetric(x, z);
    }
  }

  /** `x` put before the first item of `t` it is not preceded by. */
  function Insert(x: (string, nat), t: Tally): (r: Tally)
    requires SortedTally(t)
    ensures SortedTally(r) && multiset(r) == multiset(t) + multiset{x}
    ensures forall k :: HasKey(r, k) <==> HasKey(t, k) || k == x.0
    ensures IsCounter(t) && x.1 >= 1 && !HasKey(t, x.0) ==> IsCounter(r)
  {
    if t == [] || !Precedes(t[0], x) then
      var r := [x] + t;
      forall y | y in t ensures !Precedes(y, x) {
        if y != t[0] {
          assert y in t[1..];
          NotPrecedesTransitive(x, t[0], y);
        }
      }
      assert r[1..] == t;
      r
    else
      var rest := Insert(x, t[1..]);
      var r := [t[0]] + rest;
      assert t == [t[0]] + t[1..];
      forall y | y in rest ensures !Precedes(y, t[0]) {
        assert y in multiset(rest);
        if y == x {
          PrecedesAsymmetric(t[0], x);
        } else {
          assert y in multiset(t[1..]);
        }
      }
      assert r[1..] == rest;
      r
  }

  /** `sorted(counter.items(), key=lambda x: (-x[1], x[0]))`. */
  function SortTally(t: Tally): (r: Tally)
    ensures SortedTally(r) && multiset(r) == multiset(t)
    ensures IsCounter(t) ==> IsCounter(r) && forall k :: HasKey(r, k) <==> HasKey(t, k)
  {
    if t == [] then []
    else
      assert t == [t[0]] + t[1..];
      Insert(t[0], SortTally(t[1..]))
  }

  lemma HeadsAgree(a: Tally, b: Tally)
    requires a != [] && SortedTally(a) && SortedTally(b) && multiset(a) == multiset(b) && IsCounter(a)
    ensures b != [] && a[0] == b[0]
  {
    assert a[0] in multiset(b);
    assert b != [] && b[0] in multiset(a);
    if a[0] != b[0] {
      assert b[0] in a[1..] by {
        assert a == [a[0]] + a[1..];
      }
      assert a[0] in b[1..] by {
        assert b == [b[0]] + b[1..];
      }
      MemberHasKey(a[1..], b[0]);
      PrecedesTotal(a[0], b[0]);
      assert false;
    }
  }

  /**
    Counter keys are distinct, so the key `(-count, discipline)` orders the items strictly and
    there is only one sorted arrangement of them: the summary does not depend on the order the
    counter saw the disciplines in, nor on how they are sorted.
  */
  lemma {:induction false} SortedUnique(a: Tally, b: Tally)
    requires SortedTally(a) && SortedTally(b) && multiset(a) == multiset(b) && IsCounter(a)
    ensures a == b
  {
    if a != [] {
      HeadsAgree(a, b);
      assert a == [a[0]] + a[1..] && b == [b[0]] + b[1..];
      assert multiset(a[1..]) == multiset(a) - multiset{a[0]};
      assert multiset(b[1..]) == multiset(b) - multiset{b[0]};
      SortedUnique(a[1..], b[1..]);
    } else {
      assert multiset(b) == multiset{};
      assert |b| == |multiset(b)|;
    }
  }

  // ---------------------------------------------------------------------------------------
  // The summary string

  /** `f"{disc} ({count})"`. */
  function Entry(x: (string, nat)): (r: string)
    ensures |x.0| + 4 <= |r| && r[..|x.0|] == x.0 && r[|x.0|..|x.0| + 2] == " (" && r[|r| - 1] == ')'
    ensures var digits := r[|x.0| + 2..|r| - 1]; IsDigits(digits) && DigitsValue(digits) == x.1
  {
    var r := x.0 + " (" + NatToString(x.1) + ")";
    assert r[|x.0| + 2..|r| - 1] == NatToString(x.1);
    r
  }

  function Entries(t: Tally): (r: seq<string>)
    ensures |r| == |t| && forall i :: 0 <= i < |t| ==> r[i] == Entry(t[i])
  {
    if t == [] then [] else [Entry(t[0])] + Entries(t[1..])
  }

  /** `", ".join(...)` over the sorted items. */
  function Summary(t: Tally): string {
    Join(Entries(SortTally(t)), ", ")
  }

  // ---------------------------------------------------------------------------------------
  // One entity

  /** `author.highest_year is not None` for the id `aid`, read through `entities_by_id.get`. */
  predicate Dated(m: Store, aid: string) {
    aid in m && m[aid].highestYear.Some?
  }

  /** Lines 159-165: the position of the first dated author in `aids`, if any. */
  function FirstDated(m: Store, aids: seq<string>): (r: Option<nat>)
    ensures r.Some? ==> r.value < |aids| && Dated(m, aids[r.value])
    ensures r.Some? ==> forall j :: 0 <= j < r.value ==> !Dated(m, aids[j])
    ensures r.None? <==> forall j :: 0 <= j < |aids| ==> !Dated(m, aids[j])
  {
    if aids == [] then None
    else if Dated(m, aids[0]) then Some(0)
    else match FirstDated(m, aids[1..])
      case None => None
      case Some(i) => Some(i + 1)
  }

  /** Lines 146-156 for an author that has works. */
  function FinishAuthor(m: Store, a: Entity): (r: Entity)
    requires a.Author?
  {
    var t := TallyOf(m, a.workIds);
    if t == [] then a else a.(disciplines := Some(Summary(t)))
  }

  /** Lines 157-165 for a work. */
  function FinishWork(m: Store, w: Entity): (r: Entity)
    requires w.Work?
  {
    if w.highestYear.Some? then w
    else match FirstDated(m, w.authorIds)
      case None => w
      case Some(i) => w.(authorHighestYear := m[w.authorIds[i]].highestYear,
                         authorLowestYear := m[w.authorIds[i]].lowestYear)
  }

  /** An entity the pass keeps: anything but an author without works (lines 143-144). */
  predicate Kept(e: Entity) {
    !(e.Author? && e.workIds == [])
  }

  function Finish(m: Store, e: Entity): Entity {
    if e.Author? then FinishAuthor(m, e) else FinishWork(m, e)
  }

  /** The fields the pass may write: an author's `disciplines`, a work's author years. */
  function Written(e: Entity): (r: Entity)
    ensures KindOf(r) == KindOf(e)
  {
    if e.Author? then e.(disciplines := None) else e.(authorHighestYear := None, authorLowestYear := None)
  }

  /** The whole pass over the store the row fold leaves. */
  function Finished(m: Store): (r: Store)
    ensures r.Keys == set k | k in m && Kept(m[k])
    ensures forall k :: k in r ==> r[k] == Finish(m, m[k])
  {
    map k | k in m && Kept(m[k]) :: Finish(m, m[k])
  }

  // ---------------------------------------------------------------------------------------
  // What the pass promises

  /** The pass writes only an author's `disciplines` and a work's author years. */
  lemma FinishWritesLittle(m: Store, e: Entity)
    ensures Written(Finish(m, e)) == Written(e)
  {
  }

  /**
    An author the pass keeps and whose works have no non-empty discipline keeps its old
    `disciplines` value; otherwise the value is the rendering of the counter's items in ANY
    arrangement sorted by (-count, discipline), each counted as often as it occurs among the
    author's works (lines 146-156).
  */
  lemma AuthorSummary(m: Store, a: Entity, s: Tally)
    requires a.Author?
    ensures (forall d :: Occurrences(m, a.workIds, d) == 0) ==> FinishAuthor(m, a).disciplines == a.disciplines
    ensures SortedTally(s) && multiset(s) == multiset(TallyOf(m, a.workIds)) && s != [] ==>
      FinishAuthor(m, a).disciplines == Some(Join(Entries(s), ", "))
  {
    var t := TallyOf(m, a.workIds);
    if t != [] {
      assert HasKey(t, t[0].0);
    }
    if SortedTally(s) && multiset(s) == multiset(t) && s != [] {
      SortedUnique(SortTally(t), s);
    }
  }

  /** A discipline occurs among the works exactly when one of them has it. */
  lemma {:induction false} OccursWhere(m: Store, wids: seq<string>, d: string)
    ensures Occurrences(m, wids, d) > 0 <==> exists i :: 0 <= i < |wids| && DisciplineOf(m, wids[i]) == Some(d)
    decreases |wids|
  {
    if wids != [] {
      var n := |wids| - 1;
      var init := wids[..n];
      OccursWhere(m, init, d);
      if Occurrences(m, init, d) > 0 {
        var i :| 0 <= i < n && DisciplineOf(m, init[i]) == Some(d);
        assert wids[i] == init[i];
      }
      if exists i :: 0 <= i < |wids| && DisciplineOf(m, wids[i]) == Some(d) {
        var i :| 0 <= i < |wids| && DisciplineOf(m, wids[i]) == Some(d);
        if i < n {
          assert init[i] == wids[i];
        }
      }
    }
  }

  /**
    An author with no `disciplines` value yet keeps `None` exactly when none of its works has a
    non-empty discipline; otherwise it gets the summary.
  */
  lemma AuthorDisciplineNone(m: Store, a: Entity)
    requires a.Author? && a.disciplines == None
    ensures FinishAuthor(m, a).disciplines == None <==>
      forall i :: 0 <= i < |a.workIds| ==> DisciplineOf(m, a.workIds[i]).None?
  {
    var t := TallyOf(m, a.workIds);
    if t != [] {
      assert HasKey(t, t[0].0);
      OccursWhere(m, a.workIds, t[0].0);
    } else {
      forall i | 0 <= i < |a.workIds| ensures DisciplineOf(m, a.workIds[i]).None? {
        if DisciplineOf(m, a.workIds[i]).Some? {
          OccursWhere(m, a.workIds, DisciplineOf(m, a.workIds[i]).value);
        }
      }
    }
  }

  /** Each author of `r` is undisciplined exactly when none of its works in `m` has a discipline. */
  predicate DisciplinesFollowWorks(m: Store, r: Store) {
    forall k :: k in r && r[k].Author? && k in m && m[k].Author? ==>
      (r[k].disciplines == None <==>
       forall i :: 0 <= i < |m[k].workIds| ==> DisciplineOf(m, m[k].workIds[i]).None?)
  }

  /**
    Lines 146-156 after the row fold, which leaves every author's `disciplines` at `None`: a
    kept author stays at `None` exactly when none of its works has a non-empty discipline.
  */
  lemma FinishedDisciplines(m: Store)
    requires Undisciplined(m)
    ensures DisciplinesFollowWorks(m, Finished(m))
  {
    forall k | k in Finished(m) && Finished(m)[k].Author? && k in m && m[k].Author?
      ensures Finished(m)[k].disciplines == None <==>
        forall i :: 0 <= i < |m[k].workIds| ==> DisciplineOf(m, m[k].workIds[i]).None?
    {
      AuthorDisciplineNone(m, m[k]);
    }
  }

  /** The author at `i` is dated and none before it is: it is the one the loop stops at. */
  lemma {:induction false} FirstDatedIs(m: Store, aids: seq<string>, i: nat)
    requires i < |aids| && Dated(m, aids[i]) && forall j :: 0 <= j < i ==> !Dated(m, aids[j])
    ensures FirstDated(m, aids) == Some(i)
  {
    if i > 0 {
      FirstDatedIs(m, aids[1..], i - 1);
    }
  }

  /**
    A work without a year of its own takes both years of its first dated author: the one at
    `i` when it is dated and every author listed before it is not (lines 157-165). A work that
    has a year, or no dated author, is left alone.
  */
  lemma WorkYears(m: Store, w: Entity, i: nat)
    requires w.Work?
    ensures w.highestYear.Some? ==> FinishWork(m, w) == w
    ensures (forall j :: 0 <= j < |w.authorIds| ==> !Dated(m, w.authorIds[j])) ==> FinishWork(m, w) == w
    ensures (w.highestYear.None? && i < |w.authorIds| && Dated(m, w.authorIds[i])
             && forall j :: 0 <= j < i ==> !Dated(m, w.authorIds[j])) ==>
      FinishWork(m, w) == w.(authorHighestYear := m[w.authorIds[i]].highestYear,
                             authorLowestYear := m[w.authorIds[i]].lowestYear)
  {
    if i < |w.authorIds| && Dated(m, w.authorIds[i]) && (forall j :: 0 <= j < i ==> !Dated(m, w.authorIds[j])) {
      FirstDatedIs(m, w.authorIds, i);
    }
  }

  /** The pass drops exactly the authors without works and keeps every work. */
  lemma FinishedDrops(m: Store)
    ensures forall k :: k in m && m[k].Work? ==> k in Finished(m)
    ensures forall k :: k in m && m[k].Author? ==> (k in Finished(m) <==> m[k].workIds != [])
    ensures forall k :: k in Finished(m) ==> k in m && Written(Finished(m)[k]) == Written(m[k])
  {
    forall k | k in Finished(m) ensures k in m && Written(Finished(m)[k]) == Written(m[k]) {
      FinishWritesLittle(m, m[k]);
    }
  }

  /** The store stays in the shape the row fold leaves it in: no link points at a dropped author. */
  lemma FinishedValid(m: Store)
    requires Valid(m)
    ensures Valid(Finished(m))
  {
    var r := Finished(m);
    FinishedDrops(m);
    PrunedValid(m, r);
  }

  /**
    `r` keeps every work of `m` and every author with works, adds nothing and changes no id,
    type or link list.
  */
  ghost predicate Pruned(m: Store, r: Store) {
    && (forall k :: k in m && m[k].Work? ==> k in r)
    && (forall k :: k in m && m[k].Author? && m[k].workIds != [] ==> k in r)
    && (forall k :: k in r ==> k in m && Written(r[k]) == Written(m[k]))
  }

  lemma PrunedWellFormed(m: Store, r: Store)
    requires EachWellFormed(m) && Pruned(m, r)
    ensures EachWellFormed(r)
  {
    forall k | k in r ensures r[k].id == k && r[k].entityType == TypeName(KindOf(r[k])) && ListsNoDup(r[k]) {
      assert Written(r[k]) == Written(m[k]);
    }
  }

  lemma PrunedAuthors(m: Store, r: Store)
    requires Authorship(m) && Pruned(m, r)
    ensures AuthorsLinked(r)
  {
    forall w, a | w in r && r[w].Work? && a in r[w].authorIds ensures a in r && r[a].Author? && w in r[a].workIds {
      assert Written(r[w]) == Written(m[w]);
      assert m[a].Author? && w in m[a].workIds;
      assert Written(r[a]) == Written(m[a]);
    }
  }

  lemma PrunedWorks(m: Store, r: Store)
    requires Authorship(m) && Pruned(m, r)
    ensures WorksLinked(r)
  {
    forall a, w | a in r && r[a].Author? && w in r[a].workIds ensures w in r && r[w].Work? && a in r[w].authorIds {
      assert Written(r[a]) == Written(m[a]);
      assert Written(r[w]) == Written(m[w]);
    }
  }

  lemma PrunedBases(m: Store, r: Store)
    requires Lineage(m) && Pruned(m, r)
    ensures BasesLinked(r)
  {
    forall w, b | w in r && r[w].Work? && b in r[w].baseTextIds ensures b in r && r[b].Work? && w in r[b].commentaryIds {
      assert Written(r[w]) == Written(m[w]);
      assert Written(r[b]) == Written(m[b]);
    }
  }

  lemma PrunedCommentaries(m: Store, r: Store)
    requires Lineage(m) && Pruned(m, r)
    ensures CommentariesLinked(r)
  {
    forall b, c | b in r && r[b].Work? && c in r[b].commentaryIds ensures c in r && r[c].Work? && b in r[c].baseTextIds {
      assert Written(r[b]) == Written(m[b]);
      assert Written(r[c]) == Written(m[c]);
    }
  }

  /** A pruned copy of a valid store is valid: no link points at a dropped author. */
  lemma PrunedValid(m: Store, r: Store)
    requires Valid(m) && Pruned(m, r)
    ensures Valid(r)
  {
    PrunedWellFormed(m, r);
    PrunedAuthors(m, r);
    PrunedWorks(m, r);
    PrunedBases(m, r);
    PrunedCommentaries(m, r);
  }
}
