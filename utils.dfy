/**
  The helpers of `utils/utils.py` that compute something: the value of a `key = "value"` line of
  the `VERSION` file and the per-collection summary of the e-text link table the server shows.
*/
module Utils {
  import opened Options
  import opened Text
  import opened EtextLinks
  import opened RowFold

  // ---------------------------------------------------------------------------------------------
  // Version lines

  /** What `split('=')[1]` raises on a line without an `=`. */
  const NoValueError := "list index out of range"

  /**
    The value of one line of the `VERSION` file as the `find_*_version` helpers read it: the text
    between the first and the second `=` of the stripped line, stripped again, with every `'` and
    then every `"` removed. A line without `=` raises.
  */
  function VersionValue(line: string): (r: Result<string, string>)
    ensures r.Err? <==> '=' !in line
    ensures r.Err? ==> r.error == NoValueError
    ensures r.Ok? ==> '\'' !in r.value && '"' !in r.value && '=' !in r.value
  {
    StripKeeps(line, '=');
    var parts := Split(Strip(line), '=');
    if |parts| < 2 then Err(NoValueError)
    else
      var value := RemoveChar(RemoveChar(Strip(parts[1]), '\''), '"');
      assert forall c :: c in value ==> c in parts[1];
      Ok(value)
  }

  /** Stripping whitespace keeps every other character. */
  lemma StripKeeps(s: string, c: char)
    requires !IsSpace(c)
    ensures c in s <==> c in Strip(s)
  {
    if c in s {
      var k :| 0 <= k < |s| && s[k] == c;
      var a := StripStart(s);
      assert a[k - (|s| - |a|)] == c;
      var b := StripEnd(a);
      assert b[k - (|s| - |a|)] == c;
    }
  }

  /** `value` between two `quote` characters. */
  function Enclosed(value: string, quote: char): string {
    [quote] + value + [quote]
  }

  /** A line as the `VERSION` file writes it: `key = 'value'` or `key = "value"`. */
  function VersionLine(key: string, value: string, quote: char): string {
    key + " =" + (" " + Enclosed(value, quote))
  }

  lemma {:induction false} RemoveCharConcat(a: string, b: string, c: char)
    ensures RemoveChar(a + b, c) == RemoveChar(a, c) + RemoveChar(b, c)
  {
    if a == [] {
      assert a + b == b;
    } else {
      assert (a + b)[0] == a[0] && (a + b)[1..] == a[1..] + b;
      RemoveCharConcat(a[1..], b, c);
    }
  }

  /** Removing `c` from an enclosed value drops the quotes when they are `c` and nothing else. */
  lemma Unquote(value: string, quote: char, c: char)
    requires c !in value
    ensures RemoveChar(Enclosed(value, quote), c) == if quote == c then value else Enclosed(value, quote)
  {
    RemoveCharConcat([quote] + value, [quote], c);
    RemoveCharConcat([quote], value, c);
  }

  /** Reading back a line written with a quoted value gives the value. */
  lemma VersionLineRoundTrip(key: string, value: string, quote: char)
    requires quote == '\'' || quote == '"'
    requires key != "" && !IsSpace(key[0]) && '=' !in key
    requires '=' !in value && '\'' !in value && '"' !in value
    ensures VersionValue(VersionLine(key, value, quote)) == Ok(value)
  {
    var line := VersionLine(key, value, quote);
    var rest := " " + Enclosed(value, quote);
    LineStart(key, value, quote);
    LineEnd(key, value, quote);
    StripBoth(line, line);
    LineSplit(key, value, quote);
    RestStart(value, quote);
    EnclosedEnd(value, quote);
    StripBoth(rest, Enclosed(value, quote));
    ValueOfParts(line, [key + " ", rest], Enclosed(value, quote));
    Unquote(value, quote, '\'');
    Unquote(value, quote, '"');
  }

  /**
    Whatever the line: when the stripped line is `a=b` followed by nothing or by a further `=`,
    with no `=` in `a` or `b`, the value is `b` stripped and without its quotes.
  */
  lemma VersionValueMeaning(line: string, a: string, b: string, rest: string)
    requires Strip(line) == a + "=" + b + rest
    requires '=' !in a && '=' !in b
    requires rest == "" || rest[0] == '='
    ensures VersionValue(line) == Ok(RemoveChar(RemoveChar(Strip(b), '\''), '"'))
  {
    ValuePiece(Strip(line), a, b, rest);
    ValueOfParts(line, Split(Strip(line), '='), Strip(b));
  }

  /** The piece after the first `=` is `b`. */
  lemma ValuePiece(s: string, a: string, b: string, rest: string)
    requires s == a + "=" + b + rest
    requires '=' !in a && '=' !in b
    requires rest == "" || rest[0] == '='
    ensures |Split(s, '=')| >= 2 && Split(s, '=')[1] == b
  {
    assert s == a + ['='] + (b + rest);
    SecondPiece(b, rest);
    SplitAfter(a, '=', b + rest);
  }

  /** What follows the first `=` reads up to the next `=`, or to the end. */
  lemma SecondPiece(b: string, rest: string)
    requires '=' !in b
    requires rest == "" || rest[0] == '='
    ensures Split(b + rest, '=')[0] == b
  {
    if rest == "" {
      assert b + rest == Join([b], "=");
      SplitJoin([b], '=');
    } else {
      assert b + rest == b + ['='] + rest[1..];
      SplitAfter(b, '=', rest[1..]);
    }
  }

  lemma ValueOfParts(line: string, parts: seq<string>, piece: string)
    requires Split(Strip(line), '=') == parts && |parts| >= 2 && Strip(parts[1]) == piece
    ensures VersionValue(line) == Ok(RemoveChar(RemoveChar(piece, '\''), '"'))
  {
  }

  lemma StripBoth(s: string, t: string)
    requires StripStart(s) == t && StripEnd(t) == t
    ensures Strip(s) == t
  {
  }

  lemma LineStart(key: string, value: string, quote: char)
    requires key != "" && !IsSpace(key[0])
    ensures StripStart(VersionLine(key, value, quote)) == VersionLine(key, value, quote)
  {
    assert VersionLine(key, value, quote)[0] == key[0];
  }

  lemma LineEnd(key: string, value: string, quote: char)
    requires quote == '\'' || quote == '"'
    ensures StripEnd(VersionLine(key, value, quote)) == VersionLine(key, value, quote)
  {
    var line := VersionLine(key, value, quote);
    assert line[|line| - 1] == quote;
  }

  /** The line's one `=` follows the key and a space. */
  lemma LineSplit(key: string, value: string, quote: char)
    requires '=' !in key && '=' !in value && quote != '='
    ensures Split(VersionLine(key, value, quote), '=') == [key + " ", " " + Enclosed(value, quote)]
  {
    var rest := " " + Enclosed(value, quote);
    assert VersionLine(key, value, quote) == (key + " ") + ['='] + rest;
    SplitAfter(key + " ", '=', rest);
    assert '=' !in rest;
  }

  lemma RestStart(value: string, quote: char)
    requires quote == '\'' || quote == '"'
    ensures StripStart(" " + Enclosed(value, quote)) == Enclosed(value, quote)
  {
    assert (" " + Enclosed(value, quote))[1..] == Enclosed(value, quote);
  }

  lemma EnclosedEnd(value: string, quote: char)
    requires quote == '\'' || quote == '"'
    ensures StripEnd(Enclosed(value, quote)) == Enclosed(value, quote)
  {
  }

  // ---------------------------------------------------------------------------------------------
  // E-text summary

  /**
    The two `defaultdict` counters of `summarize_etext_links`: the set of works seen per
    collection and the number of links per collection. Both gain a key at the same statements;
    `order` is the order in which collections first gained one, the order Python iterates.
  */
  datatype Counters = Counters(order: seq<string>, works: map<string, set<string>>, links: map<string, nat>)

  const NoCounts := Counters([], map[], map[])

  /** `works_per_collection[c]`, empty for a collection not seen. */
  function WorksOf(t: Counters, c: string): set<string> {
    if c in t.works then t.works[c] else {}
  }

  /** `links_per_collection[c]`, zero for a collection not seen. */
  function LinksOf(t: Counters, c: string): nat {
    if c in t.links then t.links[c] else 0
  }

  /** The collections are listed once each, in `order`, and each has at least one work. */
  ghost predicate Tidy(t: Counters) {
    && NoDup(t.order)
    && (forall c :: c in t.order <==> c in t.works)
    && (forall c :: c in t.works ==> t.works[c] != {})
  }

  /** `len(sublinks)`: a list's length, or a string's length where the data holds a string. */
  function Size(l: Links): nat {
    match l
    case LinkList(items) => |items|
    case LinkText(text) => |text|
  }

  /** Work `w` is added to collection `c` and `n` links are counted for `c`. */
  function Count(t: Counters, w: string, c: string, n: nat): Counters {
    Counters(if c in t.works then t.order else t.order + [c],
             t.works[c := WorksOf(t, c) + {w}],
             t.links[c := LinksOf(t, c) + n])
  }

  /** Lines 60-62: the loop over the sub-categories of a dict entry. */
  function CountGroups(t: Counters, w: string, c: string, groups: seq<(string, Links)>): Counters
    decreases |groups|
  {
    if groups == [] then t
    else Count(CountGroups(t, w, c, groups[..|groups| - 1]), w, c, Size(groups[|groups| - 1].1))
  }

  /** Lines 59-67 for one entry: a dict, a list, or anything else, which counts nothing. */
  function CountEntry(t: Counters, w: string, c: string, e: Entry): Counters {
    match e
    case Grouped(groups) => CountGroups(t, w, c, groups)
    case Flat(links) => Count(t, w, c, |links|)
    case Scalar(_) => t
  }

  /** Lines 58-67: the loop over one work's collections. */
  function CountWork(t: Counters, w: string, cols: Collections): Counters
    decreases |cols|
  {
    if cols == [] then t
    else
      var last := cols[|cols| - 1];
      CountEntry(CountWork(t, w, cols[..|cols| - 1]), w, last.0, last.1)
  }

  /** Lines 57-67: the loop over the works. */
  function CountTable(t: Counters, table: OrderedTable): Counters
    decreases |table|
  {
    if table == [] then t
    else
      var last := table[|table| - 1];
      CountWork(CountTable(t, table[..|table| - 1]), last.0, last.1)
  }

  /** An entry registers its work: a list, or a dict with at least one sub-category. */
  predicate Registers(e: Entry) {
    e.Flat? || (e.Grouped? && e.groups != [])
  }

  /** The links of a dict entry: the lengths of its sub-lists added up. */
  function GroupLinks(groups: seq<(string, Links)>): nat
    decreases |groups|
  {
    if groups == [] then 0 else GroupLinks(groups[..|groups| - 1]) + Size(groups[|groups| - 1].1)
  }

  /** The links an entry holds: a list's length, a dict's sub-lists, nothing for anything else. */
  function EntryLinks(e: Entry): nat {
    match e
    case Flat(links) => |links|
    case Grouped(groups) => GroupLinks(groups)
    case Scalar(_) => 0
  }

  /** Some entry of a work for collection `c` registers the work. */
  predicate ListsWork(cols: Collections, c: string) {
    exists j :: 0 <= j < |cols| && cols[j].0 == c && Registers(cols[j].1)
  }

  /** The links one work holds in collection `c`. */
  function LinksIn(cols: Collections, c: string): nat
    decreases |cols|
  {
    if cols == [] then 0
    else
      var last := cols[|cols| - 1];
      LinksIn(cols[..|cols| - 1], c) + (if last.0 == c then EntryLinks(last.1) else 0)
  }

  /** The works of the table that list collection `c`. */
  function WorksListedIn(table: OrderedTable, c: string): (r: set<string>)
    ensures forall w :: w in r <==> exists i :: 0 <= i < |table| && table[i].0 == w && ListsWork(table[i].1, c)
    decreases |table|
  {
    if table == [] then {}
    else
      var init := table[..|table| - 1];
      var last := table[|table| - 1];
      var r := WorksListedIn(init, c) + (if ListsWork(last.1, c) then {last.0} else {});
      assert forall i :: 0 <= i < |init| ==> init[i] == table[i];
      r
  }

  /** All the links the table holds in collection `c`. */
  function LinksListedIn(table: OrderedTable, c: string): nat
    decreases |table|
  {
    if table == [] then 0
    else LinksListedIn(table[..|table| - 1], c) + LinksIn(table[|table| - 1].1, c)
  }

  /** Counting one link list: `w` joins `c`'s works, `n` joins its links, nothing else moves. */
  lemma CountEffect(t: Counters, w: string, c: string, n: nat)
    requires Tidy(t)
    ensures var r := Count(t, w, c, n);
      && Tidy(r)
      && WorksOf(r, c) == WorksOf(t, c) + {w} && LinksOf(r, c) == LinksOf(t, c) + n
      && (forall d :: d != c ==> WorksOf(r, d) == WorksOf(t, d) && LinksOf(r, d) == LinksOf(t, d))
  {
    var r := Count(t, w, c, n);
    if c !in t.works {
      forall i | 0 <= i < |t.order| ensures t.order[i] != c {
        assert t.order[i] in t.order;
      }
    }
  }

  /** A dict entry registers its work once it has a sub-category and counts all its sub-lists. */
  lemma {:induction false} CountGroupsEffect(t: Counters, w: string, c: string, groups: seq<(string, Links)>)
    requires Tidy(t)
    ensures var r := CountGroups(t, w, c, groups);
      && Tidy(r)
      && WorksOf(r, c) == WorksOf(t, c) + (if groups == [] then {} else {w})
      && LinksOf(r, c) == LinksOf(t, c) + GroupLinks(groups)
      && (forall d :: d != c ==> WorksOf(r, d) == WorksOf(t, d) && LinksOf(r, d) == LinksOf(t, d))
    decreases |groups|
  {
    if groups != [] {
      CountGroupsEffect(t, w, c, groups[..|groups| - 1]);
      CountEffect(CountGroups(t, w, c, groups[..|groups| - 1]), w, c, Size(groups[|groups| - 1].1));
    }
  }

  lemma CountEntryEffect(t: Counters, w: string, c: string, e: Entry)
    requires Tidy(t)
    ensures var r := CountEntry(t, w, c, e);
      && Tidy(r)
      && WorksOf(r, c) == WorksOf(t, c) + (if Registers(e) then {w} else {})
      && LinksOf(r, c) == LinksOf(t, c) + EntryLinks(e)
      && (forall d :: d != c ==> WorksOf(r, d) == WorksOf(t, d) && LinksOf(r, d) == LinksOf(t, d))
  {
    match e
    case Grouped(groups) => CountGroupsEffect(t, w, c, groups);
    case Flat(links) => CountEffect(t, w, c, |links|);
    case Scalar(_) =>
  }

  /** One work joins exactly the collections it lists and adds its links to each. */
  lemma {:induction false} CountWorkEffect(t: Counters, w: string, cols: Collections)
    requires Tidy(t)
    ensures var r := CountWork(t, w, cols);
      && Tidy(r)
      && forall c :: WorksOf(r, c) == WorksOf(t, c) + (if ListsWork(cols, c) then {w} else {})
                  && LinksOf(r, c) == LinksOf(t, c) + LinksIn(cols, c)
    decreases |cols|
  {
    if cols != [] {
      var init := cols[..|cols| - 1];
      var last := cols[|cols| - 1];
      CountWorkEffect(t, w, init);
      var m := CountWork(t, w, init);
      CountEntryEffect(m, w, last.0, last.1);
      forall c ensures ListsWork(cols, c) <==> ListsWork(init, c) || (last.0 == c && Registers(last.1)) {
        ListsWorkSnoc(cols, c);
      }
    }
  }

  lemma ListsWorkSnoc(cols: Collections, c: string)
    requires cols != []
    ensures var init, last := cols[..|cols| - 1], cols[|cols| - 1];
      ListsWork(cols, c) <==> ListsWork(init, c) || (last.0 == c && Registers(last.1))
  {
    var init := cols[..|cols| - 1];
    if ListsWork(cols, c) {
      var j :| 0 <= j < |cols| && cols[j].0 == c && Registers(cols[j].1);
      if j < |init| {
        assert init[j] == cols[j];
      }
    }
    if ListsWork(init, c) {
      var j :| 0 <= j < |init| && init[j].0 == c && Registers(init[j].1);
      assert cols[j] == init[j];
    }
  }

  /** The counters after the loops hold, per collection, the works listing it and all its links. */
  lemma {:induction false} CountTableEffect(table: OrderedTable)
    ensures var r := CountTable(NoCounts, table);
      && Tidy(r)
      && forall c :: WorksOf(r, c) == WorksListedIn(table, c) && LinksOf(r, c) == LinksListedIn(table, c)
    decreases |table|
  {
    if table != [] {
      var init := table[..|table| - 1];
      CountTableEffect(init);
      CountWorkEffect(CountTable(NoCounts, init), table[|table| - 1].0, table[|table| - 1].1);
    }
  }

  /** One collection's line of the summary. */
  datatype Summary = Summary(works: nat, etexts: nat)

  type SummaryItem = (string, Summary)

  /** Lines 70-76: `combined_summary`, in the order the collections were first counted. */
  function Combined(t: Counters): seq<SummaryItem> {
    seq(|t.order|, k requires 0 <= k < |t.order| =>
      (t.order[k], Summary(|WorksOf(t, t.order[k])|, LinksOf(t, t.order[k]))))
  }

  /** One step of Python's stable `sorted(..., reverse=True)` by `"works"`: `x` goes before the first item it does not trail. */
  function Insert(x: SummaryItem, s: seq<SummaryItem>): (r: seq<SummaryItem>)
    ensures multiset(r) == multiset(s) + multiset{x}
  {
    if s == [] || x.1.works >= s[0].1.works then [x] + s
    else
      assert s == [s[0]] + s[1..];
      [s[0]] + Insert(x, s[1..])
  }

  /** Lines 78-80: `sorted(items, key=works, reverse=True)`, which keeps tied items in order. */
  function SortByWorks(s: seq<SummaryItem>): (r: seq<SummaryItem>)
    ensures multiset(r) == multiset(s)
  {
    if s == [] then []
    else
      assert s == [s[0]] + s[1..];
      Insert(s[0], SortByWorks(s[1..]))
  }

  /** Ordered by number of works, largest first. */
  predicate ByWorksDescending(s: seq<SummaryItem>) {
    forall i, j :: 0 <= i < j < |s| ==> s[i].1.works >= s[j].1.works
  }

  /** The items with `k` works, in the order they appear. */
  function WithWorks(s: seq<SummaryItem>, k: nat): seq<SummaryItem> {
    if s == [] then [] else (if s[0].1.works == k then [s[0]] else []) + WithWorks(s[1..], k)
  }

  lemma {:induction false} InsertKeepsOrder(x: SummaryItem, s: seq<SummaryItem>)
    requires ByWorksDescending(s)
    ensures ByWorksDescending(Insert(x, s))
  {
    if s != [] && x.1.works < s[0].1.works {
      InsertKeepsOrder(x, s[1..]);
      var r := Insert(x, s[1..]);
      forall j | 0 <= j < |r| ensures s[0].1.works >= r[j].1.works {
        assert r[j] in multiset(r);
        if r[j] != x {
          assert r[j] in multiset(s[1..]);
          assert r[j] in s[1..];
        }
      }
    }
  }

  /** Inserting `x` leaves the order of the items of any one works count alone. */
  lemma {:induction false} InsertIsStable(x: SummaryItem, s: seq<SummaryItem>, k: nat)
    ensures WithWorks(Insert(x, s), k) == (if x.1.works == k then [x] else []) + WithWorks(s, k)
  {
    if s == [] || x.1.works >= s[0].1.works {
      WithWorksCons(x, s, k);
    } else {
      InsertIsStable(x, s[1..], k);
      WithWorksCons(s[0], Insert(x, s[1..]), k);
      WithWorksCons(s[0], s[1..], k);
      assert s == [s[0]] + s[1..];
    }
  }

  lemma WithWorksCons(a: SummaryItem, r: seq<SummaryItem>, k: nat)
    ensures WithWorks([a] + r, k) == (if a.1.works == k then [a] else []) + WithWorks(r, k)
  {
    assert ([a] + r)[1..] == r;
  }

  /** The sort orders by works and keeps the order of the items with equal works. */
  lemma {:induction false} SortByWorksMeaning(s: seq<SummaryItem>)
    ensures ByWorksDescending(SortByWorks(s))
    ensures forall k :: WithWorks(SortByWorks(s), k) == WithWorks(s, k)
  {
    if s != [] {
      SortByWorksMeaning(s[1..]);
      InsertKeepsOrder(s[0], SortByWorks(s[1..]));
      forall k ensures WithWorks(SortByWorks(s), k) == WithWorks(s, k) {
        InsertIsStable(s[0], SortByWorks(s[1..]), k);
      }
    }
  }

  /** `summarize_etext_links(etext_links)`, as a value. */
  function Summarized(table: OrderedTable): seq<SummaryItem> {
    SortByWorks(Combined(CountTable(NoCounts, table)))
  }

  /**
    Lines 53-82. The summary lists exactly the collections with at least one listed work, each
    once, with the number of distinct works listing it and the number of links it holds.
  */
  lemma SummaryContents(table: OrderedTable)
    ensures var r := Summarized(table);
      forall x :: x in r <==> (WorksListedIn(table, x.0) != {}
                               && x.1 == Summary(|WorksListedIn(table, x.0)|, LinksListedIn(table, x.0)))
  {
    var t := CountTable(NoCounts, table);
    CountTableEffect(table);
    CombinedContents(t);
    var r := Summarized(table);
    assert forall x :: x in r <==> x in multiset(Combined(t));
  }

  /** `combined_summary` has one item per counted collection, with its counts. */
  lemma CombinedContents(t: Counters)
    requires Tidy(t)
    ensures forall x :: x in Combined(t) <==> (WorksOf(t, x.0) != {}
                                               && x.1 == Summary(|WorksOf(t, x.0)|, LinksOf(t, x.0)))
  {
    var comb := Combined(t);
    forall x: SummaryItem | WorksOf(t, x.0) != {} && x.1 == Summary(|WorksOf(t, x.0)|, LinksOf(t, x.0))
      ensures x in comb
    {
      var k :| 0 <= k < |t.order| && t.order[k] == x.0;
      assert comb[k] == x;
    }
  }

  /** No collection appears twice. */
  predicate DistinctKeys(s: seq<SummaryItem>) {
    forall i, j :: 0 <= i < j < |s| ==> s[i].0 != s[j].0
  }

  lemma {:induction false} InsertKeepsKeysDistinct(x: SummaryItem, s: seq<SummaryItem>)
    requires DistinctKeys(s) && forall y :: y in s ==> y.0 != x.0
    ensures DistinctKeys(Insert(x, s))
  {
    if s == [] || x.1.works >= s[0].1.works {
      DistinctCons(x, s);
    } else {
      var rest := s[1..];
      assert DistinctKeys(rest) by {
        assert forall i :: 0 <= i < |rest| ==> rest[i] == s[i + 1];
      }
      InsertKeepsKeysDistinct(x, rest);
      var r := Insert(x, rest);
      forall j | 0 <= j < |r| ensures r[j].0 != s[0].0 {
        InsertMembers(x, rest, r[j]);
        if r[j] != x {
          var k :| 0 <= k < |rest| && rest[k] == r[j];
          assert s[k + 1] == r[j];
        }
      }
      DistinctCons(s[0], r);
    }
  }

  /** What `Insert` returns holds `x` and the items of `s`, and nothing else. */
  lemma InsertMembers(x: SummaryItem, s: seq<SummaryItem>, y: SummaryItem)
    ensures y in Insert(x, s) <==> y == x || y in s
  {
    assert y in Insert(x, s) <==> y in multiset(Insert(x, s));
    assert y in s <==> y in multiset(s);
  }

  lemma DistinctCons(a: SummaryItem, r: seq<SummaryItem>)
    requires DistinctKeys(r) && forall j :: 0 <= j < |r| ==> r[j].0 != a.0
    ensures DistinctKeys([a] + r)
  {
    var s := [a] + r;
    forall i, j | 0 <= i < j < |s| ensures s[i].0 != s[j].0 {
      assert s[j] == r[j - 1];
      if i > 0 {
        assert s[i] == r[i - 1];
      }
    }
  }

  lemma {:induction false} SortKeepsKeysDistinct(s: seq<SummaryItem>)
    requires DistinctKeys(s)
    ensures DistinctKeys(SortByWorks(s))
  {
    if s != [] {
      SortKeepsKeysDistinct(s[1..]);
      var sorted := SortByWorks(s[1..]);
      forall y | y in sorted ensures y.0 != s[0].0 {
        assert y in multiset(s[1..]);
        var k :| 0 <= k < |s| - 1 && s[1..][k] == y;
        assert s[k + 1] == y;
      }
      InsertKeepsKeysDistinct(s[0], sorted);
    }
  }

  /** No collection appears twice in the summary. */
  lemma SummaryKeysDistinct(table: OrderedTable)
    ensures DistinctKeys(Summarized(table))
  {
    var t := CountTable(NoCounts, table);
    CountTableEffect(table);
    SortKeepsKeysDistinct(Combined(t));
  }

  /**
    Lines 78-80. The summary is ordered by works, largest first, and collections with equal works
    keep the order in which they were first counted.
  */
  lemma SummaryOrder(table: OrderedTable)
    ensures ByWorksDescending(Summarized(table))
    ensures forall k :: WithWorks(Summarized(table), k) == WithWorks(Combined(CountTable(NoCounts, table)), k)
  {
    SortByWorksMeaning(Combined(CountTable(NoCounts, table)));
  }

  /** The first-counted order: every collection with a listed work, each once. */
  lemma CountedOrder(table: OrderedTable)
    ensures var order := CountTable(NoCounts, table).order;
      NoDup(order) && forall c :: c in order <==> WorksListedIn(table, c) != {}
  {
    CountTableEffect(table);
  }

  /** Lines 53-82: the two counters filled in nested loops, then combined and sorted. */
  method SummarizeEtextLinks(table: OrderedTable) returns (r: seq<SummaryItem>)
    ensures r == Summarized(table)
  {
    var t := NoCounts;
    var i := 0;
    while i < |table|
      invariant 0 <= i <= |table|
      invariant t == CountTable(NoCounts, table[..i])
    {
      var (w, cols) := table[i];
      t := CountWorkLinks(t, w, cols);
      assert table[..i + 1][..i] == table[..i];
      i := i + 1;
    }
    assert table[..i] == table;
    r := SortByWorks(Combined(t));
  }

  /** Lines 58-67: the loop over one work's collections. */
  method CountWorkLinks(t0: Counters, w: string, cols: Collections) returns (t: Counters)
    ensures t == CountWork(t0, w, cols)
  {
    t := t0;
    var j := 0;
    while j < |cols|
      invariant 0 <= j <= |cols|
      invariant t == CountWork(t0, w, cols[..j])
    {
      var (c, e) := cols[j];
      match e {
        case Grouped(groups) =>
          t := CountGroupLinks(t, w, c, groups);
        case Flat(links) =>
          t := Count(t, w, c, |links|);
        case Scalar(_) =>
      }
      assert cols[..j + 1][..j] == cols[..j];
      j := j + 1;
    }
    assert cols[..j] == cols;
  }

  /** Lines 60-62: the loop over the sub-lists of a dict entry. */
  method CountGroupLinks(t0: Counters, w: string, c: string, groups: seq<(string, Links)>) returns (t: Counters)
    ensures t == CountGroups(t0, w, c, groups)
  {
    t := t0;
    var g := 0;
    while g < |groups|
      invariant 0 <= g <= |groups|
      invariant t == CountGroups(t0, w, c, groups[..g])
    {
      t := Count(t, w, c, Size(groups[g].1));
      assert groups[..g + 1][..g] == groups[..g];
      g := g + 1;
    }
    assert groups[..g] == groups;
  }
}
