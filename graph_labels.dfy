/**
  The computations inside the node context menu of `static/js/graph.js`: how an e-text link is
  labelled per collection, how a work's link table is laid out as menu entries, the node radius
  and where the menu is placed so it stays on screen. `decodeURIComponent` is a parameter.
*/
module GraphLabels {
  import opened Options
  import opened Text
  import opened EtextLinks

  // ---------------------------------------------------------------------------------------------
  // basename

  /** A JavaScript argument as `typeof` sees it: a string, or anything else. */
  datatype JsArg = JsString(s: string) | NonString

  /** The part of `s` after its last character from `seps`, all of `s` when it has none. */
  function AfterLast(s: string, seps: set<char>): (r: string)
    ensures |r| <= |s| && r == s[|s| - |r|..]
    ensures forall i :: 0 <= i < |r| ==> r[i] !in seps
    ensures |r| < |s| ==> s[|s| - |r| - 1] in seps
    decreases |s|
  {
    if s == [] || s[|s| - 1] in seps then []
    else
      var init := AfterLast(s[..|s| - 1], seps);
      assert s[..|s| - 1][|s| - 1 - |init|..] == s[|s| - 1 - |init|..|s| - 1];
      init + [s[|s| - 1]]
  }

  /** `url.split(/[/=]/).pop()`: the text after the last `/` or `=`. */
  function LastSegment(url: string): (r: string)
    ensures |r| <= |url| && r == url[|url| - |r|..] && '/' !in r && '=' !in r
    ensures |r| < |url| ==> url[|url| - |r| - 1] in {'/', '='}
  {
    AfterLast(url, {'/', '='})
  }

  /** `.replace(/\.[^.]+$/, '')`: a final `.` with at least one non-dot character after it goes. */
  function DropExtension(segment: string): (r: string)
    ensures |r| <= |segment| && r == segment[..|r|]
    ensures r != segment <==> segment != [] && segment[|segment| - 1] != '.' && '.' in segment
    ensures r != segment ==> |r| + 2 <= |segment| && segment[|r|] == '.' && '.' !in segment[|r| + 1..]
  {
    var ext := AfterLast(segment, {'.'});
    assert segment != [] && segment[|segment| - 1] != '.' ==> ext != [];
    if ext != [] && |ext| < |segment| then
      assert segment[|segment| - |ext|..] == ext;
      segment[..|segment| - |ext| - 1]
    else segment
  }

  /** Lines 323-326: `basename(url)`. */
  function Basename(url: JsArg): (r: string)
    ensures url.NonString? ==> r == ""
    ensures url.JsString? ==> '/' !in r && '=' !in r
  {
    match url
    case NonString => ""
    case JsString(s) =>
      var segment := LastSegment(s);
      var r := DropExtension(segment);
      assert forall i :: 0 <= i < |r| ==> r[i] == segment[i];
      r
  }

  /** The text after a final separator is what `AfterLast` finds. */
  lemma {:induction false} AfterLastOf(a: string, c: char, b: string, seps: set<char>)
    requires c in seps && forall i :: 0 <= i < |b| ==> b[i] !in seps
    ensures AfterLast(a + [c] + b, seps) == b
    decreases |b|
  {
    var s := a + [c] + b;
    if b == [] {
      assert s[|s| - 1] == c;
    } else {
      assert s[..|s| - 1] == a + [c] + b[..|b| - 1];
      AfterLastOf(a, c, b[..|b| - 1], seps);
      assert b == b[..|b| - 1] + [b[|b| - 1]];
    }
  }

  /** A string without separators is its own last piece. */
  lemma {:induction false} AfterLastNone(s: string, seps: set<char>)
    requires forall i :: 0 <= i < |s| ==> s[i] !in seps
    ensures AfterLast(s, seps) == s
    decreases |s|
  {
    if s != [] {
      AfterLastNone(s[..|s| - 1], seps);
      assert s == s[..|s| - 1] + [s[|s| - 1]];
    }
  }

  /** Dropping the extension of `name.ext` leaves `name`. */
  lemma DropExtensionOf(name: string, ext: string)
    requires ext != [] && forall i :: 0 <= i < |ext| ==> ext[i] != '.'
    ensures DropExtension(name + "." + ext) == name
  {
    assert name + "." + ext == name + ['.'] + ext;
    AfterLastOf(name, '.', ext, {'.'});
    assert (name + "." + ext)[..|name|] == name;
  }

  /** The last segment of `…/file` (or `…=file`) is `file`. */
  lemma LastSegmentOf(dir: string, sep: char, file: string)
    requires sep == '/' || sep == '='
    requires forall i :: 0 <= i < |file| ==> file[i] != '/' && file[i] != '='
    ensures LastSegment(dir + [sep] + file) == file
  {
    AfterLastOf(dir, sep, file, {'/', '='});
  }

  /** The basename of `…/name.ext` (or `…=name.ext`) is `name`. */
  lemma BasenameOfFile(dir: string, sep: char, name: string, ext: string)
    requires sep == '/' || sep == '='
    requires forall i :: 0 <= i < |name| ==> name[i] != '/' && name[i] != '='
    requires ext != [] && forall i :: 0 <= i < |ext| ==> ext[i] != '/' && ext[i] != '=' && ext[i] != '.'
    ensures Basename(JsString(dir + [sep] + (name + "." + ext))) == name
  {
    var file := name + "." + ext;
    forall i | 0 <= i < |file| ensures file[i] != '/' && file[i] != '=' {
      if i > |name| {
        assert file[i] == ext[i - |name| - 1];
      }
    }
    LastSegmentOf(dir, sep, file);
    DropExtensionOf(name, ext);
  }

  /** The basename of `…/name` with no dot in `name` is `name`. */
  lemma BasenameWithoutExtension(dir: string, sep: char, name: string)
    requires sep == '/' || sep == '='
    requires forall i :: 0 <= i < |name| ==> name[i] != '/' && name[i] != '=' && name[i] != '.'
    ensures Basename(JsString(dir + [sep] + name)) == name
  {
    LastSegmentOf(dir, sep, name);
    AfterLastNone(name, {'.'});
  }

  /** Only the last extension goes: `a.b.c` gives `a.b`, an instance of `BasenameOfBareFile`. */
  lemma BasenameKeepsInnerDots()
    ensures Basename(JsString("a.b.c")) == "a.b"
  {
    assert "a.b" + "." + "c" == "a.b.c";
    BasenameOfBareFile("a.b", "c");
  }

  /** A link with no `/` or `=` at all loses only its last extension, whatever dots come before. */
  lemma BasenameOfBareFile(name: string, ext: string)
    requires forall i :: 0 <= i < |name| ==> name[i] != '/' && name[i] != '='
    requires ext != [] && forall i :: 0 <= i < |ext| ==> ext[i] != '/' && ext[i] != '=' && ext[i] != '.'
    ensures Basename(JsString(name + "." + ext)) == name
  {
    var file := name + "." + ext;
    forall i | 0 <= i < |file| ensures file[i] != '/' && file[i] != '=' {
      if i > |name| {
        assert file[i] == ext[i - |name| - 1];
      }
    }
    AfterLastNone(file, {'/', '='});
    DropExtensionOf(name, ext);
  }

  /**
    A dot with nothing after it stays: `a.` gives `a.`, an instance of `DropExtensionOfDot` and of
    `DropExtension` removing something only when the segment does not end in a dot.
  */
  lemma BasenameKeepsFinalDot()
    ensures Basename(JsString("a.")) == "a."
  {
    AfterLastNone("a.", {'/', '='});
    DropExtensionOfDot("a.");
  }

  /** A segment ending in a dot has no extension to drop. */
  lemma DropExtensionOfDot(segment: string)
    requires segment != [] && segment[|segment| - 1] == '.'
    ensures DropExtension(segment) == segment
  {
  }

  /** A trailing `/` leaves nothing: `texts/` gives the empty string, `LastSegmentOf` with an empty file. */
  lemma BasenameOfDirectory()
    ensures Basename(JsString("texts/")) == ""
  {
    assert "texts/" == "texts" + ['/'] + "";
    LastSegmentOf("texts", '/', "");
  }

  // ---------------------------------------------------------------------------------------------
  // Regular expressions of the label extractors

  /** The character classes of the capture groups: `\d` and `[^&]`. */
  datatype CharClass = Digit | NotAmpersand

  predicate InClass(c: char, cls: CharClass) {
    match cls
    case Digit => '0' <= c <= '9'
    case NotAmpersand => c != '&'
  }

  /**
    The patterns the extractors search for: a literal followed by one or more characters of a
    class (`/IDTextDisplay=(\d+)/` and the like), and `/\/resources\/([^?#]+?)(\/)?$/`.
  */
  datatype Pattern = Prefixed(prefix: string, cls: CharClass) | ResourcesTail

  const Resources := "/resources/"

  /** The pattern matches when the search reaches index `k`. */
  predicate MatchesAt(s: string, k: nat, p: Pattern) {
    match p
    case Prefixed(prefix, cls) =>
      k + |prefix| < |s| && s[k..k + |prefix|] == prefix && InClass(s[k + |prefix|], cls)
    case ResourcesTail =>
      && k + |Resources| < |s| && s[k..k + |Resources|] == Resources
      && forall j :: k + |Resources| <= j < |s| ==> s[j] != '?' && s[j] != '#'
  }

  /** Where the leftmost match at or after `from` starts; `|s|` when there is none. */
  function FirstMatch(s: string, p: Pattern, from: nat): (k: nat)
    requires from <= |s|
    ensures from <= k <= |s|
    ensures k < |s| ==> MatchesAt(s, k, p)
    ensures forall j :: from <= j < k ==> !MatchesAt(s, j, p)
    decreases |s| - from
  {
    if from == |s| then |s|
    else if MatchesAt(s, from, p) then from
    else FirstMatch(s, p, from + 1)
  }

  /** The end of the run of `cls` characters that starts at `i`. */
  function RunEnd(s: string, i: nat, cls: CharClass): (e: nat)
    requires i <= |s|
    ensures i <= e <= |s|
    ensures forall j :: i <= j < e ==> InClass(s[j], cls)
    ensures e == |s| || !InClass(s[e], cls)
    decreases |s| - i
  {
    if i == |s| || !InClass(s[i], cls) then i else RunEnd(s, i + 1, cls)
  }

  /** `s.match(re)` and its first group: `None` when the pattern matches nowhere. */
  function Capture(s: string, p: Pattern): (r: Option<string>)
    ensures r.None? <==> forall k :: 0 <= k < |s| ==> !MatchesAt(s, k, p)
    ensures r.Some? ==> r.value != []
    ensures r.Some? && p.Prefixed? ==> forall j :: 0 <= j < |r.value| ==> InClass(r.value[j], p.cls)
    ensures r.Some? && p.ResourcesTail? ==> '?' !in r.value && '#' !in r.value
  {
    var k := FirstMatch(s, p, 0);
    if k == |s| then None
    else
      match p
      case Prefixed(prefix, cls) =>
        var start := k + |prefix|;
        Some(s[start..RunEnd(s, start, cls)])
      case ResourcesTail =>
        TailChars(s, k + |Resources|);
        Some(TailCapture(s[k + |Resources|..]))
  }

  /** The lazy group and the optional `/` of the UT Austin pattern: one trailing `/` is left out. */
  function TailCapture(rest: string): (r: string)
    requires rest != [] && '?' !in rest && '#' !in rest
    ensures r != [] && '?' !in r && '#' !in r
  {
    if |rest| >= 2 && rest[|rest| - 1] == '/' then rest[..|rest| - 1] else rest
  }

  lemma TailChars(s: string, i: nat)
    requires i < |s| && forall j :: i <= j < |s| ==> s[j] != '?' && s[j] != '#'
    ensures s[i..] != [] && '?' !in s[i..] && '#' !in s[i..]
  {
    assert forall j :: 0 <= j < |s[i..]| ==> s[i..][j] == s[i + j];
  }

  /** The leftmost match at or after `from` is the `k` with nothing before it. */
  lemma {:induction false} FirstMatchIs(s: string, p: Pattern, from: nat, k: nat)
    requires from <= k < |s| && MatchesAt(s, k, p)
    requires forall j :: from <= j < k ==> !MatchesAt(s, j, p)
    ensures FirstMatch(s, p, from) == k
    decreases k - from
  {
    if from < k {
      FirstMatchIs(s, p, from + 1, k);
    }
  }

  /** The run of `cls` characters from `i` ends at the first character outside the class. */
  lemma {:induction false} RunEndIs(s: string, i: nat, e: nat, cls: CharClass)
    requires i <= e <= |s| && forall j :: i <= j < e ==> InClass(s[j], cls)
    requires e == |s| || !InClass(s[e], cls)
    ensures RunEnd(s, i, cls) == e
    decreases e - i
  {
    if i < e {
      RunEndIs(s, i + 1, e, cls);
    }
  }

  /**
    A prefixed pattern captures the longest run of its class after its leftmost match: given that
    match at `k`, the run `v` after it and nothing of the class after the run, the capture is `v`.
  */
  lemma PrefixedCapture(s: string, prefix: string, cls: CharClass, k: nat, v: string)
    requires MatchesAt(s, k, Prefixed(prefix, cls))
    requires forall j :: 0 <= j < k ==> !MatchesAt(s, j, Prefixed(prefix, cls))
    requires k + |prefix| + |v| <= |s| && s[k + |prefix|..k + |prefix| + |v|] == v
    requires forall j :: 0 <= j < |v| ==> InClass(v[j], cls)
    requires k + |prefix| + |v| == |s| || !InClass(s[k + |prefix| + |v|], cls)
    ensures Capture(s, Prefixed(prefix, cls)) == Some(v)
  {
    var start := k + |prefix|;
    SliceInClass(s, start, v, cls);
    RunEndIs(s, start, start + |v|, cls);
    FirstMatchIs(s, Prefixed(prefix, cls), 0, k);
    CaptureAfter(s, prefix, cls, k);
  }

  lemma SliceInClass(s: string, start: nat, v: string, cls: CharClass)
    requires start + |v| <= |s| && s[start..start + |v|] == v
    requires forall j :: 0 <= j < |v| ==> InClass(v[j], cls)
    ensures forall j :: start <= j < start + |v| ==> InClass(s[j], cls)
  {
    forall j | start <= j < start + |v| ensures InClass(s[j], cls) {
      assert s[j] == s[start..start + |v|][j - start];
    }
  }

  lemma CaptureAfter(s: string, prefix: string, cls: CharClass, k: nat)
    requires FirstMatch(s, Prefixed(prefix, cls), 0) == k < |s|
    ensures k + |prefix| <= |s|
    ensures Capture(s, Prefixed(prefix, cls)) == Some(s[k + |prefix|..RunEnd(s, k + |prefix|, cls)])
  {
    assert MatchesAt(s, k, Prefixed(prefix, cls));
  }

  /**
    The UT Austin pattern captures what follows the leftmost `/resources/` whose remainder has no
    `?` or `#`, without one trailing `/` when something is left before it.
  */
  lemma ResourcesCapture(s: string, k: nat)
    requires MatchesAt(s, k, ResourcesTail)
    requires forall j :: 0 <= j < k ==> !MatchesAt(s, j, ResourcesTail)
    ensures var rest := s[k + |Resources|..];
      Capture(s, ResourcesTail) == Some(if |rest| >= 2 && rest[|rest| - 1] == '/' then rest[..|rest| - 1] else rest)
  {
    assert FirstMatch(s, ResourcesTail, 0) == k;
  }

  // ---------------------------------------------------------------------------------------------
  // LABEL_EXTRACTORS and getDisplayLabel

  const Gretil := "GRETIL"
  const Dcs := "DCS"
  const Sarit := "SARIT"
  const SanskritLibrary := "Sanskrit Library and TITUS"
  const Vatayana := "V\U{0101}t\U{0101}yana and Pram\U{0101}\U{1E47}a NLP"
  const Muktabodha := "Muktabodha KSTS"
  const Uta := "UTA Dharma\U{015B}\U{0101}stra"
  const Dipal := "DiPAL DCV"

  /** The literal of the DCS pattern `/IDTextDisplay=(\d+)/`. */
  const DcsId := "IDTextDisplay="

  /** The rules of `LABEL_EXTRACTORS`. */
  datatype Rule = BasenameRule | DcsRule | VatayanaRule | MuktabodhaRule | UtaRule | DipalRule

  /** Lines 254-320: `LABEL_EXTRACTORS`, the rule of each collection that has one. */
  const LabelExtractors: map<string, Rule> := map[
    Gretil := BasenameRule, Dcs := DcsRule, Sarit := BasenameRule, SanskritLibrary := BasenameRule,
    Vatayana := VatayanaRule, Muktabodha := MuktabodhaRule, Uta := UtaRule, Dipal := DipalRule]

  /** The capture if the pattern matches, else the fallback. */
  function CaptureOr(link: string, p: Pattern, fallback: string): string {
    match Capture(link, p)
    case Some(v) => v
    case None => fallback
  }

  /** Lines 260-268: the `IDTextDisplay` number of a DCS link, else its basename. */
  function DcsLabel(link: string): string {
    CaptureOr(link, Prefixed(DcsId, Digit), Basename(JsString(link)))
  }

  /** Lines 277-280: the decoded `text_abbrv` value, else the basename. */
  function VatayanaLabel(link: string, decode: string -> string): string {
    match Capture(link, Prefixed("text_abbrv=", NotAmpersand))
    case Some(v) => decode(v)
    case None => Basename(JsString(link))
  }

  /** Lines 283-286: the raw `miri_catalog_number` value, else the basename. */
  function MuktabodhaLabel(link: string): string {
    CaptureOr(link, Prefixed("miri_catalog_number=", NotAmpersand), Basename(JsString(link)))
  }

  /** Lines 290-305: Google Docs enumerated when there are several, then the decoded resource path, then the basename. */
  function UtaLabel(link: string, idx: nat, total: nat, decode: string -> string): string {
    if Contains(link, "docs.google.com/document") then
      (if total > 1 then "Google Doc " + NatToString(idx + 1) else "Google Doc")
    else
      match Capture(link, ResourcesTail)
      case Some(v) => decode(v)
      case None => Basename(JsString(link))
  }

  /** Lines 308-319: the `tra_id` number, else the `wor_id` number, else the basename. */
  function DipalLabel(link: string): string {
    CaptureOr(link, Prefixed("tra_id=", Digit),
      CaptureOr(link, Prefixed("wor_id=", Digit), Basename(JsString(link))))
  }

  /** Calling one rule with `(link, collection, idx, total)`. */
  function ApplyRule(rule: Rule, link: string, idx: nat, total: nat, decode: string -> string): string {
    match rule
    case BasenameRule => Basename(JsString(link))
    case DcsRule => DcsLabel(link)
    case VatayanaRule => VatayanaLabel(link, decode)
    case MuktabodhaRule => MuktabodhaLabel(link)
    case UtaRule => UtaLabel(link, idx, total, decode)
    case DipalRule => DipalLabel(link)
  }

  /** Lines 328-338: `getDisplayLabel(collection, link, idx, total)`. */
  function DisplayLabel(collection: string, link: string, idx: nat, total: nat, decode: string -> string): (r: string)
    ensures collection !in LabelExtractors ==> r == Basename(JsString(link))
  {
    if collection in LabelExtractors then ApplyRule(LabelExtractors[collection], link, idx, total, decode)
    else Basename(JsString(link))
  }

  /** The table gives each collection the rule written for it. */
  lemma ExtractorTable()
    ensures LabelExtractors.Keys == {Gretil, Dcs, Sarit, SanskritLibrary, Vatayana, Muktabodha, Uta, Dipal}
    ensures LabelExtractors[Gretil] == LabelExtractors[Sarit] == LabelExtractors[SanskritLibrary] == BasenameRule
    ensures LabelExtractors[Dcs] == DcsRule && LabelExtractors[Vatayana] == VatayanaRule
    ensures LabelExtractors[Muktabodha] == MuktabodhaRule && LabelExtractors[Uta] == UtaRule
    ensures LabelExtractors[Dipal] == DipalRule
  {
    assert |Gretil| == 6 && |Dcs| == 3 && |Sarit| == 5 && |SanskritLibrary| == 26;
    assert |Vatayana| == 24 && |Muktabodha| == 15 && |Uta| == 16 && |Dipal| == 9;
  }

  /** Each of the eight collections is labelled by its own rule; any other collection by `basename`. */
  lemma DisplayLabelByCollection(collection: string, link: string, idx: nat, total: nat, decode: string -> string)
    ensures DisplayLabel(collection, link, idx, total, decode) ==
      if collection == Dcs then DcsLabel(link)
      else if collection == Vatayana then VatayanaLabel(link, decode)
      else if collection == Muktabodha then MuktabodhaLabel(link)
      else if collection == Uta then UtaLabel(link, idx, total, decode)
      else if collection == Dipal then DipalLabel(link)
      else Basename(JsString(link))
  {
    ExtractorTable();
    if collection == Dcs || collection == Vatayana || collection == Muktabodha || collection == Uta || collection == Dipal {
    } else if collection in LabelExtractors {
      assert LabelExtractors[collection] == BasenameRule;
    }
  }

  /** A DCS link is labelled with the digits after its first `IDTextDisplay=` that has any, else by its basename. */
  lemma DcsLabelMeaning(link: string)
    ensures var p := Prefixed(DcsId, Digit);
      && ((forall k :: 0 <= k < |link| ==> !MatchesAt(link, k, p)) ==> DcsLabel(link) == Basename(JsString(link)))
      && (Capture(link, p).Some? ==> DcsLabel(link) == Capture(link, p).value && IsDigits(DcsLabel(link)))
  {
    DigitCapture(link, DcsId);
  }

  /** What a `(\d+)` group captures is a string of digits. */
  lemma DigitCapture(link: string, prefix: string)
    ensures Capture(link, Prefixed(prefix, Digit)).Some? ==> IsDigits(Capture(link, Prefixed(prefix, Digit)).value)
  {
    var c := Capture(link, Prefixed(prefix, Digit));
    if c.Some? {
      assert forall j :: 0 <= j < |c.value| ==> InClass(c.value[j], Digit);
    }
  }

  /** A DCS link that ends in `IDTextDisplay=` and digits, with no earlier `IDTextDisplay=`, is labelled with the digits. */
  lemma DcsLabelOf(site: string, digits: string)
    requires !Contains(site, DcsId) && IsDigits(digits)
    ensures DcsLabel(site + DcsId + digits) == digits
  {
    DcsIdLastUnique();
    LiteralThenRun(site, DcsId, digits, Digit);
  }

  /**
    After the first occurrence of a literal whose last character occurs nowhere else in it, a
    prefixed pattern captures the run of its class that ends the string.
  */
  lemma LiteralThenRun(a: string, p: string, v: string, cls: CharClass)
    requires !Contains(a, p) && p != [] && v != []
    requires forall q :: 0 <= q < |p| - 1 ==> p[q] != p[|p| - 1]
    requires forall j :: 0 <= j < |v| ==> InClass(v[j], cls)
    ensures Capture(a + p + v, Prefixed(p, cls)) == Some(v)
  {
    NoMatchInside(a, p, v, cls);
    LiteralThenRunSlices(a, p, v);
    PrefixedCapture(a + p + v, p, cls, |a|, v);
  }

  /** No match of the literal starts inside `a`. */
  lemma NoMatchInside(a: string, p: string, v: string, cls: CharClass)
    requires !Contains(a, p) && p != []
    requires forall q :: 0 <= q < |p| - 1 ==> p[q] != p[|p| - 1]
    ensures forall j :: 0 <= j < |a| ==> !MatchesAt(a + p + v, j, Prefixed(p, cls))
  {
    forall j | 0 <= j < |a| ensures !MatchesAt(a + p + v, j, Prefixed(p, cls)) {
      NoMatchBefore(a, p, v, cls, j);
    }
  }

  /** Where the literal and the run sit in `a + p + v`. */
  lemma LiteralThenRunSlices(a: string, p: string, v: string)
    requires v != []
    ensures var s := a + p + v;
      && |a| + |p| + |v| == |s| && s[|a|..|a| + |p|] == p
      && s[|a| + |p|..|a| + |p| + |v|] == v && s[|a| + |p|] == v[0]
  {
    var s := a + p + v;
    assert s[|a|..|a| + |p|] == p;
    assert s[|a| + |p|..|a| + |p| + |v|] == v;
  }

  /** The last character of `IDTextDisplay=` occurs nowhere else in it. */
  lemma DcsIdLastUnique()
    ensures forall q :: 0 <= q < |DcsId| - 1 ==> DcsId[q] != DcsId[|DcsId| - 1]
  {
  }

  /**
    A literal that does not occur in `a` and whose last character occurs nowhere else in it
    cannot be found starting inside `a`, even running on into the literal `a` is followed by.
  */
  lemma NoMatchBefore(a: string, p: string, b: string, cls: CharClass, j: nat)
    requires !Contains(a, p) && j < |a|
    requires p != [] && forall q :: 0 <= q < |p| - 1 ==> p[q] != p[|p| - 1]
    ensures !MatchesAt(a + p + b, j, Prefixed(p, cls))
  {
    var s := a + p + b;
    if MatchesAt(s, j, Prefixed(p, cls)) {
      if j + |p| <= |a| {
        assert a[j..j + |p|] == s[j..j + |p|];
        ContainsAt(a, p, j);
      }
      assert false;
    }
  }

  /** A Muktabodha link is labelled with the raw `miri_catalog_number` value, up to any `&`. */
  lemma MuktabodhaLabelMeaning(link: string)
    ensures var c := Capture(link, Prefixed("miri_catalog_number=", NotAmpersand));
      && (c.Some? ==> MuktabodhaLabel(link) == c.value && '&' !in c.value)
      && (c.None? ==> MuktabodhaLabel(link) == Basename(JsString(link)))
  {
  }

  /** A Vatayana link is labelled with the decoded `text_abbrv` value, taken up to any `&`. */
  lemma VatayanaLabelMeaning(link: string, decode: string -> string)
    ensures var c := Capture(link, Prefixed("text_abbrv=", NotAmpersand));
      && (c.Some? ==> VatayanaLabel(link, decode) == decode(c.value) && '&' !in c.value)
      && (c.None? ==> VatayanaLabel(link, decode) == Basename(JsString(link)))
  {
  }

  /** DiPAL prefers `tra_id`, then `wor_id`, each only when digits follow. */
  lemma DipalLabelMeaning(link: string)
    ensures var tra := Capture(link, Prefixed("tra_id=", Digit));
            var wor := Capture(link, Prefixed("wor_id=", Digit));
      && (tra.Some? ==> DipalLabel(link) == tra.value && IsDigits(tra.value))
      && (tra.None? && wor.Some? ==> DipalLabel(link) == wor.value && IsDigits(wor.value))
      && (tra.None? && wor.None? ==> DipalLabel(link) == Basename(JsString(link)))
  {
    DigitCapture(link, "tra_id=");
    DigitCapture(link, "wor_id=");
  }

  /** A Google Docs link of the UTA collection is `Google Doc` when alone, else numbered from 1. */
  lemma UtaGoogleDoc(link: string, idx: nat, total: nat, decode: string -> string)
    requires Contains(link, "docs.google.com/document")
    ensures total <= 1 ==> UtaLabel(link, idx, total, decode) == "Google Doc"
    ensures total > 1 ==> UtaLabel(link, idx, total, decode) == "Google Doc " + NatToString(idx + 1)
    ensures total > 1 ==> UtaLabel(link, idx, total, decode) != UtaLabel(link, idx + 1, total, decode)
  {
    if total > 1 {
      var a := NatToString(idx + 1);
      var b := NatToString(idx + 2);
      assert DigitsValue(a) != DigitsValue(b);
      assert ("Google Doc " + a)[11..] == a && ("Google Doc " + b)[11..] == b;
    }
  }

  // ---------------------------------------------------------------------------------------------
  // The e-text submenu

  /** One link of the menu: where it points and how it is labelled. */
  datatype MenuLink = MenuLink(href: string, title: string)

  /** One collection's submenu: its links, or one nested submenu per category. */
  datatype Submenu = LinkItems(links: seq<MenuLink>) | CategoryItems(categories: seq<(string, seq<MenuLink>)>)

  /** `Array.isArray(linkList) ? linkList : [linkList]`. */
  function SafeLinks(l: Links): seq<string> {
    match l
    case LinkList(items) => items
    case LinkText(text) => [text]
  }

  /** `safeLinks.map((link, idx) => ...)`: each link labelled with its index and the list's length. */
  function Labelled(collection: string, links: seq<string>, decode: string -> string): seq<MenuLink> {
    seq(|links|, i requires 0 <= i < |links| => MenuLink(links[i], DisplayLabel(collection, links[i], i, |links|, decode)))
  }

  /** Lines 345-370 for one collection: a category object, or a list with a lone value as a list of one. */
  function EntrySubmenu(collection: string, e: Entry, decode: string -> string): Submenu {
    match e
    case Grouped(groups) =>
      CategoryItems(seq(|groups|, j requires 0 <= j < |groups| =>
        (groups[j].0, Labelled(collection, SafeLinks(groups[j].1), decode))))
    case Flat(links) => LinkItems(Labelled(collection, links, decode))
    case Scalar(text) => LinkItems(Labelled(collection, [text], decode))
  }

  /** Lines 344-377: one submenu per collection of the work, in key order. */
  function EtextMenu(cols: Collections, decode: string -> string): seq<(string, Submenu)> {
    seq(|cols|, i requires 0 <= i < |cols| => (cols[i].0, EntrySubmenu(cols[i].0, cols[i].1, decode)))
  }

  /** The links of an entry as the menu lists them, lone values wrapped. */
  function EntryTargets(e: Entry): seq<string> {
    match e
    case Flat(links) => links
    case Scalar(text) => [text]
    case Grouped(groups) => GroupTargets(groups)
  }

  function GroupTargets(groups: seq<(string, Links)>): seq<string>
    decreases |groups|
  {
    if groups == [] then [] else SafeLinks(groups[0].1) + GroupTargets(groups[1..])
  }

  /** The hrefs of a submenu, category by category. */
  function Hrefs(m: Submenu): seq<string> {
    match m
    case LinkItems(links) => LinkHrefs(links)
    case CategoryItems(categories) => CategoryHrefs(categories)
  }

  function LinkHrefs(links: seq<MenuLink>): (r: seq<string>)
    ensures |r| == |links| && forall i :: 0 <= i < |links| ==> r[i] == links[i].href
  {
    if links == [] then [] else [links[0].href] + LinkHrefs(links[1..])
  }

  function CategoryHrefs(categories: seq<(string, seq<MenuLink>)>): seq<string>
    decreases |categories|
  {
    if categories == [] then [] else LinkHrefs(categories[0].1) + CategoryHrefs(categories[1..])
  }

  lemma LabelledHrefs(collection: string, links: seq<string>, decode: string -> string)
    ensures LinkHrefs(Labelled(collection, links, decode)) == links
  {
  }

  /** Categories whose links point where the groups' links do list the groups' targets. */
  lemma {:induction false} CategoryHrefsOf(cats: seq<(string, seq<MenuLink>)>, groups: seq<(string, Links)>)
    requires |cats| == |groups|
    requires forall j :: 0 <= j < |groups| ==> LinkHrefs(cats[j].1) == SafeLinks(groups[j].1)
    ensures CategoryHrefs(cats) == GroupTargets(groups)
    decreases |groups|
  {
    if groups != [] {
      CategoryHrefsOf(cats[1..], groups[1..]);
    }
  }

  /**
    The submenu lists every link of the entry once, in order: a lone value as a list of one and
    the categories of an object one after another, each under its own name.
  */
  lemma SubmenuKeepsLinks(collection: string, e: Entry, decode: string -> string)
    ensures Hrefs(EntrySubmenu(collection, e, decode)) == EntryTargets(e)
    ensures e.Grouped? ==> var m := EntrySubmenu(collection, e, decode);
      m.CategoryItems? && |m.categories| == |e.groups|
      && forall j :: 0 <= j < |e.groups| ==> m.categories[j].0 == e.groups[j].0
  {
    match e
    case Grouped(groups) =>
      var cats := EntrySubmenu(collection, e, decode).categories;
      forall j | 0 <= j < |groups| ensures LinkHrefs(cats[j].1) == SafeLinks(groups[j].1) {
        LabelledHrefs(collection, SafeLinks(groups[j].1), decode);
      }
      CategoryHrefsOf(cats, groups);
    case Flat(links) => LabelledHrefs(collection, links, decode);
    case Scalar(text) => LabelledHrefs(collection, [text], decode);
  }

  /** Each link is labelled with its index in its own list, from 0, and that list's length. */
  lemma SubmenuLabels(collection: string, e: Entry, decode: string -> string)
    ensures e.Flat? ==> var m := EntrySubmenu(collection, e, decode);
      forall i :: 0 <= i < |e.links| ==> m.links[i].title == DisplayLabel(collection, e.links[i], i, |e.links|, decode)
    ensures e.Scalar? ==>
      EntrySubmenu(collection, e, decode) == LinkItems([MenuLink(e.text, DisplayLabel(collection, e.text, 0, 1, decode))])
    ensures e.Grouped? ==> var m := EntrySubmenu(collection, e, decode);
      forall j, i :: 0 <= j < |e.groups| && 0 <= i < |SafeLinks(e.groups[j].1)| ==>
        var links := SafeLinks(e.groups[j].1);
        m.categories[j].1[i] == MenuLink(links[i], DisplayLabel(collection, links[i], i, |links|, decode))
  {
    match e
    case Flat(links) =>
    case Scalar(text) =>
      assert Labelled(collection, [text], decode) == [MenuLink(text, DisplayLabel(collection, text, 0, 1, decode))];
    case Grouped(groups) =>
      var m := EntrySubmenu(collection, e, decode);
      forall j | 0 <= j < |groups|
        ensures m.categories[j].1 == Labelled(collection, SafeLinks(groups[j].1), decode)
      {
      }
  }

  /** Lines 344-377: the `forEach` loops that build the e-text part of the menu. */
  method BuildEtextMenu(cols: Collections, decode: string -> string) returns (menu: seq<(string, Submenu)>)
    ensures menu == EtextMenu(cols, decode)
  {
    menu := [];
    var i := 0;
    while i < |cols|
      invariant 0 <= i <= |cols| && |menu| == i
      invariant forall k :: 0 <= k < i ==> menu[k] == (cols[k].0, EntrySubmenu(cols[k].0, cols[k].1, decode))
    {
      var (collection, links) := cols[i];
      var submenu;
      match links {
        case Grouped(groups) =>
          var categories := [];
          var j := 0;
          while j < |groups|
            invariant 0 <= j <= |groups| && |categories| == j
            invariant forall k :: 0 <= k < j ==>
              categories[k] == (groups[k].0, Labelled(collection, SafeLinks(groups[k].1), decode))
          {
            categories := categories + [(groups[j].0, Labelled(collection, SafeLinks(groups[j].1), decode))];
            j := j + 1;
          }
          assert categories == seq(|groups|, k requires 0 <= k < |groups| =>
            (groups[k].0, Labelled(collection, SafeLinks(groups[k].1), decode)));
          submenu := CategoryItems(categories);
        case Flat(items) =>
          submenu := LinkItems(Labelled(collection, items, decode));
        case Scalar(text) =>
          submenu := LinkItems(Labelled(collection, [text], decode));
      }
      assert submenu == EntrySubmenu(collection, links, decode);
      menu := menu + [(collection, submenu)];
      i := i + 1;
    }
    assert menu == EtextMenu(cols, decode);
  }

  // ---------------------------------------------------------------------------------------------
  // Node radius and menu placement

  /** Lines 159-163: a central node is drawn largest, then an excluded one, then the rest. */
  function NodeRadius(isCentral: bool, isExcluded: bool): (r: nat)
    ensures r == 17 <==> isCentral
    ensures r == 15 <==> !isCentral && isExcluded
    ensures r == 10 <==> !isCentral && !isExcluded
  {
    if isCentral then 17 else if isExcluded then 15 else 10
  }

  /** `Math.max(a, b)`. */
  function Max(a: real, b: real): real {
    if a >= b then a else b
  }

  /**
    Lines 434-445 for one axis: a menu at `pos` that would overflow the far edge of the viewport
    (less a 10px margin) moves to end at `pos`, but never starts nearer than 10px to the near edge.
  */
  function Flip(pos: real, size: real, scroll: real, viewport: real): (r: real)
    ensures pos + size <= scroll + viewport - 10.0 ==> r == pos
    ensures pos + size > scroll + viewport - 10.0 ==>
      r >= scroll + 10.0 && r >= pos - size && (r == scroll + 10.0 || r == pos - size)
  {
    if pos + size > scroll + viewport - 10.0 then Max(scroll + 10.0, pos - size) else pos
  }

  /** An unflipped menu fits, and a flipped one ends at the pointer unless the near margin stops it. */
  lemma FlipPlacement(pos: real, size: real, scroll: real, viewport: real)
    ensures var r := Flip(pos, size, scroll, viewport);
      && (r == pos ==> pos + size <= scroll + viewport - 10.0 || pos - size <= scroll + 10.0 || size == 0.0)
      && (pos + size > scroll + viewport - 10.0 && pos - size >= scroll + 10.0 ==> r + size == pos)
  {
  }

  /** Lines 430-445: `left` and `top` start at the pointer and are flipped axis by axis. */
  method PlaceMenu(pageX: real, pageY: real, width: real, height: real,
                   scrollX: real, scrollY: real, viewportWidth: real, viewportHeight: real)
    returns (left: real, top: real)
    ensures left == Flip(pageX, width, scrollX, viewportWidth)
    ensures top == Flip(pageY, height, scrollY, viewportHeight)
  {
    left := pageX;
    top := pageY;
    if left + width > scrollX + viewportWidth - 10.0 {
      left := Max(scrollX + 10.0, left - width);
    }
    if top + height > scrollY + viewportHeight - 10.0 {
      top := Max(scrollY + 10.0, top - height);
    }
  }
}
