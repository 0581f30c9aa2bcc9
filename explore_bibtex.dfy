/**
 * The bibliography logic of `explore_bibtex.py`: turning parsed BibTeX entries into papers,
 * the criteria filters, sorting on a field with missing values last, collecting the keys cited by
 * `\cite{...}` in the manuscript sections, the column truncation of the papers table and the
 * citation statistics.
 *
 * Entries arrive as field maps (the BibTeX parser is not modelled); the manuscript files are read
 * through a parameter `read` that yields `None` for a file that does not exist.
 */
module Bibtex {
  import opened Wrappers
  import opened Strings
  import opened Paths

  // ================================================================ papers

  /** A parsed BibTeX entry: field name to field text; the citation key is the field `ID`. */
  type Entry = map<string, string>

  datatype Paper = Paper(
    key: string,
    title: string,
    authors: seq<string>,
    year: Option<int>,
    journal: string,
    citationCount: Option<int>,
    abstractText: string,
    doi: string,
    keywords: seq<string>,
    entry: Entry)

  /** `entry.get(field, default)`. */
  function Get(entry: Entry, field: string, default: string): string
  {
    if field in entry then entry[field] else default
  }

  function StripAll(xs: seq<string>): (ys: seq<string>)
    ensures |ys| == |xs| && forall i :: 0 <= i < |xs| ==> ys[i] == Strip(xs[i])
  {
    seq(|xs|, i requires 0 <= i < |xs| => Strip(xs[i]))
  }

  /** Stripping pieces that are already stripped changes nothing. */
  lemma StripAllFixed(xs: seq<string>)
    requires forall i :: 0 <= i < |xs| ==> Strip(xs[i]) == xs[i]
    ensures StripAll(xs) == xs
  {
  }

  /** A field read with `int(...)`: `None` when absent or not a decimal integer. */
  function IntField(entry: Entry, field: string): Option<int>
  {
    if field in entry then ParseInt(entry[field]) else None
  }

  /** The pieces of `field` split on `sep`, each stripped, or [] when the field is absent. */
  function ListField(entry: Entry, field: string, sep: string): seq<string>
    requires |sep| > 0
  {
    if field in entry then StripAll(Split(entry[field], sep)) else []
  }

  /** The characters `strip("{}")` removes from a title. */
  const Braces: set<char> := {'{', '}'}

  /** `title.strip("{}")`: drop braces from the front, then from the back. */
  function StripBraces(s: string): string
  {
    if s != [] && (s[0] == '{' || s[0] == '}') then StripBraces(s[1..])
    else if s != [] && (s[|s| - 1] == '{' || s[|s| - 1] == '}') then StripBraces(s[..|s| - 1])
    else s
  }

  /** The brace trimmer is `strip` with the brace characters. */
  lemma {:induction false} StripBracesIsStrip(s: string)
    ensures StripBraces(s) == StripChars(s, Braces)
  {
    if s != [] && (s[0] == '{' || s[0] == '}') {
      StripBracesIsStrip(s[1..]);
      StripCharsDropFirst(s, Braces);
    } else if s != [] && (s[|s| - 1] == '{' || s[|s| - 1] == '}') {
      StripBracesIsStrip(s[..|s| - 1]);
      StripCharsDropLast(s, Braces);
    } else {
      StripCharsUnchanged(s, Braces);
    }
  }

  /** One entry of `Papers.from_bibtex`. */
  function ParseEntry(entry: Entry): Paper
  {
    Paper(
      Get(entry, "ID", ""),
      StripBraces(Get(entry, "title", "")),
      ListField(entry, "author", " and "),
      IntField(entry, "year"),
      Get(entry, "journal", ""),
      IntField(entry, "citation_count"),
      Get(entry, "abstract", ""),
      Get(entry, "doi", ""),
      ListField(entry, "keywords", ","),
      entry)
  }

  /**
   * The shape of every parsed paper: absent fields take their defaults, a year or count that does
   * not parse is None, every author and keyword is stripped, and the title neither starts nor ends
   * with a brace.
   */
  lemma ParseEntryShape(entry: Entry)
    ensures var p := ParseEntry(entry);
      ("author" !in entry ==> p.authors == []) && ("keywords" !in entry ==> p.keywords == [])
      && ("year" !in entry ==> p.year.None?) && ("citation_count" !in entry ==> p.citationCount.None?)
      && ("year" in entry && ParseInt(entry["year"]).None? ==> p.year.None?)
      && ("citation_count" in entry && ParseInt(entry["citation_count"]).None? ==> p.citationCount.None?)
      && ("ID" !in entry ==> p.key == "") && ("journal" !in entry ==> p.journal == "")
      && (forall i :: 0 <= i < |p.authors| ==> Strip(p.authors[i]) == p.authors[i])
      && (forall i :: 0 <= i < |p.keywords| ==> Strip(p.keywords[i]) == p.keywords[i])
      && (p.title == [] || (p.title[0] !in Braces && p.title[|p.title| - 1] !in Braces))
  {
    ListFieldStripped(entry, "author", " and ");
    ListFieldStripped(entry, "keywords", ",");
    TitleTrimmed(Get(entry, "title", ""));
  }

  /** Every piece of a list field is already stripped. */
  lemma ListFieldStripped(entry: Entry, field: string, sep: string)
    requires |sep| > 0
    ensures var xs := ListField(entry, field, sep); forall i :: 0 <= i < |xs| ==> Strip(xs[i]) == xs[i]
  {
    if field in entry {
      var pieces := Split(entry[field], sep);
      var xs := StripAll(pieces);
      forall i | 0 <= i < |xs| ensures Strip(xs[i]) == xs[i] {
        StripCharsEnds(pieces[i], Whitespace);
        StripCharsUnchanged(xs[i], Whitespace);
      }
    }
  }

  /** A trimmed title neither starts nor ends with a brace. */
  lemma TitleTrimmed(s: string)
    ensures var t := StripBraces(s); t == [] || (t[0] !in Braces && t[|t| - 1] !in Braces)
  {
    StripBracesIsStrip(s);
    StripCharsEnds(s, Braces);
  }

  /** The number fields read back what was written: a year or count written in decimal parses to itself. */
  lemma ParseEntryNumbers(entry: Entry, year: int, count: int)
    requires "year" in entry && entry["year"] == ShowInt(year)
    requires "citation_count" in entry && entry["citation_count"] == ShowInt(count)
    ensures ParseEntry(entry).year == Some(year) && ParseEntry(entry).citationCount == Some(count)
  {
    ParseShowInt(year);
    ParseShowInt(count);
  }

  /** An author name that survives being joined with ` and ` and split again. */
  predicate PlainName(n: string)
  {
    Strip(n) == n && !Contains(n, " and ") && !EndsWith(n, " and")
  }

  /** A plain name followed by the start of ` and ` cannot hold ` and ` anywhere. */
  lemma PlainNameSeparable(n: string)
    requires PlainName(n)
    ensures Separable(n, " and ")
  {
    var w := n + " and";
    assert " and "[..4] == " and";
    forall i | 0 <= i <= |w| ensures !OccursAt(w, " and ", i) {
      PlainNameNoSeparatorAt(n, i);
    }
  }

  /** No occurrence of ` and ` starts at position `i` of a plain name followed by ` and`. */
  lemma PlainNameNoSeparatorAt(n: string, i: int)
    requires PlainName(n) && 0 <= i
    ensures !OccursAt(n + " and", " and ", i)
  {
    var w := n + " and";
    var sep := " and ";
    StripCharsEnds(n, Whitespace);
    assert w[..|n|] == n;
    if i + 5 <= |n| {
      assert w[i..i + 5] == w[..|n|][i..i + 5];
      assert !OccursAt(n, sep, i);
    } else if i == |n| - 1 {
      assert w[i] == n[|n| - 1];
      assert n[|n| - 1] !in Whitespace;
    } else if i == |n| - 2 {
      assert w[|n|] == ' ' && sep[2] == 'n';
      assert i + 5 <= |w| ==> w[i..i + 5][2] == w[|n|];
    } else if i == |n| - 3 {
      assert w[|n|] == ' ' && sep[3] == 'd';
      assert i + 5 <= |w| ==> w[i..i + 5][3] == w[|n|];
    } else if i == |n| - 4 {
      assert w[i..i + 4] == n[i..];
      assert w[i..i + 5][..4] == w[i..i + 4];
    }
  }

  /** Authors round trip: names joined with ` and ` parse back to the same names. */
  lemma ParseEntryAuthors(entry: Entry, names: seq<string>)
    requires |names| >= 1 && forall i :: 0 <= i < |names| ==> PlainName(names[i])
    requires "author" in entry && entry["author"] == Join(names, " and ")
    ensures ParseEntry(entry).authors == names
  {
    forall k | 0 <= k < |names| - 1 ensures Separable(names[k], " and ") {
      PlainNameSeparable(names[k]);
    }
    SplitJoin(names, " and ");
    StripAllFixed(names);
  }

  /** A string holds the one-character string `[c]` exactly when it holds `c`. */
  lemma ContainsChar(s: string, c: char)
    ensures Contains(s, [c]) <==> c in s
  {
    if c in s {
      var i :| 0 <= i < |s| && s[i] == c;
      assert OccursAt(s, [c], i);
    }
    if Contains(s, [c]) {
      var i :| 0 <= i <= |s| && OccursAt(s, [c], i);
      assert s[i..i + 1][0] == s[i];
    }
  }

  /** A piece without a comma is separable by `,`. */
  lemma CommaFree(k: string)
    requires ',' !in k
    ensures !Contains(k, ",") && Separable(k, ",")
  {
    ContainsChar(k, ',');
    assert k + ","[..0] == k;
  }

  /** Keywords round trip: stripped keywords without commas, joined with `,`, parse back to themselves. */
  lemma ParseEntryKeywords(entry: Entry, kws: seq<string>)
    requires |kws| >= 1 && forall i :: 0 <= i < |kws| ==> Strip(kws[i]) == kws[i] && ',' !in kws[i]
    requires "keywords" in entry && entry["keywords"] == Join(kws, ",")
    ensures ParseEntry(entry).keywords == kws
  {
    forall k | 0 <= k < |kws| ensures !Contains(kws[k], ",") && Separable(kws[k], ",") {
      CommaFree(kws[k]);
    }
    SplitJoin(kws, ",");
    StripAllFixed(kws);
  }

  /** The papers of a list of entries, one per entry in entry order. */
  function ParseAll(entries: seq<Entry>): (ps: seq<Paper>)
    ensures |ps| == |entries|
    ensures forall i :: 0 <= i < |entries| ==> ps[i] == ParseEntry(entries[i])
  {
    if entries == [] then [] else ParseAll(entries[..|entries| - 1]) + [ParseEntry(entries[|entries| - 1])]
  }

  /** `Papers.from_bibtex`: one paper per entry, in entry order. */
  method FromBibtex(entries: seq<Entry>) returns (papers: seq<Paper>)
    ensures papers == ParseAll(entries)
  {
    papers := [];
    for i := 0 to |entries|
      invariant papers == ParseAll(entries[..i])
    {
      assert entries[..i + 1][..i] == entries[..i];
      papers := papers + [ParseEntry(entries[i])];
    }
    assert entries[..|entries|] == entries;
  }

  // ================================================================ filter

  /** `[p for p in ps if f(p)]`. */
  function Keep(ps: seq<Paper>, f: Paper -> bool): (r: seq<Paper>)
    ensures |r| <= |ps|
    ensures forall p :: p in r <==> p in ps && f(p)
  {
    if ps == [] then []
    else Keep(ps[..|ps| - 1], f) + (if f(ps[|ps| - 1]) then [ps[|ps| - 1]] else [])
  }

  /** `sub` is `s` with some elements left out, the others in their order. */
  predicate IsSubsequence(sub: seq<Paper>, s: seq<Paper>)
    decreases |s|
  {
    sub == []
    || (s != []
        && ((sub[|sub| - 1] == s[|s| - 1] && IsSubsequence(sub[..|sub| - 1], s[..|s| - 1]))
            || IsSubsequence(sub, s[..|s| - 1])))
  }

  /** A comprehension filter keeps an order-preserving subsequence. */
  lemma {:induction false} KeepSubsequence(ps: seq<Paper>, f: Paper -> bool)
    ensures IsSubsequence(Keep(ps, f), ps)
  {
    if ps != [] {
      var init := ps[..|ps| - 1];
      KeepSubsequence(init, f);
      if f(ps[|ps| - 1]) {
        var r := Keep(ps, f);
        assert r[..|r| - 1] == Keep(init, f);
      } else {
        assert Keep(ps, f) == Keep(init, f);
      }
    }
  }

  /** Filtering twice is filtering once on both conditions. */
  lemma {:induction false} KeepKeep(ps: seq<Paper>, f: Paper -> bool, g: Paper -> bool, h: Paper -> bool)
    requires forall p :: h(p) == (f(p) && g(p))
    ensures Keep(Keep(ps, f), g) == Keep(ps, h)
  {
    if ps != [] {
      var init, last := ps[..|ps| - 1], ps[|ps| - 1];
      KeepKeep(init, f, g, h);
      var once := Keep(init, f) + (if f(last) then [last] else []);
      assert Keep(ps, f) == once;
      if f(last) {
        assert once[..|once| - 1] == Keep(init, f);
      } else {
        assert once == Keep(init, f);
      }
    }
  }

  /** The keyword criteria of `Papers.filter`; a string criterion is "" when not given. */
  datatype Criteria = Criteria(
    minCitations: Option<int>,
    maxCitations: Option<int>,
    yearMin: Option<int>,
    yearMax: Option<int>,
    keyword: string,
    journal: string,
    author: string)

  /** A present, non-zero value (Python truthiness) within the bound. */
  predicate AtLeast(v: Option<int>, bound: int)
  {
    v.Some? && v.value != 0 && v.value >= bound
  }

  predicate AtMost(v: Option<int>, bound: int)
  {
    v.Some? && v.value != 0 && v.value <= bound
  }

  /** The keyword test: in the lowercased title, abstract or some keyword, each only when non-empty. */
  predicate KeywordMatch(p: Paper, kw: string)
  {
    (p.title != "" && Contains(Lower(p.title), kw))
    || (p.abstractText != "" && Contains(Lower(p.abstractText), kw))
    || exists i :: 0 <= i < |p.keywords| && Contains(Lower(p.keywords[i]), kw)
  }

  predicate JournalMatch(p: Paper, j: string)
  {
    p.journal != "" && Contains(Lower(p.journal), j)
  }

  predicate AuthorMatch(p: Paper, a: string)
  {
    exists i :: 0 <= i < |p.authors| && Contains(Lower(p.authors[i]), a)
  }

  /** Whether pass `i` of the keyword filters is switched on by the criteria. */
  predicate Enabled(c: Criteria, i: nat)
  {
    match i
    case 0 => c.minCitations.Some?
    case 1 => c.maxCitations.Some?
    case 2 => c.yearMin.Some?
    case 3 => c.yearMax.Some?
    case 4 => c.keyword != ""
    case 5 => c.journal != ""
    case _ => c.author != ""
  }

  /** The test of pass `i`, which a paper passes trivially when the pass is off. */
  predicate Clause(c: Criteria, p: Paper, i: nat)
  {
    Enabled(c, i) ==>
      match i
      case 0 => AtLeast(p.citationCount, c.minCitations.value)
      case 1 => AtMost(p.citationCount, c.maxCitations.value)
      case 2 => AtLeast(p.year, c.yearMin.value)
      case 3 => AtMost(p.year, c.yearMax.value)
      case 4 => KeywordMatch(p, Lower(c.keyword))
      case 5 => JournalMatch(p, Lower(c.journal))
      case _ => AuthorMatch(p, Lower(c.author))
  }

  /** The condition of the comprehension of pass `i`. */
  function ClauseTest(c: Criteria, i: nat): Paper -> bool
  {
    p => Clause(c, p, i)
  }

  /** One pass of the keyword filters: a comprehension when the pass is on, the input otherwise. */
  function Pass(ps: seq<Paper>, c: Criteria, i: nat): seq<Paper>
  {
    if Enabled(c, i) then Keep(ps, ClauseTest(c, i)) else ps
  }

  /** `Papers.filter(condition, **criteria)`: a given callable wins; otherwise the seven passes in order. */
  function Filter(ps: seq<Paper>, condition: Option<Paper -> bool>, c: Criteria): seq<Paper>
  {
    if condition.Some? then Keep(ps, condition.value)
    else Passes(ps, c, 7)
  }

  /** The passes `0 .. k - 1` applied in order: citations, years, keyword, journal, author. */
  function Passes(ps: seq<Paper>, c: Criteria, k: nat): seq<Paper>
  {
    if k == 0 then ps else Pass(Passes(ps, c, k - 1), c, k - 1)
  }

  /** A paper passes the first `k` passes. */
  predicate Stage(c: Criteria, p: Paper, k: nat)
  {
    forall i :: 0 <= i < k ==> Clause(c, p, i)
  }

  /** A paper the criteria admit: it passes all seven passes. */
  predicate Admits(c: Criteria, p: Paper)
  {
    Stage(c, p, 7)
  }

  /** The condition "passes the first `k` passes" as a comprehension condition. */
  function StageTest(c: Criteria, k: nat): Paper -> bool
  {
    p => Stage(c, p, k)
  }

  /** Pass `k` applied to the papers that passed the first `k` passes leaves those that pass `k + 1`. */
  lemma PassStage(ps: seq<Paper>, c: Criteria, k: nat)
    ensures Pass(Keep(ps, StageTest(c, k)), c, k) == Keep(ps, StageTest(c, k + 1))
  {
    var before := Keep(ps, StageTest(c, k));
    if Enabled(c, k) {
      KeepKeep(ps, StageTest(c, k), ClauseTest(c, k), StageTest(c, k + 1));
    } else {
      var yes := (p: Paper) => true;
      KeepKeep(ps, StageTest(c, k), yes, StageTest(c, k + 1));
      KeepAll(before, yes);
    }
  }

  /** A condition every element passes keeps everything. */
  lemma {:induction false} KeepAll(ps: seq<Paper>, f: Paper -> bool)
    requires forall p :: f(p)
    ensures Keep(ps, f) == ps
  {
    if ps != [] {
      var init, last := ps[..|ps| - 1], ps[|ps| - 1];
      KeepAll(init, f);
      assert f(last);
      assert Keep(ps, f) == init + [last];
      assert init + [last] == ps;
    }
  }

  /** Without a callable, the seven passes together are one comprehension over the admitted papers. */
  lemma FilterIsKeep(ps: seq<Paper>, c: Criteria)
    ensures Filter(ps, None, c) == Keep(ps, StageTest(c, 7))
  {
    PassesKeep(ps, c, 7);
  }

  /** The first `k` passes together keep the papers that pass each of them. */
  lemma {:induction false} PassesKeep(ps: seq<Paper>, c: Criteria, k: nat)
    ensures Passes(ps, c, k) == Keep(ps, StageTest(c, k))
  {
    if k == 0 {
      StageZero(ps, c);
    } else {
      PassesKeep(ps, c, k - 1);
      assert Passes(ps, c, k) == Pass(Keep(ps, StageTest(c, k - 1)), c, k - 1);
      PassStage(ps, c, k - 1);
    }
  }

  /** Before any pass every paper is kept. */
  lemma StageZero(ps: seq<Paper>, c: Criteria)
    ensures Keep(ps, StageTest(c, 0)) == ps
  {
    var f := StageTest(c, 0);
    forall p ensures f(p) {
      assert Stage(c, p, 0);
    }
    KeepAll(ps, f);
  }

  /** Every filter call returns an order-preserving subsequence of its input. */
  lemma FilterSubsequence(ps: seq<Paper>, condition: Option<Paper -> bool>, c: Criteria)
    ensures IsSubsequence(Filter(ps, condition, c), ps)
  {
    if condition.Some? {
      KeepSubsequence(ps, condition.value);
    } else {
      FilterIsKeep(ps, c);
      KeepSubsequence(ps, StageTest(c, 7));
    }
  }

  /** The papers kept without a callable are exactly those the criteria admit. */
  lemma FilterMembers(ps: seq<Paper>, c: Criteria, p: Paper)
    ensures p in Filter(ps, None, c) <==> p in ps && Admits(c, p)
  {
    FilterIsKeep(ps, c);
  }

  /** A callable condition takes precedence: the keyword criteria then make no difference. */
  lemma CallableWins(ps: seq<Paper>, f: Paper -> bool, c1: Criteria, c2: Criteria)
    ensures Filter(ps, Some(f), c1) == Filter(ps, Some(f), c2) == Keep(ps, f)
  {
  }

  /**
   * A citation or year bound drops every paper whose value is missing or 0, even when the bound
   * itself would admit 0.
   */
  lemma BoundsDropZero(ps: seq<Paper>, c: Criteria, p: Paper)
    requires p in Filter(ps, None, c)
    ensures (c.minCitations.Some? || c.maxCitations.Some?) ==> p.citationCount.Some? && p.citationCount.value != 0
    ensures (c.yearMin.Some? || c.yearMax.Some?) ==> p.year.Some? && p.year.value != 0
  {
    FilterMembers(ps, c, p);
    assert Clause(c, p, 0) && Clause(c, p, 1) && Clause(c, p, 2) && Clause(c, p, 3);
  }

  /** The keyword filter alone keeps a paper iff the lowercased keyword is in its title, abstract or a keyword. */
  lemma KeywordFilter(ps: seq<Paper>, keyword: string, p: Paper)
    requires keyword != ""
    ensures var c := Criteria(None, None, None, None, keyword, "", "");
      p in Filter(ps, None, c) <==> p in ps && KeywordMatch(p, Lower(keyword))
  {
    var c := Criteria(None, None, None, None, keyword, "", "");
    FilterMembers(ps, c, p);
    if KeywordMatch(p, Lower(keyword)) {
      forall i | 0 <= i < 7 ensures Clause(c, p, i) {
      }
    }
    assert Admits(c, p) ==> Clause(c, p, 4);
  }

  /** No criteria at all (in particular an empty keyword) filter nothing out. */
  lemma EmptyCriteria(ps: seq<Paper>)
    ensures Filter(ps, None, Criteria(None, None, None, None, "", "", "")) == ps
  {
    var c := Criteria(None, None, None, None, "", "", "");
    FilterIsKeep(ps, c);
    KeepAll(ps, StageTest(c, 7));
  }

  // ================================================================ sort

  /** A sort key: Python's `-inf` / `inf` for a missing value, an integer or a text. */
  datatype Key = NegInf | Num(n: int) | Str(s: string) | PosInf

  /** Python's code-point order on strings. */
  predicate LexLess(a: string, b: string)
  {
    if a == [] then b != []
    else if b == [] then false
    else if a[0] != b[0] then a[0] < b[0]
    else LexLess(a[1..], b[1..])
  }

  lemma {:induction false} LexLessIrreflexive(a: string)
    ensures !LexLess(a, a)
  {
    if a != [] {
      LexLessIrreflexive(a[1..]);
    }
  }

  lemma {:induction false} LexLessTransitive(a: string, b: string, c: string)
    requires LexLess(a, b) && LexLess(b, c)
    ensures LexLess(a, c)
  {
    if a != [] && b != [] && c != [] && a[0] == b[0] && b[0] == c[0] {
      LexLessTransitive(a[1..], b[1..], c[1..]);
    }
  }

  function Rank(k: Key): nat
  {
    match k
    case NegInf => 0
    case Num(_) => 1
    case Str(_) => 2
    case PosInf => 3
  }

  /**
   * `<` on keys. One sort only ever compares keys of one field, so numbers and texts never meet;
   * ranking them apart keeps the order strict.
   */
  predicate KeyLess(a: Key, b: Key)
  {
    Rank(a) < Rank(b)
    || (a.Num? && b.Num? && a.n < b.n)
    || (a.Str? && b.Str? && LexLess(a.s, b.s))
  }

  lemma KeyLessStrict(a: Key, b: Key, c: Key)
    ensures !KeyLess(a, a)
    ensures KeyLess(a, b) && KeyLess(b, c) ==> KeyLess(a, c)
  {
    if a.Str? {
      LexLessIrreflexive(a.s);
    }
    if KeyLess(a, b) && KeyLess(b, c) && a.Str? && b.Str? && c.Str? {
      LexLessTransitive(a.s, b.s, c.s);
    }
  }

  /** `a` goes strictly before `b`: smaller ascending, larger with `reverse`. */
  predicate Precedes(a: Key, b: Key, reverse: bool)
  {
    if reverse then KeyLess(b, a) else KeyLess(a, b)
  }

  /** Stable insertion: `x` goes before the first element it strictly precedes. */
  function InsertByKey(x: Paper, s: seq<Paper>, key: Paper -> Key, reverse: bool): (r: seq<Paper>)
    ensures multiset(r) == multiset(s) + multiset{x}
  {
    if s == [] then [x]
    else if Precedes(key(x), key(s[0]), reverse) then [x] + s
    else
      assert s == [s[0]] + s[1..];
      [s[0]] + InsertByKey(x, s[1..], key, reverse)
  }

  /** `sorted(ps, key=key, reverse=reverse)`: a stable sort. */
  function SortByKey(ps: seq<Paper>, key: Paper -> Key, reverse: bool): (r: seq<Paper>)
    ensures multiset(r) == multiset(ps)
  {
    if ps == [] then []
    else
      assert ps == ps[..|ps| - 1] + [ps[|ps| - 1]];
      InsertByKey(ps[|ps| - 1], SortByKey(ps[..|ps| - 1], key, reverse), key, reverse)
  }

  /** No element is strictly preceded by a later one. */
  predicate SortedBy(s: seq<Paper>, key: Paper -> Key, reverse: bool)
  {
    forall i, j :: 0 <= i < j < |s| ==> !Precedes(key(s[j]), key(s[i]), reverse)
  }

  lemma PrecedesStrict(a: Key, b: Key, c: Key, reverse: bool)
    ensures !Precedes(a, a, reverse)
    ensures Precedes(a, b, reverse) && Precedes(b, c, reverse) ==> Precedes(a, c, reverse)
  {
    KeyLessStrict(a, b, c);
    KeyLessStrict(c, b, a);
  }

  lemma {:induction false} InsertSorted(x: Paper, s: seq<Paper>, key: Paper -> Key, reverse: bool)
    requires SortedBy(s, key, reverse)
    ensures SortedBy(InsertByKey(x, s, key, reverse), key, reverse)
  {
    if s != [] {
      if Precedes(key(x), key(s[0]), reverse) {
        forall j | 0 <= j < |s| ensures !Precedes(key(s[j]), key(x), reverse) {
          PrecedesStrict(key(s[j]), key(x), key(s[0]), reverse);
          if j > 0 {
            assert !Precedes(key(s[j]), key(s[0]), reverse);
          } else {
            PrecedesStrict(key(s[0]), key(s[0]), key(s[0]), reverse);
          }
        }
        ConsSorted(x, s, key, reverse);
      } else {
        var t := s[1..];
        assert SortedBy(t, key, reverse);
        InsertSorted(x, t, key, reverse);
        var rest := InsertByKey(x, t, key, reverse);
        forall j | 0 <= j < |rest| ensures !Precedes(key(rest[j]), key(s[0]), reverse) {
          assert rest[j] in multiset(t) + multiset{x};
          if rest[j] != x {
            assert rest[j] in t;
            var k :| 0 <= k < |t| && t[k] == rest[j];
            assert s[k + 1] == t[k];
          }
        }
        ConsSorted(s[0], rest, key, reverse);
      }
    }
  }

  /** An element no later element strictly precedes can go in front of a sorted sequence. */
  lemma ConsSorted(y: Paper, s: seq<Paper>, key: Paper -> Key, reverse: bool)
    requires SortedBy(s, key, reverse)
    requires forall j :: 0 <= j < |s| ==> !Precedes(key(s[j]), key(y), reverse)
    ensures SortedBy([y] + s, key, reverse)
  {
    var r := [y] + s;
    forall i, j | 0 <= i < j < |r| ensures !Precedes(key(r[j]), key(r[i]), reverse) {
      assert r[j] == s[j - 1];
      if i > 0 {
        assert r[i] == s[i - 1];
      }
    }
  }

  /** The sort returns its input sorted by the key. */
  lemma {:induction false} SortByKeySorted(ps: seq<Paper>, key: Paper -> Key, reverse: bool)
    ensures SortedBy(SortByKey(ps, key, reverse), key, reverse)
  {
    if ps != [] {
      SortByKeySorted(ps[..|ps| - 1], key, reverse);
      InsertSorted(ps[|ps| - 1], SortByKey(ps[..|ps| - 1], key, reverse), key, reverse);
    }
  }

  /** The field names `sort_by` accepts as text (the impact factor is not modelled). */
  datatype Field = CitationCountField | YearField | TitleField

  function FieldValue(p: Paper, field: Field): Option<int>
  {
    match field
    case CitationCountField => p.citationCount
    case YearField => p.year
    case TitleField => Some(0)
  }

  /** `get_field`: the field's value, or `-inf` with `reverse` and `inf` without it when missing. */
  function FieldKey(field: Field, reverse: bool): Paper -> Key
  {
    (p: Paper) =>
      match field
      case TitleField => Str(p.title)
      case _ =>
        var v := FieldValue(p, field);
        if v.None? then (if reverse then NegInf else PosInf) else Num(v.value)
  }

  /** `sort_by(field_name, reverse)`. */
  function SortByField(ps: seq<Paper>, field: Field, reverse: bool): seq<Paper>
  {
    SortByKey(ps, FieldKey(field, reverse), reverse)
  }

  /**
   * Sorting on a field gives a permutation of the input, ordered on the field, in which papers
   * missing the field come after all others, ascending or descending.
   */
  lemma SortByFieldNoneLast(ps: seq<Paper>, field: Field, reverse: bool)
    ensures var r := SortByField(ps, field, reverse);
      multiset(r) == multiset(ps)
      && SortedBy(r, FieldKey(field, reverse), reverse)
      && forall i, j :: 0 <= i < j < |r| && FieldValue(r[i], field).None? ==> FieldValue(r[j], field).None?
  {
    var key := FieldKey(field, reverse);
    var r := SortByField(ps, field, reverse);
    SortByKeySorted(ps, key, reverse);
    forall i, j | 0 <= i < j < |r| && FieldValue(r[i], field).None? ensures FieldValue(r[j], field).None? {
      assert !Precedes(key(r[j]), key(r[i]), reverse);
    }
  }

  // ================================================================ cited keys

  const CiteOpen: string := @"\cite{"

  /** The index of the first `}` in `s`, or `|s|`. */
  function CloseIndex(s: string): (e: nat)
    ensures e <= |s| && (forall k :: 0 <= k < e ==> s[k] != '}') && (e < |s| ==> s[e] == '}')
  {
    if s == [] || s[0] == '}' then 0 else 1 + CloseIndex(s[1..])
  }

  /**
   * `re.findall(r"\\cite\{([^}]+)\}", s)`: scanning left to right, a `\cite{` followed by at
   * least one character other than `}` and then a `}` yields those characters, and the scan
   * resumes after the `}`.
   */
  function CiteArgs(s: string): seq<string>
    decreases |s|
  {
    if s == [] then []
    else if StartsWith(s, CiteOpen) && 0 < CloseIndex(s[6..]) < |s[6..]| then
      var body := s[6..];
      var e := CloseIndex(body);
      [body[..e]] + CiteArgs(body[e + 1..])
    else CiteArgs(s[1..])
  }

  /** Every extracted argument is non-empty, free of `}`, and occurs in the text as `\cite{arg}`. */
  lemma {:induction false} CiteArgsSound(s: string)
    ensures forall a :: a in CiteArgs(s) ==> a != "" && '}' !in a && Contains(s, CiteOpen + a + "}")
    decreases |s|
  {
    if s != [] {
      if StartsWith(s, CiteOpen) && 0 < CloseIndex(s[6..]) < |s[6..]| {
        var body := s[6..];
        var e := CloseIndex(body);
        var rest := body[e + 1..];
        CiteArgsSound(rest);
        var arg := body[..e];
        assert s[..6 + e + 1] == CiteOpen + arg + "}";
        assert OccursAt(s, CiteOpen + arg + "}", 0);
        forall a | a in CiteArgs(rest) ensures Contains(s, CiteOpen + a + "}") {
          var i :| 0 <= i <= |rest| && OccursAt(rest, CiteOpen + a + "}", i);
          ContainsShift(s, 7 + e, CiteOpen + a + "}", i);
        }
      } else {
        CiteArgsSound(s[1..]);
        forall a | a in CiteArgs(s[1..]) ensures Contains(s, CiteOpen + a + "}") {
          var i :| 0 <= i <= |s[1..]| && OccursAt(s[1..], CiteOpen + a + "}", i);
          ContainsShift(s, 1, CiteOpen + a + "}", i);
        }
      }
    }
  }

  /** An occurrence in a suffix is an occurrence in the whole. */
  lemma ContainsShift(s: string, d: nat, sub: string, i: int)
    requires d <= |s| && OccursAt(s[d..], sub, i)
    ensures Contains(s, sub)
  {
    assert s[d..][i..i + |sub|] == s[d + i..d + i + |sub|];
    assert OccursAt(s, sub, d + i);
  }

  /** A `\cite{arg}` at the front is extracted, and the scan continues after it. */
  lemma CiteArgsCons(arg: string, rest: string)
    requires arg != "" && '}' !in arg
    ensures CiteArgs(CiteOpen + arg + "}" + rest) == [arg] + CiteArgs(rest)
  {
    var s := CiteOpen + arg + "}" + rest;
    var body := s[6..];
    assert s[..6] == CiteOpen;
    assert body == arg + "}" + rest;
    assert body[|arg|] == '}';
    assert CloseIndex(body) == |arg|;
    assert body[..|arg|] == arg && body[|arg| + 1..] == rest;
  }

  /** Text without a backslash cites nothing. */
  lemma {:induction false} CiteArgsNoBackslash(s: string)
    requires '\\' !in s
    ensures CiteArgs(s) == []
    decreases |s|
  {
    if s != [] {
      assert s[0] in s;
      assert !StartsWith(s, CiteOpen) by {
        assert |s| < 6 || s[..6][0] == s[0];
      }
      assert forall k :: 0 <= k < |s[1..]| ==> s[1..][k] == s[k + 1];
      CiteArgsNoBackslash(s[1..]);
    }
  }

  /** The keys of one `\cite` argument: its comma-separated pieces, each stripped. */
  function ArgKeys(arg: string): set<string>
  {
    ImageSet(Split(arg, ","), Strip)
  }

  /** `{f(p) for p in pieces}`. */
  function ImageSet(pieces: seq<string>, f: string -> string): set<string>
  {
    if pieces == [] then {} else ImageSet(pieces[..|pieces| - 1], f) + {f(pieces[|pieces| - 1])}
  }

  /** The image of pieces that `f` leaves alone is the set of those pieces. */
  lemma {:induction false} ImageSetFixed(pieces: seq<string>, f: string -> string)
    requires forall i :: 0 <= i < |pieces| ==> f(pieces[i]) == pieces[i]
    ensures ImageSet(pieces, f) == set p | p in pieces
  {
    if pieces != [] {
      var init, last := pieces[..|pieces| - 1], pieces[|pieces| - 1];
      ImageSetFixed(init, f);
      assert pieces == init + [last];
    }
  }

  /** Stripped keys without commas, joined with `,`, give back the set of keys. */
  lemma ArgKeysJoin(keys: seq<string>)
    requires |keys| >= 1 && forall i :: 0 <= i < |keys| ==> Strip(keys[i]) == keys[i] && ',' !in keys[i]
    ensures ArgKeys(Join(keys, ",")) == set k | k in keys
  {
    forall i | 0 <= i < |keys| ensures !Contains(keys[i], ",") && Separable(keys[i], ",") {
      CommaFree(keys[i]);
    }
    SplitJoin(keys, ",");
    ImageSetFixed(keys, Strip);
  }

  /** The union of `g(x)` over the elements `x` of `xs`. */
  function UnionMap<T>(xs: seq<T>, g: T -> set<string>): set<string>
  {
    if xs == [] then {} else UnionMap(xs[..|xs| - 1], g) + g(xs[|xs| - 1])
  }

  /** A value is in the union iff it is in the set of some element. */
  lemma {:induction false} UnionMapMembers<T>(xs: seq<T>, g: T -> set<string>, k: string)
    ensures k in UnionMap(xs, g) <==> exists j :: 0 <= j < |xs| && k in g(xs[j])
  {
    if xs != [] {
      var init := xs[..|xs| - 1];
      UnionMapMembers(init, g, k);
      if k in UnionMap(init, g) {
        var j :| 0 <= j < |init| && k in g(init[j]);
        assert xs[j] == init[j];
      }
      if j :| 0 <= j < |xs| && k in g(xs[j]) {
        if j < |init| {
          assert init[j] == xs[j];
        }
      }
    }
  }

  /** The keys of a list of `\cite` arguments. */
  function ArgsKeys(args: seq<string>): set<string>
  {
    UnionMap(args, ArgKeys)
  }

  /** The manuscript sections `get_cited_papers` reads, in order. */
  const TexFiles: seq<string> := ["abstract.tex", "introduction.tex", "methods.tex", "results.tex", "discussion.tex"]

  /** The keys cited in the file `name` under `dir`; none when it does not exist. */
  function FileKeys(dir: string, read: string -> Option<string>): string -> set<string>
  {
    name =>
      var content := read(JoinPath(dir, name));
      if content.Some? then ArgsKeys(CiteArgs(content.value)) else {}
  }

  /** The keys cited in those of `files` under `dir` that exist. */
  function CitedIn(dir: string, read: string -> Option<string>, files: seq<string>): set<string>
  {
    UnionMap(files, FileKeys(dir, read))
  }

  /** Some `\cite` argument of `text` has a piece that strips to `k`. */
  predicate CitesKey(text: string, k: string)
  {
    exists j :: 0 <= j < |CiteArgs(text)| && k in ArgKeys(CiteArgs(text)[j])
  }

  /** The keys of one file are the keys its text cites. */
  lemma FileKeysMembers(dir: string, read: string -> Option<string>, name: string, k: string)
    ensures k in FileKeys(dir, read)(name) <==>
      read(JoinPath(dir, name)).Some? && CitesKey(read(JoinPath(dir, name)).value, k)
  {
    var content := read(JoinPath(dir, name));
    if content.Some? {
      UnionMapMembers(CiteArgs(content.value), ArgKeys, k);
    }
  }

  /** A key is cited iff some existing file has a `\cite` argument one of whose pieces strips to it. */
  lemma CitedInMembers(dir: string, read: string -> Option<string>, files: seq<string>, k: string)
    ensures k in CitedIn(dir, read, files) <==>
      exists f :: 0 <= f < |files| && read(JoinPath(dir, files[f])).Some?
        && CitesKey(read(JoinPath(dir, files[f])).value, k)
  {
    UnionMapMembers(files, FileKeys(dir, read), k);
    forall f | 0 <= f < |files| {
      FileKeysMembers(dir, read, files[f], k);
    }
  }

  /** Adds `g(x)` for each element `x` of `xs` to `acc`, one element at a time. */
  method AddUnion<T>(acc: set<string>, xs: seq<T>, g: T -> set<string>) returns (r: set<string>)
    ensures r == acc + UnionMap(xs, g)
  {
    r := acc;
    for m := 0 to |xs|
      invariant r == acc + UnionMap(xs[..m], g)
    {
      assert xs[..m + 1][..m] == xs[..m];
      r := r + g(xs[m]);
    }
    assert xs[..|xs|] == xs;
  }

  /** `get_cited_papers(manuscript_dir)`: the union of the keys cited in the five sections. */
  method GetCitedPapers(dir: string, read: string -> Option<string>) returns (cited: set<string>)
    ensures cited == CitedIn(dir, read, TexFiles)
  {
    var files := TexFiles;
    cited := {};
    for f := 0 to |files|
      invariant cited == UnionMap(files[..f], FileKeys(dir, read))
    {
      assert files[..f + 1][..f] == files[..f];
      var content := read(JoinPath(dir, files[f]));
      if content.Some? {
        cited := AddUnion(cited, CiteArgs(content.value), ArgKeys);
      }
    }
    assert files[..|files|] == files;
  }

  // ================================================================ papers table

  /** A column cut to `width`: unchanged when it fits, else its first `width - 2` characters and `..`. */
  function Cut(s: string, width: nat): (r: string)
    requires width >= 2
    ensures |r| <= width
    ensures |s| <= width ==> r == s
    ensures |s| > width ==> |r| == width && r[..width - 2] == s[..width - 2] && r[width - 2..] == ".."
  {
    if |s| > width then s[..width - 2] + ".." else s
  }

  /** An empty text shows as the placeholder. */
  function OrElse(s: string, placeholder: string): string
  {
    if s == "" then placeholder else s
  }

  /** A count or year shows as its digits, or `N/A` when missing or 0. */
  function ShowOptional(v: Option<int>): (r: string)
    ensures (v.Some? && v.value != 0) <==> r != "N/A"
  {
    if v.Some? && v.value != 0 then
      var r := ShowInt(v.value);
      assert r[0] != "N/A"[0];
      r
    else "N/A"
  }

  datatype TableRow = TableRow(mark: string, key: string, cites: string, year: string, journal: string, title: string)

  /** A paper's row: a check mark when cited, the key cut to 40, the journal to 25 and the title to 50. */
  function RowOf(p: Paper, cited: Option<set<string>>): TableRow
  {
    TableRow(
      if cited.Some? && p.key in cited.value then "\U{2713} " else "  ",
      Cut(p.key, 40),
      ShowOptional(p.citationCount),
      ShowOptional(p.year),
      OrElse(Cut(p.journal, 25), "N/A"),
      OrElse(Cut(p.title, 50), "No title"))
  }

  /** The column widths: key at most 40, journal at most 25, title at most 50 characters. */
  lemma RowWidths(p: Paper, cited: Option<set<string>>)
    ensures var r := RowOf(p, cited);
      |r.key| <= 40 && |r.journal| <= 25 && |r.title| <= 50
      && (|p.key| > 40 ==> r.key == p.key[..38] + "..")
      && (|p.journal| > 25 ==> r.journal == p.journal[..23] + "..")
      && (|p.title| > 50 ==> r.title == p.title[..48] + "..")
      && (p.journal == "" ==> r.journal == "N/A") && (p.title == "" ==> r.title == "No title")
  {
  }

  /** The number of rows printed: all, unless `max_papers` is a non-zero number, which caps them. */
  function ShownCount(n: nat, maxPapers: Option<int>): (k: nat)
    ensures k <= n
    ensures maxPapers.None? || maxPapers.value == 0 ==> k == n
    ensures maxPapers.Some? && maxPapers.value > 0 ==> k == if maxPapers.value < n then maxPapers.value else n
  {
    if maxPapers.Some? && maxPapers.value != 0 then
      if maxPapers.value < 0 then 0 else if maxPapers.value < n then maxPapers.value else n
    else n
  }

  /** The rows loop of `print_papers_table`, with its `count` and early `break`. */
  method PapersTable(papers: seq<Paper>, cited: Option<set<string>>, maxPapers: Option<int>)
    returns (rows: seq<TableRow>, count: nat)
    ensures count == |rows| == ShownCount(|papers|, maxPapers)
    ensures forall i :: 0 <= i < |rows| ==> rows[i] == RowOf(papers[i], cited)
  {
    rows := [];
    count := 0;
    if |papers| == 0 {
      return;
    }
    for i := 0 to |papers|
      invariant count == |rows| == i <= ShownCount(|papers|, maxPapers)
      invariant forall k :: 0 <= k < i ==> rows[k] == RowOf(papers[k], cited)
    {
      if maxPapers.Some? && maxPapers.value != 0 && count >= maxPapers.value {
        break;
      }
      rows := rows + [RowOf(papers[i], cited)];
      count := count + 1;
    }
  }

  // ================================================================ summary statistics

  /** `[p.citation_count for p in papers if p.citation_count]`. */
  function CitationValues(papers: seq<Paper>): (xs: seq<int>)
    ensures |xs| <= |papers|
    ensures forall x :: x in xs ==> x != 0
  {
    if papers == [] then []
    else
      var v := papers[|papers| - 1].citationCount;
      CitationValues(papers[..|papers| - 1]) + (if v.Some? && v.value != 0 then [v.value] else [])
  }

  /** Non-decreasing order. */
  predicate Ascending(xs: seq<int>)
  {
    forall i, j :: 0 <= i < j < |xs| ==> xs[i] <= xs[j]
  }

  function InsertInt(x: int, s: seq<int>): (r: seq<int>)
    requires Ascending(s)
    ensures |r| == |s| + 1
    ensures Ascending(r) && multiset(r) == multiset(s) + multiset{x}
  {
    if s == [] then [x]
    else if x <= s[0] then
      ConsAscending(x, s);
      [x] + s
    else
      AscendingTail(s);
      var rest := InsertInt(x, s[1..]);
      assert s == [s[0]] + s[1..];
      BoundedBelow(s[0], rest, s[1..], x);
      ConsAscending(s[0], rest);
      [s[0]] + rest
  }

  /** Dropping the first element keeps a sequence ascending; the first element bounds the rest. */
  lemma AscendingTail(s: seq<int>)
    requires Ascending(s) && s != []
    ensures Ascending(s[1..]) && forall k :: 0 <= k < |s[1..]| ==> s[0] <= s[1..][k]
  {
    forall i, j | 0 <= i < j < |s| - 1 ensures s[1..][i] <= s[1..][j] {
      assert s[1..][i] == s[i + 1] && s[1..][j] == s[j + 1];
    }
  }

  /** Prefixing an ascending sequence with a lower bound of its first element keeps it ascending. */
  lemma ConsAscending(m: int, t: seq<int>)
    requires Ascending(t) && (t == [] || m <= t[0])
    ensures Ascending([m] + t)
  {
    var r := [m] + t;
    forall i, j | 0 <= i < j < |r| ensures r[i] <= r[j] {
      assert r[j] == t[j - 1];
      if i > 0 {
        assert r[i] == t[i - 1];
      } else {
        assert t[0] <= t[j - 1] || j == 1;
      }
    }
  }

  /** A lower bound of `u` and of `x` bounds every element of a permutation of `u + [x]`. */
  lemma BoundedBelow(m: int, t: seq<int>, u: seq<int>, x: int)
    requires multiset(t) == multiset(u) + multiset{x}
    requires m <= x && forall k :: 0 <= k < |u| ==> m <= u[k]
    ensures forall j :: 0 <= j < |t| ==> m <= t[j]
  {
    forall j | 0 <= j < |t| ensures m <= t[j] {
      assert t[j] in multiset(t);
      if t[j] != x {
        assert t[j] in multiset(u);
      }
    }
  }

  /** `sorted(xs)`. */
  function SortInts(xs: seq<int>): (r: seq<int>)
    ensures |r| == |xs|
    ensures Ascending(r) && multiset(r) == multiset(xs)
  {
    if xs == [] then []
    else
      assert xs == xs[..|xs| - 1] + [xs[|xs| - 1]];
      InsertInt(xs[|xs| - 1], SortInts(xs[..|xs| - 1]))
  }

  /** `sorted(xs)[len(xs) // 2]`. */
  function UpperMedian(xs: seq<int>): int
    requires |xs| > 0
  {
    SortInts(xs)[|xs| / 2]
  }

  /** How many elements satisfy `x <= m` (or `x >= m` with `atLeast`). */
  function CountBound(xs: seq<int>, m: int, atLeast: bool): nat
  {
    if xs == [] then 0
    else
      var x := xs[|xs| - 1];
      CountBound(xs[..|xs| - 1], m, atLeast) + (if (if atLeast then x >= m else x <= m) then 1 else 0)
  }

  lemma {:induction false} CountBoundConcat(a: seq<int>, b: seq<int>, m: int, atLeast: bool)
    ensures CountBound(a + b, m, atLeast) == CountBound(a, m, atLeast) + CountBound(b, m, atLeast)
  {
    if b != [] {
      assert (a + b)[..|a + b| - 1] == a + b[..|b| - 1];
      CountBoundConcat(a, b[..|b| - 1], m, atLeast);
    } else {
      assert a + b == a;
    }
  }

  /** Counting depends only on the multiset of elements. */
  lemma {:induction false} CountBoundPermutation(a: seq<int>, b: seq<int>, m: int, atLeast: bool)
    requires multiset(a) == multiset(b)
    ensures CountBound(a, m, atLeast) == CountBound(b, m, atLeast)
    decreases |a|
  {
    if a == [] {
      assert |multiset(b)| == |b|;
    } else {
      var x := a[|a| - 1];
      var init := a[..|a| - 1];
      assert a == init + [x];
      assert multiset(init) == multiset(a) - multiset{x};
      assert x in multiset(b);
      var i :| 0 <= i < |b| && b[i] == x;
      var rest := b[..i] + b[i + 1..];
      RemoveAt(b, i);
      CountBoundPermutation(init, rest, m, atLeast);
      CountBoundConcat(init, [x], m, atLeast);
    }
  }

  /** Taking element `i` out of `b` takes one copy out of its multiset and its count from the bound count. */
  lemma RemoveAt(b: seq<int>, i: nat)
    requires i < |b|
    ensures multiset(b[..i] + b[i + 1..]) == multiset(b) - multiset{b[i]}
    ensures forall m, atLeast :: CountBound(b, m, atLeast) == CountBound(b[..i] + b[i + 1..], m, atLeast) + CountBound([b[i]], m, atLeast)
  {
    var x := b[i];
    assert b == b[..i] + [x] + b[i + 1..];
    assert multiset(b) == multiset(b[..i] + b[i + 1..]) + multiset{x};
    forall m, atLeast ensures CountBound(b, m, atLeast) == CountBound(b[..i] + b[i + 1..], m, atLeast) + CountBound([x], m, atLeast) {
      CountBoundConcat(b[..i] + [x], b[i + 1..], m, atLeast);
      CountBoundConcat(b[..i], [x], m, atLeast);
      CountBoundConcat(b[..i], b[i + 1..], m, atLeast);
    }
  }

  /** In an ascending sequence at least `k + 1` elements are at most `s[k]` and at least `|s| - k` are at least `s[k]`. */
  lemma CountAscending(s: seq<int>, k: nat)
    requires Ascending(s) && k < |s|
    ensures CountBound(s, s[k], false) >= k + 1
    ensures CountBound(s, s[k], true) >= |s| - k
  {
    CountAscendingBelow(s, k);
    CountAscendingAbove(s, k);
  }

  /** In ascending order, the first `k + 1` elements are at most the `k`-th. */
  lemma CountAscendingBelow(s: seq<int>, k: nat)
    requires Ascending(s) && k < |s|
    ensures CountBound(s, s[k], false) >= k + 1
  {
    var m := s[k];
    var lo, hi := s[..k + 1], s[k + 1..];
    assert s == lo + hi;
    forall i | 0 <= i < |lo| ensures lo[i] <= m {
      assert lo[i] == s[i];
    }
    CountBoundConcat(lo, hi, m, false);
    CountAllBound(lo, m, false);
  }

  /** In ascending order, the elements from the `k`-th on are at least the `k`-th. */
  lemma CountAscendingAbove(s: seq<int>, k: nat)
    requires Ascending(s) && k < |s|
    ensures CountBound(s, s[k], true) >= |s| - k
  {
    var m := s[k];
    var a, b := s[..k], s[k..];
    assert s == a + b;
    forall i | 0 <= i < |b| ensures b[i] >= m {
      assert b[i] == s[k + i];
    }
    CountBoundConcat(a, b, m, true);
    CountAllBound(b, m, true);
  }

  /** A sequence all of whose elements meet the bound counts all of them. */
  lemma {:induction false} CountAllBound(s: seq<int>, m: int, atLeast: bool)
    requires forall i :: 0 <= i < |s| ==> if atLeast then s[i] >= m else s[i] <= m
    ensures CountBound(s, m, atLeast) == |s|
  {
    if s != [] {
      CountAllBound(s[..|s| - 1], m, atLeast);
    }
  }

  /**
   * The upper median is an element of the list; more than half the elements are at most it and at
   * least half are at least it.
   */
  lemma UpperMedianSplits(xs: seq<int>)
    requires |xs| > 0
    ensures UpperMedian(xs) in xs
    ensures CountBound(xs, UpperMedian(xs), false) >= |xs| / 2 + 1
    ensures CountBound(xs, UpperMedian(xs), true) >= |xs| - |xs| / 2
  {
    var s := SortInts(xs);
    var m := s[|xs| / 2];
    assert |s| == |xs| by {
      assert |multiset(s)| == |multiset(xs)|;
    }
    assert m in multiset(s);
    CountAscending(s, |xs| / 2);
    CountBoundPermutation(s, xs, m, false);
    CountBoundPermutation(s, xs, m, true);
  }

  /** `min(xs)` and `max(xs)`. */
  function SeqMin(xs: seq<int>): (m: int)
    requires |xs| > 0
    ensures m in xs && forall x :: x in xs ==> m <= x
  {
    if |xs| == 1 then xs[0]
    else
      var r := SeqMin(xs[1..]);
      assert xs == [xs[0]] + xs[1..];
      if xs[0] < r then xs[0] else r
  }

  function SeqMax(xs: seq<int>): (m: int)
    requires |xs| > 0
    ensures m in xs && forall x :: x in xs ==> x <= m
  {
    if |xs| == 1 then xs[0]
    else
      var r := SeqMax(xs[1..]);
      assert xs == [xs[0]] + xs[1..];
      if xs[0] > r then xs[0] else r
  }

  /** The citation statistics printed: min, max and median of the non-zero counts, when there are any. */
  function CitationStats(papers: seq<Paper>): Option<(int, int, int)>
  {
    var xs := CitationValues(papers);
    if xs == [] then None else Some((SeqMin(xs), SeqMax(xs), UpperMedian(xs)))
  }

  /** The printed statistics are ordered: min <= median <= max, all of them counts of some paper. */
  lemma CitationStatsOrdered(papers: seq<Paper>)
    ensures var st := CitationStats(papers);
      (st.None? <==> CitationValues(papers) == [])
      && (st.Some? ==> (st.value.0 <= st.value.2 <= st.value.1
        && st.value.0 in CitationValues(papers) && st.value.1 in CitationValues(papers)))
  {
    var xs := CitationValues(papers);
    if xs != [] {
      UpperMedianSplits(xs);
    }
  }

  /** `len(papers.filter(lambda p: citation_count is not None and citation_count > 0))`. */
  function WithCitations(papers: seq<Paper>): nat
  {
    |Keep(papers, (p: Paper) => p.citationCount.Some? && p.citationCount.value > 0)|
  }

  /**
   * The two citation tallies differ only in negative counts: without them, the papers "with
   * citation count" are exactly those contributing to the statistics.
   */
  lemma {:induction false} WithCitationsAgree(papers: seq<Paper>)
    requires forall i :: 0 <= i < |papers| && papers[i].citationCount.Some? ==> papers[i].citationCount.value >= 0
    ensures WithCitations(papers) == |CitationValues(papers)|
  {
    if papers != [] {
      WithCitationsAgree(papers[..|papers| - 1]);
    }
  }
}
