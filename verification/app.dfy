/**
  A model of the analysis core of the library-database scraper in app.py:
  the script test `is_chinese` and the post-parse half of `analyze_html`,
  which keeps the anchor texts of a page whose length lies strictly between
  2 and 50, deduplicates them through a set and splits the distinct names
  into a Chinese list and an other (foreign-language) list.

  Characters are Unicode scalar values (Dafny's `char`), so `|t|` is the
  number of code points, as Python's `len` is, and a comparison of a
  character with U+4E00 is a comparison of code points.
 */
module App {

  // ---------------------------------------------------------------------
  // is_chinese
  // ---------------------------------------------------------------------

  /** First and last code point of the range `is_chinese` looks for:
      the CJK Unified Ideographs U+4E00..U+9FA5, both ends included. */
  const CjkFirst: int := 0x4E00
  const CjkLast: int := 0x9FA5

  /** One character lies in the CJK range. */
  predicate IsCjkIdeograph(c: char) {
    CjkFirst <= c as int <= CjkLast
  }

  /** The specification of `is_chinese`: some character of `s` is a CJK
      ideograph. */
  predicate HasCjkIdeograph(s: string) {
    exists i :: 0 <= i < |s| && IsCjkIdeograph(s[i])
  }

  /** `is_chinese`: scans the characters in order and returns true at the
      first one in the CJK range, false when the scan runs off the end. */
  method IsChinese(s: string) returns (found: bool)
    ensures found == HasCjkIdeograph(s)
  {
    for i := 0 to |s|
      invariant forall j :: 0 <= j < i ==> !IsCjkIdeograph(s[j])
    {
      if IsCjkIdeograph(s[i]) {
        return true;
      }
    }
    return false;
  }

  /** A string is Chinese exactly when one of its two parts is: the test
      looks for at least one ideograph and ignores everything else, so a
      mixed-script name counts as Chinese. */
  lemma {:induction false} HasCjkIdeographConcat(a: string, b: string)
    ensures HasCjkIdeograph(a + b) <==> HasCjkIdeograph(a) || HasCjkIdeograph(b)
  {
    var ab := a + b;
    if HasCjkIdeograph(a) {
      var i :| 0 <= i < |a| && IsCjkIdeograph(a[i]);
      assert ab[i] == a[i];
    }
    if HasCjkIdeograph(b) {
      var i :| 0 <= i < |b| && IsCjkIdeograph(b[i]);
      assert ab[|a| + i] == b[i];
    }
    if HasCjkIdeograph(ab) {
      var i :| 0 <= i < |ab| && IsCjkIdeograph(ab[i]);
      if i < |a| {
        assert a[i] == ab[i];
      } else {
        assert b[i - |a|] == ab[i];
      }
    }
  }

  /** The empty string, plain ASCII, a Chinese name and a mixed-script name. */
  lemma HasCjkIdeographExamples()
    ensures !HasCjkIdeograph("")
    ensures !HasCjkIdeograph("ABC")
    ensures HasCjkIdeograph("中国知网")
    ensures HasCjkIdeograph("Web 中文")
  {
    assert IsCjkIdeograph("中国知网"[0]);
    assert IsCjkIdeograph("Web 中文"[4]);
  }

  // ---------------------------------------------------------------------
  // analyze_html
  // ---------------------------------------------------------------------

  /** The page handed to `analyze_html`. `Missing` is a falsy argument
      (None or the empty string). `Document` is a non-empty page, given by
      the texts of its anchors in document order, as the HTML parser yields
      them once the header, footer, nav, script, style and noscript
      subtrees are removed and each text is stripped of surrounding
      whitespace. */
  datatype HtmlInput = Missing | Document(anchorTexts: seq<string>)

  /** Bounds of the length filter; both are exclusive. */
  const MinLengthExclusive: int := 2
  const MaxLengthExclusive: int := 50

  /** The filter `2 < len(text) < 50`. */
  predicate WithinLengthBounds(text: string) {
    MinLengthExclusive < |text| < MaxLengthExclusive
  }

  /** The anchor texts that pass the length filter, in document order and
      with repetitions: the specification of the accumulating loop. */
  function Candidates(anchors: seq<string>): (r: seq<string>) {
    if anchors == [] then []
    else
      var last := anchors[|anchors| - 1];
      Candidates(anchors[..|anchors| - 1]) + (if WithinLengthBounds(last) then [last] else [])
  }

  /** A candidate is exactly an anchor text within the length bounds. */
  lemma {:induction false} CandidatesMembership(anchors: seq<string>)
    ensures forall t :: t in Candidates(anchors) <==> t in anchors && WithinLengthBounds(t)
  {
    if anchors != [] {
      var init := anchors[..|anchors| - 1];
      CandidatesMembership(init);
      assert anchors == init + [anchors[|anchors| - 1]];
    }
  }

  /** The loop that builds `db_list`: every anchor text within the length
      bounds is appended, in document order. */
  method CollectCandidates(anchors: seq<string>) returns (dbList: seq<string>)
    ensures dbList == Candidates(anchors)
    ensures forall t :: t in dbList <==> t in anchors && WithinLengthBounds(t)
  {
    dbList := [];
    for i := 0 to |anchors|
      invariant dbList == Candidates(anchors[..i])
    {
      var text := anchors[i];
      assert anchors[..i + 1][..i] == anchors[..i];
      if WithinLengthBounds(text) {
        dbList := dbList + [text];
      }
    }
    assert anchors[..|anchors|] == anchors;
    CandidatesMembership(anchors);
  }

  /** The distinct elements of a list. */
  function Elements(xs: seq<string>): (r: set<string>) {
    set t | t in xs
  }

  /** No string occurs twice. */
  predicate NoDuplicates(xs: seq<string>) {
    forall i, j :: 0 <= i < j < |xs| ==> xs[i] != xs[j]
  }

  /** `list(set(db_list))`: the distinct strings of `dbList`, each once, in
      an order left to the set's iteration (nothing is promised about it). */
  method Deduplicate(dbList: seq<string>) returns (distinct: seq<string>)
    ensures NoDuplicates(distinct)
    ensures forall t :: t in distinct <==> t in dbList
    ensures |distinct| == |Elements(dbList)|
  {
    var pool := Elements(dbList);
    distinct := [];
    while pool != {}
      invariant NoDuplicates(distinct)
      invariant Elements(distinct) !! pool
      invariant Elements(distinct) + pool == Elements(dbList)
      invariant |distinct| + |pool| == |Elements(dbList)|
      decreases |pool|
    {
      var t :| t in pool;
      distinct := distinct + [t];
      pool := pool - {t};
    }
    assert forall t :: t in distinct <==> t in Elements(distinct);
  }

  /** The two list comprehensions over the deduplicated list:
      `Select(xs, true)` is `cn_dbs`, `Select(xs, false)` is `other_dbs`.
      Each keeps, in the order of `xs`, the strings whose script test
      comes out as `chinese`: a selected string is exactly a string of
      the list on the chosen side of the script test. */
  function Select(xs: seq<string>, chinese: bool): (r: seq<string>)
    ensures forall t :: t in r <==> t in xs && HasCjkIdeograph(t) == chinese
  {
    if xs == [] then []
    else
      assert xs == [xs[0]] + xs[1..];
      (if HasCjkIdeograph(xs[0]) == chinese then [xs[0]] else []) + Select(xs[1..], chinese)
  }

  /** Selecting from a list without duplicates gives a list without
      duplicates. */
  lemma {:induction false} SelectNoDuplicates(xs: seq<string>, chinese: bool)
    requires NoDuplicates(xs)
    ensures NoDuplicates(Select(xs, chinese))
  {
    if xs != [] {
      NoDuplicatesTail(xs);
      SelectNoDuplicates(xs[1..], chinese);
    }
  }

  /** The two comprehensions split the list: together they hold every
      element exactly as often as the list does. */
  lemma {:induction false} SelectPartitions(xs: seq<string>)
    ensures multiset(Select(xs, true)) + multiset(Select(xs, false)) == multiset(xs)
    ensures |Select(xs, true)| + |Select(xs, false)| == |xs|
  {
    if xs != [] {
      SelectPartitions(xs[1..]);
      assert xs == [xs[0]] + xs[1..];
    }
  }

  /** The distinct anchor texts within the length bounds: the names an
      analysis of `html` must report. */
  function QualifyingTexts(html: HtmlInput): (r: set<string>) {
    match html
    case Missing => {}
    case Document(anchors) => set t | t in anchors && WithinLengthBounds(t)
  }

  /** What `analyze_html` promises about its pair of lists for a page,
      whatever order the set iteration gives: neither list repeats a name,
      `cn` holds exactly the qualifying texts that contain a CJK ideograph
      and `other` exactly those that contain none. */
  ghost predicate IsAnalysisOf(html: HtmlInput, cn: seq<string>, other: seq<string>) {
    && NoDuplicates(cn)
    && NoDuplicates(other)
    && (forall t :: t in cn <==> t in QualifyingTexts(html) && HasCjkIdeograph(t))
    && (forall t :: t in other <==> t in QualifyingTexts(html) && !HasCjkIdeograph(t))
  }

  /** `analyze_html` after parsing: a missing page gives two empty lists at
      once; otherwise the anchor texts are filtered by length, deduplicated
      and split by script. */
  method AnalyzeHtml(html: HtmlInput) returns (cn: seq<string>, other: seq<string>)
    ensures html.Missing? ==> cn == [] && other == []
    ensures IsAnalysisOf(html, cn, other)
  {
    if html.Missing? {
      return [], [];
    }
    var dbList := CollectCandidates(html.anchorTexts);
    var distinct := Deduplicate(dbList);
    cn := Select(distinct, true);
    other := Select(distinct, false);
    SelectNoDuplicates(distinct, true);
    SelectNoDuplicates(distinct, false);
  }

  // ---------------------------------------------------------------------
  // Consequences of the analysis contract
  // ---------------------------------------------------------------------

  /** The two lists are disjoint, every name in them passed the length
      filter, and together they cover every qualifying text. */
  lemma AnalysisPartitions(html: HtmlInput, cn: seq<string>, other: seq<string>)
    requires IsAnalysisOf(html, cn, other)
    ensures Elements(cn) !! Elements(other)
    ensures Elements(cn) + Elements(other) == QualifyingTexts(html)
    ensures forall t :: t in cn ==> WithinLengthBounds(t) && HasCjkIdeograph(t)
    ensures forall t :: t in other ==> WithinLengthBounds(t) && !HasCjkIdeograph(t)
    ensures forall t :: t in cn || t in other ==> html.Document? && t in html.anchorTexts
  {
  }

  /** The head of a duplicate-free list is not repeated in its tail, and
      the tail is duplicate-free. */
  lemma NoDuplicatesTail(xs: seq<string>)
    requires xs != [] && NoDuplicates(xs)
    ensures xs[0] !in xs[1..]
    ensures NoDuplicates(xs[1..])
  {
  }

  /** A list without duplicates has as many elements as distinct ones. */
  lemma {:induction false} NoDuplicatesCardinality(xs: seq<string>)
    requires NoDuplicates(xs)
    ensures |Elements(xs)| == |xs|
  {
    if xs != [] {
      var rest := xs[1..];
      NoDuplicatesTail(xs);
      NoDuplicatesCardinality(rest);
      assert Elements(xs) == {xs[0]} + Elements(rest) by {
        assert xs == [xs[0]] + rest;
      }
    }
  }

  /** The total the page reports, `len(cn) + len(other)`, is the number of
      distinct anchor texts within the length bounds. */
  lemma AnalysisTotal(html: HtmlInput, cn: seq<string>, other: seq<string>)
    requires IsAnalysisOf(html, cn, other)
    ensures |cn| + |other| == |QualifyingTexts(html)|
  {
    AnalysisPartitions(html, cn, other);
    NoDuplicatesCardinality(cn);
    NoDuplicatesCardinality(other);
  }

  /** In a list without duplicates every element occurs once. */
  lemma {:induction false} NoDuplicatesMultiplicity(xs: seq<string>, t: string)
    requires NoDuplicates(xs)
    ensures multiset(xs)[t] == if t in xs then 1 else 0
  {
    if xs != [] {
      var rest := xs[1..];
      assert xs == [xs[0]] + rest;
      NoDuplicatesTail(xs);
      NoDuplicatesMultiplicity(rest, t);
    }
  }

  /** Two duplicate-free lists with the same elements are permutations of
      each other. */
  lemma SameElementsSameMultiset(a: seq<string>, b: seq<string>)
    requires NoDuplicates(a) && NoDuplicates(b)
    requires forall t :: t in a <==> t in b
    ensures multiset(a) == multiset(b)
  {
    forall t ensures multiset(a)[t] == multiset(b)[t] {
      NoDuplicatesMultiplicity(a, t);
      NoDuplicatesMultiplicity(b, t);
    }
  }

  /** The result depends on the page alone, up to the order of each list:
      any two analyses of one page are permutations of each other. */
  lemma AnalysisUniqueUpToOrder(html: HtmlInput, cn1: seq<string>, other1: seq<string>,
                                cn2: seq<string>, other2: seq<string>)
    requires IsAnalysisOf(html, cn1, other1)
    requires IsAnalysisOf(html, cn2, other2)
    ensures multiset(cn1) == multiset(cn2)
    ensures multiset(other1) == multiset(other2)
  {
    SameElementsSameMultiset(cn1, cn2);
    SameElementsSameMultiset(other1, other2);
  }

  /** A page whose anchors read 中国知网, Web of Science, 首页, 123 and
      中国知网 again: the repeated name is reported once, 首页 is dropped
      only because it is two characters long, and 123 is kept as an other
      name, since nothing in the analysis rejects digits. */
  lemma AnalysisExample(cn: seq<string>, other: seq<string>)
    requires IsAnalysisOf(Document(["中国知网", "Web of Science", "首页", "123", "中国知网"]), cn, other)
    ensures cn == ["中国知网"]
    ensures multiset(other) == multiset{"Web of Science", "123"}
  {
    var html := Document(["中国知网", "Web of Science", "首页", "123", "中国知网"]);
    assert !WithinLengthBounds("首页");
    assert QualifyingTexts(html) == {"中国知网", "Web of Science", "123"};
    assert IsCjkIdeograph("中国知网"[0]);
    assert !HasCjkIdeograph("Web of Science") by {
      forall i | 0 <= i < |"Web of Science"| ensures !IsCjkIdeograph("Web of Science"[i]) {
      }
    }
    assert !HasCjkIdeograph("123");
    SameElementsSameMultiset(cn, ["中国知网"]);
    SameElementsSameMultiset(other, ["Web of Science", "123"]);
    assert |cn| == 1;
    assert cn[0] in multiset(cn);
  }
}
