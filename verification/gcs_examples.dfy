/**
 The GCS analysis on two of the expressions its own self-test prints: a long literal
 becomes the AND of its trigrams, and a concatenation of two small unions, whose
 shortest strings join to two characters, leaves no trigram to require. The general
 facts behind them: a set holding a string shorter than 3 adds nothing to a query,
 and the final forced flush of an info with no exact set changes nothing.
 */
module GcsExamples {
  import opened Strings
  import opened StringSet
  import opened Wrappers
  import opened QueryAlgebra
  import opened RegexAst
  import Gcs

  /** A string set that is empty or holds a string of at most two characters. */
  predicate ShortOrEmpty(s: seq<string>)
  {
    |s| == 0 || exists x | x in s :: |x| <= 2
  }

  /** Such a set, cleaned, leaves a query unchanged under `andTrigrams`. */
  lemma ShortSetKeepsQuery(q: Query, s: seq<string>, isSuffix: bool)
    requires ShortOrEmpty(s)
    ensures AndTrigrams(q, Clean(s, isSuffix)) == q
  {
    if |s| > 0 {
      var x :| x in s && |x| <= 2;
      assert x in Elems(s);
      assert x in Clean(s, isSuffix) by {
        assert x in Elems(Clean(s, isSuffix));
      }
    }
  }

  /** Every string of the list is at most two characters long. */
  predicate AllShort(s: seq<string>)
  {
    forall x | x in s :: |x| <= 2
  }

  lemma AllShortIsShortOrEmpty(s: seq<string>)
    requires AllShort(s)
    ensures ShortOrEmpty(s)
  {
    if |s| > 0 {
      assert s[0] in s;
    }
  }

  /** Simplifying prefix and suffix sets of short strings leaves the query unchanged. */
  lemma SimplifySetsKeepQuery(info: Gcs.Info, legacy: bool)
    requires !Have(info.exact) && AllShort(info.prefix) && AllShort(info.suffix)
    ensures Gcs.SimplifySets(info, legacy).query == info.query
  {
    AllShortIsShortOrEmpty(info.prefix);
    AllShortIsShortOrEmpty(info.suffix);
    ShortSetKeepsQuery(info.query, info.prefix, false);
    ShortSetKeepsQuery(info.query, info.suffix, true);
  }

  /** The forced flush of `regexpQuery` changes nothing when the analysis left no exact
      set: the prefix and suffix sets are already short, and their trigrams are none. */
  lemma RegexpQueryInexact(re: Regex, legacy: bool)
    requires Gcs.Analyze(re, legacy).Ok? && !Have(Gcs.Analyze(re, legacy).value.exact)
    ensures Gcs.RegexpQuery(re, legacy) == Ok(Gcs.Analyze(re, legacy).value.query)
  {
    var info := Gcs.Analyze(re, legacy).value;
    Gcs.AnalyzeBounded(re, legacy);
    FinalFlushInexact(info, legacy);
    assert Gcs.RegexpQuery(re, legacy) == Ok(Gcs.AddExact(Gcs.Simplify(info, true, legacy)).query);
  }

  /** The final flush and `addExact` on an info in `simplify`'s shape with no exact set. */
  lemma FinalFlushInexact(info: Gcs.Info, legacy: bool)
    requires Gcs.Bounded(info) && !Have(info.exact)
    ensures Gcs.AddExact(Gcs.Simplify(info, true, legacy)).query == info.query
  {
    assert info.exact == [];
    assert Clean(info.exact, false) == [];
    assert MinLen([]) == 0;
    SimplifySetsKeepQuery(info, legacy);
  }

  /** An info that can add no trigram to the final query: "match everything", and every
      string set it carries is empty or holds a string of at most two characters
      (all of them, for the prefix and suffix sets). */
  predicate NoTrigrams(info: Gcs.Info)
  {
    info.query == QAll && AllShort(info.prefix) && AllShort(info.suffix) && ShortOrEmpty(info.exact)
  }

  /** The flushed prefixes and suffixes are at most two characters long. */
  lemma FlushedShort(exact: seq<string>)
    ensures AllShort(Gcs.FlushPrefixes(exact)) && AllShort(Gcs.FlushSuffixes(exact))
  {
    var p, s := Gcs.FlushPrefixes(exact), Gcs.FlushSuffixes(exact);
    assert forall k | 0 <= k < |p| :: |p[k]| <= 2;
    assert forall k | 0 <= k < |s| :: |s[k]| <= 2;
  }

  /** `simplify` keeps `NoTrigrams`. */
  lemma SimplifyNoTrigrams(info: Gcs.Info, force: bool, legacy: bool)
    requires NoTrigrams(info)
    ensures NoTrigrams(Gcs.Simplify(info, force, legacy))
  {
    var exact := Clean(info.exact, false);
    ShortSetKeepsQuery(QAll, info.exact, false);
    if |info.exact| > 0 {
      var x :| x in info.exact && |x| <= 2;
      assert x in Elems(info.exact);
      assert x in Elems(exact);
    }
    if Gcs.Flushes(exact, force) {
      ElemsEmpty(exact);
      ElemsEmpty(info.exact);
      FlushedShort(exact);
      var flushed := Gcs.Info(info.canEmpty, [], info.prefix + Gcs.FlushPrefixes(exact),
                              info.suffix + Gcs.FlushSuffixes(exact), QAll);
      SimplifySetsKeepQuery(flushed, legacy);
    } else if !Have(exact) {
      SimplifySetsKeepQuery(info.(exact := exact), legacy);
    }
  }

  /** An analysis that ends with `NoTrigrams` gives the query "match everything". */
  lemma RegexpQueryNoTrigrams(re: Regex, legacy: bool)
    requires Gcs.Analyze(re, legacy).Ok? && NoTrigrams(Gcs.Analyze(re, legacy).value)
    ensures Gcs.RegexpQuery(re, legacy) == Ok(QAll)
  {
    var info := Gcs.Analyze(re, legacy).value;
    FinalNoTrigrams(info, legacy);
    assert Gcs.RegexpQuery(re, legacy) == Ok(Gcs.AddExact(Gcs.Simplify(info, true, legacy)).query);
  }

  /** The final flush and `addExact` on an info that can add no trigram. */
  lemma FinalNoTrigrams(info: Gcs.Info, legacy: bool)
    requires NoTrigrams(info)
    ensures Gcs.AddExact(Gcs.Simplify(info, true, legacy)).query == QAll
  {
    var r := Gcs.Simplify(info, true, legacy);
    SimplifyNoTrigrams(info, true, legacy);
    if |r.exact| > 0 {
      var x :| x in r.exact && |x| <= 2;
    }
  }

  /** Concatenating two exact infos whose strings `u` and `v` join to at most two
      characters gives an info that can add no trigram. */
  lemma ConcatShortExact(x: Gcs.Info, y: Gcs.Info, u: string, v: string, legacy: bool)
    requires x.query == QAll && y.query == QAll
    requires u in x.exact && v in y.exact && |u| + |v| <= 2
    ensures NoTrigrams(Gcs.Concat(x, y, legacy))
  {
    assert x.exact[0] in Elems(x.exact) && y.exact[0] in Elems(y.exact);
    AndOrIdentities(QAll);
    var raw := Gcs.ConcatRaw(x, y);
    assert u + v in raw.exact;
    SimplifyNoTrigrams(raw, false, legacy);
  }

  /** A literal of at most three characters stays exact, with no query. */
  lemma LiteralExact(v: string, legacy: bool)
    requires |v| <= 3
    ensures Gcs.Analyze(Literal(v), legacy) == Ok(Gcs.Info(false, [v], [], [], QAll))
  {
    CleanIdempotent([v], false);
    assert v in [v];
  }

  /** A non-empty concatenation or union whose parts all analyse is the fold of their infos. */
  lemma AnalyzeIsFold(re: Regex, legacy: bool)
    requires (re.Concat? || re.Alt?) && |re.subs| > 0 && Gcs.AnalyzeParts(re, legacy).Ok?
    ensures Gcs.Analyze(re, legacy) == Ok(Gcs.FoldInfos(Gcs.AnalyzeParts(re, legacy).value, re.Concat?, legacy))
  {
  }

  /** The parts of a two-part node. */
  lemma PartsPair(re: Regex, legacy: bool)
    requires (re.Concat? || re.Alt?) && |re.subs| == 2
    requires Gcs.Analyze(re.subs[0], legacy).Ok? && Gcs.Analyze(re.subs[1], legacy).Ok?
    ensures Gcs.AnalyzeParts(re, legacy) ==
      Ok([Gcs.Analyze(re.subs[0], legacy).value, Gcs.Analyze(re.subs[1], legacy).value])
  {
    var x, y := Gcs.Analyze(re.subs[0], legacy).value, Gcs.Analyze(re.subs[1], legacy).value;
    var r := Gcs.AnalyzeParts(re, legacy);
    forall k | 0 <= k < |re.subs| ensures Gcs.Analyze(re.subs[k], legacy).Ok? {
      assert k == 0 || k == 1;
    }
    assert r.value[0] == x && r.value[1] == y;
    assert r.value == [x, y];
  }

  /** Folding two infos applies the combinator once. */
  lemma FoldPair(x: Gcs.Info, y: Gcs.Info, isConcat: bool, legacy: bool)
    ensures Gcs.FoldInfos([x, y], isConcat, legacy) ==
      if isConcat then Gcs.Concat(x, y, legacy) else Gcs.Alternate(x, y, legacy)
  {
    assert [x, y][..1] == [x];
  }

  /** A two-way union or concatenation, as the parser builds them, is one `alternate` or
      one `concat`. */
  lemma AnalyzePair(re: Regex, legacy: bool)
    requires (re.Concat? || re.Alt?) && |re.subs| == 2
    requires Gcs.Analyze(re.subs[0], legacy).Ok? && Gcs.Analyze(re.subs[1], legacy).Ok?
    ensures var x, y := Gcs.Analyze(re.subs[0], legacy).value, Gcs.Analyze(re.subs[1], legacy).value;
      Gcs.Analyze(re, legacy) == Ok(if re.Concat? then Gcs.Concat(x, y, legacy) else Gcs.Alternate(x, y, legacy))
  {
    PartsPair(re, legacy);
    AnalyzeIsFold(re, legacy);
    FoldPair(Gcs.Analyze(re.subs[0], legacy).value, Gcs.Analyze(re.subs[1], legacy).value, re.Concat?, legacy);
  }

  /** Alternating two exact infos keeps the union as the exact set while it does not flush. */
  lemma AlternateExact(x: Gcs.Info, y: Gcs.Info, legacy: bool)
    requires x == Gcs.Info(false, x.exact, [], [], QAll) && y == Gcs.Info(false, y.exact, [], [], QAll)
    requires Have(x.exact) && Have(y.exact) && !Gcs.Flushes(Union(x.exact, y.exact, false), false)
    ensures Gcs.Alternate(x, y, legacy) == Gcs.Info(false, Union(x.exact, y.exact, false), [], [], QAll)
  {
    AndOrIdentities(QAll);
    var u := Union(x.exact, y.exact, false);
    CleanIdempotent(u, false);
    assert x.exact[0] in Elems(u);
  }

  /** A string below the head of a sorted list extends it to a sorted list. */
  lemma SortedFront(x: string, e: seq<string>)
    requires Sorted(e, false) && (|e| > 0 ==> LexLess(x, e[0]))
    ensures Sorted([x] + e, false)
  {
    var s := [x] + e;
    forall i, j | 0 <= i < j < |s| ensures KeyLess(s[i], s[j], false) {
      if i == 0 && j > 1 {
        KeyTransitive(x, e[0], e[j - 1], false);
      }
    }
  }

  /** A string in front of a sorted list it precedes: the union is the concatenation. */
  lemma UnionFront(x: string, e: seq<string>)
    requires Sorted([x] + e, false)
    ensures Union([x], e, false) == [x] + e
  {
    assert Elems([x] + e) == Elems([x]) + Elems(e);
    SortedUnique(Union([x], e, false), [x] + e, false);
  }

  /** A literal in front of a union it precedes: `c|(rest)`. */
  lemma AltFront(c: string, rest: Regex, e: seq<string>, legacy: bool)
    requires |c| <= 3 && 0 < |e| < Gcs.MaxExact && Sorted(e, false) && LexLess(c, e[0])
    requires Gcs.Analyze(rest, legacy) == Ok(Gcs.Info(false, e, [], [], QAll))
    ensures Gcs.Analyze(Alt([Literal(c), rest]), legacy) == Ok(Gcs.Info(false, [c] + e, [], [], QAll))
    ensures Sorted([c] + e, false)
  {
    LiteralExact(c, legacy);
    AnalyzePair(Alt([Literal(c), rest]), legacy);
    AlternateFront(c, e, legacy);
  }

  /** The `alternate` step of `AltFront`. */
  lemma AlternateFront(c: string, e: seq<string>, legacy: bool)
    requires |c| <= 3 && 0 < |e| < Gcs.MaxExact && Sorted(e, false) && LexLess(c, e[0])
    ensures Gcs.Alternate(Gcs.Info(false, [c], [], [], QAll), Gcs.Info(false, e, [], [], QAll), legacy)
      == Gcs.Info(false, [c] + e, [], [], QAll)
    ensures Sorted([c] + e, false)
  {
    UnionFrontNoFlush(c, e);
    AlternateExact(Gcs.Info(false, [c], [], [], QAll), Gcs.Info(false, e, [], [], QAll), legacy);
  }

  /** The union of `AlternateFront`: the concatenation, sorted, too small to flush. */
  lemma UnionFrontNoFlush(c: string, e: seq<string>)
    requires |c| <= 3 && 0 < |e| < Gcs.MaxExact && Sorted(e, false) && LexLess(c, e[0])
    ensures Union([c], e, false) == [c] + e && Sorted([c] + e, false)
    ensures Have(e) && !Gcs.Flushes([c] + e, false)
  {
    SortedFront(c, e);
    UnionFront(c, e);
    assert MinLen([c] + e) <= |c| by { assert c in [c] + e; }
    assert e[0] in e;
  }

  /** Two strings whose first characters are in order. */
  lemma FirstLess(a: string, b: string)
    requires |a| > 0 && |b| > 0 && a[0] < b[0]
    ensures LexLess(a, b)
  {
  }

  /** A union of two literals of at most three characters, in increasing order. */
  lemma TwoLiterals(c: string, d: string, legacy: bool)
    requires |c| <= 3 && |d| <= 3 && LexLess(c, d)
    ensures Gcs.Analyze(Alt([Literal(c), Literal(d)]), legacy) == Ok(Gcs.Info(false, [c, d], [], [], QAll))
    ensures Sorted([c, d], false)
  {
    LiteralExact(d, legacy);
    AltFront(c, Literal(d), [d], legacy);
    assert [c] + [d] == [c, d];
  }

  /** Three literals, parsed as `b|(c|d)`. */
  lemma ThreeLiterals(b: string, c: string, d: string, legacy: bool)
    requires |b| <= 3 && |c| <= 3 && |d| <= 3 && LexLess(b, c) && LexLess(c, d)
    ensures Gcs.Analyze(Alt([Literal(b), Alt([Literal(c), Literal(d)])]), legacy)
      == Ok(Gcs.Info(false, [b, c, d], [], [], QAll))
    ensures Sorted([b, c, d], false)
  {
    TwoLiterals(c, d, legacy);
    AltFront(b, Alt([Literal(c), Literal(d)]), [c, d], legacy);
    assert [b] + [c, d] == [b, c, d];
  }

  /** A union of four literals of at most three characters, in increasing order, parsed
      as `a|(b|(c|d))`: its exact set is the four strings. */
  lemma FourLiterals(a: string, b: string, c: string, d: string, legacy: bool)
    requires |a| <= 3 && |b| <= 3 && |c| <= 3 && |d| <= 3
    requires LexLess(a, b) && LexLess(b, c) && LexLess(c, d)
    ensures Gcs.Analyze(Alt([Literal(a), Alt([Literal(b), Alt([Literal(c), Literal(d)])])]), legacy)
      == Ok(Gcs.Info(false, [a, b, c, d], [], [], QAll))
  {
    ThreeLiterals(b, c, d, legacy);
    AltFront(a, Alt([Literal(b), Alt([Literal(c), Literal(d)])]), [b, c, d], legacy);
    assert [a] + [b, c, d] == [a, b, c, d];
  }

  /** `(a|b|c|d)(ef|g|hi|j)` gives "match everything": "ag" is one of the strings it
      matches, and it holds no trigram. */
  lemma UnionsJoinExample(legacy: bool)
    ensures Gcs.RegexpQuery(RegexAst.Concat([
      Alt([Literal("a"), Alt([Literal("b"), Alt([Literal("c"), Literal("d")])])]),
      Alt([Literal("ef"), Alt([Literal("g"), Alt([Literal("hi"), Literal("j")])])])]), legacy) == Ok(QAll)
  {
    var x := Alt([Literal("a"), Alt([Literal("b"), Alt([Literal("c"), Literal("d")])])]);
    var y := Alt([Literal("ef"), Alt([Literal("g"), Alt([Literal("hi"), Literal("j")])])]);
    FirstLess("a", "b");
    FirstLess("b", "c");
    FirstLess("c", "d");
    FourLiterals("a", "b", "c", "d", legacy);
    FirstLess("ef", "g");
    FirstLess("g", "hi");
    FirstLess("hi", "j");
    FourLiterals("ef", "g", "hi", "j", legacy);
    AnalyzePair(RegexAst.Concat([x, y]), legacy);
    var xi, yi := Gcs.Analyze(x, legacy).value, Gcs.Analyze(y, legacy).value;
    assert "a" in xi.exact && "g" in yi.exact;
    ConcatShortExact(xi, yi, "a", "g", legacy);
    RegexpQueryNoTrigrams(RegexAst.Concat([x, y]), legacy);
  }

  /** A string of three or more characters: `andTrigrams(allQuery, [v])` is the AND of its
      windows. */
  lemma SingleStringQuery(v: string)
    requires |v| >= 3
    ensures AndTrigrams(QAll, [v]) == WindowsQuery(v)
  {
    var wq := WindowsQuery(v);
    assert MinLen([v]) == |v| by { assert v in [v]; }
    assert Or(QNone, wq) == wq;
    assert OrWindowQueries(QNone, [v]) == OrWindowQueries(wq, []) by {
      assert [v][1..] == [];
    }
    assert And(QAll, wq) == wq;
  }

  /** A literal of four or more characters: the exact set is flushed, leaving the AND of its
      windows as the query. */
  lemma LongLiteral(v: string, legacy: bool)
    requires |v| >= 4
    ensures Gcs.Analyze(Literal(v), legacy).Ok?
    ensures Gcs.Analyze(Literal(v), legacy).value.exact == []
    ensures Gcs.Analyze(Literal(v), legacy).value.query == WindowsQuery(v)
  {
    SimplifyLong(v, legacy);
    SingleStringQuery(v);
  }

  /** The `simplify` step of `LongLiteral`. */
  lemma SimplifyLong(v: string, legacy: bool)
    requires |v| >= 4
    ensures Gcs.Simplify(Gcs.Info(false, [v], [], [], QAll), false, legacy).exact == []
    ensures Gcs.Simplify(Gcs.Info(false, [v], [], [], QAll), false, legacy).query == AndTrigrams(QAll, [v])
  {
    CleanIdempotent([v], false);
    assert MinLen([v]) == |v| by { assert v in [v]; }
    FlushedShort([v]);
    var pre, suf := Gcs.FlushPrefixes([v]), Gcs.FlushSuffixes([v]);
    assert [] + pre == pre && [] + suf == suf;
    SimplifySetsKeepQuery(Gcs.Info(false, [], pre, suf, AndTrigrams(QAll, [v])), legacy);
  }

  /** The four trigrams of "Abcdef", already in sorted order. */
  lemma AbcdefWindows()
    ensures WindowsQuery("Abcdef") == Node(QAnd, ["Abc", "bcd", "cde", "def"], [])
  {
    var s := "Abcdef";
    var w := Windows(s);
    assert |w| == 4;
    assert w[0] == s[0..3] == "Abc";
    assert w[1] == s[1..4] == "bcd";
    assert w[2] == s[2..5] == "cde";
    assert w[3] == s[3..6] == "def";
    assert w == ["Abc", "bcd", "cde", "def"];
    FirstLess("cde", "def");
    SortedFront("cde", ["def"]);
    var e1 := ["cde"] + ["def"];
    FirstLess("bcd", e1[0]);
    SortedFront("bcd", e1);
    var e2 := ["bcd"] + e1;
    FirstLess("Abc", e2[0]);
    SortedFront("Abc", e2);
    assert ["Abc"] + e2 == w;
    CleanIdempotent(w, false);
  }

  /** `Abcdef` gives `"Abc" "bcd" "cde" "def"`. */
  lemma AbcdefExample(legacy: bool)
    ensures Gcs.RegexpQuery(Literal("Abcdef"), legacy) == Ok(Node(QAnd, ["Abc", "bcd", "cde", "def"], []))
    ensures Show(Gcs.RegexpQuery(Literal("Abcdef"), legacy).value) == "\"Abc\" \"bcd\" \"cde\" \"def\""
  {
    LongLiteral("Abcdef", legacy);
    RegexpQueryInexact(Literal("Abcdef"), legacy);
    AbcdefWindows();
    AbcdefShow();
  }

  lemma AbcdefShow()
    ensures Show(Node(QAnd, ["Abc", "bcd", "cde", "def"], [])) == "\"Abc\" \"bcd\" \"cde\" \"def\""
  {
    ShowFourTrigrams("Abc", "bcd", "cde", "def");
    var a, b, c, d := Quote("Abc") + " ", Quote("bcd") + " ", Quote("cde") + " ", Quote("def");
    assert a == "\"Abc\" " && b == "\"bcd\" " && c == "\"cde\" " && d == "\"def\"";
    assert a + (b + (c + d)) == "\"Abc\" \"bcd\" \"cde\" \"def\"";
  }

  /** An AND of four trigrams prints them quoted and separated by spaces. */
  lemma ShowFourTrigrams(a: string, b: string, c: string, d: string)
    ensures Show(Node(QAnd, [a, b, c, d], [])) ==
      (Quote(a) + " ") + ((Quote(b) + " ") + ((Quote(c) + " ") + Quote(d)))
  {
    var t2 := [c] + [d];
    var t1 := [b] + t2;
    var t := [a] + t1;
    JoinQuotedCons(c, [d], " ");
    JoinQuotedCons(b, t2, " ");
    JoinQuotedCons(a, t1, " ");
    assert t == [a, b, c, d];
    ShowTrigrams(Node(QAnd, t, []));
  }

  lemma JoinQuotedCons(x: string, t: seq<string>, sep: string)
    requires |t| > 0
    ensures JoinQuoted([x] + t, sep) == Quote(x) + sep + JoinQuoted(t, sep)
  {
    assert ([x] + t)[1..] == t;
  }
}
