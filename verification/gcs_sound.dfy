/**
 Soundness of the GCS analysis: whenever the expression matches a string `w`, the
 info it computes describes `w` (the query holds of `w`'s trigrams, and `w` is in the
 exact set or has a prefix and a suffix in the prefix and suffix sets). So the final
 query never rejects a text that contains a match. This holds for the current
 redundancy pass; the older one loses coverage (see `Gcs.LegacyPruneLosesCoverage`).
 */
module GcsSound {
  import opened Wrappers
  import opened Strings
  import opened StringSet
  import opened QueryAlgebra
  import opened RegexAst
  import opened Gcs

  /** `info` is a correct summary of the string `w`. */
  predicate Describes(info: Info, w: string)
  {
    && Eval(info.query, TrigramSet(w))
    && (Have(info.exact) ==> w in info.exact)
    && (!Have(info.exact) ==> CoveredBy(w, info.prefix, false) && CoveredBy(w, info.suffix, true))
  }

  /** Every trigram of a string occurring in `w` is a trigram of `w`. */
  lemma OccursWindows(k: string, w: string)
    requires Occurs(k, w)
    ensures AllWindowsIn(k, TrigramSet(w))
  {
    SubstringTrigrams(k, w);
  }

  lemma SelfOccurs(w: string)
    ensures Occurs(w, w)
  {
    assert OccursAt(w, w, 0);
  }

  lemma ConcatParts(u: string, v: string)
    ensures IsPrefix(u, u + v) && IsSuffix(v, u + v)
    ensures Occurs(u, u + v) && Occurs(v, u + v)
  {
    assert (u + v)[..|u|] == u;
    assert (u + v)[|u + v| - |v|..] == v;
    PrefixOccurs(u, u + v);
    SuffixOccurs(v, u + v);
  }

  /** A query true of the trigrams of a substring is true of the whole string's. */
  lemma EvalWithin(q: Query, k: string, w: string)
    requires Occurs(k, w) && Eval(q, TrigramSet(k))
    ensures Eval(q, TrigramSet(w))
  {
    OccursTrigrams(k, w);
    EvalMonotone(q, TrigramSet(k), TrigramSet(w));
  }

  /** ANDing in the trigrams of a set keeps a query true of `w` when one of the set's
      strings occurs in `w`. */
  lemma AndTrigramsKeeps(q: Query, t: seq<string>, k: string, w: string)
    requires Eval(q, TrigramSet(w)) && k in t && Occurs(k, w)
    ensures Eval(AndTrigrams(q, t), TrigramSet(w))
  {
    AndTrigramsCorrect(q, t, TrigramSet(w));
    OccursWindows(k, w);
    var i :| 0 <= i < |t| && t[i] == k;
  }

  lemma ExtendsOccurs(w: string, k: string, isSuffix: bool)
    requires Extends(w, k, isSuffix)
    ensures Occurs(k, w)
  {
    if isSuffix {
      SuffixOccurs(k, w);
    } else {
      PrefixOccurs(k, w);
    }
  }

  /** The empty string is a prefix and a suffix of every string. */
  lemma EmptyCovers(w: string, isSuffix: bool)
    ensures CoveredBy(w, [""], isSuffix)
  {
    assert w[..0] == "" && w[|w|..] == "";
    assert Extends(w, "", isSuffix);
  }

  /** `anyMatch` and `anyChar` describe every string; `emptyString` describes "". */
  lemma LeavesDescribe(w: string)
    ensures Describes(AnyMatch(), w) && Describes(AnyCharInfo(), w)
    ensures Describes(EmptyString(), "")
    ensures !Describes(NoMatchInfo(), w)
  {
    EmptyCovers(w, false);
    EmptyCovers(w, true);
  }

  /** A described string has its exact set's trigrams once they are ANDed in. */
  lemma AddExactDescribes(info: Info, w: string)
    requires Describes(info, w)
    ensures Describes(AddExact(info), w)
  {
    if Have(info.exact) {
      SelfOccurs(w);
      AndTrigramsKeeps(info.query, info.exact, w, w);
    }
  }

  /** `simplifySet` keeps a described string described: its query gains trigrams of a
      string occurring in `w`, and the cut-back set still holds a prefix (suffix) of `w`. */
  lemma SimplifySetDescribes(query: Query, s: seq<string>, isSuffix: bool, w: string)
    requires Eval(query, TrigramSet(w)) && CoveredBy(w, s, isSuffix)
    ensures Eval(SimplifySet(query, s, isSuffix, false).0, TrigramSet(w))
    ensures CoveredBy(w, SimplifySet(query, s, isSuffix, false).1, isSuffix)
  {
    var k :| k in s && Extends(w, k, isSuffix);
    assert k in Elems(Clean(s, isSuffix));
    ExtendsOccurs(w, k, isSuffix);
    AndTrigramsKeeps(query, Clean(s, isSuffix), k, w);
    var r := SimplifiedSet(s, isSuffix, false);
    assert CoveredBy(k, r, isSuffix);
    var k' :| k' in r && Extends(k, k', isSuffix);
    ExtendsTransitive(k', k, w, isSuffix);
  }

  lemma SimplifySetsDescribes(info: Info, w: string)
    requires !Have(info.exact) && Describes(info, w)
    ensures Describes(SimplifySets(info, false), w)
  {
    SimplifySetDescribes(info.query, info.prefix, false, w);
    var (m1, p) := SimplifySet(info.query, info.prefix, false, false);
    SimplifySetDescribes(m1, info.suffix, true, w);
  }

  /** Flushing an exact set that holds `w` leaves a prefix and a suffix of `w` behind. */
  lemma FlushCovers(exact: seq<string>, prefix: seq<string>, suffix: seq<string>, w: string)
    requires w in exact
    ensures CoveredBy(w, prefix + FlushPrefixes(exact), false)
    ensures CoveredBy(w, suffix + FlushSuffixes(exact), true)
  {
    var i :| 0 <= i < |exact| && exact[i] == w;
    assert FlushPrefixes(exact)[i] in prefix + FlushPrefixes(exact);
    assert FlushSuffixes(exact)[i] in suffix + FlushSuffixes(exact);
  }

  /** `simplify` keeps a described string described. */
  lemma SimplifyDescribes(info: Info, force: bool, w: string)
    requires Describes(info, w)
    ensures Describes(Simplify(info, force, false), w)
  {
    var exact := Clean(info.exact, false);
    ElemsEmpty(exact);
    ElemsEmpty(info.exact);
    if Flushes(exact, force) {
      var m := if Have(exact) then AndTrigrams(info.query, exact) else info.query;
      var mid := Info(info.canEmpty, [], info.prefix + FlushPrefixes(exact), info.suffix + FlushSuffixes(exact), m);
      // an empty exact set never flushes: it has no strings and its shortest length is 0
      assert Have(exact);
      assert w in Elems(exact);
      SelfOccurs(w);
      AndTrigramsKeeps(info.query, exact, w, w);
      FlushCovers(exact, info.prefix, info.suffix, w);
      SimplifySetsDescribes(mid, w);
    } else if !Have(exact) {
      SimplifySetsDescribes(info.(exact := exact), w);
    } else {
      assert w in Elems(exact);
    }
  }

  /** `concat` describes `u + v` whenever its operands describe `u` and `v`. */
  lemma ConcatRawDescribes(x: Info, y: Info, u: string, v: string)
    requires Describes(x, u) && Describes(y, v)
    ensures Describes(ConcatRaw(x, y), u + v)
  {
    ConcatQuery(x, y, u, v);
    if Have(x.exact) && Have(y.exact) {
      assert u + v in Cross(x.exact, y.exact, false);
    } else {
      ConcatPrefix(x, y, u, v);
      ConcatSuffix(x, y, u, v);
    }
  }

  /** Both operands' queries hold of `u + v`, and so do the trigrams of the string
      spanning the junction. */
  lemma ConcatQuery(x: Info, y: Info, u: string, v: string)
    requires Describes(x, u) && Describes(y, v)
    ensures Eval(ConcatMatch(x, y), TrigramSet(u + v))
  {
    var w := u + v;
    ConcatParts(u, v);
    EvalWithin(x.query, u, w);
    EvalWithin(y.query, v, w);
    var m := And(x.query, y.query);
    AndOrCorrect(x.query, y.query, QAnd, TrigramSet(w));
    if JunctionUsed(x, y) {
      JunctionQuery(x.suffix, y.prefix, u, v, m);
    }
  }

  /** The junction strings' trigrams, ANDed into a query true of `u + v`, keep it true. */
  lemma JunctionQuery(suffixes: seq<string>, prefixes: seq<string>, u: string, v: string, m: Query)
    requires CoveredBy(u, suffixes, true) && CoveredBy(v, prefixes, false)
    requires Eval(m, TrigramSet(u + v))
    ensures Eval(AndTrigrams(m, Cross(suffixes, prefixes, false)), TrigramSet(u + v))
  {
    var s :| s in suffixes && Extends(u, s, true);
    var p :| p in prefixes && Extends(v, p, false);
    JunctionOccurs(s, p, u, v);
    var c := Cross(suffixes, prefixes, false);
    assert s + p in c;
    AndTrigramsKeeps(m, c, s + p, u + v);
  }

  lemma ConcatPrefix(x: Info, y: Info, u: string, v: string)
    requires Describes(x, u) && Describes(y, v) && !(Have(x.exact) && Have(y.exact))
    ensures CoveredBy(u + v, ConcatPrefixes(x, y), false)
  {
    var prefix := ConcatPrefixes(x, y);
    if Have(x.exact) {
      var p :| p in y.prefix && IsPrefix(p, v);
      PrefixAfter(u, p, v);
      assert u + p in prefix;
    } else {
      var p :| p in x.prefix && IsPrefix(p, u);
      PrefixOfConcat(p, u, v);
      assert p in Elems(prefix) by {
        if x.canEmpty {
          assert p in Elems(x.prefix);
        }
      }
    }
  }

  lemma ConcatSuffix(x: Info, y: Info, u: string, v: string)
    requires Describes(x, u) && Describes(y, v) && !(Have(x.exact) && Have(y.exact))
    ensures CoveredBy(u + v, ConcatSuffixes(x, y), true)
  {
    var suffix := ConcatSuffixes(x, y);
    if Have(y.exact) {
      var s :| s in x.suffix && IsSuffix(s, u);
      SuffixBefore(s, v, u);
      assert s + v in suffix;
    } else {
      var s :| s in y.suffix && IsSuffix(s, v);
      SuffixOfConcat(s, u, v);
      assert s in Elems(suffix) by {
        if y.canEmpty {
          assert s in Elems(y.suffix);
        }
      }
    }
  }

  lemma ConcatDescribes(x: Info, y: Info, u: string, v: string)
    requires Describes(x, u) && Describes(y, v)
    ensures Describes(Gcs.Concat(x, y, false), u + v)
  {
    ConcatRawDescribes(x, y, u, v);
    SimplifyDescribes(ConcatRaw(x, y), false, u + v);
  }

  /** `alternate` describes every string either operand describes. */
  lemma AlternateRawDescribes(x: Info, y: Info, w: string)
    requires Describes(x, w) || Describes(y, w)
    ensures Describes(AlternateRaw(x, y), w)
  {
    AlternateQuery(x, y, w);
    if Have(x.exact) && Have(y.exact) {
      assert w in Elems(x.exact) || w in Elems(y.exact);
      assert w in Elems(Union(x.exact, y.exact, false));
    } else {
      AlternateCovers(x, y, w, false);
      AlternateCovers(x, y, w, true);
    }
  }

  lemma AlternateQuery(x: Info, y: Info, w: string)
    requires Describes(x, w) || Describes(y, w)
    ensures Eval(AlternateMatch(x, y), TrigramSet(w))
  {
    if Describes(x, w) {
      AddExactDescribes(x, w);
    } else {
      AddExactDescribes(y, w);
    }
    if Have(x.exact) && Have(y.exact) {
      AndOrCorrect(x.query, y.query, QOr, TrigramSet(w));
    } else {
      AndOrCorrect(AddExact(x).query, AddExact(y).query, QOr, TrigramSet(w));
    }
  }

  /** The string an operand covers (or holds exactly) is covered by the union. */
  lemma AlternateCovers(x: Info, y: Info, w: string, isSuffix: bool)
    requires Describes(x, w) || Describes(y, w)
    ensures CoveredBy(w, AlternateSet(x, y, isSuffix), isSuffix)
  {
    var a := if Have(x.exact) then x.exact else if isSuffix then x.suffix else x.prefix;
    var b := if Have(y.exact) then y.exact else if isSuffix then y.suffix else y.prefix;
    assert Extends(w, w, isSuffix);
    var k :| (k in a || k in b) && Extends(w, k, isSuffix);
    assert k in Elems(Union(a, b, isSuffix));
  }

  lemma AlternateDescribes(x: Info, y: Info, w: string)
    requires Describes(x, w) || Describes(y, w)
    ensures Describes(Alternate(x, y, false), w)
  {
    AlternateRawDescribes(x, y, w);
    SimplifyDescribes(AlternateRaw(x, y), false, w);
  }

  lemma AlternateDescribesLeft(x: Info, y: Info, w: string)
    requires Describes(x, w)
    ensures Describes(Alternate(x, y, false), w)
  {
    AlternateDescribes(x, y, w);
  }

  lemma AlternateDescribesRight(x: Info, y: Info, w: string)
    requires Describes(y, w)
    ensures Describes(Alternate(x, y, false), w)
  {
    AlternateDescribes(x, y, w);
  }

  /** `x+` describes a string that starts with one string `x` describes and ends with one. */
  lemma PlusDescribes(x: Info, u: string, v: string, w: string)
    requires Describes(x, u) && Describes(x, v) && IsPrefix(u, w) && IsSuffix(v, w)
    ensures Describes(PlusInfo(x), w)
  {
    PrefixOccurs(u, w);
    EvalWithin(x.query, u, w);
    if Have(x.exact) {
      assert Extends(w, u, false) && Extends(w, v, true);
    } else {
      var p :| p in x.prefix && IsPrefix(p, u);
      PrefixTransitive(p, u, w);
      var s :| s in x.suffix && IsSuffix(s, v);
      SuffixTransitive(s, v, w);
    }
  }

  /** Every string the expression matches is described by its info (for the current
      redundancy pass). */
  lemma {:induction false} AnalyzeSound(re: Regex, w: string)
    requires Analyze(re, false).Ok? && Matches(re, w)
    ensures Describes(Analyze(re, false).value, w)
    decreases re, 1
  {
    match re
    case Literal(v) =>
      SimplifyDescribes(Info(false, [v], [], [], QAll), false, w);
    case Concat(subs) =>
      if |subs| == 0 {
        LeavesDescribe(w);
      } else {
        ConcatSound(re, w);
      }
    case Alt(subs) =>
      AltSound(re, w);
    case Repetition(q, body) =>
      if q == Opt {
        OptSound(re, w);
      } else if q == Plus {
        PlusSound(re, w);
      } else {
        LeavesDescribe(w);
      }
    case Repeat(_, _) =>
      LeavesDescribe(w);
    case Capture(body) =>
      AnalyzeSound(body, w);
    case EmptyWidth(_) =>
      LeavesDescribe(w);
    case AnyChar(_) =>
      LeavesDescribe(w);
  }

  /** The concatenation case of `AnalyzeSound`. */
  lemma {:induction false} ConcatSound(re: Regex, w: string)
    requires re.Concat? && |re.subs| > 0 && Analyze(re, false).Ok? && Matches(re, w)
    ensures Describes(Analyze(re, false).value, w)
    decreases re, 0
  {
    var infos := AnalyzeParts(re, false).value;
    assert Analyze(re, false).value == FoldInfos(infos, true, false);
    var ws := ConcatPieces(re, |re.subs|, w);
    forall j | 0 <= j < |re.subs| ensures Describes(infos[j], ws[j]) {
      AnalyzeSound(re.subs[j], ws[j]);
    }
    FoldConcatSound(infos, ws);
  }

  /** The union case of `AnalyzeSound`. */
  lemma {:induction false} AltSound(re: Regex, w: string)
    requires re.Alt? && Analyze(re, false).Ok? && Matches(re, w)
    ensures Describes(Analyze(re, false).value, w)
    decreases re, 0
  {
    var i :| 0 <= i < |re.subs| && Matches(re.subs[i], w);
    var infos := AnalyzeParts(re, false).value;
    assert Analyze(re, false).value == FoldInfos(infos, false, false);
    AnalyzeSound(re.subs[i], w);
    FoldAltSound(infos, i, w);
  }

  /** The `?` case of `AnalyzeSound`. */
  lemma {:induction false} OptSound(re: Regex, w: string)
    requires re.Repetition? && re.quant == Opt && Analyze(re, false).Ok? && Matches(re, w)
    ensures Describes(Analyze(re, false).value, w)
    decreases re, 0
  {
    OptPieces(re, w);
    var x := Analyze(re.body, false).value;
    assert Analyze(re, false).value == Alternate(x, EmptyString(), false);
    if w == "" {
      LeavesDescribe(w);
      AlternateDescribesRight(x, EmptyString(), w);
    } else {
      AnalyzeSound(re.body, w);
      AlternateDescribesLeft(x, EmptyString(), w);
    }
  }

  /** The `+` case of `AnalyzeSound`. */
  lemma {:induction false} PlusSound(re: Regex, w: string)
    requires re.Repetition? && re.quant == Plus && Analyze(re, false).Ok? && Matches(re, w)
    ensures Describes(Analyze(re, false).value, w)
    decreases re, 0
  {
    var x := Analyze(re.body, false).value;
    assert Analyze(re, false).value == Simplify(PlusInfo(x), false, false);
    RepPieces(re, 1, None, w);
    if w == "" {
      AnalyzeSound(re.body, w);
      PlusDescribes(x, w, w, w);
    } else {
      var k :| 1 <= k <= |w| && Matches(re.body, w[..k]);
      var j :| 0 <= j < |w| && Matches(re.body, w[j..]);
      AnalyzeSound(re.body, w[..k]);
      AnalyzeSound(re.body, w[j..]);
      PlusDescribes(x, w[..k], w[j..], w);
    }
    SimplifyDescribes(PlusInfo(x), false, w);
  }

  /** Folding `concat` describes the concatenation of strings each part describes. */
  lemma {:induction false} FoldConcatSound(infos: seq<Info>, ws: seq<string>)
    requires |infos| == |ws| >= 1
    requires forall i | 0 <= i < |ws| :: Describes(infos[i], ws[i])
    ensures Describes(FoldInfos(infos, true, false), Join(ws))
  {
    var n := |ws|;
    if n == 1 {
      assert ws[..0] == [];
      assert Join(ws) == ws[0];
    } else {
      var front, last := infos[..n - 1], infos[n - 1];
      FoldConcatSound(front, ws[..n - 1]);
      ConcatDescribes(FoldInfos(front, true, false), last, Join(ws[..n - 1]), ws[n - 1]);
    }
  }

  /** Folding `alternate` describes every string one of the parts describes. */
  lemma {:induction false} FoldAltSound(infos: seq<Info>, i: nat, w: string)
    requires i < |infos| && Describes(infos[i], w)
    ensures Describes(FoldInfos(infos, false, false), w)
  {
    var n := |infos|;
    if n == 1 {
      FoldOne(infos, false, w);
    } else if i < n - 1 {
      assert infos[..n - 1][i] == infos[i];
      FoldAltSound(infos[..n - 1], i, w);
      FoldAltFront(infos, w);
    } else {
      FoldAltLast(infos, w);
    }
  }

  /** A fold of one info is that info. */
  lemma FoldOne(infos: seq<Info>, isConcat: bool, w: string)
    requires |infos| == 1 && Describes(infos[0], w)
    ensures Describes(FoldInfos(infos, isConcat, false), w)
  {
  }

  /** One `alternate` step keeps what the fold so far describes. */
  lemma FoldAltFront(infos: seq<Info>, w: string)
    requires |infos| > 1 && Describes(FoldInfos(infos[..|infos| - 1], false, false), w)
    ensures Describes(FoldInfos(infos, false, false), w)
  {
    AlternateDescribesLeft(FoldInfos(infos[..|infos| - 1], false, false), infos[|infos| - 1], w);
  }

  /** One `alternate` step adds what the new part describes. */
  lemma FoldAltLast(infos: seq<Info>, w: string)
    requires |infos| > 1 && Describes(infos[|infos| - 1], w)
    ensures Describes(FoldInfos(infos, false, false), w)
  {
    AlternateDescribesRight(FoldInfos(infos[..|infos| - 1], false, false), infos[|infos| - 1], w);
  }

  /** The final query never rejects a text containing a match: if `re` matches `w` and
      `w` occurs in `text`, the query holds of the text's trigrams. */
  lemma RegexpQuerySound(re: Regex, w: string, text: string)
    requires RegexpQuery(re, false).Ok? && Matches(re, w) && Occurs(w, text)
    ensures Eval(RegexpQuery(re, false).value, TrigramSet(text))
  {
    var info := Analyze(re, false).value;
    AnalyzeSound(re, w);
    SimplifyDescribes(info, true, w);
    AddExactDescribes(Simplify(info, true, false), w);
    EvalWithin(AddExact(Simplify(info, true, false)).query, w, text);
  }
}
