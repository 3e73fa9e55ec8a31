/**
 The "GCS" analysis, after Go's codesearch: a `RegexpInfo` summary is computed
 bottom-up over the parse tree, and its `match` query is the trigram filter for
 the whole expression. The older monolithic copy of the same analysis differs in
 one place, the redundancy pass of `simplifySet`; `legacy` selects it.
 */
module Gcs {
  import opened Wrappers
  import opened Strings
  import opened StringSet
  import opened QueryAlgebra
  import opened RegexAst

  /** Exact sets are flushed into prefix/suffix sets beyond this many strings. */
  const MaxExact := 7
  /** Prefix and suffix sets are cut back to at most this many strings. */
  const MaxSet := 20

  /** `RegexpInfo`: whether the expression can match "", the exact set of strings it
      matches (when known), possible prefixes and suffixes, and the trigram query. */
  datatype Info = Info(canEmpty: bool, exact: seq<string>, prefix: seq<string>, suffix: seq<string>, query: Query)

  /** Matches any string. */
  function AnyMatch(): Info
  {
    Info(true, [], [""], [""], QAll)
  }

  /** Matches any single character. */
  function AnyCharInfo(): Info
  {
    Info(false, [], [""], [""], QAll)
  }

  /** Matches nothing. */
  function NoMatchInfo(): Info
  {
    Info(false, [], [], [], QNone)
  }

  /** Matches only the empty string. */
  function EmptyString(): Info
  {
    Info(true, [""], [], [], QAll)
  }

  /** `addExact`: ANDs the trigrams of the exact strings into the query. */
  function AddExact(info: Info): Info
  {
    if Have(info.exact) then info.(query := AndTrigrams(info.query, info.exact)) else info
  }

  /** A string cut to its first (prefix set) or last (suffix set) n-1 characters. */
  function Truncate(st: string, n: nat, isSuffix: bool): (r: string)
    requires n >= 1
    ensures Extends(st, r, isSuffix)
    ensures |st| >= n ==> |r| == n - 1
    ensures |st| < n ==> r == st
  {
    if |st| >= n then (if !isSuffix then st[..n - 1] else st[|st| - n + 1..]) else st
  }

  /** One pass of the cutting loop: truncate each string, dropping a repeat of the one
      written just before it. */
  function TruncPass(t: seq<string>, n: nat, isSuffix: bool, i: nat, acc: seq<string>): (r: seq<string>)
    requires n >= 1 && i <= |t|
    ensures forall x :: x in r <==> x in acc || exists j | i <= j < |t| :: x == Truncate(t[j], n, isSuffix)
    decreases |t| - i
  {
    if i == |t| then acc
    else
      var st := Truncate(t[i], n, isSuffix);
      TruncPass(t, n, isSuffix, i + 1, if |acc| == 0 || acc[|acc| - 1] != st then acc + [st] else acc)
  }

  /** On a sorted set of strings already short enough, a pass changes nothing. */
  lemma {:induction false} TruncPassIdentity(t: seq<string>, n: nat, isSuffix: bool, i: nat)
    requires n >= 1 && i <= |t| && Sorted(t, isSuffix)
    requires forall x | x in t :: |x| < n
    ensures TruncPass(t, n, isSuffix, i, t[..i]) == t
    decreases |t| - i
  {
    if i == |t| {
      assert t[..i] == t;
    } else {
      assert Truncate(t[i], n, isSuffix) == t[i];
      if i > 0 {
        assert t[..i][i - 1] == t[i - 1];
        KeyIrreflexive(t[i], isSuffix);
      }
      assert t[..i] + [t[i]] == t[..i + 1];
      TruncPassIdentity(t, n, isSuffix, i + 1);
    }
  }

  /** A pass with n leaves strings of at most n-1 characters, and each input string
      extends its truncation, which is in the cleaned result. */
  lemma PassFacts(t: seq<string>, n: nat, isSuffix: bool)
    requires n >= 1
    ensures var t' := Clean(TruncPass(t, n, isSuffix, 0, []), isSuffix);
      && (forall x | x in t' :: |x| <= n - 1 || |x| < n)
      && (forall x | x in t :: Truncate(x, n, isSuffix) in t')
  {
    var pass := TruncPass(t, n, isSuffix, 0, []);
    var t' := Clean(pass, isSuffix);
    assert forall x :: x in t' <==> x in Elems(t');
    forall x | x in t ensures Truncate(x, n, isSuffix) in t' {
      var j :| 0 <= j < |t| && t[j] == x;
      assert Truncate(t[j], n, isSuffix) in pass;
    }
  }

  /** A sorted set of two or more strings holds a non-empty one. */
  lemma SortedHasNonEmpty(t: seq<string>, isSuffix: bool)
    requires Sorted(t, isSuffix)
    ensures |t| >= 2 ==> exists x | x in t :: |x| > 0
  {
    if |t| >= 2 {
      KeyIrreflexive(t[0], isSuffix);
      assert t[0] in t && t[1] in t;
    }
  }

  /** The cutting loop: while n == 3 or the set is larger than MaxSet, cut every string
      to n-1 characters, re-clean, and decrement n. */
  function TruncLoop(t: seq<string>, n: nat, isSuffix: bool): (r: seq<string>)
    requires n <= 3 && Sorted(t, isSuffix)
    requires n < 3 ==> forall x | x in t :: |x| <= n
    ensures Sorted(r, isSuffix) && |r| <= MaxSet
    ensures forall x | x in r :: |x| <= 2
    ensures forall x | x in t :: exists y | y in r :: Extends(x, y, isSuffix)
    decreases n
  {
    if n == 0 then SortedHasNonEmpty(t, isSuffix); ReflexiveCover(t, isSuffix); t
    else if n == 3 || |t| > MaxSet then
      var t' := Clean(TruncPass(t, n, isSuffix, 0, []), isSuffix);
      PassFacts(t, n, isSuffix);
      var r := TruncLoop(t', n - 1, isSuffix);
      LoopCovers(t, t', r, n, isSuffix);
      r
    else
      ReflexiveCover(t, isSuffix); t
  }

  lemma ReflexiveCover(t: seq<string>, isSuffix: bool)
    ensures forall x | x in t :: exists y | y in t :: Extends(x, y, isSuffix)
  {
    forall x | x in t ensures Extends(x, x, isSuffix) {
      assert x[..|x|] == x && x[|x| - |x|..] == x;
    }
  }

  lemma LoopCovers(t: seq<string>, t': seq<string>, r: seq<string>, n: nat, isSuffix: bool)
    requires n >= 1
    requires forall x | x in t :: Truncate(x, n, isSuffix) in t'
    requires forall x | x in t' :: exists y | y in r :: Extends(x, y, isSuffix)
    ensures forall x | x in t :: exists y | y in r :: Extends(x, y, isSuffix)
  {
    forall x | x in t ensures exists y | y in r :: Extends(x, y, isSuffix) {
      var c := Truncate(x, n, isSuffix);
      var y :| y in r && Extends(c, y, isSuffix);
      ExtendsTransitive(y, c, x, isSuffix);
    }
  }

  /** A sorted set of at most MaxSet strings of at most two characters comes out of the
      cutting loop unchanged. */
  lemma TruncLoopShort(t: seq<string>, isSuffix: bool)
    requires SetSimplified(t, isSuffix)
    ensures TruncLoop(t, 3, isSuffix) == t
  {
    TruncPassIdentity(t, 3, isSuffix, 0);
    CleanIdempotent(t, isSuffix);
  }

  /** The redundancy pass: a string is kept unless it extends the last kept one. In the
      older copy (`legacy`) the test is inverted: a string is kept only if it does. */
  function Prune(t: seq<string>, isSuffix: bool, legacy: bool, i: nat, kept: seq<string>): seq<string>
    requires i <= |t|
    decreases |t| - i
  {
    if i == |t| then kept
    else
      var keep := |kept| == 0 ||
        (if legacy then Extends(t[i], kept[|kept| - 1], isSuffix) else !Extends(t[i], kept[|kept| - 1], isSuffix));
      Prune(t, isSuffix, legacy, i + 1, if keep then kept + [t[i]] else kept)
  }

  /** The pass only drops strings: its output is a sorted sub-list, no longer than the input. */
  lemma {:induction false} PruneSubList(t: seq<string>, isSuffix: bool, legacy: bool, i: nat, kept: seq<string>)
    requires i <= |t| && Sorted(t, isSuffix) && Sorted(kept, isSuffix)
    requires forall a, j | a in kept && i <= j < |t| :: KeyLess(a, t[j], isSuffix)
    ensures var r := Prune(t, isSuffix, legacy, i, kept);
      Sorted(r, isSuffix) && |r| <= |kept| + |t| - i &&
      (forall x | x in r :: x in kept || x in t[i..]) && kept <= r
    decreases |t| - i
  {
    if i < |t| {
      var keep := |kept| == 0 ||
        (if legacy then Extends(t[i], kept[|kept| - 1], isSuffix) else !Extends(t[i], kept[|kept| - 1], isSuffix));
      var kept' := if keep then kept + [t[i]] else kept;
      KeptBelow(t, i, kept, kept', isSuffix);
      PruneSubList(t, isSuffix, legacy, i + 1, kept');
      KeptFrom(t, i, kept, kept', Prune(t, isSuffix, legacy, i + 1, kept'));
    }
  }

  /** Taking `t[i]` or not keeps the kept strings sorted and below the rest of `t`. */
  lemma KeptBelow(t: seq<string>, i: nat, kept: seq<string>, kept': seq<string>, isSuffix: bool)
    requires i < |t| && Sorted(t, isSuffix) && Sorted(kept, isSuffix)
    requires kept' == kept || kept' == kept + [t[i]]
    requires forall a, j | a in kept && i <= j < |t| :: KeyLess(a, t[j], isSuffix)
    ensures Sorted(kept', isSuffix)
    ensures forall a, j | a in kept' && i + 1 <= j < |t| :: KeyLess(a, t[j], isSuffix)
  {
    if kept' != kept {
      forall a, b | 0 <= a < b < |kept'| ensures KeyLess(kept'[a], kept'[b], isSuffix) {
        if b == |kept| { assert kept[a] in kept; }
      }
    }
  }

  /** What comes out of the pass from `i + 1` on came from `kept` or from `t[i..]`. */
  lemma KeptFrom(t: seq<string>, i: nat, kept: seq<string>, kept': seq<string>, r: seq<string>)
    requires i < |t| && (kept' == kept || kept' == kept + [t[i]])
    requires forall x | x in r :: x in kept' || x in t[i + 1..]
    ensures forall x | x in r :: x in kept || x in t[i..]
  {
    forall x | x in r ensures x in kept || x in t[i..] {
      if x in kept' && x !in kept { assert x == t[i]; }
      if x in t[i + 1..] { var j :| i + 1 <= j < |t| && t[j] == x; assert t[i..][j - i] == x; }
    }
  }

  /** `x` extends some string of `kept`. */
  predicate CoveredBy(x: string, kept: seq<string>, isSuffix: bool)
  {
    exists k | k in kept :: Extends(x, k, isSuffix)
  }

  /** Every string dropped by the corrected pass extends a kept one. */
  lemma {:induction false} PruneCovers(t: seq<string>, isSuffix: bool, i: nat, kept: seq<string>)
    requires i <= |t|
    requires forall j | 0 <= j < i :: CoveredBy(t[j], kept, isSuffix)
    ensures forall x | x in t :: CoveredBy(x, Prune(t, isSuffix, false, i, kept), isSuffix)
    decreases |t| - i
  {
    if i == |t| {
      forall x | x in t ensures CoveredBy(x, kept, isSuffix) {
        var j :| 0 <= j < |t| && t[j] == x;
      }
    } else {
      var keep := |kept| == 0 || !Extends(t[i], kept[|kept| - 1], isSuffix);
      var kept' := if keep then kept + [t[i]] else kept;
      assert Prune(t, isSuffix, false, i, kept) == Prune(t, isSuffix, false, i + 1, kept');
      forall j | 0 <= j < i + 1 ensures CoveredBy(t[j], kept', isSuffix) {
        if j < i {
          assert CoveredBy(t[j], kept, isSuffix);
          var k :| k in kept && Extends(t[j], k, isSuffix);
          assert k in kept';
        } else if keep {
          assert t[i] in kept';
          assert t[i][..|t[i]|] == t[i] && t[i][|t[i]| - |t[i]|..] == t[i];
        } else {
          assert kept[|kept| - 1] in kept';
        }
      }
      PruneCovers(t, isSuffix, i + 1, kept');
    }
  }

  /** No string extends the one before it. */
  predicate Irredundant(r: seq<string>, isSuffix: bool)
  {
    forall j | 0 < j < |r| :: !Extends(r[j], r[j - 1], isSuffix)
  }

  /** Every string extends the one before it. */
  predicate Chained(r: seq<string>, isSuffix: bool)
  {
    forall j | 0 < j < |r| :: Extends(r[j], r[j - 1], isSuffix)
  }

  /** The corrected pass never keeps a string that extends the one kept before it. */
  lemma {:induction false} PruneIrredundant(t: seq<string>, isSuffix: bool, i: nat, kept: seq<string>)
    requires i <= |t|
    requires Irredundant(kept, isSuffix)
    ensures Irredundant(Prune(t, isSuffix, false, i, kept), isSuffix)
    decreases |t| - i
  {
    if i < |t| {
      var keep := |kept| == 0 || !Extends(t[i], kept[|kept| - 1], isSuffix);
      var kept' := if keep then kept + [t[i]] else kept;
      forall j | 0 < j < |kept'| ensures !Extends(kept'[j], kept'[j - 1], isSuffix) {
        if j < |kept| { assert kept'[j] == kept[j] && kept'[j - 1] == kept[j - 1]; }
      }
      assert Prune(t, isSuffix, false, i, kept) == Prune(t, isSuffix, false, i + 1, kept');
      PruneIrredundant(t, isSuffix, i + 1, kept');
    }
  }

  /** Each string the older pass keeps extends the one kept before it. */
  lemma {:induction false} PruneLegacyChain(t: seq<string>, isSuffix: bool, i: nat, kept: seq<string>)
    requires i <= |t|
    requires Chained(kept, isSuffix)
    ensures Chained(Prune(t, isSuffix, true, i, kept), isSuffix)
    decreases |t| - i
  {
    if i < |t| {
      var keep := |kept| == 0 || Extends(t[i], kept[|kept| - 1], isSuffix);
      var kept' := if keep then kept + [t[i]] else kept;
      forall j | 0 < j < |kept'| ensures Extends(kept'[j], kept'[j - 1], isSuffix) {
        if j < |kept| { assert kept'[j] == kept[j] && kept'[j - 1] == kept[j - 1]; }
      }
      assert Prune(t, isSuffix, true, i, kept) == Prune(t, isSuffix, true, i + 1, kept');
      PruneLegacyChain(t, isSuffix, i + 1, kept');
    }
  }

  /** The set `simplifySet(s, isSuffix)` leaves behind: cleaned, cut to short strings,
      with redundant strings dropped. */
  function SimplifiedSet(s: seq<string>, isSuffix: bool, legacy: bool): (r: seq<string>)
    ensures Sorted(r, isSuffix) && |r| <= MaxSet
    ensures forall x | x in r :: |x| <= 2
    ensures !legacy ==> forall x | x in s :: CoveredBy(x, r, isSuffix)
    ensures !legacy ==> Irredundant(r, isSuffix)
    ensures legacy ==> Chained(r, isSuffix)
  {
    var cut := TruncLoop(Clean(s, isSuffix), 3, isSuffix);
    PruneFacts(s, cut, isSuffix, legacy);
    Prune(cut, isSuffix, legacy, 0, [])
  }

  /** `simplifySet(s, isSuffix)`: ANDs the trigrams of the cleaned set into the query and
      returns it with the simplified set. */
  function SimplifySet(query: Query, s: seq<string>, isSuffix: bool, legacy: bool): (Query, seq<string>)
  {
    (AndTrigrams(query, Clean(s, isSuffix)), SimplifiedSet(s, isSuffix, legacy))
  }

  lemma PruneFacts(s: seq<string>, cut: seq<string>, isSuffix: bool, legacy: bool)
    requires cut == TruncLoop(Clean(s, isSuffix), 3, isSuffix)
    ensures var kept := Prune(cut, isSuffix, legacy, 0, []);
      && Sorted(kept, isSuffix) && |kept| <= MaxSet
      && (forall x | x in kept :: |x| <= 2)
      && (!legacy ==> forall x | x in s :: CoveredBy(x, kept, isSuffix))
      && (!legacy ==> Irredundant(kept, isSuffix))
      && (legacy ==> Chained(kept, isSuffix))
  {
    var t := Clean(s, isSuffix);
    var kept := Prune(cut, isSuffix, legacy, 0, []);
    PruneSubList(cut, isSuffix, legacy, 0, []);
    if legacy {
      PruneLegacyChain(cut, isSuffix, 0, []);
    } else {
      PruneIrredundant(cut, isSuffix, 0, []);
      PruneCovers(cut, isSuffix, 0, []);
      forall x | x in s ensures CoveredBy(x, kept, isSuffix) {
        assert x in Elems(t);
        var y :| y in cut && Extends(x, y, isSuffix);
        assert CoveredBy(y, kept, isSuffix);
        var k :| k in kept && Extends(y, k, isSuffix);
        ExtendsTransitive(k, y, x, isSuffix);
      }
    }
    forall x | x in kept ensures |x| <= 2 {
      assert x in cut[0..];
    }
  }

  /** A set already in simplified shape only goes through the redundancy pass. */
  lemma SimplifiedSetOfShort(t: seq<string>, isSuffix: bool, legacy: bool)
    requires SetSimplified(t, isSuffix)
    ensures SimplifiedSet(t, isSuffix, legacy) == Prune(t, isSuffix, legacy, 0, [])
  {
    CleanIdempotent(t, isSuffix);
    TruncLoopShort(t, isSuffix);
  }

  lemma PairSimplified()
    ensures SetSimplified(["ab", "cd"], false)
  {
    var t := ["ab", "cd"];
    assert Key("ab", false) == "ab" && Key("cd", false) == "cd";
    assert LexLess("ab", "cd");
    assert KeyLess(t[0], t[1], false);
  }

  lemma CdLacksAb()
    ensures !IsPrefix("ab", "cd")
  {
    assert "cd"[..2][0] == 'c';
  }

  lemma PairLegacyPrune()
    ensures Prune(["ab", "cd"], false, true, 0, []) == ["ab"]
  {
    var t := ["ab", "cd"];
    CdLacksAb();
    assert Prune(t, false, true, 1, ["ab"]) == Prune(t, false, true, 2, ["ab"]);
  }

  /** The older pass keeps only strings that extend the first one: of the prefixes
      "ab" and "cd", "cd" is dropped and no kept prefix is a prefix of it. */
  lemma LegacyPruneLosesCoverage()
    ensures !CoveredBy("cd", SimplifiedSet(["ab", "cd"], false, true), false)
  {
    PairSimplified();
    SimplifiedSetOfShort(["ab", "cd"], false, true);
    PairLegacyPrune();
    CdLacksAb();
  }

  /** The flushed exact strings' contribution to the prefix and suffix sets: each string
      itself when shorter than 3, otherwise its first (last) two characters. */
  function FlushPrefixes(exact: seq<string>): (r: seq<string>)
    ensures |r| == |exact|
    ensures forall i | 0 <= i < |exact| :: IsPrefix(r[i], exact[i])
  {
    seq(|exact|, i requires 0 <= i < |exact| => if |exact[i]| < 3 then exact[i] else exact[i][..2])
  }

  function FlushSuffixes(exact: seq<string>): (r: seq<string>)
    ensures |r| == |exact|
    ensures forall i | 0 <= i < |exact| :: IsSuffix(r[i], exact[i])
  {
    seq(|exact|, i requires 0 <= i < |exact| =>
      if |exact[i]| < 3 then exact[i] else exact[i][|exact[i]| - 2..])
  }

  /** The flush rule of `simplify`: too many exact strings, or long enough ones. */
  predicate Flushes(exact: seq<string>, force: bool)
  {
    |exact| > MaxExact || (MinLen(exact) >= 3 && force) || MinLen(exact) >= 4
  }

  /** A prefix or suffix set in the shape `simplifySet` leaves it. */
  predicate SetSimplified(s: seq<string>, isSuffix: bool)
  {
    Sorted(s, isSuffix) && |s| <= MaxSet && forall x | x in s :: |x| <= 2
  }

  function SimplifySets(info: Info, legacy: bool): (r: Info)
    requires !Have(info.exact)
    ensures SetSimplified(r.prefix, false) && SetSimplified(r.suffix, true)
    ensures r.exact == info.exact && r.canEmpty == info.canEmpty
  {
    var (m1, p) := SimplifySet(info.query, info.prefix, false, legacy);
    var (m2, s) := SimplifySet(m1, info.suffix, true, legacy);
    info.(prefix := p, suffix := s, query := m2)
  }

  /** `simplify(force)`: cleans the exact set and, when the flush rule fires, moves it into
      the query and the prefix/suffix sets; without an exact set, simplifies those sets. */
  function Simplify(info: Info, force: bool, legacy: bool): (r: Info)
    ensures r.canEmpty == info.canEmpty
    ensures Have(r.exact) <==> Have(info.exact) && !Flushes(Clean(info.exact, false), force)
    ensures Have(r.exact) ==>
      && r.exact == Clean(info.exact, false) && |r.exact| <= MaxExact
      && MinLen(r.exact) < (if force then 3 else 4)
      && r.prefix == info.prefix && r.suffix == info.suffix && r.query == info.query
    ensures !Have(r.exact) ==> r.exact == [] && SetSimplified(r.prefix, false) && SetSimplified(r.suffix, true)
  {
    var exact := Clean(info.exact, false);
    ElemsEmpty(exact);
    ElemsEmpty(info.exact);
    if Flushes(exact, force) then
      var m := if Have(exact) then AndTrigrams(info.query, exact) else info.query;
      SimplifySets(Info(info.canEmpty, [], info.prefix + FlushPrefixes(exact),
                        info.suffix + FlushSuffixes(exact), m), legacy)
    else if !Have(exact) then
      SimplifySets(info.(exact := exact), legacy)
    else
      info.(exact := exact)
  }

  /** The shape `simplify` leaves an info in: a sorted exact set of at most `MaxExact`
      strings, or else simplified prefix and suffix sets. */
  predicate Bounded(info: Info)
  {
    if Have(info.exact) then Sorted(info.exact, false) && |info.exact| <= MaxExact
    else SetSimplified(info.prefix, false) && SetSimplified(info.suffix, true)
  }

  /** `concat(x, y)` before its final `simplify(False)`. `canEmpty` keeps its default, false. */
  function ConcatRaw(x: Info, y: Info): Info
  {
    var bothExact := Have(x.exact) && Have(y.exact);
    Info(false, if bothExact then Cross(x.exact, y.exact, false) else [],
         if bothExact then [] else ConcatPrefixes(x, y),
         if bothExact then [] else ConcatSuffixes(x, y),
         ConcatMatch(x, y))
  }

  /** The prefixes of `xy` when not both sides are exact. */
  function ConcatPrefixes(x: Info, y: Info): seq<string>
  {
    if Have(x.exact) then Cross(x.exact, y.prefix, false)
    else if x.canEmpty then Union(x.prefix, y.prefix, false)
    else x.prefix
  }

  /** The suffixes of `xy` when not both sides are exact. */
  function ConcatSuffixes(x: Info, y: Info): seq<string>
  {
    if Have(y.exact) then Cross(x.suffix, y.exact, true)
    else if y.canEmpty then Union(y.suffix, x.suffix, true)
    else y.suffix
  }

  /** Whether `concat` adds the trigrams of the strings spanning the junction. */
  predicate JunctionUsed(x: Info, y: Info)
  {
    !Have(x.exact) && !Have(y.exact) && StringSet.Size(x.suffix) <= MaxSet &&
    StringSet.Size(y.prefix) <= MaxSet && MinLen(x.suffix) + MinLen(y.prefix) >= 3
  }

  /** The query of `xy`: both queries, and the junction strings' trigrams when used. */
  function ConcatMatch(x: Info, y: Info): Query
  {
    var m := And(x.query, y.query);
    if JunctionUsed(x, y) then AndTrigrams(m, Cross(x.suffix, y.prefix, false)) else m
  }

  /** `concat(x, y)`: the info for `xy`. */
  function Concat(x: Info, y: Info, legacy: bool): (r: Info)
    ensures Bounded(r) && !r.canEmpty
    ensures Have(x.exact) && Have(y.exact) && !Flushes(Cross(x.exact, y.exact, false), false) ==>
      r.exact == Cross(x.exact, y.exact, false)
    ensures !(Have(x.exact) && Have(y.exact)) ==> r.exact == []
  {
    var xy := ConcatRaw(x, y);
    CleanIdempotent(xy.exact, false);
    Simplify(xy, false, legacy)
  }

  /** `alternate(x, y)` before its final `simplify(False)`. */
  function AlternateRaw(x: Info, y: Info): Info
  {
    var bothExact := Have(x.exact) && Have(y.exact);
    Info(x.canEmpty || y.canEmpty, if bothExact then Union(x.exact, y.exact, false) else [],
         if bothExact then [] else AlternateSet(x, y, false),
         if bothExact then [] else AlternateSet(x, y, true),
         AlternateMatch(x, y))
  }

  /** The prefix (suffix) set of `x|y` when not both sides are exact: an exact side
      contributes its exact strings. */
  function AlternateSet(x: Info, y: Info, isSuffix: bool): seq<string>
  {
    var a := if Have(x.exact) then x.exact else if isSuffix then x.suffix else x.prefix;
    var b := if Have(y.exact) then y.exact else if isSuffix then y.suffix else y.prefix;
    Union(a, b, isSuffix)
  }

  /** The query of `x|y`: an exact side alone first has its exact trigrams ANDed in. */
  function AlternateMatch(x: Info, y: Info): Query
  {
    if Have(x.exact) && Have(y.exact) then Or(x.query, y.query)
    else Or(AddExact(x).query, AddExact(y).query)
  }

  /** `alternate(x, y)`: the info for `x|y`. */
  function Alternate(x: Info, y: Info, legacy: bool): (r: Info)
    ensures Bounded(r)
    ensures r.canEmpty == (x.canEmpty || y.canEmpty)
    ensures Have(x.exact) && Have(y.exact) && !Flushes(Union(x.exact, y.exact, false), false) ==>
      r.exact == Union(x.exact, y.exact, false)
    ensures !(Have(x.exact) && Have(y.exact)) ==> r.exact == []
  {
    var xy := AlternateRaw(x, y);
    CleanIdempotent(xy.exact, false);
    Simplify(xy, false, legacy)
  }

  /** `x+` before `simplify(False)`: an exact set becomes both the prefix and the suffix set. */
  function PlusInfo(x: Info): (r: Info)
    ensures !Have(r.exact)
    ensures Have(x.exact) ==> r.prefix == x.exact && r.suffix == x.exact
    ensures !Have(x.exact) ==> r == x
    ensures r.query == x.query && r.canEmpty == x.canEmpty
  {
    if Have(x.exact) then x.(exact := [], prefix := x.exact, suffix := x.exact) else x
  }

  /** `analyze(re)`. Node kinds the analysis has no case for (character classes, the
      parser's wildcard, counted quantifiers, a `REPEAT` whose minimum is not 0) reach
      `simplify` with no query and fail there calling a method on `None`. */
  function Analyze(re: Regex, legacy: bool): (r: Result<Info>)
    ensures r.Err? ==> r.error == AttributeError
    decreases re, 1
  {
    match re
    case NoMatch => Ok(NoMatchInfo())
    case EmptyWidth(_) => Ok(EmptyString())
    case Literal(v) => Ok(Simplify(Info(false, [v], [], [], QAll), false, legacy))
    case AnyChar(_) => Ok(AnyCharInfo())
    case Capture(body) => Analyze(body, legacy)
    case Concat(subs) =>
      if |subs| == 0 then Ok(EmptyString())
      else
        var infos :- AnalyzeParts(re, legacy);
        Ok(FoldInfos(infos, true, legacy))
    case Alt(subs) =>
      if |subs| == 0 then Ok(NoMatchInfo())
      else
        var infos :- AnalyzeParts(re, legacy);
        Ok(FoldInfos(infos, false, legacy))
    case Repetition(q, body) =>
      if q == Opt then
        var x :- Analyze(body, legacy);
        Ok(Alternate(x, EmptyString(), legacy))
      else if q == Plus then
        var x :- Analyze(body, legacy);
        Ok(Simplify(PlusInfo(x), false, legacy))
      else if q == Star then Ok(AnyMatch())
      else Err(AttributeError)
    case Repeat(min, _) => if min == Some(0) then Ok(AnyMatch()) else Err(AttributeError)
    case Wildcard => Err(AttributeError)
    case CharClass(_) => Err(AttributeError)
  }

  /** The infos of the parts of a concatenation or union, left to right; the first part
      that fails makes the whole list fail. */
  function AnalyzeParts(re: Regex, legacy: bool): (r: Result<seq<Info>>)
    requires re.Concat? || re.Alt?
    ensures r.Ok? <==> forall k | 0 <= k < |re.subs| :: Analyze(re.subs[k], legacy).Ok?
    ensures r.Ok? ==> |r.value| == |re.subs|
    ensures r.Ok? ==> forall k | 0 <= k < |re.subs| ::
      Analyze(re.subs[k], legacy).Ok? && r.value[k] == Analyze(re.subs[k], legacy).value
    ensures r.Err? ==> r.error == AttributeError
    decreases re, 0
  {
    var rs := seq(|re.subs|, k requires 0 <= k < |re.subs| => Analyze(re.subs[k], legacy));
    assert forall k | 0 <= k < |rs| :: rs[k] == Analyze(re.subs[k], legacy);
    Collect(rs)
  }

  /** `fold(f, subs, zero)` for a non-empty list, over the parts' infos: the first info,
      then `f` applied left to right (`concat` for a concatenation, `alternate` for a
      union). */
  function FoldInfos(infos: seq<Info>, isConcat: bool, legacy: bool): (r: Info)
    requires |infos| >= 1
  {
    if |infos| == 1 then infos[0]
    else
      var acc := FoldInfos(infos[..|infos| - 1], isConcat, legacy);
      var x := infos[|infos| - 1];
      if isConcat then Concat(acc, x, legacy) else Alternate(acc, x, legacy)
  }

  /** Every info the analysis produces is in the shape `simplify` leaves it: at most
      `MaxExact` exact strings, or prefix/suffix sets of at most `MaxSet` strings of at
      most two characters. */
  lemma {:induction false} AnalyzeBounded(re: Regex, legacy: bool)
    requires Analyze(re, legacy).Ok?
    ensures Bounded(Analyze(re, legacy).value)
    decreases re, 1
  {
    match re
    case Capture(body) =>
      AnalyzeBounded(body, legacy);
    case Concat(subs) =>
      if |subs| > 0 {
        PartsBounded(re, legacy);
      }
    case Alt(subs) =>
      if |subs| > 0 {
        PartsBounded(re, legacy);
      }
    case _ =>
  }

  /** The concatenation and union cases of `AnalyzeBounded`. */
  lemma {:induction false} PartsBounded(re: Regex, legacy: bool)
    requires (re.Concat? || re.Alt?) && |re.subs| > 0 && Analyze(re, legacy).Ok?
    ensures Bounded(Analyze(re, legacy).value)
    decreases re, 0
  {
    var infos := AnalyzeParts(re, legacy).value;
    assert Analyze(re, legacy).value == FoldInfos(infos, re.Concat?, legacy);
    AnalyzeBounded(re.subs[0], legacy);
    FoldBounded(infos, re.Concat?, legacy);
  }

  lemma FoldBounded(infos: seq<Info>, isConcat: bool, legacy: bool)
    requires |infos| >= 1 && Bounded(infos[0])
    ensures Bounded(FoldInfos(infos, isConcat, legacy))
  {
  }

  /** `regexpQuery(re)`: analyse, force a final flush, and AND in the exact strings' trigrams. */
  function RegexpQuery(re: Regex, legacy: bool): (r: Result<Query>)
    ensures r.Ok? <==> Analyze(re, legacy).Ok?
  {
    var info :- Analyze(re, legacy);
    Ok(AddExact(Simplify(info, true, legacy)).query)
  }
}
