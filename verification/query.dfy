/**
 The trigram query algebra: a Query is a boolean formula over trigrams that
 over-approximates a regular expression. `Eval` gives its meaning against the
 set of trigrams a document contains; the combinators `And`/`Or` simplify as
 they build, and `Implies` is a cheap, sound (possibly incomplete) entailment check.
 */
module QueryAlgebra {
  import opened Strings
  import opened StringSet

  datatype Op = QAnd | QOr

  /** `QAll` matches everything, `QNone` nothing; a `Node` requires all (QAnd) or
      some (QOr) of its trigrams and sub-queries. */
  datatype Query = QAll | QNone | Node(op: Op, trigram: seq<string>, sub: seq<Query>)

  /** Meaning of a query for a document whose trigram set is `present`. */
  predicate Eval(q: Query, present: set<string>)
  {
    match q
    case QAll => true
    case QNone => false
    case Node(QAnd, t, s) =>
      (forall x | x in t :: x in present) && (forall i | 0 <= i < |s| :: Eval(s[i], present))
    case Node(QOr, t, s) =>
      (exists x | x in t :: x in present) || (exists i | 0 <= i < |s| :: Eval(s[i], present))
  }

  /** Number of trigrams plus number of nodes: the measure the combinators shrink. */
  function Size(q: Query): nat
    decreases q, 1, 0
  {
    match q
    case Node(_, t, _) => 1 + |t| + SizeFrom(q, 0)
    case _ => 1
  }

  function SizeFrom(q: Query, i: nat): nat
    requires q.Node? && i <= |q.sub|
    decreases q, 0, |q.sub| - i
  {
    if i == |q.sub| then 0 else Size(q.sub[i]) + SizeFrom(q, i + 1)
  }

  lemma {:induction false} SizeFromBound(q: Query, i: nat, j: nat)
    requires q.Node? && i <= j < |q.sub|
    ensures Size(q.sub[j]) <= SizeFrom(q, i)
    decreases j - i
  {
    if i < j {
      SizeFromBound(q, i + 1, j);
    }
  }

  lemma {:induction false} SizeFromSameSubs(q: Query, r: Query, i: nat)
    requires q.Node? && r.Node? && q.sub == r.sub && i <= |q.sub|
    ensures SizeFrom(q, i) == SizeFrom(r, i)
    decreases |q.sub| - i
  {
    if i < |q.sub| {
      SizeFromSameSubs(q, r, i + 1);
    }
  }

  /** Every query that is a proper part of a node is smaller than the node. */
  lemma SubSmaller(q: Query, j: nat)
    requires q.Node? && j < |q.sub|
    ensures Size(q.sub[j]) < Size(q)
  {
    SizeFromBound(q, 0, j);
  }

  predicate IsAtom(q: Query)
  {
    q.Node? && |q.trigram| == 1 && |q.sub| == 0
  }

  predicate HasOp(q: Query, op: Op)
  {
    q.Node? && q.op == op
  }

  function Other(op: Op): Op
  {
    if op == QAnd then QOr else QAnd
  }

  /** Drops a node wrapping a single sub-query and no trigrams. */
  function Unwrap(q: Query): (r: Query)
    ensures forall present :: Eval(r, present) == Eval(q, present)
    ensures Size(r) <= Size(q)
  {
    if q.Node? && |q.trigram| == 0 && |q.sub| == 1 then
      SubSmaller(q, 0);
      q.sub[0]
    else q
  }

  /** `trigramsImply(t, q)`: having every trigram of `t` is enough for `q`. */
  predicate TrigramsImply(t: seq<string>, q: Query)
  {
    match q
    case Node(QOr, tr, s) =>
      (exists i | 0 <= i < |s| :: TrigramsImply(t, s[i])) || (exists x | x in t :: x in tr)
    case Node(QAnd, tr, s) =>
      (forall i | 0 <= i < |s| :: TrigramsImply(t, s[i])) && IsSubsetOf(tr, t)
    case _ => false
  }

  lemma {:induction false} TrigramsImplySound(t: seq<string>, q: Query, present: set<string>)
    requires TrigramsImply(t, q)
    requires forall x | x in t :: x in present
    ensures Eval(q, present)
  {
    match q
    case Node(QOr, tr, s) =>
      if i :| 0 <= i < |s| && TrigramsImply(t, s[i]) {
        TrigramsImplySound(t, s[i], present);
      }
    case Node(QAnd, tr, s) =>
      forall i | 0 <= i < |s| ensures Eval(s[i], present) {
        TrigramsImplySound(t, s[i], present);
      }
      assert forall x :: x in tr ==> x in Elems(t);
  }

  /** `q.implies(r)`: a sound, incomplete test that q entails r. */
  predicate Implies(q: Query, r: Query)
  {
    if q.QNone? || r.QAll? then true
    else if q.QAll? || r.QNone? then false
    else if q.op == QAnd || (q.op == QOr && |q.trigram| == 1 && |q.sub| == 0) then TrigramsImply(q.trigram, r)
    else q.op == QOr && r.op == QOr && |q.trigram| > 0 && |q.sub| == 0 && IsSubsetOf(q.trigram, r.trigram)
  }

  /** No false positives: whenever `Implies(q, r)`, every document matching q matches r. */
  lemma ImpliesSound(q: Query, r: Query, present: set<string>)
    requires Implies(q, r) && Eval(q, present)
    ensures Eval(r, present)
  {
    if q.QNone? || r.QAll? {
    } else if q.op == QAnd {
      TrigramsImplySound(q.trigram, r, present);
    } else if q.op == QOr && |q.trigram| == 1 && |q.sub| == 0 {
      assert q.trigram[0] in present;
      assert forall x | x in q.trigram :: x in present;
      TrigramsImplySound(q.trigram, r, present);
    } else {
      var x :| x in q.trigram && x in present;
      assert x in Elems(q.trigram);
    }
  }

  /** None implies everything, everything implies All; All implies only All, and only None implies None. */
  lemma ImpliesBaseCases(q: Query)
    ensures Implies(QNone, q) && Implies(q, QAll)
    ensures Implies(QAll, q) <==> q == QAll
    ensures Implies(q, QNone) <==> q == QNone
  {
  }

  /** The combinator would reach the factoring step: neither operand implies the other,
      neither has the requested op, and they are not two single-trigram atoms. */
  predicate Factors(q: Query, r: Query, op: Op)
  {
    && !Implies(q, r) && !Implies(r, q)
    && q.Node? && r.Node? && q.op != op && r.op != op
    && !(IsAtom(q) && IsAtom(r))
  }

  /** The steps of `andOr` before factoring, on already unwrapped operands. */
  function Merge(q: Query, r: Query, op: Op): Query
    requires !Factors(q, r, op)
  {
    if Implies(q, r) then (if op == QAnd then q else r)
    else if Implies(r, q) then (if op == QAnd then r else q)
    else if q.op == op && (r.op == op || IsAtom(r)) then
      Node(op, Union(q.trigram, r.trigram, false), q.sub + r.sub)
    else if r.op == op && IsAtom(q) then
      Node(op, Union(r.trigram, q.trigram, false), r.sub)
    else if IsAtom(q) && IsAtom(r) then
      Node(op, q.trigram + r.trigram, [])
    else if q.op == op then
      Node(op, q.trigram, q.sub + [r])
    else
      // here r.op == op, since the operands do not factor
      Node(op, r.trigram, r.sub + [q])
  }

  /** The elements of `a` that are (keep == true) or are not (keep == false) in `b`, in order. */
  function Filter(a: seq<string>, b: seq<string>, keep: bool): (r: seq<string>)
    ensures forall x :: x in r <==> x in a && ((x in b) == keep)
    ensures |r| <= |a|
    ensures !keep && (exists x :: x in a && x in b) ==> |r| < |a|
  {
    if |a| == 0 then []
    else
      var rest := Filter(a[1..], b, keep);
      assert forall x :: x in a <==> x == a[0] || x in a[1..];
      if (a[0] in b) == keep then [a[0]] + rest else rest
  }

  /** The trigrams two operands share, sorted. */
  function Common(q: Query, r: Query): (c: seq<string>)
    requires q.Node? && r.Node?
    ensures forall x | x in c :: x in q.trigram && x in r.trigram
    ensures forall x | x in q.trigram && x in r.trigram :: x in c
  {
    var c := Clean(Filter(q.trigram, r.trigram, true), false);
    assert forall x :: x in c <==> x in Elems(c);
    c
  }

  /** An operand with the trigrams `common` taken out. */
  function Rest(q: Query, common: seq<string>): (r: Query)
    requires q.Node?
    ensures r.Node? && r.op == q.op && r.sub == q.sub
    ensures forall x :: x in r.trigram <==> x in q.trigram && x !in common
  {
    var t := Clean(Filter(q.trigram, common, false), false);
    assert forall x :: x in t <==> x in Elems(t);
    Node(q.op, t, q.sub)
  }

  lemma RestSmaller(q: Query, common: seq<string>)
    requires q.Node? && (forall x | x in common :: x in q.trigram) && |common| > 0
    ensures Size(Rest(q, common)) < Size(q)
  {
    var f := Filter(q.trigram, common, false);
    assert common[0] in q.trigram && common[0] in common;
    assert |Clean(f, false)| <= |f| < |q.trigram|;
    SizeFromSameSubs(q, Rest(q, common), 0);
  }

  /** `q AND r` (op == QAnd) or `q OR r` (op == QOr), simplifying as it goes. */
  function AndOr(q0: Query, r0: Query, op: Op): Query
    decreases Size(q0) + Size(r0)
  {
    var q := Unwrap(q0);
    var r := Unwrap(r0);
    if !Factors(q, r, op) then Merge(q, r, op)
    else
      // An AND of ORs or an OR of ANDs: factor out the common trigrams.
      var common := Common(q, r);
      if |common| > 0 then
        RestSmaller(q, common);
        RestSmaller(r, common);
        var s := AndOr(Rest(q, common), Rest(r, common), op);
        // t.andOr(s, t.op) with t carrying t.op == Other(op) never factors again
        Merge(Node(Other(op), common, []), Unwrap(s), Other(op))
      else
        Node(op, [], [Rest(q, common), Rest(r, common)])
  }

  /** `q.q_and(r)` */
  function And(q: Query, r: Query): Query
  {
    AndOr(q, r, QAnd)
  }

  /** `q.q_or(r)` */
  function Or(q: Query, r: Query): Query
  {
    AndOr(q, r, QOr)
  }

  /** The truth value of `op` applied to two truth values. */
  predicate Apply(op: Op, a: bool, b: bool)
  {
    if op == QAnd then a && b else a || b
  }

  /** A node's meaning depends only on the set of its trigrams. */
  lemma EvalTrigramSet(op: Op, t1: seq<string>, t2: seq<string>, s: seq<Query>, present: set<string>)
    requires Elems(t1) == Elems(t2)
    ensures Eval(Node(op, t1, s), present) == Eval(Node(op, t2, s), present)
  {
    assert forall x :: x in t1 <==> x in Elems(t1);
    assert forall x :: x in t2 <==> x in Elems(t2);
  }

  /** A node with one trigram and no sub-query means the same under either op. */
  lemma EvalAtom(q: Query, op: Op, present: set<string>)
    requires IsAtom(q)
    ensures Eval(q, present) == Eval(Node(op, q.trigram, []), present) == (q.trigram[0] in present)
  {
    assert forall x :: x in q.trigram <==> x == q.trigram[0];
    assert Eval(Node(QAnd, q.trigram, []), present) == (q.trigram[0] in present);
    assert Eval(Node(QOr, q.trigram, []), present) == (q.trigram[0] in present);
  }

  /** Splits a node into its trigrams and its sub-queries. */
  lemma EvalNodeParts(op: Op, t: seq<string>, s: seq<Query>, present: set<string>)
    ensures Eval(Node(op, t, s), present) ==
      Apply(op, Eval(Node(op, t, []), present), Eval(Node(op, [], s), present))
  {
  }

  /** Appending sub-queries combines them with the node's own op. */
  lemma EvalConcatSubs(op: Op, t: seq<string>, s1: seq<Query>, s2: seq<Query>, present: set<string>)
    ensures Eval(Node(op, t, s1 + s2), present) ==
      Apply(op, Eval(Node(op, t, s1), present), Eval(Node(op, [], s2), present))
  {
    var s := s1 + s2;
    if op == QAnd {
      if (forall i | 0 <= i < |s1| :: Eval(s1[i], present)) && (forall i | 0 <= i < |s2| :: Eval(s2[i], present)) {
        forall i | 0 <= i < |s| ensures Eval(s[i], present) {
          if i >= |s1| { assert s[i] == s2[i - |s1|]; }
        }
      }
      if forall i | 0 <= i < |s| :: Eval(s[i], present) {
        forall i | 0 <= i < |s2| ensures Eval(s2[i], present) { assert s[i + |s1|] == s2[i]; }
        forall i | 0 <= i < |s1| ensures Eval(s1[i], present) { assert s[i] == s1[i]; }
      }
    } else {
      if i :| 0 <= i < |s| && Eval(s[i], present) {
        if i >= |s1| { assert s2[i - |s1|] == s[i]; } else { assert s1[i] == s[i]; }
      }
      if i :| 0 <= i < |s2| && Eval(s2[i], present) { assert s[i + |s1|] == s2[i]; }
      if i :| 0 <= i < |s1| && Eval(s1[i], present) { assert s[i] == s1[i]; }
    }
  }

  /** Trigram lists combine with the node's op. */
  lemma EvalUnionTrigrams(op: Op, t1: seq<string>, t2: seq<string>, s: seq<Query>, present: set<string>)
    ensures Eval(Node(op, Union(t1, t2, false), s), present) ==
      Apply(op, Eval(Node(op, t1, s), present), Eval(Node(op, t2, []), present))
  {
    var u := Union(t1, t2, false);
    assert forall x :: x in u <==> x in Elems(u);
    assert forall x :: x in t1 <==> x in Elems(t1);
    assert forall x :: x in t2 <==> x in Elems(t2);
    EvalNodeParts(op, u, s, present);
    EvalNodeParts(op, t1, s, present);
  }

  lemma EvalConcatTrigrams(op: Op, t1: seq<string>, t2: seq<string>, present: set<string>)
    ensures Eval(Node(op, t1 + t2, []), present) ==
      Apply(op, Eval(Node(op, t1, []), present), Eval(Node(op, t2, []), present))
  {
    assert forall x :: x in t1 + t2 <==> x in t1 || x in t2;
  }

  /** A node holding just one sub-query means that sub-query. */
  lemma EvalSingleSub(op: Op, q: Query, present: set<string>)
    ensures Eval(Node(op, [], [q]), present) == Eval(q, present)
  {
    assert [q][0] == q;
  }

  /** The merging steps compute the requested boolean operation. */
  lemma MergeCorrect(q: Query, r: Query, op: Op, present: set<string>)
    requires !Factors(q, r, op)
    ensures Eval(Merge(q, r, op), present) == Apply(op, Eval(q, present), Eval(r, present))
  {
    if Implies(q, r) {
      if Eval(q, present) { ImpliesSound(q, r, present); }
    } else if Implies(r, q) {
      if Eval(r, present) { ImpliesSound(r, q, present); }
    } else if q.op == op && (r.op == op || IsAtom(r)) {
      MergeSameOp(q, r, op, present);
    } else if r.op == op && IsAtom(q) {
      EvalUnionTrigrams(op, r.trigram, q.trigram, r.sub, present);
      EvalAtom(q, op, present);
    } else if IsAtom(q) && IsAtom(r) {
      EvalConcatTrigrams(op, q.trigram, r.trigram, present);
      EvalAtom(q, op, present);
      EvalAtom(r, op, present);
    } else if q.op == op {
      MergeAppend(q, r, op, present);
    } else {
      MergeAppend(r, q, op, present);
    }
  }

  /** Two nodes of the requested op, or such a node and an atom, merge into one node. */
  lemma MergeSameOp(q: Query, r: Query, op: Op, present: set<string>)
    requires q.Node? && r.Node? && q.op == op && (r.op == op || IsAtom(r))
    ensures Eval(Node(op, Union(q.trigram, r.trigram, false), q.sub + r.sub), present) ==
      Apply(op, Eval(q, present), Eval(r, present))
  {
    EvalUnionTrigrams(op, q.trigram, r.trigram, q.sub + r.sub, present);
    EvalConcatSubs(op, q.trigram, q.sub, r.sub, present);
    if r.op == op {
      EvalNodeParts(op, r.trigram, r.sub, present);
    } else {
      EvalAtom(r, op, present);
      assert Eval(Node(op, [], r.sub), present) == (op == QAnd);
    }
  }

  /** A node of the requested op takes the other operand as one more sub-query. */
  lemma MergeAppend(q: Query, r: Query, op: Op, present: set<string>)
    requires q.Node? && q.op == op
    ensures Eval(Node(op, q.trigram, q.sub + [r]), present) == Apply(op, Eval(q, present), Eval(r, present))
  {
    EvalConcatSubs(op, q.trigram, q.sub, [r], present);
    EvalSingleSub(op, r, present);
  }

  /** Removing trigrams `c` (all present in the node) splits the node into c and the rest. */
  lemma EvalFactor(q: Query, c: seq<string>, present: set<string>)
    requires q.Node? && forall x | x in c :: x in q.trigram
    ensures Eval(q, present) ==
      Apply(q.op, Eval(Node(q.op, c, []), present), Eval(Rest(q, c), present))
  {
    var rest := Rest(q, c);
    assert forall x :: x in q.trigram <==> x in rest.trigram || x in c;
    EvalNodeParts(q.op, q.trigram, q.sub, present);
    EvalNodeParts(q.op, rest.trigram, q.sub, present);
  }

  lemma AndOrFactored(q0: Query, r0: Query, op: Op)
    requires Factors(Unwrap(q0), Unwrap(r0), op)
    ensures var q, r := Unwrap(q0), Unwrap(r0);
      var common := Common(q, r);
      AndOr(q0, r0, op) ==
        if |common| > 0 then
          Merge(Node(Other(op), common, []), Unwrap(AndOr(Rest(q, common), Rest(r, common), op)), Other(op))
        else Node(op, [], [Rest(q, common), Rest(r, common)])
  {
  }

  /** `andOr` computes AND (op == QAnd) or OR (op == QOr) of its operands, for every document. */
  lemma {:induction false} AndOrCorrect(q0: Query, r0: Query, op: Op, present: set<string>)
    ensures Eval(AndOr(q0, r0, op), present) == Apply(op, Eval(q0, present), Eval(r0, present))
    decreases Size(q0) + Size(r0)
  {
    var q := Unwrap(q0);
    var r := Unwrap(r0);
    if !Factors(q, r, op) {
      MergeCorrect(q, r, op, present);
    } else {
      AndOrFactored(q0, r0, op);
      var common := Common(q, r);
      if |common| > 0 {
        RestSmaller(q, common);
        RestSmaller(r, common);
        AndOrCorrect(Rest(q, common), Rest(r, common), op, present);
        FactorCommonCorrect(q, r, op, AndOr(Rest(q, common), Rest(r, common), op), present);
      } else {
        FactorNoCommonCorrect(q, r, op, present);
      }
    }
  }

  /** Factoring with shared trigrams: (c OR q') AND (c OR r') == c OR (q' AND r'), and dually. */
  lemma FactorCommonCorrect(q: Query, r: Query, op: Op, s: Query, present: set<string>)
    requires Factors(q, r, op) && |Common(q, r)| > 0
    requires Eval(s, present) ==
      Apply(op, Eval(Rest(q, Common(q, r)), present), Eval(Rest(r, Common(q, r)), present))
    ensures Eval(Merge(Node(Other(op), Common(q, r), []), Unwrap(s), Other(op)), present) ==
      Apply(op, Eval(q, present), Eval(r, present))
  {
    var common := Common(q, r);
    var other := Other(op);
    assert q.op == other && r.op == other;
    EvalFactor(q, common, present);
    EvalFactor(r, common, present);
    MergeCorrect(Node(other, common, []), Unwrap(s), other, present);
  }

  /** Factoring without shared trigrams just nests both operands under the op. */
  lemma FactorNoCommonCorrect(q: Query, r: Query, op: Op, present: set<string>)
    requires q.Node? && r.Node? && |Common(q, r)| == 0
    ensures Eval(Node(op, [], [Rest(q, Common(q, r)), Rest(r, Common(q, r))]), present) ==
      Apply(op, Eval(q, present), Eval(r, present))
  {
    var common := Common(q, r);
    assert common == [];
    RestNothing(q, present);
    RestNothing(r, present);
    EvalPair(op, Rest(q, common), Rest(r, common), present);
  }

  lemma RestNothing(q: Query, present: set<string>)
    requires q.Node?
    ensures Eval(Rest(q, []), present) == Eval(q, present)
  {
    var q' := Rest(q, []);
    assert Elems(q.trigram) == Elems(q'.trigram);
    EvalTrigramSet(q.op, q.trigram, q'.trigram, q.sub, present);
  }

  lemma EvalPair(op: Op, a: Query, b: Query, present: set<string>)
    ensures Eval(Node(op, [], [a, b]), present) == Apply(op, Eval(a, present), Eval(b, present))
  {
    var s := [a, b];
    assert s[0] == a && s[1] == b;
    if op == QOr {
      if i :| 0 <= i < 2 && Eval(s[i], present) {
        assert i == 0 || i == 1;
      }
    }
  }

  /** `t.andOr(s, t.op)` for a node `t` of trigrams only is exactly one merge step. */
  lemma FactoredCallIsMerge(t: Query, s: Query)
    requires t.Node? && |t.trigram| > 0 && |t.sub| == 0
    ensures !Factors(t, Unwrap(s), t.op)
    ensures AndOr(t, s, t.op) == Merge(t, Unwrap(s), t.op)
  {
  }

  /** When one operand implies the other, AND keeps the stronger and OR the weaker. */
  lemma AndOrImplied(q: Query, r: Query)
    requires Implies(Unwrap(q), Unwrap(r))
    ensures And(q, r) == Unwrap(q) && Or(q, r) == Unwrap(r)
  {
  }

  /** `q AND All = q`, `q OR None = q`, `q AND None = None`, `q OR All = All` (up to unwrapping). */
  lemma AndOrIdentities(q: Query)
    ensures And(q, QAll) == Unwrap(q) && Or(q, QNone) == Unwrap(q)
    ensures And(q, QNone) == QNone && Or(q, QAll) == QAll
  {
    var u := Unwrap(q);
    if u != QNone {
      assert !Implies(u, QNone);
    }
  }

  /** Two nodes with the requested op merge into one: union of trigrams, concatenated subs. */
  lemma AndOrSameOp(q0: Query, r0: Query, op: Op)
    requires HasOp(Unwrap(q0), op) && HasOp(Unwrap(r0), op)
    requires !Implies(Unwrap(q0), Unwrap(r0)) && !Implies(Unwrap(r0), Unwrap(q0))
    ensures var q, r := Unwrap(q0), Unwrap(r0);
      AndOr(q0, r0, op) == Node(op, Union(q.trigram, r.trigram, false), q.sub + r.sub)
    ensures Sorted(AndOr(q0, r0, op).trigram, false)
    ensures Elems(AndOr(q0, r0, op).trigram) == Elems(Unwrap(q0).trigram) + Elems(Unwrap(r0).trigram)
  {
  }

  /** An AND of ORs (OR of ANDs) with shared trigrams: the shared ones move into a node of the
      other op, and neither remainder keeps any of them. */
  lemma AndOrFactorsCommon(q0: Query, r0: Query, op: Op)
    requires Factors(Unwrap(q0), Unwrap(r0), op)
    requires |Common(Unwrap(q0), Unwrap(r0))| > 0
    ensures var q, r := Unwrap(q0), Unwrap(r0);
      var common := Common(q, r);
      && Sorted(common, false)
      && Elems(common) == Elems(q.trigram) * Elems(r.trigram)
      && (forall x | x in Rest(q, common).trigram :: x !in r.trigram)
      && (forall x | x in Rest(r, common).trigram :: x !in q.trigram)
      && AndOr(q0, r0, op) ==
           Merge(Node(Other(op), common, []), Unwrap(AndOr(Rest(q, common), Rest(r, common), op)), Other(op))
  {
    AndOrFactored(q0, r0, op);
    var q, r := Unwrap(q0), Unwrap(r0);
    var f := Filter(q.trigram, r.trigram, true);
    assert Elems(Common(q, r)) == Elems(q.trigram) * Elems(r.trigram);
  }

  /** The AND of the sorted, deduplicated 3-windows of one string. */
  function WindowsQuery(s: string): (r: Query)
    ensures r.Node? && r.op == QAnd && r.sub == [] && Sorted(r.trigram, false)
    ensures forall x :: x in r.trigram <==> x in Windows(s)
  {
    var t := Clean(Windows(s), false);
    assert forall x :: x in t <==> x in Elems(t);
    Node(QAnd, t, [])
  }

  /** The loop of `andTrigrams`: ORs the window query of each string onto `acc`. */
  function OrWindowQueries(acc: Query, t: seq<string>): Query
    decreases |t|
  {
    if |t| == 0 then acc else OrWindowQueries(Or(acc, WindowsQuery(t[0])), t[1..])
  }

  /** Every 3-window of `s` is present. */
  predicate AllWindowsIn(s: string, present: set<string>)
  {
    forall x | x in Windows(s) :: x in present
  }

  lemma {:induction false} OrWindowQueriesCorrect(acc: Query, t: seq<string>, present: set<string>)
    ensures Eval(OrWindowQueries(acc, t), present) <==>
      Eval(acc, present) || exists i | 0 <= i < |t| :: AllWindowsIn(t[i], present)
    decreases |t|
  {
    if |t| > 0 {
      var acc' := Or(acc, WindowsQuery(t[0]));
      AndOrCorrect(acc, WindowsQuery(t[0]), QOr, present);
      assert Eval(WindowsQuery(t[0]), present) == AllWindowsIn(t[0], present);
      OrWindowQueriesCorrect(acc', t[1..], present);
      if i :| 0 <= i < |t| && AllWindowsIn(t[i], present) {
        if i > 0 { assert t[1..][i - 1] == t[i]; }
      }
      if i :| 0 <= i < |t| - 1 && AllWindowsIn(t[1..][i], present) {
        assert t[i + 1] == t[1..][i];
      }
    }
  }

  /** `q.andTrigrams(t)`: q AND (some string of t has all its trigrams), unless t is empty or
      holds a string shorter than 3, where no trigram is guaranteed and q comes back unchanged. */
  function AndTrigrams(q: Query, t: seq<string>): (r: Query)
    ensures |t| == 0 || MinLen(t) < 3 ==> r == q
  {
    if |t| == 0 || MinLen(t) < 3 then q
    else And(q, OrWindowQueries(QNone, t))
  }

  lemma AndTrigramsCorrect(q: Query, t: seq<string>, present: set<string>)
    ensures Eval(AndTrigrams(q, t), present) <==>
      Eval(q, present) &&
      (|t| == 0 || MinLen(t) < 3 || exists i | 0 <= i < |t| :: AllWindowsIn(t[i], present))
  {
    if !(|t| == 0 || MinLen(t) < 3) {
      AndOrCorrect(q, OrWindowQueries(QNone, t), QAnd, present);
      OrWindowQueriesCorrect(QNone, t, present);
    }
  }

  /** The older copy tests only `minLen(t) < 3`; on the empty list that is the same test. */
  lemma AndTrigramsGuardsAgree(t: seq<string>)
    ensures (|t| == 0 || MinLen(t) < 3) <==> MinLen(t) < 3
  {
  }

  /** A query with `op` written over it, as `q.op = op` does to a node or a constant. */
  function Retag(q: Query, op: Op): (r: Query)
    ensures r.Node? && r.op == op
    ensures q.Node? ==> r.trigram == q.trigram && r.sub == q.sub
  {
    match q
    case Node(_, t, s) => Node(op, t, s)
    case _ => Node(op, [], [])
  }

  /** `q.maybeRewrite(op)` as written: with a single sub-query, the local rebinding
      `q = q.sub[0]` makes `q.op = op` retag the sub-query and leaves the wrapper in place. */
  function MaybeRewriteAsWritten(q: Query, op: Op): (r: Query)
    ensures !q.Node? || |q.sub| + |q.trigram| > 1 ==> r == q
    ensures q.Node? && |q.sub| + |q.trigram| == 0 ==> r == (if q.op == QAnd then QAll else QNone)
    ensures q.Node? && |q.sub| == 1 && |q.trigram| == 0 ==> r == Node(q.op, [], [Retag(q.sub[0], op)])
  {
    if !q.Node? || |q.sub| + |q.trigram| > 1 then q
    else if |q.sub| + |q.trigram| == 0 then (if q.op == QAnd then QAll else QNone)
    else if |q.sub| == 1 then Node(q.op, [], [Retag(q.sub[0], op)])
    else Node(op, q.trigram, [])
  }

  /** The rewrite changes the meaning of an AND wrapping an OR of two trigrams. */
  lemma MaybeRewriteAsWrittenChangesMeaning()
    ensures var q := Node(QAnd, [], [Node(QOr, ["abc", "def"], [])]);
      Eval(q, {"abc"}) && !Eval(MaybeRewriteAsWritten(q, QAnd), {"abc"})
  {
    var inner := Node(QOr, ["abc", "def"], []);
    var q := Node(QAnd, [], [inner]);
    assert Eval(inner, {"abc"}) by { assert "abc" in inner.trigram; }
    assert [inner][0] == inner;
    var retagged := Node(QAnd, ["abc", "def"], []);
    assert !Eval(retagged, {"abc"}) by { assert "def" in retagged.trigram; }
    assert MaybeRewriteAsWritten(q, QAnd) == Node(QAnd, [], [retagged]);
    assert [retagged][0] == retagged;
  }

  /** `maybeRewrite` as its description promises: an empty node becomes its constant, a single
      sub-query replaces its wrapper, and only a single trigram takes the new op. */
  function MaybeRewrite(q: Query, op: Op): (r: Query)
    ensures forall present :: Eval(r, present) == Eval(q, present)
    ensures !q.Node? || |q.sub| + |q.trigram| > 1 ==> r == q
    ensures q.Node? && |q.sub| + |q.trigram| == 0 ==> r == (if q.op == QAnd then QAll else QNone)
    ensures IsAtom(q) ==> r == Node(op, q.trigram, [])
  {
    if !q.Node? || |q.sub| + |q.trigram| > 1 then q
    else if |q.sub| + |q.trigram| == 0 then (if q.op == QAnd then QAll else QNone)
    else if |q.sub| == 1 then EvalSingleSubAll(q); q.sub[0]
    else EvalAtomAll(q, op); Node(op, q.trigram, [])
  }

  lemma EvalSingleSubAll(q: Query)
    requires q.Node? && |q.trigram| == 0 && |q.sub| == 1
    ensures forall present :: Eval(q, present) == Eval(q.sub[0], present)
  {
    forall present ensures Eval(q, present) == Eval(q.sub[0], present) {
      EvalSingleSub(q.op, q.sub[0], present);
      assert q == Node(q.op, [], [q.sub[0]]);
    }
  }

  lemma EvalAtomAll(q: Query, op: Op)
    requires IsAtom(q)
    ensures forall present :: Eval(q, present) == Eval(Node(op, q.trigram, []), present)
  {
    forall present ensures Eval(q, present) == Eval(Node(op, q.trigram, []), present) {
      EvalAtom(q, op, present);
    }
  }

  function Quote(t: string): string
  {
    "\"" + t + "\""
  }

  /** The quoted trigrams, separated by `sep`. */
  function JoinQuoted(t: seq<string>, sep: string): string
    decreases |t|
  {
    if |t| == 0 then ""
    else if |t| == 1 then Quote(t[0])
    else Quote(t[0]) + sep + JoinQuoted(t[1..], sep)
  }

  /** `str(q)`: `+`, `-`, a quoted trigram, a space-separated AND, or a parenthesised OR. */
  function Show(q: Query): (r: string)
    ensures q == QNone ==> r == "-"
    ensures q == QAll ==> r == "+"
    ensures IsAtom(q) ==> r == Quote(q.trigram[0])
    ensures q.Node? && q.op == QOr && !IsAtom(q) ==> |r| >= 2 && r[0] == '(' && r[|r| - 1] == ')'
    decreases q, 1, 0
  {
    match q
    case QNone => "-"
    case QAll => "+"
    case Node(op, t, s) =>
      if |s| == 0 && |t| == 1 then Quote(t[0])
      else
        var open := if op == QAnd then "" else "(";
        var close := if op == QAnd then "" else ")";
        var sjoin := if op == QAnd then " " else ")|(";
        var tjoin := if op == QAnd then " " else "|";
        var subs := if |s| == 0 then "" else (if |t| > 0 then sjoin else "") + ShowSubs(q, 0, sjoin);
        open + JoinQuoted(t, tjoin) + subs + close
  }

  /** Two sub-queries alone: an AND joins them with a space, an OR brackets each and
      separates them with `|`. */
  lemma ShowTwoSubs(q: Query)
    requires q.Node? && q.trigram == [] && |q.sub| == 2
    ensures Show(q) == if q.op == QAnd then Show(q.sub[0]) + " " + Show(q.sub[1])
                       else "(" + Show(q.sub[0]) + ")|(" + Show(q.sub[1]) + ")"
  {
    ShowSubsOnly(q);
    ShowSubsPair(q, if q.op == QAnd then " " else ")|(");
  }

  lemma ShowSubsOnly(q: Query)
    requires q.Node? && q.trigram == [] && |q.sub| > 0
    ensures Show(q) == if q.op == QAnd then ShowSubs(q, 0, " ") else "(" + ShowSubs(q, 0, ")|(") + ")"
  {
    assert JoinQuoted(q.trigram, if q.op == QAnd then " " else "|") == "";
  }

  lemma ShowSubsPair(q: Query, sep: string)
    requires q.Node? && |q.sub| == 2
    ensures ShowSubs(q, 0, sep) == Show(q.sub[0]) + sep + Show(q.sub[1])
  {
    assert ShowSubs(q, 1, sep) == Show(q.sub[1]);
  }

  /** Trigrams alone (other than a single one): an AND separates the quoted trigrams with
      spaces and no brackets, an OR separates them with `|` inside one pair of brackets. */
  lemma ShowTrigrams(q: Query)
    requires q.Node? && q.sub == [] && |q.trigram| != 1
    ensures Show(q) == if q.op == QAnd then JoinQuoted(q.trigram, " ")
                       else "(" + JoinQuoted(q.trigram, "|") + ")"
  {
  }

  /** One trigram and one sub-query: the sub-query follows the trigram, after a space in an
      AND and as a second bracketed alternative in an OR. */
  lemma ShowTrigramAndSub(q: Query)
    requires q.Node? && |q.trigram| == 1 && |q.sub| == 1
    ensures Show(q) == if q.op == QAnd then Quote(q.trigram[0]) + " " + Show(q.sub[0])
                       else "(" + Quote(q.trigram[0]) + ")|(" + Show(q.sub[0]) + ")"
  {
    assert JoinQuoted(q.trigram, if q.op == QAnd then " " else "|") == Quote(q.trigram[0]);
  }

  /** The sub-queries from index `i` on, separated by `sep`. */
  function ShowSubs(q: Query, i: nat, sep: string): string
    requires q.Node? && i < |q.sub|
    decreases q, 0, |q.sub| - i
  {
    if i == |q.sub| - 1 then Show(q.sub[i]) else Show(q.sub[i]) + sep + ShowSubs(q, i + 1, sep)
  }

  /** Queries have no negation: a document with more trigrams matches at least as much. */
  lemma {:induction false} EvalMonotone(q: Query, s1: set<string>, s2: set<string>)
    requires s1 <= s2 && Eval(q, s1)
    ensures Eval(q, s2)
  {
    match q
    case QAll =>
    case QNone =>
    case Node(QAnd, t, s) =>
      forall i | 0 <= i < |s| ensures Eval(s[i], s2) {
        EvalMonotone(s[i], s1, s2);
      }
    case Node(QOr, t, s) =>
      if i :| 0 <= i < |s| && Eval(s[i], s1) {
        EvalMonotone(s[i], s1, s2);
      }
  }
}
