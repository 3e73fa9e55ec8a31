/**
 The RESET query builder: the parse tree is read as a finite set of strings (a literal
 is itself, concatenation crosses, alternation unites, and a repetition keeps one and
 two copies of each body string), and the query ORs together the AND of each string's
 trigrams.
 */
module ResetBuilder {
  import opened Wrappers
  import opened Strings
  import StringSet
  import opened QueryAlgebra
  import opened RegexAst

  /** `cross(s, t)`: every concatenation of a string of `s` with a string of `t`. */
  function Cross(s: set<string>, t: set<string>): (r: set<string>)
    ensures s == {} || t == {} ==> r == {}
    ensures forall z :: z in r <==> exists x, y :: x in s && y in t && z == x + y
  {
    set x, y | x in s && y in t :: x + y
  }

  /** The list version and the set version of `cross` hold the same strings. */
  lemma CrossAgrees(a: seq<string>, b: seq<string>, isSuffix: bool)
    ensures StringSet.Elems(StringSet.Cross(a, b, isSuffix)) == Cross(StringSet.Elems(a), StringSet.Elems(b))
  {
    var l, r := StringSet.Elems(StringSet.Cross(a, b, isSuffix)), Cross(StringSet.Elems(a), StringSet.Elems(b));
    forall z ensures z in l <==> z in r {
      if z in r {
        var x, y :| x in StringSet.Elems(a) && y in StringSet.Elems(b) && z == x + y;
        assert x in a && y in b;
      }
    }
  }

  /** Each string doubled. */
  function Doubled(s: set<string>): set<string>
  {
    set x | x in s :: x + x
  }

  /** Doubling is one-to-one. */
  lemma DoubleInjective(x: string, y: string)
    ensures x + x == y + y ==> x == y
  {
    if x + x == y + y {
      assert |x| == |y|;
      assert x == (x + x)[..|x|] && y == (y + y)[..|y|];
    }
  }

  /** Doubling is one-to-one, so it keeps the number of strings. */
  lemma {:induction false} DoubledSize(s: set<string>)
    ensures |Doubled(s)| == |s|
    decreases |s|
  {
    if s != {} {
      var x :| x in s;
      var rest := s - {x};
      DoubledSize(rest);
      assert Doubled(s) == Doubled(rest) + {x + x};
      forall y | y in rest ensures y + y != x + x {
        DoubleInjective(x, y);
      }
    }
  }

  /** `repeat(s)`: the strings of `s` and their doubles, at most twice as many. */
  function Repeat(s: set<string>): (r: set<string>)
    ensures s <= r && |r| <= 2 * |s|
    ensures forall x :: x in r <==> x in s || exists y :: y in s && x == y + y
  {
    DoubledSize(s);
    s + Doubled(s)
  }

  /** `cross(analyze(value[0]), analyze(value[1]))`. Iterating a None raises, but the
      inner loop over the second set only runs when the first is non-empty. */
  function CrossChildren(first: Result<set<string>>, second: Option<Result<set<string>>>): (r: Result<set<string>>)
    ensures r.Ok? <==> first.Ok? && second.Some? && (second.value.Ok? || (first.value == {} && !Raised(second.value)))
    ensures r.Ok? && second.value.Ok? ==> r.value == Cross(first.value, second.value.value)
    ensures r.Err? ==> r.error != NoneReturned
  {
    if Raised(first) then first
    else if second.None? then Err(IndexError)
    else if Raised(second.value) then second.value
    else if first.Err? then Err(TypeError)
    else if second.value.Err? then (if first.value == {} then Ok({}) else Err(TypeError))
    else Ok(Cross(first.value, second.value.value))
  }

  /** `analyze(value[0]) | analyze(value[1])`: a None on either side raises. */
  function UnionChildren(first: Result<set<string>>, second: Option<Result<set<string>>>): (r: Result<set<string>>)
    ensures r.Ok? <==> first.Ok? && second.Some? && second.value.Ok?
    ensures r.Ok? ==> r.value == first.value + second.value.value
    ensures r.Err? ==> r.error != NoneReturned
  {
    if Raised(first) then first
    else if second.None? then Err(IndexError)
    else if Raised(second.value) then second.value
    else if first.Err? || second.value.Err? then Err(TypeError)
    else Ok(first.value + second.value.value)
  }

  /** The repetition case: `+` and `*` repeat the body's set, `?` and `*` add the empty
      string, and the counted quantifiers hand the body's set back unchanged. */
  function RepetitionSet(q: Quant, s: Result<set<string>>): (r: Result<set<string>>)
    ensures s.Ok? <==> r.Ok?
    ensures s.Ok? && (q == Plus || q == Star) ==> Repeat(s.value) <= r.value
    ensures s.Ok? && (q == Opt || q == Star) ==> "" in r.value
    ensures s.Ok? && !(q == Opt || q == Plus || q == Star) ==> r == s
    ensures s.Err? && !Raised(s) && !(q == Opt || q == Plus || q == Star) ==> r == s
  {
    if Raised(s) then s
    else if s.Err? then
      if q == Plus || q == Star then Err(TypeError)
      else if q == Opt then Err(AttributeError)
      else s
    else
      var s1 := if q == Plus || q == Star then Repeat(s.value) else s.value;
      Ok(if q == Opt || q == Star then s1 + {""} else s1)
  }

  /** `analyze(tree)` on a node: `Err(NoneReturned)` where the source falls off the end. */
  function Analyze(re: Regex): (r: Result<set<string>>)
    ensures re.Literal? ==> r == Ok({re.value})
    ensures !(re.Literal? || re.Concat? || re.Alt? || re.Repetition?) ==> r == Err(NoneReturned)
  {
    match re
    case Literal(v) => Ok({v})
    case Concat(subs) =>
      if |subs| == 0 then Err(IndexError)
      else CrossChildren(Analyze(subs[0]), if |subs| >= 2 then Some(Analyze(subs[1])) else None)
    case Alt(subs) =>
      if |subs| == 0 then Err(IndexError)
      else UnionChildren(Analyze(subs[0]), if |subs| >= 2 then Some(Analyze(subs[1])) else None)
    case Repetition(q, body) => RepetitionSet(q, Analyze(body))
    case _ => Err(NoneReturned)
  }

  /** `analyze(tree)` including the missing tree, which gives the empty set. */
  function AnalyzeTree(tree: Option<Regex>): (r: Result<set<string>>)
    ensures tree.None? ==> r == Ok({})
  {
    if tree.None? then Ok({}) else Analyze(tree.value)
  }

  /** The trees whose every node RESET reads completely: concatenations of exactly two
      parts, alternations whose first two branches are such trees, and `?`, `+`, `*`. */
  predicate Enumerable(re: Regex)
  {
    match re
    case Literal(_) => true
    case Concat(subs) => |subs| == 2 && Enumerable(subs[0]) && Enumerable(subs[1])
    case Alt(subs) => |subs| >= 2 && Enumerable(subs[0]) && Enumerable(subs[1])
    case Repetition(q, body) => (q == Opt || q == Plus || q == Star) && Enumerable(body)
    case _ => false
  }

  /** A single piece: a non-empty string the body matches is matched by one repetition. */
  lemma OnePiece(re: Regex, lo: nat, x: string)
    requires re.Repetition? && lo <= 1 && re.quant != Exactly(0) && Matches(re.body, x)
    requires Hi(re.quant) != Some(0)
    ensures MatchesRep(re, lo, Hi(re.quant), x)
  {
    if x == "" {
      if lo == 1 {
        assert MatchesRep(re, 0, Dec(Hi(re.quant)), x);
      }
    } else {
      assert x[..|x|] == x && x[|x|..] == "";
      assert MatchesRep(re, 0, Dec(Hi(re.quant)), x[|x|..]);
    }
  }

  /** Every string in the RESET set is matched by the expression: the set under-approximates
      the language, keeping only one or two rounds of each repetition. */
  lemma {:induction false} MembersMatch(re: Regex, x: string)
    requires Enumerable(re) && Analyze(re).Ok? && x in Analyze(re).value
    ensures Matches(re, x)
  {
    match re
    case Literal(_) =>
    case Concat(subs) =>
      var a, b :| a in Analyze(subs[0]).value && b in Analyze(subs[1]).value && x == a + b;
      MembersMatch(subs[0], a);
      MembersMatch(subs[1], b);
      assert MatchesConcat(re, 1, a) by {
        assert a[..0] == "" && a[0..] == a;
      }
      assert (a + b)[..|a|] == a && (a + b)[|a|..] == b;
      assert MatchesConcat(re, 2, x);
    case Alt(subs) =>
      if x in Analyze(subs[0]).value {
        MembersMatch(subs[0], x);
      } else {
        MembersMatch(subs[1], x);
      }
    case Repetition(q, body) =>
      var s := Analyze(body).value;
      var hi := Hi(q);
      if x in s {
        MembersMatch(body, x);
        OnePiece(re, Lo(q), x);
      } else if x == "" {
        assert q == Opt || q == Star;
      } else {
        var y :| y in s && x == y + y;
        MembersMatch(body, y);
        assert x[..|y|] == y && x[|y|..] == y;
        OnePiece(re, 0, y);
        assert hi == None;
        assert MatchesRep(re, Lo(q), hi, x) by {
          assert Matches(body, x[..|y|]) && MatchesRep(re, 0, Dec(hi), x[|y|..]);
        }
      }
  }

  /** `regexp_query(tree)`: the AND of the trigrams of some string of the set, unless the
      set is empty or holds a string shorter than three characters. `order` is the order
      in which `list` happens to enumerate the set. */
  function RegexpQuery(tree: Option<Regex>, order: seq<string>): (r: Result<Query>)
    requires AnalyzeTree(tree).Ok? ==> StringSet.Enumerates(order, AnalyzeTree(tree).value)
    ensures r.Ok? <==> AnalyzeTree(tree).Ok?
    ensures r.Ok? && (|order| == 0 || StringSet.MinLen(order) < 3) ==> r.value == QAll
  {
    var a := AnalyzeTree(tree);
    if Raised(a) then Err(a.error)
    else if a.Err? then Err(TypeError)
    else Ok(AndTrigrams(QAll, order))
  }

  /** An enumeration has a short string exactly when the set does. */
  lemma EnumeratedShort(order: seq<string>, s: set<string>)
    requires StringSet.Enumerates(order, s)
    ensures (|order| == 0 || StringSet.MinLen(order) < 3) <==> s == {} || exists x | x in s :: |x| < 3
  {
    assert forall x :: x in s <==> x in order;
    if |order| > 0 && StringSet.MinLen(order) < 3 {
      var i :| 0 <= i < |order| && |order[i]| == StringSet.MinLen(order);
      assert order[i] in s;
    }
    if x :| x in s && |x| < 3 {
      assert x in order;
    }
    StringSet.ElemsEmpty(order);
  }

  /** An enumeration has a string with all trigrams present exactly when the set does. */
  lemma EnumeratedPresent(order: seq<string>, s: set<string>, present: set<string>)
    requires StringSet.Enumerates(order, s)
    ensures (exists i | 0 <= i < |order| :: AllWindowsIn(order[i], present)) <==>
      exists x | x in s :: AllWindowsIn(x, present)
  {
    assert forall x :: x in s <==> x in order;
    if x :| x in s && AllWindowsIn(x, present) {
      var i :| 0 <= i < |order| && order[i] == x;
    }
  }

  /** The query's meaning does not depend on the enumeration order: it holds exactly when
      the set is empty, holds a short string, or has a string whose trigrams are all present. */
  lemma RegexpQueryMeaning(tree: Option<Regex>, order: seq<string>, present: set<string>)
    requires AnalyzeTree(tree).Ok? && StringSet.Enumerates(order, AnalyzeTree(tree).value)
    ensures var s := AnalyzeTree(tree).value;
      Eval(RegexpQuery(tree, order).value, present) <==>
        s == {} || (exists x | x in s :: |x| < 3) || (exists x | x in s :: AllWindowsIn(x, present))
  {
    var s := AnalyzeTree(tree).value;
    assert RegexpQuery(tree, order).value == AndTrigrams(QAll, order);
    AndTrigramsCorrect(QAll, order, present);
    EnumeratedShort(order, s);
    EnumeratedPresent(order, s, present);
  }
}
