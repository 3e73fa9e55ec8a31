/**
 The query builder of the older front end: the expression tree from `parse` is read
 as a finite set of strings (an operand is itself, `.` crosses, `|` unites, `?` adds
 the empty string, `+` and `*` add the doubles of the strings of length at most one),
 and the query ORs together the AND of each string's trigrams.
 */
module QueryBuilder {
  import opened Wrappers
  import opened Strings
  import opened QueryAlgebra
  import StringSet
  import RegexHandler
  import RegexAst
  import ResetBuilder

  type PTree = RegexHandler.PTree

  /** The `+`/`*` set: the body's strings and the doubles of its strings of length at most one. */
  function DoubleShort(s: set<string>): (r: set<string>)
    ensures s <= r
    ensures forall x :: x in r <==> x in s || exists y :: y in s && |y| <= 1 && x == y + y
  {
    s + set y | y in s && |y| <= 1 :: y + y
  }

  /** `get_string_set(tree)` on a node. A leaf dict has no `op1` key, so a leaf holding
      an operator raises KeyError; a parenthesis node falls off the end and returns None.
      A child's None makes the set operation on it raise, except that crossing an empty
      first set never looks at the second. */
  function NodeSet(t: PTree): (r: Result<set<string>>)
    ensures t.Leaf? ==> (r.Ok? <==> !RegexHandler.IsOperator(t.val))
    ensures !RegexHandler.IsOperator(t.val) ==> r == Ok({[t.val]})
    ensures r == Err(NoneReturned) ==> t.Node? && (t.val == '(' || t.val == ')')
  {
    if !RegexHandler.IsOperator(t.val) then Ok({[t.val]})
    else if t.Leaf? then Err(KeyError)
    else
      var s1 := NodeSet(t.op1);
      if Raised(s1) then s1
      else
        var s2 := if t.op2.None? then Ok({}) else NodeSet(t.op2.value);
        if Raised(s2) then s2
        else if t.val == '|' then
          if s1.Err? || s2.Err? then Err(TypeError) else Ok(s1.value + s2.value)
        else if t.val == '?' then
          if s1.Err? then Err(AttributeError) else Ok(s1.value + {""})
        else if t.val == '+' || t.val == '*' then
          if s1.Err? then Err(TypeError)
          else Ok(DoubleShort(s1.value) + (if t.val == '*' then {""} else {}))
        else if t.val == '.' then
          if s1.Err? then Err(TypeError)
          else if s1.value == {} then Ok({})
          else if s2.Err? then Err(TypeError)
          else Ok(ResetBuilder.Cross(s1.value, s2.value))
        else Err(NoneReturned)
  }

  /** `get_string_set(tree)`: the missing tree gives the empty set. */
  function GetStringSet(tree: Option<PTree>): (r: Result<set<string>>)
    ensures tree.None? ==> r == Ok({})
  {
    if tree.None? then Ok({}) else NodeSet(tree.value)
  }

  /** The trees `parse` builds from a parenthesis-free expression. */
  predicate Shaped(t: PTree)
  {
    RegexHandler.Labelled(t) && t.val != '(' && t.val != ')' &&
    (t.Node? ==> Shaped(t.op1) && (t.op2.Some? ==> Shaped(t.op2.value)))
  }

  /** A labelled tree with no parenthesis node is shaped. */
  lemma {:induction false} LabelledShaped(t: PTree)
    requires RegexHandler.Labelled(t) && RegexHandler.ParenFree(t)
    ensures Shaped(t)
  {
    if t.Node? {
      LabelledShaped(t.op1);
      if t.op2.Some? {
        LabelledShaped(t.op2.value);
      }
    }
  }

  /** Every tree `parse` returns for an expression with as many `(` as `)` is shaped. */
  lemma ParseShaped(regex: string)
    requires RegexHandler.Parse(regex).Ok? && RegexHandler.ParenDepth(regex) == 0
    ensures Shaped(RegexHandler.Parse(regex).value)
  {
    RegexHandler.ParseSound(regex);
    RegexHandler.ParseParenFree(regex);
    LabelledShaped(RegexHandler.Parse(regex).value);
  }

  /** The expression a shaped tree stands for, in the parse-tree vocabulary. */
  function ToRegex(t: PTree): RegexAst.Regex
  {
    match t
    case Leaf(c) => RegexAst.Literal([c])
    case Node(v, a, b) =>
      if v == '.' && b.Some? then RegexAst.Concat([ToRegex(a), ToRegex(b.value)])
      else if v == '|' && b.Some? then RegexAst.Alt([ToRegex(a), ToRegex(b.value)])
      else if v == '?' then RegexAst.Repetition(RegexAst.Opt, ToRegex(a))
      else if v == '+' then RegexAst.Repetition(RegexAst.Plus, ToRegex(a))
      else if v == '*' then RegexAst.Repetition(RegexAst.Star, ToRegex(a))
      else RegexAst.NoMatch
  }

  /** Crossing is monotone in both arguments. */
  lemma CrossMonotone(s1: set<string>, s2: set<string>, r1: set<string>, r2: set<string>)
    requires s1 <= r1 && s2 <= r2
    ensures ResetBuilder.Cross(s1, s2) <= ResetBuilder.Cross(r1, r2)
  {
    forall z | z in ResetBuilder.Cross(s1, s2) ensures z in ResetBuilder.Cross(r1, r2) {
      var x, y :| x in s1 && y in s2 && z == x + y;
      assert x in r1 && y in r2;
    }
  }

  /** What the builders' sets of a shaped tree satisfy, given the same of its children. */
  predicate Within(t: PTree)
  {
    NodeSet(t).Ok? && ResetBuilder.Analyze(ToRegex(t)).Ok? && ResetBuilder.Enumerable(ToRegex(t)) &&
    NodeSet(t).value <= ResetBuilder.Analyze(ToRegex(t)).value
  }

  /** The binary step: `.` crosses and `|` unites the children's sets on both sides. */
  lemma BinaryWithin(t: PTree)
    requires Shaped(t) && t.Node? && t.op2.Some? && Within(t.op1) && Within(t.op2.value)
    ensures Within(t)
  {
    var s1, r1 := NodeSet(t.op1).value, ResetBuilder.Analyze(ToRegex(t.op1)).value;
    var s2, r2 := NodeSet(t.op2.value).value, ResetBuilder.Analyze(ToRegex(t.op2.value)).value;
    if t.val == '.' {
      CrossMonotone(s1, s2, r1, r2);
    }
  }

  /** The unary step: `?` adds the empty string on both sides, and the short doubles lie
      among all the doubles. */
  lemma UnaryWithin(t: PTree)
    requires Shaped(t) && t.Node? && t.op2.None? && Within(t.op1)
    ensures Within(t)
  {
    var s1, r1 := NodeSet(t.op1).value, ResetBuilder.Analyze(ToRegex(t.op1)).value;
    var q := if t.val == '?' then RegexAst.Opt else if t.val == '+' then RegexAst.Plus else RegexAst.Star;
    assert ToRegex(t) == RegexAst.Repetition(q, ToRegex(t.op1));
    assert NodeSet(t) == Ok(if t.val == '?' then s1 + {""} else DoubleShort(s1) + (if t.val == '*' then {""} else {}));
    RepetitionWithin(q, s1, r1);
  }

  /** The repetition sets of the two builders, for one body. */
  lemma RepetitionWithin(q: RegexAst.Quant, s1: set<string>, r1: set<string>)
    requires q == RegexAst.Opt || q == RegexAst.Plus || q == RegexAst.Star
    requires s1 <= r1
    ensures var r := ResetBuilder.RepetitionSet(q, Ok(r1));
      r.Ok? && (if q == RegexAst.Opt then s1 + {""} else DoubleShort(s1) + (if q == RegexAst.Star then {""} else {})) <= r.value
  {
    if q != RegexAst.Opt {
      assert DoubleShort(s1) <= ResetBuilder.Repeat(r1);
    }
  }

  /** On a shaped tree the builder succeeds, and its set lies inside the RESET builder's
      set for the same expression: it doubles only the short strings. */
  lemma {:induction false} NodeSetWithinReset(t: PTree)
    requires Shaped(t)
    ensures NodeSet(t).Ok? && ResetBuilder.Analyze(ToRegex(t)).Ok?
    ensures ResetBuilder.Enumerable(ToRegex(t))
    ensures NodeSet(t).value <= ResetBuilder.Analyze(ToRegex(t)).value
  {
    match t
    case Leaf(c) =>
    case Node(v, a, b) =>
      NodeSetWithinReset(a);
      if b.Some? {
        NodeSetWithinReset(b.value);
        BinaryWithin(t);
      } else {
        UnaryWithin(t);
      }
  }

  /** Every string in the set is matched by the expression the tree stands for. */
  lemma NodeSetMatches(t: PTree, x: string)
    requires Shaped(t) && NodeSet(t).Ok? && x in NodeSet(t).value
    ensures RegexAst.Matches(ToRegex(t), x)
  {
    NodeSetWithinReset(t);
    ResetBuilder.MembersMatch(ToRegex(t), x);
  }

  /** The AND query of each string's trigram set, in enumeration order. */
  function WindowQueries(order: seq<string>): (r: seq<Query>)
    ensures |r| == |order|
    ensures forall i | 0 <= i < |r| :: r[i] == WindowsQuery(order[i])
  {
    if |order| == 0 then [] else WindowQueries(order[..|order| - 1]) + [WindowsQuery(order[|order| - 1])]
  }

  /** Some enumerated string is shorter than three characters. */
  predicate HasShort(order: seq<string>)
  {
    exists i | 0 <= i < |order| :: |order[i]| < 3
  }

  /** The query for an enumerated set: everything when a string is too short to carry
      a trigram, else the OR of the strings' trigram ANDs. */
  function SetQuery(order: seq<string>): Query
  {
    if HasShort(order) then QAll else Node(QOr, [], WindowQueries(order))
  }

  /** `get_query(tree)`: stops with "match everything" at the first short string it meets;
      iterating a None set raises. `order` is the order in which the set is iterated. */
  method GetQuery(tree: Option<PTree>, order: seq<string>) returns (r: Result<Query>)
    requires GetStringSet(tree).Ok? ==> StringSet.Enumerates(order, GetStringSet(tree).value)
    ensures r.Ok? <==> GetStringSet(tree).Ok?
    ensures Raised(GetStringSet(tree)) ==> r.Err? && r.error == GetStringSet(tree).error
    ensures GetStringSet(tree) == Err(NoneReturned) ==> r == Err(TypeError)
    ensures r.Ok? ==> r.value == SetQuery(order)
    ensures r.Ok? && !HasShort(order) ==> r.value.Node? && r.value.op == QOr && |r.value.sub| == |order|
  {
    var ss := GetStringSet(tree);
    if ss.Err? {
      return Err(if ss.error == NoneReturned then TypeError else ss.error);
    }
    var q := ShortOrAll(order, WindowQueries(order));
    return Ok(q);
  }

  /** The loop of `get_query` over the enumerated strings, given each string's query:
      "match everything" at the first short string, else the OR of all the queries. */
  method ShortOrAll(order: seq<string>, all: seq<Query>) returns (r: Query)
    requires |all| == |order|
    ensures HasShort(order) ==> r == QAll
    ensures !HasShort(order) ==> r == Node(QOr, [], all)
  {
    var sub: seq<Query> := [];
    var i := 0;
    while i < |order|
      invariant 0 <= i <= |order|
      invariant forall k | 0 <= k < i :: |order[k]| >= 3
      invariant sub == all[..i]
    {
      if |order[i]| < 3 {
        return QAll;
      }
      sub := sub + [all[i]];
      i := i + 1;
    }
    assert all[..|order|] == all;
    return Node(QOr, [], sub);
  }

  /** The query holds exactly when an enumerated string is short or has all its trigrams present. */
  lemma SetQueryMeaning(order: seq<string>, present: set<string>)
    ensures Eval(SetQuery(order), present) <==>
      HasShort(order) || exists i | 0 <= i < |order| :: AllWindowsIn(order[i], present)
  {
    if !HasShort(order) {
      var subs := WindowQueries(order);
      forall i | 0 <= i < |order| ensures Eval(subs[i], present) <==> AllWindowsIn(order[i], present) {
        assert subs[i] == WindowsQuery(order[i]);
      }
    }
  }

  /** The meaning does not depend on the enumeration order: the query holds exactly when
      the set has a short string or a string whose trigrams are all present. The empty
      set gives an empty OR, which holds for no document. */
  lemma GetQueryMeaning(s: set<string>, order: seq<string>, present: set<string>)
    requires StringSet.Enumerates(order, s)
    ensures Eval(SetQuery(order), present) <==>
      (exists x | x in s :: |x| < 3) || (exists x | x in s :: AllWindowsIn(x, present))
  {
    assert forall x :: x in s <==> x in order;
    SetQueryMeaning(order, present);
    ResetBuilder.EnumeratedPresent(order, s, present);
    if x :| x in s && |x| < 3 {
      var i :| 0 <= i < |order| && order[i] == x;
    }
  }

  /** A document containing one of the set's strings satisfies the query. */
  lemma GetQueryFindsMembers(s: set<string>, order: seq<string>, x: string, text: string)
    requires StringSet.Enumerates(order, s) && x in s && Occurs(x, text)
    ensures Eval(SetQuery(order), TrigramSet(text))
  {
    SubstringTrigrams(x, text);
    GetQueryMeaning(s, order, TrigramSet(text));
  }
}
