/**
 The FREE query builder: a literal becomes the AND of its trigrams, concatenation and
 alternation combine their two children's queries with the query algebra's AND and
 OR, and any repetition gives up with "match everything".
 */
module FreeBuilder {
  import opened Wrappers
  import opened Strings
  import opened QueryAlgebra
  import opened RegexAst

  /** The query for one literal: the AND of its 3-windows, or everything when it has none. */
  function LiteralQuery(v: string): (r: Query)
    ensures |v| < 3 <==> r == QAll
    ensures r != QAll ==> r == Node(QAnd, Windows(v), [])
  {
    var t := Windows(v);
    if |t| > 0 then Node(QAnd, t, []) else QAll
  }

  /** A literal's query holds exactly when all its trigrams are present. */
  lemma LiteralQueryMeaning(v: string, present: set<string>)
    ensures Eval(LiteralQuery(v), present) <==> AllWindowsIn(v, present)
  {
  }

  /** `freeQuery(value[0]).andOr(freeQuery(value[1]), op)`: `second` is None when the
      node has no second child. A child that returned None makes the `andOr` call fail. */
  function Combine(first: Result<Query>, second: Option<Result<Query>>, op: Op): (r: Result<Query>)
    ensures r.Ok? <==> first.Ok? && second.Some? && second.value.Ok?
    ensures r.Ok? ==> r.value == AndOr(first.value, second.value.value, op)
    ensures Raised(first) ==> r == first
    ensures r.Err? ==> r.error != NoneReturned
  {
    if Raised(first) then first
    else if second.None? then Err(IndexError)
    else if Raised(second.value) then second.value
    else if first.Err? || second.value.Err? then Err(AttributeError)
    else Ok(AndOr(first.value, second.value.value, op))
  }

  /** `freeQuery(tree)`: `Err(NoneReturned)` where the source falls off the end and
      returns None (capture groups, anchors, wildcards, character classes, ...). */
  function Free(re: Regex): (r: Result<Query>)
    ensures re.Repetition? ==> r == Ok(QAll)
    ensures re.Literal? ==> r == Ok(LiteralQuery(re.value))
    ensures (re.Concat? || re.Alt?) && |re.subs| < 2 ==> r.Err?
    ensures !(re.Literal? || re.Concat? || re.Alt? || re.Repetition?) ==> r == Err(NoneReturned)
  {
    match re
    case Literal(v) => Ok(LiteralQuery(v))
    case Concat(subs) =>
      if |subs| == 0 then Err(IndexError)
      else Combine(Free(subs[0]), if |subs| >= 2 then Some(Free(subs[1])) else None, QAnd)
    case Alt(subs) =>
      if |subs| == 0 then Err(IndexError)
      else Combine(Free(subs[0]), if |subs| >= 2 then Some(Free(subs[1])) else None, QOr)
    case Repetition(_, _) => Ok(QAll)
    case _ => Err(NoneReturned)
  }

  /** The nodes FREE reads from have at most two alternatives (the parser's shape);
      a third alternative is never looked at. */
  predicate NoWideAlt(re: Regex)
  {
    match re
    case Concat(subs) => forall i | 0 <= i < |subs| :: NoWideAlt(subs[i])
    case Alt(subs) => |subs| <= 2 && forall i | 0 <= i < |subs| :: NoWideAlt(subs[i])
    case _ => true
  }

  /** Soundness: a text containing a string the expression matches satisfies the query. */
  lemma {:induction false} FreeSound(re: Regex, w: string, text: string)
    requires Free(re).Ok? && NoWideAlt(re) && Matches(re, w) && Occurs(w, text)
    ensures Eval(Free(re).value, TrigramSet(text))
    decreases re, 1
  {
    match re
    case Literal(v) =>
      SubstringTrigrams(v, text);
      LiteralQueryMeaning(v, TrigramSet(text));
    case Concat(subs) =>
      FreeConcatSound(re, w, text);
    case Alt(subs) =>
      FreeAltSound(re, w, text);
    case Repetition(_, _) =>
  }

  /** The concatenation case of `FreeSound`: both halves occur in the text. */
  lemma {:induction false} FreeConcatSound(re: Regex, w: string, text: string)
    requires re.Concat? && Free(re).Ok? && NoWideAlt(re) && Matches(re, w) && Occurs(w, text)
    ensures Eval(Free(re).value, TrigramSet(text))
    decreases re, 0
  {
    var subs := re.subs;
    assert Free(re).value == AndOr(Free(subs[0]).value, Free(subs[1]).value, QAnd);
    var ws := ConcatPieces(re, |subs|, w);
    JoinOccurs(ws, 0);
    JoinOccurs(ws, 1);
    OccursTransitive(ws[0], w, text);
    OccursTransitive(ws[1], w, text);
    FreeSound(subs[0], ws[0], text);
    FreeSound(subs[1], ws[1], text);
    AndOrCorrect(Free(subs[0]).value, Free(subs[1]).value, QAnd, TrigramSet(text));
  }

  /** The union case of `FreeSound`: the alternative that matches occurs in the text. */
  lemma {:induction false} FreeAltSound(re: Regex, w: string, text: string)
    requires re.Alt? && Free(re).Ok? && NoWideAlt(re) && Matches(re, w) && Occurs(w, text)
    ensures Eval(Free(re).value, TrigramSet(text))
    decreases re, 0
  {
    var subs, present := re.subs, TrigramSet(text);
    assert |subs| == 2 && Free(re) == Combine(Free(subs[0]), Some(Free(subs[1])), QOr);
    var q0, q1 := Free(subs[0]).value, Free(subs[1]).value;
    assert Free(re).value == AndOr(q0, q1, QOr);
    var i := MatchingAlternative(re, w);
    assert NoWideAlt(subs[i]);
    FreeSound(subs[i], w, text);
    assert Eval(q0, present) || Eval(q1, present) by {
      if i == 0 {
        assert Eval(q0, present);
      } else {
        assert i == 1 && Eval(q1, present);
      }
    }
    AndOrCorrect(q0, q1, QOr, present);
  }

  /** `abc+de`, parsed as `"ab" (c+ "de")`, gives "match everything": no literal left
      outside the repetition is three characters long. */
  lemma FreePlusExample()
    ensures Free(Concat([Literal("ab"), Concat([Repetition(Plus, Literal("c")), Literal("de")])])) == Ok(QAll)
  {
    AndOrIdentities(QAll);
  }

  /** `(abc*)+de`, parsed as `(ab c*)+ "de"`: the repeated group gives everything and "de"
      has no trigram, so the query is "match everything". */
  lemma FreeRepeatedGroupExample()
    ensures Free(Concat([Repetition(Plus, Concat([Literal("ab"), Repetition(Star, Literal("c"))])),
                         Literal("de")])) == Ok(QAll)
  {
    AndOrIdentities(QAll);
  }

  /** `ab(cd)*ef`, parsed as `"ab" ((cd)* "ef")`: neither literal outside the repetition is
      three characters long, so the query is "match everything". */
  lemma FreeStarredGroupExample()
    ensures Free(Concat([Literal("ab"), Concat([Repetition(Star, Literal("cd")), Literal("ef")])])) == Ok(QAll)
  {
    AndOrIdentities(QAll);
  }
}
