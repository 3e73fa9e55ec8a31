/**
 The regular-expression parse tree the query builders consume: the dict-shaped
 nodes (`{"type": ..., "value": ..., "quantifier": ...}`) the parser produces, as a
 datatype, with the language each node denotes.
 */
module RegexAst {
  import opened Wrappers
  import opened Strings

  /** The quantifier tokens: `?`, `+`, `*`, `{m}`, `{m,}`, `{m,n}`. */
  datatype Quant = Opt | Plus | Star | Exactly(m: nat) | AtLeast(m: nat) | Between(m: nat, n: nat)

  /** The zero-width node types, all analysed like the empty match. */
  datatype Anchor = EmptyMatch | BeginLine | EndLine | BeginText | EndText | WordBoundary | NoWordBoundary

  datatype Regex =
    | Literal(value: string)                     // "literal"
    | Concat(subs: seq<Regex>)                   // "concat"
    | Alt(subs: seq<Regex>)                      // "union"
    | Repetition(quant: Quant, body: Regex)      // "repetition"
    | Repeat(min: Option<int>, body: Regex)      // "REPEAT", whose "min" key may be missing
    | Capture(body: Regex)                       // "CAPTURE"
    | EmptyWidth(anchor: Anchor)                 // "EMPTY_MATCH", "BEGIN_LINE", ...
    | NoMatch                                    // "NO_MATCH"
    | AnyChar(notNL: bool)                       // "ANY_CHAR", "ANY_CHAR_NOT_NL"
    | Wildcard                                   // "wildcard" (the parser's `.`)
    | CharClass(value: string)                   // "char_class"

  /** Least and greatest number of repetitions a quantifier allows. */
  function Lo(q: Quant): nat
  {
    match q
    case Opt => 0
    case Plus => 1
    case Star => 0
    case Exactly(m) => m
    case AtLeast(m) => m
    case Between(m, _) => m
  }

  function Hi(q: Quant): Option<nat>
  {
    match q
    case Opt => Some(1)
    case Plus => None
    case Star => None
    case Exactly(m) => Some(m)
    case AtLeast(_) => None
    case Between(_, n) => Some(n)
  }

  function Dec(hi: Option<nat>): Option<nat>
  {
    if hi.Some? && hi.value > 0 then Some(hi.value - 1) else hi
  }

  /** `w` is in the language of `re`. Zero-width assertions are read as matching the
      empty string anywhere, and a character class as any one character: both
      over-approximate, which is the safe direction for a filter. */
  ghost predicate Matches(re: Regex, w: string)
    decreases re, 1, 0, |w|
  {
    match re
    case Literal(v) => w == v
    case Concat(subs) => MatchesConcat(re, |subs|, w)
    case Alt(subs) => exists i | 0 <= i < |subs| :: Matches(subs[i], w)
    case Repetition(q, _) => MatchesRep(re, Lo(q), Hi(q), w)
    case Repeat(min, _) => MatchesRep(re, if min.Some? && min.value > 0 then min.value else 0, None, w)
    case Capture(body) => Matches(body, w)
    case EmptyWidth(_) => w == ""
    case NoMatch => false
    case AnyChar(notNL) => |w| == 1 && (notNL ==> w[0] != '\n')
    case Wildcard => |w| == 1 && w[0] != '\n'
    case CharClass(_) => |w| == 1
  }

  /** `w` is matched by the first `n` parts of a concatenation, in order. */
  ghost predicate MatchesConcat(re: Regex, n: nat, w: string)
    requires re.Concat? && n <= |re.subs|
    decreases re, 0, n, |w|
  {
    if n == 0 then w == ""
    else exists k | 0 <= k <= |w| :: MatchesConcat(re, n - 1, w[..k]) && Matches(re.subs[n - 1], w[k..])
  }

  /** `w` is at least `lo` and (when `hi` is given) at most `hi` pieces, each matching the body. */
  ghost predicate MatchesRep(re: Regex, lo: nat, hi: Option<nat>, w: string)
    requires re.Repetition? || re.Repeat?
    decreases re, 0, |w|, lo
  {
    || (lo == 0 && w == "")
    || (hi != Some(0) &&
        (|| (lo > 0 && Matches(re.body, "") && MatchesRep(re, lo - 1, Dec(hi), w))
         || (exists k | 1 <= k <= |w| ::
               Matches(re.body, w[..k]) && MatchesRep(re, if lo > 0 then lo - 1 else 0, Dec(hi), w[k..]))))
  }

  /** A one-part concatenation means its part. */
  lemma MatchesConcatOne(re: Regex, w: string)
    requires re.Concat? && |re.subs| >= 1 && MatchesConcat(re, 1, w)
    ensures Matches(re.subs[0], w)
  {
    var k :| 0 <= k <= |w| && MatchesConcat(re, 0, w[..k]) && Matches(re.subs[0], w[k..]);
    assert k == 0;
    assert w[k..] == w;
  }

  /** A repetition that matches a non-empty string has a non-empty first piece and a last
      piece, both matching the body; an empty match needs the body (or zero pieces) to allow it. */
  lemma {:induction false} RepPieces(re: Regex, lo: nat, hi: Option<nat>, w: string)
    requires (re.Repetition? || re.Repeat?) && MatchesRep(re, lo, hi, w)
    ensures w == "" ==> lo == 0 || Matches(re.body, "")
    ensures w != "" ==> exists k | 1 <= k <= |w| :: Matches(re.body, w[..k])
    ensures w != "" ==> exists j | 0 <= j < |w| :: Matches(re.body, w[j..])
    decreases |w|, lo
  {
    if lo == 0 && w == "" {
    } else if lo > 0 && Matches(re.body, "") && MatchesRep(re, lo - 1, Dec(hi), w) {
      RepPieces(re, lo - 1, Dec(hi), w);
    } else {
      var lo' := if lo > 0 then lo - 1 else 0;
      var k :| 1 <= k <= |w| && Matches(re.body, w[..k]) && MatchesRep(re, lo', Dec(hi), w[k..]);
      var rest := w[k..];
      if rest == "" {
        assert w[0..] == w[..k];
      } else {
        RepPieces(re, lo', Dec(hi), rest);
        var j :| 0 <= j < |rest| && Matches(re.body, rest[j..]);
        assert w[k + j..] == rest[j..];
      }
    }
  }

  /** A string a union matches is matched by one of its alternatives. */
  lemma MatchingAlternative(re: Regex, w: string) returns (i: nat)
    requires re.Alt? && Matches(re, w)
    ensures i < |re.subs| && Matches(re.subs[i], w)
  {
    i :| 0 <= i < |re.subs| && Matches(re.subs[i], w);
  }

  /** `x?` matches "" or one string of the body. */
  lemma OptPieces(re: Regex, w: string)
    requires re.Repetition? && MatchesRep(re, 0, Some(1), w)
    ensures w == "" || Matches(re.body, w)
  {
    if w != "" {
      var k :| 1 <= k <= |w| && Matches(re.body, w[..k]) && MatchesRep(re, 0, Some(0), w[k..]);
      assert w[k..] == "";
      assert w[..k] == w;
    }
  }

  /** The pieces of a string matched by the first `n` parts of a concatenation. */
  lemma {:induction false} ConcatPieces(re: Regex, n: nat, w: string) returns (ws: seq<string>)
    requires re.Concat? && n <= |re.subs| && MatchesConcat(re, n, w)
    ensures |ws| == n && Join(ws) == w
    ensures forall i | 0 <= i < n :: Matches(re.subs[i], ws[i])
  {
    if n == 0 {
      ws := [];
    } else {
      var k :| 0 <= k <= |w| && MatchesConcat(re, n - 1, w[..k]) && Matches(re.subs[n - 1], w[k..]);
      var front := ConcatPieces(re, n - 1, w[..k]);
      ws := front + [w[k..]];
      assert ws[..n - 1] == front;
      assert w[..k] + w[k..] == w;
    }
  }
}
