/**
 The older regex front end: `format_regex` makes concatenation explicit by inserting
 `.` between adjacent operands, and `parse` turns the infix string into an expression
 tree with the shunting-yard algorithm over two stacks.
 */
module RegexHandler {
  import opened Wrappers
  import opened Strings

  /** `Stack`: a list used at its end. */
  datatype Stack<T> = Stack(arr: seq<T>)

  function Push<T>(s: Stack<T>, e: T): (r: Stack<T>)
    ensures |r.arr| == |s.arr| + 1
  {
    Stack(s.arr + [e])
  }

  /** `pop()`: the last element and the stack without it; an empty list raises. */
  function Pop<T>(s: Stack<T>): (r: Result<(Stack<T>, T)>)
    ensures r.Ok? <==> |s.arr| > 0
    ensures r.Ok? ==> |r.value.0.arr| == |s.arr| - 1
  {
    if |s.arr| == 0 then Err(IndexError) else Ok((Stack(s.arr[..|s.arr| - 1]), s.arr[|s.arr| - 1]))
  }

  function Empty<T>(s: Stack<T>): (r: bool)
    ensures r <==> Pop(s).Err?
  {
    |s.arr| == 0
  }

  /** `top()`: `arr[-1]`, which raises on an empty list. */
  function Top<T>(s: Stack<T>): (r: Result<T>)
    ensures r.Ok? <==> !Empty(s)
    ensures r.Ok? ==> r.value == Pop(s).value.1
  {
    if |s.arr| == 0 then Err(IndexError) else Ok(s.arr[|s.arr| - 1])
  }

  /** Last in, first out: popping after a push gives back the element and the old stack. */
  lemma PushPop<T>(s: Stack<T>, e: T)
    ensures Pop(Push(s, e)) == Ok((s, e))
    ensures Top(Push(s, e)) == Ok(e) && !Empty(Push(s, e))
  {
    assert (s.arr + [e])[..|s.arr|] == s.arr;
  }

  /** The operator characters: unary `? + *`, binary `| .`, and the parentheses. */
  predicate IsUnOp(c: char) { c == '?' || c == '+' || c == '*' }
  predicate IsBinOp(c: char) { c == '|' || c == '.' }
  predicate IsOperator(c: char) { IsUnOp(c) || IsBinOp(c) || c == '(' || c == ')' }

  /** Whether `format_regex` puts an explicit `.` between `a` and the following `b`. */
  predicate NeedsDot(a: char, b: char)
  {
    a != '(' && b != ')' && !IsUnOp(b) && !IsBinOp(b) && !IsBinOp(a)
  }

  /** The formatted form of a non-empty string: each character, followed by a `.` where
      the next one needs it, and the last character as is. */
  function Formatted(s: string): (r: string)
    requires |s| >= 1
    ensures |r| >= 1 && r[0] == s[0] && r[|r| - 1] == s[|s| - 1]
  {
    if |s| == 1 then s
    else [s[0]] + (if NeedsDot(s[0], s[1]) then "." else "") + Formatted(s[1..])
  }

  /** `format_regex(regex)`: the empty string fails on `regex[-1]`. */
  function FormatRegex(regex: string): (r: Result<string>)
    ensures r.Ok? <==> |regex| > 0
  {
    if |regex| == 0 then Err(IndexError) else Ok(Formatted(regex))
  }

  /** No adjacent pair of the string needs a `.` between them. */
  predicate Explicit(s: string)
  {
    forall i | 0 <= i < |s| - 1 :: !NeedsDot(s[i], s[i + 1])
  }

  /** The character filters used below: everything but dots, the operands only, and each
      parenthesis. */
  datatype Filter = NoDots | OperandsOnly | Opens | Closes

  predicate Pass(p: Filter, c: char)
  {
    match p
    case NoDots => c != '.'
    case OperandsOnly => !IsOperator(c)
    case Opens => c == '('
    case Closes => c == ')'
  }

  /** The characters of `s` that pass `p`, in order. */
  function Keep(s: string, p: Filter): (r: string)
    ensures |r| <= |s|
  {
    if |s| == 0 then "" else (if Pass(p, s[0]) then [s[0]] else "") + Keep(s[1..], p)
  }

  lemma {:induction false} KeepAppend(a: string, b: string, p: Filter)
    ensures Keep(a + b, p) == Keep(a, p) + Keep(b, p)
  {
    if |a| == 0 {
      assert a + b == b;
    } else {
      assert a + b == [a[0]] + (a[1..] + b) && a == [a[0]] + a[1..];
      KeepCons(a[0], a[1..] + b, p);
      KeepCons(a[0], a[1..], p);
      KeepAppend(a[1..], b, p);
    }
  }

  /** A one-character string is kept exactly when its character is. */
  lemma KeepOne(c: char, p: Filter)
    ensures Keep([c], p) == if Pass(p, c) then [c] else ""
  {
    assert [c][1..] == "";
  }

  /** Keeping from a string with a known first character. */
  lemma KeepCons(c: char, x: string, p: Filter)
    ensures Keep([c] + x, p) == (if Pass(p, c) then [c] else "") + Keep(x, p)
  {
    assert ([c] + x)[0] == c && ([c] + x)[1..] == x;
  }

  /** A filter that drops `.` does not see an inserted dot. */
  lemma KeepDot(d: string, x: string, p: Filter)
    requires (d == "" || d == ".") && !Pass(p, '.')
    ensures Keep(d + x, p) == Keep(x, p)
  {
    if d == "." {
      KeepCons('.', x, p);
    } else {
      assert d + x == x;
    }
  }

  /** A formatted string of two or more characters: the first character, then a dot or
      nothing, then the rest formatted. */
  lemma FormattedCons(s: string) returns (d: string)
    requires |s| > 1
    ensures (d == "" || d == ".") && Formatted(s) == [s[0]] + (d + Formatted(s[1..]))
  {
    d := if NeedsDot(s[0], s[1]) then "." else "";
  }

  /** Formatting only inserts dots: any filter that drops `.` sees the same characters. */
  lemma {:induction false} FormatKeeps(s: string, p: Filter)
    requires |s| >= 1 && !Pass(p, '.')
    ensures Keep(Formatted(s), p) == Keep(s, p)
  {
    if |s| > 1 {
      var d := FormattedCons(s);
      var rest := Formatted(s[1..]);
      FormatKeeps(s[1..], p);
      KeepDot(d, rest, p);
      KeepCons(s[0], d + rest, p);
    }
  }

  /** The formatted string needs no further dots. */
  lemma {:induction false} FormattedExplicit(s: string)
    requires |s| >= 1
    ensures Explicit(Formatted(s))
  {
    if |s| > 1 {
      var dot: string := if NeedsDot(s[0], s[1]) then "." else "";
      var rest := Formatted(s[1..]);
      FormattedExplicit(s[1..]);
      var r := [s[0]] + dot + rest;
      forall i | 0 <= i < |r| - 1 ensures !NeedsDot(r[i], r[i + 1]) {
        if i >= |dot| + 1 {
          assert r[i] == rest[i - |dot| - 1] && r[i + 1] == rest[i - |dot|];
        }
      }
    }
  }

  /** A string that needs no dots is left as it is. */
  lemma {:induction false} ExplicitFixed(s: string)
    requires |s| >= 1 && Explicit(s)
    ensures Formatted(s) == s
  {
    if |s| > 1 {
      assert !NeedsDot(s[0], s[1]);
      assert Explicit(s[1..]) by {
        forall i | 0 <= i < |s[1..]| - 1 ensures !NeedsDot(s[1..][i], s[1..][i + 1]) {
          assert s[1..][i] == s[i + 1] && s[1..][i + 1] == s[i + 2];
        }
      }
      ExplicitFixed(s[1..]);
      assert [s[0]] + s[1..] == s;
    }
  }

  /** Formatting is idempotent. */
  lemma FormatIdempotent(s: string)
    requires |s| >= 1
    ensures Formatted(Formatted(s)) == Formatted(s)
  {
    FormattedExplicit(s);
    ExplicitFixed(Formatted(s));
  }

  /** The expression tree: an operand character, or an operator node whose `op2` is
      None for the unary operators. */
  datatype PTree = Leaf(val: char) | Node(val: char, op1: PTree, op2: Option<PTree>)

  /** The trees `parse` builds: operand leaves, operator nodes, two children exactly for
      the binary operators. */
  predicate Labelled(t: PTree)
  {
    match t
    case Leaf(c) => !IsOperator(c)
    case Node(v, a, b) =>
      IsOperator(v) && (b.Some? <==> IsBinOp(v)) && Labelled(a) && (b.Some? ==> Labelled(b.value))
  }

  /** The operands of a tree, left to right. */
  function Yield(t: PTree): string
  {
    match t
    case Leaf(c) => [c]
    case Node(_, a, b) => Yield(a) + (if b.Some? then Yield(b.value) else "")
  }

  /** The operands of a list of trees, left to right. */
  function YieldAll(ts: seq<PTree>): string
  {
    if |ts| == 0 then "" else YieldAll(ts[..|ts| - 1]) + Yield(ts[|ts| - 1])
  }

  /** The operand characters of a string, in order. */
  function Operands(s: string): string
  {
    Keep(s, OperandsOnly)
  }

  /** `precedence.get(c, 4)` */
  function Prec(c: char): int
  {
    if c == '(' then 0
    else if c == '|' then 1
    else if c == '.' then 2
    else if IsUnOp(c) then 3
    else 4
  }

  /** The two stacks: the output queue of trees and the operator stack. */
  datatype ParseState = ParseState(outq: seq<PTree>, ops: seq<char>)

  /** The parser's invariant: every tree is labelled, every stacked operator is an operator. */
  predicate Good(st: ParseState)
  {
    (forall i | 0 <= i < |st.outq| :: Labelled(st.outq[i])) &&
    (forall i | 0 <= i < |st.ops| :: IsOperator(st.ops[i]))
  }

  /** `new_node()`: pops an operator and one or two trees, and pushes the combined tree. */
  function NewNode(st: ParseState): (r: Result<ParseState>)
    ensures r.Ok? ==> |r.value.ops| == |st.ops| - 1 && YieldAll(r.value.outq) == YieldAll(st.outq)
    ensures r.Ok? && Good(st) ==> Good(r.value)
  {
    if |st.ops| == 0 || |st.outq| == 0 then Err(IndexError)
    else
      var v, op2, rest := st.ops[|st.ops| - 1], st.outq[|st.outq| - 1], st.outq[..|st.outq| - 1];
      if IsBinOp(v) then
        if |rest| == 0 then Err(IndexError)
        else
          var front := rest[..|rest| - 1];
          assert rest[..|rest| - 1] == st.outq[..|st.outq| - 2];
          Ok(ParseState(front + [Node(v, rest[|rest| - 1], Some(op2))], st.ops[..|st.ops| - 1]))
      else
        assert (rest + [Node(v, op2, None)])[..|rest|] == rest;
        Ok(ParseState(rest + [Node(v, op2, None)], st.ops[..|st.ops| - 1]))
  }

  /** The `)` loop: build nodes until the top operator is `(` or the stack is empty. */
  function PopUntilOpen(st: ParseState): (r: Result<ParseState>)
    ensures r.Ok? ==> YieldAll(r.value.outq) == YieldAll(st.outq)
    ensures r.Ok? ==> |r.value.ops| == 0 || r.value.ops[|r.value.ops| - 1] == '('
    ensures r.Ok? && Good(st) ==> Good(r.value)
    decreases |st.ops|
  {
    if |st.ops| == 0 || st.ops[|st.ops| - 1] == '(' then Ok(st)
    else
      var st' :- NewNode(st);
      PopUntilOpen(st')
  }

  /** The operator loop stops: the stack is empty or `ch` binds tighter than its top. */
  predicate Stops(ops: seq<char>, ch: char)
  {
    |ops| == 0 || Prec(ch) > Prec(ops[|ops| - 1])
  }

  /** The operator loop: build nodes while the incoming operator binds no tighter than the top. */
  function PopWhile(st: ParseState, ch: char): (r: Result<ParseState>)
    ensures r.Ok? ==> YieldAll(r.value.outq) == YieldAll(st.outq)
    ensures r.Ok? ==> Stops(r.value.ops, ch)
    ensures r.Ok? && Good(st) ==> Good(r.value)
    decreases |st.ops|
  {
    if Stops(st.ops, ch) then Ok(st)
    else
      match NewNode(st)
      case Err(e) => Err(e)
      case Ok(st') => PopWhile(st', ch)
  }

  /** The final loop: build nodes until the operator stack is empty. */
  function Drain(st: ParseState): (r: Result<ParseState>)
    ensures r.Ok? ==> YieldAll(r.value.outq) == YieldAll(st.outq) && |r.value.ops| == 0
    ensures r.Ok? && Good(st) ==> Good(r.value)
    decreases |st.ops|
  {
    if |st.ops| == 0 then Ok(st)
    else
      var st' :- NewNode(st);
      Drain(st')
  }

  /** One character of the formatted expression. */
  function Step(st: ParseState, ch: char): (r: Result<ParseState>)
    ensures r.Ok? ==> YieldAll(r.value.outq) == YieldAll(st.outq) + (if IsOperator(ch) then "" else [ch])
    ensures r.Ok? && Good(st) ==> Good(r.value)
  {
    if !IsOperator(ch) then
      assert (st.outq + [Leaf(ch)])[..|st.outq|] == st.outq;
      Ok(ParseState(st.outq + [Leaf(ch)], st.ops))
    else if ch == '(' then Ok(ParseState(st.outq, st.ops + [ch]))
    else if ch == ')' then
      var st' :- PopUntilOpen(st);
      if |st'.ops| == 0 then Err(IndexError)
      else Ok(ParseState(st'.outq, st'.ops[..|st'.ops| - 1]))
    else
      var st' :- PopWhile(st, ch);
      Ok(ParseState(st'.outq, st'.ops + [ch]))
  }

  /** The main loop over the first `n` characters. It keeps every tree labelled and every
      stacked entry an operator, its trees yield the operands read so far, in order, it
      builds no parenthesis node, and the `(`s on its stack are those read and not yet
      closed. */
  function Run(s: string, n: nat): (r: Result<ParseState>)
    requires n <= |s|
    ensures r.Ok? ==> Good(r.value) && YieldAll(r.value.outq) == Operands(s[..n])
    ensures r.Ok? ==> NoParens(r.value) && ParenDepth(r.value.ops) == ParenDepth(s[..n])
  {
    if n == 0 then Ok(ParseState([], []))
    else
      match Run(s, n - 1)
      case Err(e) => Err(e)
      case Ok(st) =>
        assert s[..n] == s[..n - 1] + [s[n - 1]];
        OperandsAppend(s[..n - 1], s[n - 1]);
        ParenDepthAppend(s[..n - 1], [s[n - 1]]);
        match Step(st, s[n - 1])
        case Err(e) => Err(e)
        case Ok(st') =>
          StepNoParens(st, s[n - 1]);
          Ok(st')
  }

  /** `parse(regex)`: the tree left on top of the output queue. */
  function Parse(regex: string): (r: Result<PTree>)
    ensures |regex| == 0 ==> r == Err(IndexError)
  {
    var f :- FormatRegex(regex);
    var st :- Run(f, |f|);
    var st' :- Drain(st);
    if |st'.outq| == 0 then Err(IndexError) else Ok(st'.outq[|st'.outq| - 1])
  }

  /** Reading one more character adds it to the operands exactly when it is one. */
  lemma OperandsAppend(a: string, c: char)
    ensures Operands(a + [c]) == Operands(a) + if IsOperator(c) then "" else [c]
  {
    KeepAppend(a, [c], OperandsOnly);
    KeepOne(c, OperandsOnly);
  }

  /** The tree of a list's last element yields a suffix of the list's operands. */
  lemma YieldLast(ts: seq<PTree>)
    requires |ts| > 0
    ensures IsSuffix(Yield(ts[|ts| - 1]), YieldAll(ts))
  {
    var y, all := Yield(ts[|ts| - 1]), YieldAll(ts);
    assert all[|all| - |y|..] == y;
  }

  /** The parsed tree is labelled, and its operands are the last of the input's operand
      characters, in order (all of them when the expression is well formed). */
  lemma ParseSound(regex: string)
    requires Parse(regex).Ok?
    ensures Labelled(Parse(regex).value)
    ensures IsSuffix(Yield(Parse(regex).value), Operands(regex))
  {
    var f := FormatRegex(regex).value;
    assert f[..|f|] == f;
    var st0 := Run(f, |f|).value;
    assert Good(st0) && YieldAll(st0.outq) == Operands(f);
    var st := Drain(st0).value;
    assert Parse(regex).value == st.outq[|st.outq| - 1];
    FormatKeeps(regex, OperandsOnly);
    YieldLast(st.outq);
  }

  /** Opening minus closing parentheses. */
  function ParenDepth(s: string): int
  {
    |Keep(s, Opens)| - |Keep(s, Closes)|
  }

  lemma ParenDepthAppend(a: string, b: string)
    ensures ParenDepth(a + b) == ParenDepth(a) + ParenDepth(b)
  {
    KeepAppend(a, b, Opens);
    KeepAppend(a, b, Closes);
  }

  /** The depth of a string with a known first character. */
  lemma ParenDepthCons(c: char, x: string)
    ensures ParenDepth([c] + x) == (if c == '(' then 1 else if c == ')' then -1 else 0) + ParenDepth(x)
  {
    KeepCons(c, x, Opens);
    KeepCons(c, x, Closes);
  }

  /** A one-character string has depth 1, -1 or 0. */
  lemma ParenDepthOne(c: char)
    ensures ParenDepth([c]) == if c == '(' then 1 else if c == ')' then -1 else 0
  {
    KeepOne(c, Opens);
    KeepOne(c, Closes);
  }

  /** Nothing passes a filter that no character of the string passes. */
  lemma {:induction false} KeepNone(s: string, p: Filter)
    requires forall i | 0 <= i < |s| :: !Pass(p, s[i])
    ensures Keep(s, p) == ""
  {
    if |s| > 0 {
      assert forall i | 0 <= i < |s[1..]| :: s[1..][i] == s[i + 1];
      KeepNone(s[1..], p);
    }
  }

  /** A character that passes is kept. */
  lemma {:induction false} KeepFinds(s: string, p: Filter, i: nat)
    requires i < |s| && Pass(p, s[i])
    ensures |Keep(s, p)| > 0
  {
    if i > 0 && !Pass(p, s[0]) {
      assert s[1..][i - 1] == s[i];
      KeepFinds(s[1..], p, i - 1);
    }
  }

  /** A stack without `)` has a positive depth as soon as it holds a `(`. */
  lemma ParenDepthOpens(s: string)
    requires forall i | 0 <= i < |s| :: s[i] != ')'
    ensures ParenDepth(s) >= 0
    ensures '(' in s ==> ParenDepth(s) > 0
  {
    KeepNone(s, Closes);
    if '(' in s {
      var i :| 0 <= i < |s| && s[i] == '(';
      KeepFinds(s, Opens, i);
    }
  }

  /** Formatting only inserts dots, so it keeps the depth. */
  lemma FormatKeepsDepth(s: string)
    requires |s| >= 1
    ensures ParenDepth(Formatted(s)) == ParenDepth(s)
  {
    FormatKeeps(s, Opens);
    FormatKeeps(s, Closes);
  }

  /** A tree with no parenthesis node. */
  predicate ParenFree(t: PTree)
  {
    t.val != '(' && t.val != ')' &&
    (t.Node? ==> ParenFree(t.op1) && (t.op2.Some? ==> ParenFree(t.op2.value)))
  }

  /** No tree of the queue holds a parenthesis node and no `)` is ever stacked. */
  predicate NoParens(st: ParseState)
  {
    (forall i | 0 <= i < |st.outq| :: ParenFree(st.outq[i])) &&
    (forall i | 0 <= i < |st.ops| :: st.ops[i] != ')')
  }

  /** Building a node from an operator other than `(` keeps `NoParens` and the depth of
      the stack. */
  lemma NewNodeNoParens(st: ParseState)
    requires NoParens(st) && NewNode(st).Ok? && st.ops[|st.ops| - 1] != '('
    ensures NoParens(NewNode(st).value)
    ensures ParenDepth(NewNode(st).value.ops) == ParenDepth(st.ops)
  {
    var ops := st.ops;
    var k := |ops| - 1;
    assert ops == ops[..k] + [ops[k]];
    ParenDepthAppend(ops[..k], [ops[k]]);
    ParenDepthOne(ops[k]);
    var outq := st.outq;
    var op2 := outq[|outq| - 1];
    assert ParenFree(op2);
    if IsBinOp(ops[k]) {
      assert ParenFree(outq[|outq| - 2]);
    }
  }

  /** The `)` loop stops at a `(` without building a node from it. */
  lemma {:induction false} PopUntilOpenNoParens(st: ParseState)
    requires NoParens(st) && PopUntilOpen(st).Ok?
    ensures NoParens(PopUntilOpen(st).value)
    ensures ParenDepth(PopUntilOpen(st).value.ops) == ParenDepth(st.ops)
    decreases |st.ops|
  {
    if |st.ops| > 0 && st.ops[|st.ops| - 1] != '(' {
      NewNodeNoParens(st);
      PopUntilOpenNoParens(NewNode(st).value);
    }
  }

  /** The operator loop never pops a `(`: every operator binds tighter than it. */
  lemma {:induction false} PopWhileNoParens(st: ParseState, ch: char)
    requires NoParens(st) && PopWhile(st, ch).Ok? && Prec(ch) > 0
    ensures NoParens(PopWhile(st, ch).value)
    ensures ParenDepth(PopWhile(st, ch).value.ops) == ParenDepth(st.ops)
    decreases |st.ops|
  {
    if !Stops(st.ops, ch) {
      assert st.ops[|st.ops| - 1] != '(';
      NewNodeNoParens(st);
      PopWhileNoParens(NewNode(st).value, ch);
    }
  }

  /** One character keeps `NoParens`, and the stacked `(` count follows the depth read. */
  lemma StepNoParens(st: ParseState, ch: char)
    requires NoParens(st) && Step(st, ch).Ok?
    ensures NoParens(Step(st, ch).value)
    ensures ParenDepth(Step(st, ch).value.ops) == ParenDepth(st.ops) + ParenDepth([ch])
  {
    if !IsOperator(ch) {
      assert Step(st, ch).value.ops == st.ops;
      ParenDepthOne(ch);
    } else if ch == '(' {
      assert Step(st, ch).value.ops == st.ops + [ch];
      ParenDepthAppend(st.ops, [ch]);
      ParenDepthOne(ch);
    } else if ch == ')' {
      CloseNoParens(st);
    } else {
      OperatorNoParens(st, ch);
    }
  }

  /** A `)` closes the innermost `(`: one `(` fewer on the stack. */
  lemma CloseNoParens(st: ParseState)
    requires NoParens(st) && Step(st, ')').Ok?
    ensures NoParens(Step(st, ')').value)
    ensures ParenDepth(Step(st, ')').value.ops) == ParenDepth(st.ops) - 1
  {
    PopUntilOpenNoParens(st);
    var st' := PopUntilOpen(st).value;
    var ops' := st'.ops;
    var k := |ops'| - 1;
    assert Step(st, ')').value == ParseState(st'.outq, ops'[..k]);
    assert ops' == ops'[..k] + ['('];
    ParenDepthAppend(ops'[..k], ['(']);
    ParenDepthOne('(');
  }

  /** An operator is stacked after the loop, which keeps every `(`. */
  lemma OperatorNoParens(st: ParseState, ch: char)
    requires IsOperator(ch) && ch != '(' && ch != ')'
    requires NoParens(st) && Step(st, ch).Ok?
    ensures NoParens(Step(st, ch).value)
    ensures ParenDepth(Step(st, ch).value.ops) == ParenDepth(st.ops)
  {
    PopWhileNoParens(st, ch);
    var st' := PopWhile(st, ch).value;
    assert Step(st, ch).value == ParseState(st'.outq, st'.ops + [ch]);
    ParenDepthAppend(st'.ops, [ch]);
    ParenDepthOne(ch);
  }

  /** The final loop over a stack without `(` builds no parenthesis node. */
  lemma {:induction false} DrainNoParens(st: ParseState)
    requires NoParens(st) && ParenDepth(st.ops) == 0 && Drain(st).Ok?
    ensures NoParens(Drain(st).value)
    decreases |st.ops|
  {
    if |st.ops| > 0 {
      ParenDepthOpens(st.ops);
      assert st.ops[|st.ops| - 1] in st.ops;
      NewNodeNoParens(st);
      DrainNoParens(NewNode(st).value);
    }
  }

  /** An expression with as many `(` as `)` that parses gives a tree with no parenthesis
      node: each `)` discards the matching `(`, and an unmatched `)` raises. */
  lemma ParseParenFree(regex: string)
    requires Parse(regex).Ok? && ParenDepth(regex) == 0
    ensures ParenFree(Parse(regex).value)
  {
    var f := FormatRegex(regex).value;
    FormatKeepsDepth(regex);
    assert f[..|f|] == f;
    var st0 := Run(f, |f|).value;
    assert NoParens(st0) && ParenDepth(st0.ops) == 0;
    DrainNoParens(st0);
    var st := Drain(st0).value;
    assert Parse(regex).value == st.outq[|st.outq| - 1];
  }

  /** An unmatched `(` left on the stack is turned into a node by the final loop. */
  lemma UnmatchedOpenNode(t: PTree)
    ensures Drain(ParseState([t], "(")) == Ok(ParseState([Node('(', t, None)], ""))
  {
    var st := ParseState([t], "(");
    assert NewNode(st) == Ok(ParseState([Node('(', t, None)], ""));
  }

  /** The `)` loop only pops: what is left of the stack is a prefix of it, and nothing is
      left when it holds no `(`. */
  lemma {:induction false} PopUntilOpenPrefix(st: ParseState)
    requires PopUntilOpen(st).Ok?
    ensures PopUntilOpen(st).value.ops <= st.ops
    ensures '(' !in st.ops ==> |PopUntilOpen(st).value.ops| == 0
    decreases |st.ops|
  {
    if |st.ops| > 0 && st.ops[|st.ops| - 1] != '(' {
      var st' := NewNode(st).value;
      PopUntilOpenPrefix(st');
      assert st'.ops <= st.ops;
    }
  }

  /** A `)` with no `(` on the stack empties it and then pops it, which raises. */
  lemma UnmatchedCloseRaises(st: ParseState)
    requires '(' !in st.ops
    ensures Step(st, ')').Err?
  {
    if PopUntilOpen(st).Ok? {
      PopUntilOpenPrefix(st);
    }
  }
}
