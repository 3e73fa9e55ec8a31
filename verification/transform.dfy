/**
 The finite-language rewrite draft: `convert` walks the parser's dict-shaped tree and
 replaces each unbounded repetition by a concatenation of bounded ones (`e*` by
 `e?e?`, `e+` by `e e?`) and small counted repetitions by literal copies, then
 recurses into the node's value. The source mutates the tree in place and
 deep-copies the pieces it duplicates; here the tree is an immutable value.
 */
module Transform {
  import opened Wrappers
  import opened RegexAst

  /** The `"type"` of a node. */
  datatype Kind = KLiteral | KConcat | KUnion | KRepetition | KWildcard | KCharClass

  /** A node: its type, its `"quantifier"` key when present, and its `"value"`. */
  datatype DTree = DTree(kind: Kind, quant: Option<Quant>, value: DValue)

  /** A `"value"`: a string (literals, classes), a list of nodes (concat, union), one
      node (repetition), or no key at all (the wildcard). */
  datatype DValue = VStr(s: string) | VList(items: seq<DTree>) | VDict(d: DTree) | VMissing

  /** The trees the parser builds: every key the node's type calls for is there. */
  predicate WellFormed(t: DTree)
  {
    match t.kind
    case KLiteral => t.value.VStr?
    case KCharClass => t.value.VStr?
    case KWildcard => t.value.VMissing?
    case KConcat => t.value.VList? && forall i | 0 <= i < |t.value.items| :: WellFormed(t.value.items[i])
    case KUnion => t.value.VList? && forall i | 0 <= i < |t.value.items| :: WellFormed(t.value.items[i])
    case KRepetition => t.quant.Some? && t.value.VDict? && WellFormed(t.value.d)
  }

  /** A repetition node with quantifier `q`. */
  predicate IsRep(t: DTree, q: Quant)
  {
    t.kind == KRepetition && t.quant == Some(q)
  }

  /** No `*` or `+` repetition anywhere in the tree. */
  predicate Bounded(t: DTree)
  {
    !IsRep(t, Star) && !IsRep(t, Plus) &&
    match t.value
    case VDict(d) => Bounded(d)
    case VList(items) => forall i | 0 <= i < |items| :: Bounded(items[i])
    case _ => true
  }

  /** The number of nodes. */
  function Size(t: DTree): (r: nat)
    ensures r >= 1
  {
    1 + ValueSize(t.value)
  }

  function ValueSize(v: DValue): nat
  {
    match v
    case VDict(d) => Size(d)
    case VList(items) => ListSize(items)
    case _ => 0
  }

  function ListSize(items: seq<DTree>): nat
  {
    if |items| == 0 then 0 else Size(items[0]) + ListSize(items[1..])
  }

  /** 1 for the nodes `convert` rewrites before recursing: the copies it makes of such a
      node are as large as the node, but are not rewritten again. */
  function Rank(t: DTree): nat
  {
    if t.kind == KRepetition && t.quant.Some? && (t.quant.value == Star || t.quant.value == Plus || t.quant.value.Exactly?)
    then 1 else 0
  }

  /** `parse_tree["value"]` read as a node: a string or list value fails to be indexed by
      a key (TypeError), a missing value is a KeyError. */
  function Body(t: DTree): (r: Result<DTree>)
    ensures r.Ok? <==> t.value.VDict?
    ensures r.Ok? ==> r.value == t.value.d && Size(r.value) < Size(t)
  {
    match t.value
    case VDict(d) => Ok(d)
    case VMissing => Err(KeyError)
    case _ => Err(TypeError)
  }

  /** The first piece of `e+`: the body with its type and value, and the `+` kept when the
      body is itself a repetition. Reading the value of a wildcard body raises, unless
      `fixed`. */
  function PlusFirst(e: DTree, fixed: bool): (r: Result<DTree>)
    ensures r.Ok? <==> fixed || !e.value.VMissing?
    ensures r.Ok? ==> r.value.kind == e.kind && r.value.value == e.value && Size(r.value) == Size(e)
    ensures r.Ok? && WellFormed(e) ==> WellFormed(r.value)
  {
    if !fixed && e.value.VMissing? then Err(KeyError)
    else Ok(DTree(e.kind, if e.kind == KRepetition then Some(Plus) else None, e.value))
  }

  /** `convert(parse_tree)`. With `fixed` false this is the code as written; with `fixed`
      true, `{1}` becomes its body, `{2}` the concatenation of two copies of its body, and
      a node without a value stops the recursion instead of raising. The two copies the
      code makes of a node are equal and converting is deterministic, so each is
      converted once here. */
  function ConvertWith(t: DTree, fixed: bool): (r: Result<DTree>)
    ensures r.Ok? ==> Bounded(r.value)
    ensures fixed && WellFormed(t) ==> r.Ok? && WellFormed(r.value)
    ensures t.kind != KRepetition && r.Ok? ==> r.value.kind == t.kind && r.value.quant == t.quant
    ensures IsRep(t, Star) && r.Ok? ==>
      r.value.kind == KConcat && r.value.value.VList? && |r.value.value.items| == 2 &&
      r.value.value.items[0] == r.value.value.items[1] && IsRep(r.value.value.items[0], Opt)
    ensures IsRep(t, Plus) && t.value.VDict? && t.value.d.kind != KRepetition && r.Ok? ==>
      r.value.kind == KConcat && r.value.value.VList? && |r.value.value.items| == 2 &&
      r.value.value.items[0].kind == t.value.d.kind && IsRep(r.value.value.items[1], Opt)
    ensures IsRep(t, Exactly(0)) ==> r == Ok(DTree(KLiteral, t.quant, VStr("")))
    ensures t.kind == KRepetition && t.quant.Some? && Rank(t) == 0 && r.Ok? ==>
      r.value.kind == t.kind && r.value.quant == t.quant
    ensures t.kind == KRepetition && t.quant.Some? && t.quant.value.Exactly? && t.quant.value.m >= 3 && r.Ok? ==>
      r.value.kind == t.kind && r.value.quant == t.quant
    decreases Size(t), Rank(t), 1
  {
    if t.kind != KRepetition then ConvertValue(t, fixed)
    else if t.quant.None? then Err(KeyError)
    else match t.quant.value
      case Star =>
        var c :- ConvertWith(DTree(KRepetition, Some(Opt), t.value), fixed);
        Ok(DTree(KConcat, None, VList([c, c])))
      case Plus =>
        var e :- Body(t);
        var first :- PlusFirst(e, fixed);
        var c1 :- ConvertWith(first, fixed);
        var c2 :- ConvertWith(DTree(KRepetition, Some(Opt), VDict(e)), fixed);
        Ok(DTree(KConcat, None, VList([c1, c2])))
      case Exactly(m) =>
        if m == 0 then Ok(DTree(KLiteral, t.quant, VStr("")))
        else if m == 1 then
          var e :- Body(t);
          if fixed then ConvertWith(e, fixed)
          else if e.value.VMissing? then Err(KeyError)
          else ConvertValue(DTree(KRepetition, t.quant, e.value), fixed)
        else if m == 2 then
          if fixed then
            var e :- Body(t);
            var c :- ConvertWith(e, fixed);
            Ok(DTree(KConcat, None, VList([c, c])))
          else
            var c :- ConvertWith(DTree(KConcat, None, t.value), fixed);
            Ok(DTree(KConcat, None, VList([c, c])))
        else ConvertValue(t, fixed)
      case _ => ConvertValue(t, fixed)
  }

  /** The recursion at the end of `convert`: into each node of a list value, into a node
      value, and not into a string. Reading the value of a node that has none raises,
      unless `fixed`. */
  function ConvertValue(t: DTree, fixed: bool): (r: Result<DTree>)
    ensures r.Ok? ==> r.value.kind == t.kind && r.value.quant == t.quant
    ensures r.Ok? && !IsRep(t, Star) && !IsRep(t, Plus) ==> Bounded(r.value)
    ensures fixed && WellFormed(t) ==> r.Ok? && WellFormed(r.value)
    ensures t.value.VStr? ==> r == Ok(t)
    decreases Size(t), 0, 0
  {
    match t.value
    case VStr(_) => Ok(t)
    case VMissing => if fixed then Ok(t) else Err(KeyError)
    case VDict(d) =>
      assert Size(t) == 1 + Size(d);
      var d' :- ConvertWith(d, fixed);
      Ok(t.(value := VDict(d')))
    case VList(items) =>
      assert Size(t) == 1 + ListSize(items);
      var items' :- ConvertList(items, fixed);
      Ok(t.(value := VList(items')))
  }

  /** `for sub_tree in parse_tree["value"]: convert(sub_tree)`, stopping at the first raise. */
  function ConvertList(items: seq<DTree>, fixed: bool): (r: Result<seq<DTree>>)
    ensures r.Ok? ==> |r.value| == |items| && forall i | 0 <= i < |r.value| :: Bounded(r.value[i])
    ensures fixed && (forall i | 0 <= i < |items| :: WellFormed(items[i])) ==>
      r.Ok? && forall i | 0 <= i < |r.value| :: WellFormed(r.value[i])
    decreases ListSize(items), 2, 0
  {
    if |items| == 0 then Ok([])
    else
      var h :- ConvertWith(items[0], fixed);
      var rest :- ConvertList(items[1..], fixed);
      Ok([h] + rest)
  }

  /** `convert` as written. */
  function ConvertAsWritten(t: DTree): (r: Result<DTree>)
    ensures r.Ok? ==> Bounded(r.value)
  {
    ConvertWith(t, false)
  }

  /** `convert` with the `{1}`, `{2}` and wildcard cases corrected: a well-formed tree
      converts without raising into a well-formed tree with no `*` or `+` left. */
  function Convert(t: DTree): (r: Result<DTree>)
    ensures r.Ok? ==> Bounded(r.value)
    ensures WellFormed(t) ==> r.Ok? && WellFormed(r.value)
  {
    ConvertWith(t, true)
  }

  /** `(ab){1}` as written becomes a repetition whose value is the string "ab": the node
      keeps its type, so the tree is no longer well formed. Corrected, it is the literal. */
  lemma ExactlyOneExample()
    ensures var t := DTree(KRepetition, Some(Exactly(1)), VDict(DTree(KLiteral, None, VStr("ab"))));
      WellFormed(t) &&
      ConvertAsWritten(t) == Ok(DTree(KRepetition, Some(Exactly(1)), VStr("ab"))) &&
      !WellFormed(ConvertAsWritten(t).value) &&
      Convert(t) == Ok(DTree(KLiteral, None, VStr("ab")))
  {
  }

  /** `(ab){2}` as written becomes a concatenation of two concat nodes whose value is a
      single node, not a list. Corrected, it is the concatenation of two copies of "ab". */
  lemma ExactlyTwoExample()
    ensures var ab := DTree(KLiteral, None, VStr("ab"));
      var t := DTree(KRepetition, Some(Exactly(2)), VDict(ab));
      var inner := DTree(KConcat, None, VDict(ab));
      WellFormed(t) &&
      ConvertAsWritten(t) == Ok(DTree(KConcat, None, VList([inner, inner]))) &&
      !WellFormed(ConvertAsWritten(t).value) &&
      Convert(t) == Ok(DTree(KConcat, None, VList([ab, ab])))
  {
    var ab := DTree(KLiteral, None, VStr("ab"));
    var inner := DTree(KConcat, None, VDict(ab));
    assert !WellFormed(inner);
    assert VList([inner, inner]).items[0] == inner;
  }

  /** A wildcard has no value key, so as written any tree holding one raises KeyError. */
  lemma WildcardExample()
    ensures var t := DTree(KRepetition, Some(Opt), VDict(DTree(KWildcard, None, VMissing)));
      WellFormed(t) && ConvertAsWritten(t) == Err(KeyError) && Convert(t) == Ok(t)
  {
  }
}
