/**
 The sparse integer set: a `dense` list holding the added values in insertion order,
 `cur_len` of them, and a `sparse` list mapping a value to its position in `dense`.
 Both lists have `max_len` slots, all None at creation. The object is mutated in place
 by the source; here each operation returns the new state.
 */
module SparseSets {
  import opened Wrappers

  datatype SparseSet = SparseSet(sparse: seq<Option<nat>>, dense: seq<Option<int>>, curLen: nat, maxLen: nat)

  /** Python list indexing `l[x]` on a list of length `n`: a negative `x` counts from the
      end, and anything outside `-n .. n-1` is an IndexError (None here). */
  function PyIndex(n: nat, x: int): (r: Option<nat>)
    ensures r.Some? <==> 0 <= x + n && x < n
    ensures r.Some? ==> r.value < n && (x >= 0 ==> r.value == x)
  {
    if 0 <= x < n then Some(x) else if 0 <= x + n && x < 0 then Some(n + x) else None
  }

  /** The lengths the constructor gives, and a value in every slot of `dense` below `cur_len`. */
  predicate Shaped(s: SparseSet)
  {
    |s.sparse| == s.maxLen && |s.dense| == s.maxLen && s.curLen <= s.maxLen &&
    forall k | 0 <= k < s.curLen :: s.dense[k].Some?
  }

  /** The values in the first `cur_len` slots of `dense`. */
  function Members(s: SparseSet): set<int>
  {
    set k | 0 <= k < s.curLen && k < |s.dense| && s.dense[k].Some? :: s.dense[k].value
  }

  /** Every non-negative member's `sparse` slot points at a `dense` slot below `cur_len`
      holding that member. */
  predicate Linked(s: SparseSet)
    requires Shaped(s)
  {
    forall k | 0 <= k < s.curLen && 0 <= s.dense[k].value < s.maxLen ::
      s.sparse[s.dense[k].value].Some? && s.sparse[s.dense[k].value].value < s.curLen &&
      s.dense[s.sparse[s.dense[k].value].value] == s.dense[k]
  }

  /** Every filled `sparse` slot points back at a `dense` slot below `cur_len` holding
      the slot's own index: nothing stale, nothing aliased. */
  predicate Exact(s: SparseSet)
    requires Shaped(s)
  {
    forall i | 0 <= i < s.maxLen && s.sparse[i].Some? ::
      s.sparse[i].value < s.curLen && s.dense[s.sparse[i].value] == Some(i)
  }

  /** `Set(max_len)`: every slot None, nothing added. */
  function Init(maxLen: nat): (r: SparseSet)
    ensures Shaped(r) && Linked(r) && Exact(r)
    ensures Members(r) == {} && r.curLen == 0
  {
    SparseSet(seq(maxLen, _ => None), seq(maxLen, _ => None), 0, maxLen)
  }

  /** `Add(x)`: a value below `max_len` goes into `dense[cur_len]`, its position into
      `sparse[x]`, and `cur_len` grows by one; any other value leaves the set unchanged.
      Writing `dense[cur_len]` when the set is full raises IndexError, as does writing
      `sparse[x]` for an `x` below `-max_len`. */
  function Add(s: SparseSet, x: int): (r: Result<SparseSet>)
    requires Shaped(s)
    ensures x >= s.maxLen ==> r == Ok(s)
    ensures x < s.maxLen ==> (r.Ok? <==> s.curLen < s.maxLen && 0 <= x + s.maxLen)
    ensures r.Err? ==> r.error == IndexError
    ensures r.Ok? ==> Shaped(r.value) && r.value.maxLen == s.maxLen
    ensures r.Ok? && x < s.maxLen ==>
      r.value.curLen == s.curLen + 1 &&
      r.value.dense[..r.value.curLen] == s.dense[..s.curLen] + [Some(x)] &&
      Members(r.value) == Members(s) + {x}
  {
    if x < s.maxLen then
      if s.curLen >= |s.dense| then Err(IndexError)
      else
        var dense := s.dense[s.curLen := Some(x)];
        match PyIndex(|s.sparse|, x)
        case None => Err(IndexError)
        case Some(i) =>
          var r := SparseSet(s.sparse[i := Some(s.curLen)], dense, s.curLen + 1, s.maxLen);
          assert r.dense[..r.curLen] == s.dense[..s.curLen] + [Some(x)];
          assert Members(r) == Members(s) + {x} by {
            assert r.dense[s.curLen].value == x;
            forall y | y in Members(s) ensures y in Members(r) {
              var k :| 0 <= k < s.curLen && s.dense[k].Some? && s.dense[k].value == y;
              assert r.dense[k] == s.dense[k];
            }
          }
          Ok(r)
    else Ok(s)
  }

  /** A non-negative value keeps the members linked. */
  lemma AddLinked(s: SparseSet, x: int)
    requires Shaped(s) && Linked(s) && x >= 0 && Add(s, x).Ok?
    ensures Linked(Add(s, x).value)
  {
  }

  /** A non-negative value keeps every `sparse` slot pointing back at itself. */
  lemma AddExact(s: SparseSet, x: int)
    requires Shaped(s) && Exact(s) && x >= 0 && Add(s, x).Ok?
    ensures Exact(Add(s, x).value)
  {
  }

  /** `Has(x)` as written: `sparse[x] < max_len and dense[sparse[x]] == x`. A value never
      added has `sparse[x]` None, and comparing None with an int raises TypeError; a value
      at or above `max_len` prints and returns None. */
  function HasAsWritten(s: SparseSet, x: int): (r: Result<bool>)
    requires Shaped(s)
    ensures x >= s.maxLen <==> r == Err(NoneReturned)
    ensures 0 <= x < s.maxLen ==> (r.Err? <==> s.sparse[x].None?)
  {
    if x < s.maxLen then
      match PyIndex(|s.sparse|, x)
      case None => Err(IndexError)
      case Some(i) =>
        var v := s.sparse[i];
        if v.None? then Err(TypeError)
        else if v.value < s.maxLen then Ok(s.dense[v.value] == Some(x))
        else Ok(false)
    else Err(NoneReturned)
  }

  /** `Has(x)` corrected: the `sparse` slot must be filled and point below `cur_len`. */
  function Has(s: SparseSet, x: int): (r: Result<bool>)
    requires Shaped(s)
    ensures x >= s.maxLen <==> r == Err(NoneReturned)
    ensures 0 <= x + s.maxLen && x < s.maxLen ==> r.Ok?
    ensures r == Ok(true) ==> x in Members(s)
  {
    if x < s.maxLen then
      match PyIndex(|s.sparse|, x)
      case None => Err(IndexError)
      case Some(i) =>
        var v := s.sparse[i];
        var found := v.Some? && v.value < s.curLen && s.dense[v.value] == Some(x);
        if found then
          assert s.dense[v.value].value == x;
          Ok(true)
        else Ok(false)
    else Err(NoneReturned)
  }

  /** On linked sets, `Has` answers membership exactly. */
  lemma HasMeaning(s: SparseSet, x: int)
    requires Shaped(s) && Linked(s) && 0 <= x < s.maxLen
    ensures Has(s, x) == Ok(x in Members(s))
  {
    if x in Members(s) {
      var k :| 0 <= k < s.curLen && s.dense[k].Some? && s.dense[k].value == x;
    }
  }

  /** Without stale slots, `Has` as written answers true for members and raises for
      every other value in range, instead of answering false. */
  lemma HasAsWrittenMeaning(s: SparseSet, x: int)
    requires Shaped(s) && Linked(s) && Exact(s) && 0 <= x < s.maxLen
    ensures HasAsWritten(s, x) == if x in Members(s) then Ok(true) else Err(TypeError)
  {
    if x in Members(s) {
      var k :| 0 <= k < s.curLen && s.dense[k].Some? && s.dense[k].value == x;
    }
  }

  /** Right after `Add(x)`, both versions of `Has(x)` answer true, for any `x` the add accepted. */
  lemma AddThenHas(s: SparseSet, x: int)
    requires Shaped(s) && x < s.maxLen && Add(s, x).Ok?
    ensures HasAsWritten(Add(s, x).value, x) == Ok(true)
    ensures Has(Add(s, x).value, x) == Ok(true)
  {
  }

  /** `Reset()` as written looks up `self.self`, which does not exist. */
  function ResetAsWritten(s: SparseSet): (r: Result<SparseSet>)
    ensures r.Err?
  {
    Err(AttributeError)
  }

  /** `Reset()` corrected: `cur_len` back to zero; the slots keep their stale contents. */
  function Reset(s: SparseSet): (r: SparseSet)
    requires Shaped(s)
    ensures Shaped(r) && Linked(r) && Members(r) == {}
    ensures r.maxLen == s.maxLen
  {
    s.(curLen := 0)
  }

  /** After the corrected reset, nothing in range is a member, and the next add leaves
      exactly that value. */
  lemma ResetThenHas(s: SparseSet, x: int, y: int)
    requires Shaped(s) && 0 <= x < s.maxLen && y < s.maxLen
    ensures Has(Reset(s), x) == Ok(false)
    ensures Add(Reset(s), y).Ok? <==> 0 <= y + s.maxLen
    ensures Add(Reset(s), y).Ok? ==> Members(Add(Reset(s), y).value) == {y}
  {
    HasMeaning(Reset(s), x);
  }

  /** The source's own defects, on a set of ten slots: `Has(3)` before any add raises
      instead of answering false; after adding 5 and resetting, the stale slots make
      `Has(5)` as written answer true, where the corrected `Has` answers false; and
      `Reset` itself raises. */
  lemma HasAsWrittenExamples()
    ensures HasAsWritten(Init(10), 3) == Err(TypeError) && Has(Init(10), 3) == Ok(false)
    ensures Add(Init(10), 5).Ok?
    ensures var s := Reset(Add(Init(10), 5).value);
      HasAsWritten(s, 5) == Ok(true) && Has(s, 5) == Ok(false)
    ensures ResetAsWritten(Add(Init(10), 5).value) == Err(AttributeError)
  {
    var s := Add(Init(10), 5).value;
    assert s.sparse[5] == Some(0) && s.dense[0] == Some(5);
  }

  /** A negative value shares its `sparse` slot with `max_len` plus that value: after
      adding -1 and then 9 to a set of ten slots, -1 is no longer found. */
  lemma NegativeAliasExample()
    ensures Add(Init(10), -1).Ok?
    ensures var s := Add(Init(10), -1).value;
      Add(s, 9).Ok? && -1 in Members(Add(s, 9).value) && Has(Add(s, 9).value, -1) == Ok(false)
  {
    var s := Add(Init(10), -1).value;
    var t := Add(s, 9).value;
    assert t.sparse[9] == Some(1) && t.dense[1] == Some(9);
  }

  /** The `Len()` accessor. */
  function Len(s: SparseSet): nat
  {
    s.curLen
  }

  /** The `Dense()` accessor. */
  function Dense(s: SparseSet): seq<Option<int>>
  {
    s.dense
  }

  /** The values the guard of `Add` lets through, in order. */
  function Passing(h: seq<int>, maxLen: nat): (r: seq<int>)
    ensures forall x :: x in r <==> x in h && x < maxLen
  {
    if |h| == 0 then []
    else Passing(h[..|h| - 1], maxLen) + (if h[|h| - 1] < maxLen then [h[|h| - 1]] else [])
  }

  /** Each value as a filled slot. */
  function Filled(p: seq<int>): (r: seq<Option<int>>)
    ensures |r| == |p| && forall k | 0 <= k < |p| :: r[k] == Some(p[k])
  {
    if |p| == 0 then [] else Filled(p[..|p| - 1]) + [Some(p[|p| - 1])]
  }

  /** `Set(max_len)` followed by `Add(x)` for each `x` of `h`, stopping at the first raise. */
  function Replay(maxLen: nat, h: seq<int>): (r: Result<SparseSet>)
    ensures r.Ok? ==> Shaped(r.value) && r.value.maxLen == maxLen
  {
    if |h| == 0 then Ok(Init(maxLen))
    else
      var s :- Replay(maxLen, h[..|h| - 1]);
      Add(s, h[|h| - 1])
  }

  /** None of the values is below `-max_len`, so each indexes `sparse` without raising. */
  predicate Indexable(p: seq<int>, maxLen: nat)
  {
    forall x | x in p :: 0 <= x + maxLen
  }

  /** One more value keeps the list indexable exactly when it is itself not below `-max_len`. */
  lemma IndexableSnoc(p: seq<int>, x: int, maxLen: nat)
    ensures Indexable(p + [x], maxLen) <==> Indexable(p, maxLen) && 0 <= x + maxLen
  {
    if Indexable(p, maxLen) && 0 <= x + maxLen {
      forall y | y in p + [x] ensures 0 <= y + maxLen {
        if y != x {
          assert y in p;
        }
      }
    }
    if Indexable(p + [x], maxLen) {
      assert x in p + [x];
      forall y | y in p ensures 0 <= y + maxLen {
        assert y in p + [x];
      }
    }
  }

  /** A sequence of adds succeeds exactly when at most `max_len` of them pass the guard and
      none of those is below `-max_len`. Then `Len()` counts the passing adds, the first
      `Len()` slots of `Dense()` are those values in insertion order, and the members are
      exactly those values. */
  lemma {:induction false} ReplayMeaning(maxLen: nat, h: seq<int>)
    ensures var p := Passing(h, maxLen);
      Replay(maxLen, h).Ok? <==> |p| <= maxLen && Indexable(p, maxLen)
    ensures var p := Passing(h, maxLen);
      Replay(maxLen, h).Ok? ==>
        Len(Replay(maxLen, h).value) == |p| &&
        Dense(Replay(maxLen, h).value)[..|p|] == Filled(p) &&
        Members(Replay(maxLen, h).value) == set x | x in p
  {
    if |h| > 0 {
      var h' := h[..|h| - 1];
      var x := h[|h| - 1];
      var p, p' := Passing(h, maxLen), Passing(h', maxLen);
      ReplayMeaning(maxLen, h');
      if x < maxLen {
        assert p == p' + [x];
        IndexableSnoc(p', x, maxLen);
        if Replay(maxLen, h').Ok? {
          assert Replay(maxLen, h) == Add(Replay(maxLen, h').value, x);
          AddStep(Replay(maxLen, h').value, p', x);
        } else {
          assert Replay(maxLen, h).Err?;
        }
      } else {
        assert p == p';
        if Replay(maxLen, h').Ok? {
          assert Replay(maxLen, h) == Ok(Replay(maxLen, h').value);
        }
      }
    }
  }

  /** One passing `Add` on a set holding the values `p` in insertion order. */
  lemma AddStep(s: SparseSet, p: seq<int>, x: int)
    requires Shaped(s) && x < s.maxLen && Len(s) == |p|
    requires Dense(s)[..|p|] == Filled(p) && Members(s) == set y | y in p
    ensures Add(s, x).Ok? <==> |p| + 1 <= s.maxLen && 0 <= x + s.maxLen
    ensures Add(s, x).Ok? ==>
      Len(Add(s, x).value) == |p + [x]| &&
      Dense(Add(s, x).value)[..|p + [x]|] == Filled(p + [x]) &&
      Members(Add(s, x).value) == set y | y in p + [x]
  {
    if Add(s, x).Ok? {
      var t := Add(s, x).value;
      assert Filled(p + [x]) == Filled(p) + [Some(x)];
      assert t.dense[..|p| + 1] == s.dense[..|p|] + [Some(x)];
      assert forall y :: y in p + [x] <==> y in p || y == x;
    }
  }

  /** Adds of non-negative values keep the set linked and exact, so `Has` answers
      membership of the passing values, and `Has` as written raises for the rest. */
  lemma {:induction false} ReplayExact(maxLen: nat, h: seq<int>)
    requires forall k | 0 <= k < |h| :: h[k] >= 0
    requires Replay(maxLen, h).Ok?
    ensures Linked(Replay(maxLen, h).value) && Exact(Replay(maxLen, h).value)
  {
    if |h| > 0 {
      var h' := h[..|h| - 1];
      ReplayExact(maxLen, h');
      var s := Replay(maxLen, h').value;
      AddLinked(s, h[|h| - 1]);
      AddExact(s, h[|h| - 1]);
    }
  }
}
