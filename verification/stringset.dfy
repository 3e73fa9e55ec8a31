/**
 String sets as the code search keeps them: Python lists of strings that `clean`
 sorts (by the reversed string for a suffix set) and deduplicates.
 */
module StringSet {
  import opened Strings

  /** The elements of a list, as a mathematical set. */
  function Elems(s: seq<string>): set<string>
  {
    set x | x in s
  }

  /** Strictly increasing in the order `clean` sorts by: sorted and duplicate-free. */
  predicate Sorted(s: seq<string>, isSuffix: bool)
  {
    forall i, j | 0 <= i < j < |s| :: KeyLess(s[i], s[j], isSuffix)
  }

  /** `have(s)`: whether the set is non-empty. */
  function Have(s: seq<string>): (r: bool)
    ensures r <==> Elems(s) != {}
  {
    assert |s| > 0 ==> s[0] in Elems(s);
    |s| > 0
  }

  /** `add(s, x)`: appends without deduplicating (a later `clean` does that). */
  function Add(s: seq<string>, x: string): (r: seq<string>)
    ensures Elems(r) == Elems(s) + {x}
    ensures |r| == |s| + 1 && r[..|s|] == s
  {
    s + [x]
  }

  /** `size(s)` */
  function Size(s: seq<string>): nat
  {
    |s|
  }

  /** `contains(s, x)` (older copy only). */
  function Contains(s: seq<string>, x: string): (r: bool)
    ensures r <==> x in Elems(s)
  {
    x in s
  }

  /** Places `x` into a sorted, duplicate-free list. */
  function Insert(s: seq<string>, x: string, isSuffix: bool): (r: seq<string>)
    requires Sorted(s, isSuffix)
    ensures Sorted(r, isSuffix)
    ensures Elems(r) == Elems(s) + {x}
    ensures |r| <= |s| + 1
  {
    if |s| == 0 then [x]
    else if x == s[0] then s
    else if KeyLess(x, s[0], isSuffix) then
      InsertFront(s, x, isSuffix);
      [x] + s
    else
      var tail := Insert(s[1..], x, isSuffix);
      InsertAfterHead(s, x, tail, isSuffix);
      [s[0]] + tail
  }

  /** When `x` sorts after the head, the head goes in front of the tail `x` was inserted into. */
  lemma InsertAfterHead(s: seq<string>, x: string, tail: seq<string>, isSuffix: bool)
    requires Sorted(s, isSuffix) && |s| > 0 && x != s[0] && !KeyLess(x, s[0], isSuffix)
    requires Sorted(tail, isSuffix) && Elems(tail) == Elems(s[1..]) + {x}
    ensures Sorted([s[0]] + tail, isSuffix)
    ensures Elems([s[0]] + tail) == Elems(s) + {x}
  {
    KeyTotal(x, s[0], isSuffix);
    assert s == [s[0]] + s[1..];
    assert Elems(s) == {s[0]} + Elems(s[1..]);
    forall y | y in tail ensures KeyLess(s[0], y, isSuffix) {
      assert y in Elems(tail);
      if y != x {
        var j :| 0 <= j < |s[1..]| && s[1..][j] == y;
        assert s[j + 1] == y;
      }
    }
    InsertBehind(s[0], tail, isSuffix);
    assert Elems([s[0]] + tail) == {s[0]} + Elems(tail);
  }

  lemma InsertFront(s: seq<string>, x: string, isSuffix: bool)
    requires Sorted(s, isSuffix) && |s| > 0 && KeyLess(x, s[0], isSuffix)
    ensures Sorted([x] + s, isSuffix)
  {
    forall j | 0 < j < |s| ensures KeyLess(x, s[j], isSuffix) {
      KeyTransitive(x, s[0], s[j], isSuffix);
    }
  }

  lemma InsertBehind(h: string, tail: seq<string>, isSuffix: bool)
    requires Sorted(tail, isSuffix)
    requires forall y | y in tail :: KeyLess(h, y, isSuffix)
    ensures Sorted([h] + tail, isSuffix)
  {
    var r := [h] + tail;
    forall i, j | 0 <= i < j < |r| ensures KeyLess(r[i], r[j], isSuffix) {
      if i == 0 {
        assert r[j] == tail[j - 1];
      } else {
        assert r[i] == tail[i - 1] && r[j] == tail[j - 1];
      }
    }
  }

  /** `clean(s, isSuffix)`: sort (by reversed string for a suffix set) and drop duplicates. */
  function Clean(s: seq<string>, isSuffix: bool): (r: seq<string>)
    ensures Sorted(r, isSuffix)
    ensures Elems(r) == Elems(s)
    ensures |r| <= |s|
  {
    if |s| == 0 then []
    else
      var init := s[..|s| - 1];
      assert s == init + [s[|s| - 1]];
      assert Elems(s) == Elems(init) + {s[|s| - 1]};
      Insert(Clean(init, isSuffix), s[|s| - 1], isSuffix)
  }

  /** A sorted, duplicate-free list is determined by its elements. */
  lemma {:induction false} SortedUnique(a: seq<string>, b: seq<string>, isSuffix: bool)
    requires Sorted(a, isSuffix) && Sorted(b, isSuffix)
    requires Elems(a) == Elems(b)
    ensures a == b
    decreases |a|
  {
    if |a| == 0 {
      ElemsEmpty(a);
      ElemsEmpty(b);
    } else {
      assert a[0] in Elems(b);
      assert |b| > 0;
      assert b[0] in Elems(a);
      if a[0] != b[0] {
        var i :| 0 <= i < |a| && a[i] == b[0];
        var j :| 0 <= j < |b| && b[j] == a[0];
        assert KeyLess(a[0], b[0], isSuffix);
        assert KeyLess(b[0], a[0], isSuffix);
        KeyAsymmetric(a[0], b[0], isSuffix);
      }
      SortedTail(a, isSuffix);
      SortedTail(b, isSuffix);
      SortedUnique(a[1..], b[1..], isSuffix);
      assert a == [a[0]] + a[1..] && b == [b[0]] + b[1..];
    }
  }

  lemma ElemsEmpty(s: seq<string>)
    ensures Elems(s) == {} <==> |s| == 0
  {
    if |s| > 0 {
      assert s[0] in Elems(s);
    }
  }

  lemma SortedTail(a: seq<string>, isSuffix: bool)
    requires Sorted(a, isSuffix) && |a| > 0
    ensures Sorted(a[1..], isSuffix)
    ensures Elems(a[1..]) == Elems(a) - {a[0]}
  {
    assert a == [a[0]] + a[1..];
    forall y | y in a[1..] ensures y != a[0] {
      var j :| 0 <= j < |a[1..]| && a[1..][j] == y;
      assert KeyLess(a[0], a[j + 1], isSuffix);
      KeyIrreflexive(a[0], isSuffix);
    }
  }

  /** `clean` depends only on the elements: it ignores order and multiplicity. */
  lemma CleanCanonical(s: seq<string>, t: seq<string>, isSuffix: bool)
    requires Elems(s) == Elems(t)
    ensures Clean(s, isSuffix) == Clean(t, isSuffix)
  {
    SortedUnique(Clean(s, isSuffix), Clean(t, isSuffix), isSuffix);
  }

  /** `clean` is idempotent, and leaves an already clean list as it is. */
  lemma CleanIdempotent(s: seq<string>, isSuffix: bool)
    ensures Clean(Clean(s, isSuffix), isSuffix) == Clean(s, isSuffix)
    ensures Sorted(s, isSuffix) ==> Clean(s, isSuffix) == s
  {
    SortedUnique(Clean(Clean(s, isSuffix), isSuffix), Clean(s, isSuffix), isSuffix);
    if Sorted(s, isSuffix) {
      SortedUnique(Clean(s, isSuffix), s, isSuffix);
    }
  }

  /** `minLen(s)`: the length of the shortest string, 0 for the empty list. */
  function MinLen(s: seq<string>): (r: nat)
    ensures |s| == 0 ==> r == 0
    ensures |s| > 0 ==> exists i :: 0 <= i < |s| && |s[i]| == r
    ensures forall x | x in s :: r <= |x|
  {
    if |s| == 0 then 0 else MinFrom(s, |s[0]|, 0)
  }

  /** The loop of `minLen`: `x = min(x, len(st))` over `s[k:]`. */
  function MinFrom(s: seq<string>, x: nat, k: nat): (r: nat)
    requires k <= |s|
    ensures r <= x
    ensures r == x || exists i :: k <= i < |s| && |s[i]| == r
    ensures forall i | k <= i < |s| :: r <= |s[i]|
    decreases |s| - k
  {
    if k == |s| then x
    else MinFrom(s, if |s[k]| < x then |s[k]| else x, k + 1)
  }

  /** `maxLen(s)` (older copy only): the length of the longest string, 0 for the empty list. */
  function MaxLen(s: seq<string>): (r: nat)
    ensures |s| == 0 ==> r == 0
    ensures |s| > 0 ==> exists i :: 0 <= i < |s| && |s[i]| == r
    ensures forall x | x in s :: |x| <= r
  {
    if |s| == 0 then 0 else MaxFrom(s, |s[0]|, 0)
  }

  /** The loop of `maxLen`: `x = max(x, len(st))` over `s[k:]`. */
  function MaxFrom(s: seq<string>, x: nat, k: nat): (r: nat)
    requires k <= |s|
    ensures r >= x
    ensures r == x || exists i :: k <= i < |s| && |s[i]| == r
    ensures forall i | k <= i < |s| :: |s[i]| <= r
    decreases |s| - k
  {
    if k == |s| then x
    else MaxFrom(s, if |s[k]| > x then |s[k]| else x, k + 1)
  }

  /** The shortest string is no longer than the longest. */
  lemma MinLenAtMostMaxLen(s: seq<string>)
    ensures MinLen(s) <= MaxLen(s)
  {
    if |s| > 0 {
      assert s[0] in s;
    }
  }

  lemma MinLenOfElems(s: seq<string>, t: seq<string>)
    requires Elems(s) == Elems(t)
    ensures MinLen(s) == MinLen(t)
  {
    if |s| > 0 {
      var i :| 0 <= i < |s| && |s[i]| == MinLen(s);
      assert s[i] in Elems(t);
    }
    if |t| > 0 {
      var j :| 0 <= j < |t| && |t[j]| == MinLen(t);
      assert t[j] in Elems(s);
    }
    ElemsEmpty(s);
    ElemsEmpty(t);
  }

  /** `union(s, t, isSuffix)`: the cleaned union; `s` itself is a value and stays as it was. */
  function Union(s: seq<string>, t: seq<string>, isSuffix: bool): (r: seq<string>)
    ensures Sorted(r, isSuffix)
    ensures Elems(r) == Elems(s) + Elems(t)
  {
    assert Elems(s + t) == Elems(s) + Elems(t);
    Clean(s + t, isSuffix)
  }

  /** The list comprehension `[x + y for x in s for y in t]`. */
  function CrossList(s: seq<string>, t: seq<string>): (r: seq<string>)
    ensures forall z :: z in r <==> exists x, y :: x in s && y in t && z == x + y
    ensures |r| == |s| * |t|
  {
    if |s| == 0 then []
    else
      var rest := CrossList(s[1..], t);
      var row := seq(|t|, j requires 0 <= j < |t| => s[0] + t[j]);
      forall z ensures z in row <==> exists y :: y in t && z == s[0] + y {
        if z in row {
          var j :| 0 <= j < |row| && row[j] == z;
          assert t[j] in t;
        }
        if exists y :: y in t && z == s[0] + y {
          var y :| y in t && z == s[0] + y;
          var j :| 0 <= j < |t| && t[j] == y;
          assert row[j] == z;
        }
      }
      assert forall x :: x in s <==> x == s[0] || x in s[1..];
      row + rest
  }

  /** `cross(s, t, isSuffix)`: every concatenation x+y, x from s and y from t, cleaned. */
  function Cross(s: seq<string>, t: seq<string>, isSuffix: bool): (r: seq<string>)
    ensures Sorted(r, isSuffix)
    ensures forall z :: z in r <==> exists x, y :: x in s && y in t && z == x + y
    ensures |s| == 0 || |t| == 0 ==> r == []
  {
    var r := Clean(CrossList(s, t), isSuffix);
    assert forall z :: z in r <==> z in Elems(r);
    assert forall z :: z in CrossList(s, t) <==> z in Elems(CrossList(s, t));
    r
  }

  /** `isSubsetOf(s, t)`: containment of the element sets. */
  function IsSubsetOf(s: seq<string>, t: seq<string>): (r: bool)
    ensures r <==> Elems(s) <= Elems(t)
  {
    assert forall x :: x in Elems(s) <==> x in s;
    assert forall x :: x in Elems(t) <==> x in t;
    forall x | x in s :: x in t
  }

  /** `order` lists the elements of `s` once each: what `list(s)` of a Python set gives,
      in an order the language leaves unspecified. */
  predicate Enumerates(order: seq<string>, s: set<string>)
  {
    Elems(order) == s && forall i, j | 0 <= i < j < |order| :: order[i] != order[j]
  }
}
