/**
 Sorted-merge intersection and union of two posting lists (lists of file ids). The
 merge loops assume both lists are in increasing order, which the indexer does not
 produce: it stores each posting list as a set. The lists are passed in directly;
 looking them up in the stored index is left to the caller.
 */
module PostingMerge {

  /** Strictly increasing: sorted and duplicate-free. */
  predicate Increasing(s: seq<int>)
  {
    forall i, j | 0 <= i < j < |s| :: s[i] < s[j]
  }

  /** Joining two increasing lists whose junction increases gives an increasing list. */
  lemma IncreasingAppend(r: seq<int>, t: seq<int>)
    requires Increasing(r) && Increasing(t)
    requires |r| > 0 && |t| > 0 ==> r[|r| - 1] < t[0]
    ensures Increasing(r + t)
  {
    forall i, j | 0 <= i < j < |r + t| ensures (r + t)[i] < (r + t)[j] {
      if i < |r| && j >= |r| {
        assert r[i] <= r[|r| - 1] && t[0] <= t[j - |r|];
      }
    }
  }

  /** In an increasing list, a value below the element at `j` can only occur before `j`. */
  lemma BelowIsBefore(s: seq<int>, j: nat, x: int) returns (k: nat)
    requires Increasing(s) && j < |s| && x < s[j] && x in s
    ensures k < j && s[k] == x
  {
    k :| 0 <= k < |s| && s[k] == x;
  }

  /** What the walk of `list_and` keeps on increasing lists after taking `r` with `i`
      elements of `a` and `j` of `b` passed: `r` increases and stays below both heads, and
      every common id already passed is in `r`. */
  predicate AndWalk(a: seq<int>, b: seq<int>, r: seq<int>, i: nat, j: nat)
  {
    && i <= |a| && j <= |b| && Increasing(r)
    && (|r| > 0 ==> (i < |a| ==> r[|r| - 1] < a[i]) && (j < |b| ==> r[|r| - 1] < b[j]))
    && (forall k | 0 <= k < i :: a[k] in b ==> a[k] in r)
    && (forall k | 0 <= k < j :: b[k] in a ==> b[k] in r)
  }

  /** One step of the walk keeps `AndWalk`, whichever head is smaller. */
  lemma AndStep(a: seq<int>, b: seq<int>, r: seq<int>, i: nat, j: nat)
    requires Increasing(a) && Increasing(b) && AndWalk(a, b, r, i, j) && i < |a| && j < |b|
    ensures a[i] < b[j] ==> AndWalk(a, b, r, i + 1, j)
    ensures a[i] > b[j] ==> AndWalk(a, b, r, i, j + 1)
    ensures a[i] == b[j] ==> AndWalk(a, b, r + [a[i]], i + 1, j + 1)
  {
    // A common id below either head was passed in that list, so it has been kept.
    forall x | x in a && x in b && x < b[j] ensures x in r {
      var m := BelowIsBefore(b, j, x);
      assert b[m] in a;
    }
    forall x | x in a && x in b && x < a[i] ensures x in r {
      var m := BelowIsBefore(a, i, x);
      assert a[m] in b;
    }
    if a[i] == b[j] {
      var r' := r + [a[i]];
      assert forall k | 0 <= k < |r| :: r'[k] == r[k];
      assert forall k | 0 <= k < i + 1 :: a[k] in b ==> a[k] in r';
      assert forall k | 0 <= k < j + 1 :: b[k] in a ==> b[k] in r';
    }
  }

  /** `list_and(tri1, tri2)`: walks both lists, advancing past the smaller head and keeping
      equal heads once. */
  method ListAnd(a: seq<int>, b: seq<int>) returns (r: seq<int>)
    ensures |r| <= |a| && |r| <= |b|
    ensures forall k | 0 <= k < |r| :: r[k] in a && r[k] in b
    ensures Increasing(a) && Increasing(b) ==> Increasing(r)
    ensures Increasing(a) && Increasing(b) ==> forall x :: x in r <==> x in a && x in b
  {
    var i, j := 0, 0;
    r := [];
    ghost var sorted := Increasing(a) && Increasing(b);
    while i < |a| && j < |b|
      invariant 0 <= i <= |a| && 0 <= j <= |b|
      invariant |r| <= i && |r| <= j
      invariant forall k | 0 <= k < |r| :: r[k] in a && r[k] in b
      invariant sorted ==> AndWalk(a, b, r, i, j)
      decreases |a| - i + |b| - j
    {
      if sorted {
        AndStep(a, b, r, i, j);
      }
      if a[i] < b[j] {
        i := i + 1;
      } else if a[i] > b[j] {
        j := j + 1;
      } else {
        assert a[i] in a && b[j] in b;
        r := r + [a[i]];
        i := i + 1;
        j := j + 1;
      }
    }
    if sorted {
      CommonFound(a, b, r, i, j);
    }
  }

  /** Once either list is used up, every common id has been met at a position already
      passed in one of the lists. */
  lemma CommonFound(a: seq<int>, b: seq<int>, r: seq<int>, i: nat, j: nat)
    requires i <= |a| && j <= |b| && (i == |a| || j == |b|)
    requires forall k | 0 <= k < i :: a[k] in b ==> a[k] in r
    requires forall k | 0 <= k < j :: b[k] in a ==> b[k] in r
    ensures forall x | x in a && x in b :: x in r
  {
    forall x | x in a && x in b ensures x in r {
      var k :| 0 <= k < |a| && a[k] == x;
      var m :| 0 <= m < |b| && b[m] == x;
      if i == |a| {
        assert a[k] in b;
      } else {
        assert b[m] in a;
      }
    }
  }

  /** `list_or(tri1, tri2)` as it should be: equal heads once, the smaller head first, then
      the leftover of either list element by element. */
  method ListOr(a: seq<int>, b: seq<int>) returns (r: seq<int>)
    ensures |r| <= |a| + |b|
    ensures forall x :: x in r <==> x in a || x in b
    ensures Increasing(a) && Increasing(b) ==> Increasing(r)
  {
    var i, j := 0, 0;
    r := [];
    ghost var sorted := Increasing(a) && Increasing(b);
    while i < |a| && j < |b|
      invariant 0 <= i <= |a| && 0 <= j <= |b|
      invariant |r| <= i + j
      invariant forall x :: x in r <==> x in a[..i] || x in b[..j]
      invariant sorted ==> Increasing(r)
      invariant sorted && |r| > 0 ==> (i < |a| ==> r[|r| - 1] < a[i]) && (j < |b| ==> r[|r| - 1] < b[j])
      decreases |a| - i + |b| - j
    {
      assert a[..i + 1] == a[..i] + [a[i]] && b[..j + 1] == b[..j] + [b[j]];
      var x, y := a[i], b[j];
      if x == y {
        r := r + [x];
        i := i + 1;
        j := j + 1;
      } else if x < y {
        r := r + [x];
        i := i + 1;
      } else {
        r := r + [y];
        j := j + 1;
      }
    }
    assert a == a[..i] + a[i..] && b == b[..j] + b[j..];
    if sorted {
      assert Increasing(a[i..]) && Increasing(b[j..]);
      IncreasingAppend(r, a[i..]);
      if i < |a| {
        assert j == |b|;
        assert b[j..] == [];
        assert r + a[i..] + b[j..] == r + a[i..];
      } else {
        assert a[i..] == [] && r + a[i..] == r;
        IncreasingAppend(r, b[j..]);
      }
    }
    r := r + a[i..] + b[j..];
  }

  /** An element of the list `list_or` returns as written: an id, or a whole list. */
  datatype Item = Id(x: int) | Nested(xs: seq<int>)

  /** Each id as an item. */
  function Ids(s: seq<int>): (r: seq<Item>)
    ensures |r| == |s| && forall k | 0 <= k < |s| :: r[k] == Id(s[k])
  {
    if |s| == 0 then [] else [Id(s[0])] + Ids(s[1..])
  }

  /** The loop of `list_or` from position `i`, `j` with `acc` emitted so far; then the
      leftover of the first list is extended element by element, but the leftover of the
      second is appended as one element. */
  function OrLoop(a: seq<int>, b: seq<int>, i: nat, j: nat, acc: seq<Item>): (r: seq<Item>)
    requires i <= |a| && j <= |b|
    ensures (forall k | 0 <= k < |acc| :: acc[k].Id?) ==> forall k | 0 <= k < |r| - 1 :: r[k].Id?
    ensures |r| >= |acc|
    decreases |a| - i + |b| - j
  {
    if i < |a| && j < |b| then
      if a[i] == b[j] then OrLoop(a, b, i + 1, j + 1, acc + [Id(a[i])])
      else if a[i] < b[j] then OrLoop(a, b, i + 1, j, acc + [Id(a[i])])
      else OrLoop(a, b, i, j + 1, acc + [Id(b[j])])
    else
      var ext := acc + Ids(a[i..]);
      if j < |b| then ext + [Nested(b[j..])] else ext
  }

  /** `list_or(tri1, tri2)` as written. */
  function ListOrAsWritten(a: seq<int>, b: seq<int>): (r: seq<Item>)
    ensures forall k | 0 <= k < |r| - 1 :: r[k].Id?
  {
    OrLoop(a, b, 0, 0, [])
  }

  /** Whenever the second list outlasts the first, its leftover ends up as one nested
      element: `list_or([], [1])` is `[[1]]`, and `list_or([1], [1, 2])` is `[1, [2]]`. */
  lemma ListOrAsWrittenNests()
    ensures ListOrAsWritten([], [1]) == [Nested([1])]
    ensures ListOrAsWritten([1], [1, 2]) == [Id(1), Nested([2])]
  {
    assert [1, 2][1..] == [2];
    assert ([] + [Id(1)]) + Ids([1][1..]) == [Id(1)];
  }
}
