/**
 The string orderings and substring notions the trigram code relies on: Python's
 lexicographic string comparison, the reversed-string key used for suffix sets,
 prefix/suffix tests, and the trigrams (3-character windows) of a string.
 */
module Strings {

  /** Python's `<` on str: lexicographic by code point, a proper prefix is smaller. */
  predicate LexLess(a: string, b: string)
    decreases |a|
  {
    if |a| == 0 then |b| > 0
    else if |b| == 0 then false
    else if a[0] < b[0] then true
    else a[0] == b[0] && LexLess(a[1..], b[1..])
  }

  /** `x[::-1]` */
  function Rev(s: string): (r: string)
    ensures |r| == |s|
    ensures forall i :: 0 <= i < |s| ==> r[i] == s[|s| - 1 - i]
  {
    if |s| == 0 then [] else Rev(s[1..]) + [s[0]]
  }

  lemma RevRev(s: string)
    ensures Rev(Rev(s)) == s
  {
    assert Rev(Rev(s)) == s;
  }

  lemma RevInjective(a: string, b: string)
    ensures Rev(a) == Rev(b) ==> a == b
  {
    if Rev(a) == Rev(b) {
      RevRev(a);
      RevRev(b);
    }
  }

  /** The sort key of a string set: the string itself, or its reverse for a suffix set. */
  function Key(s: string, isSuffix: bool): string
  {
    if isSuffix then Rev(s) else s
  }

  /** The strict order `clean` sorts a string set by. */
  predicate KeyLess(a: string, b: string, isSuffix: bool)
  {
    LexLess(Key(a, isSuffix), Key(b, isSuffix))
  }

  lemma {:induction false} LexIrreflexive(a: string)
    ensures !LexLess(a, a)
    decreases |a|
  {
    if |a| > 0 {
      LexIrreflexive(a[1..]);
    }
  }

  lemma {:induction false} LexTransitive(a: string, b: string, c: string)
    requires LexLess(a, b) && LexLess(b, c)
    ensures LexLess(a, c)
    decreases |a|
  {
    if |a| > 0 && a[0] == b[0] && b[0] == c[0] {
      LexTransitive(a[1..], b[1..], c[1..]);
    }
  }

  lemma {:induction false} LexTotal(a: string, b: string)
    requires a != b
    ensures LexLess(a, b) || LexLess(b, a)
    decreases |a|
  {
    if |a| > 0 && |b| > 0 && a[0] == b[0] {
      assert a == [a[0]] + a[1..] && b == [b[0]] + b[1..];
      LexTotal(a[1..], b[1..]);
    }
  }

  lemma {:induction false} LexAsymmetric(a: string, b: string)
    requires LexLess(a, b)
    ensures !LexLess(b, a)
  {
    if LexLess(b, a) {
      LexTransitive(a, b, a);
      LexIrreflexive(a);
    }
  }

  lemma KeyIrreflexive(a: string, isSuffix: bool)
    ensures !KeyLess(a, a, isSuffix)
  {
    LexIrreflexive(Key(a, isSuffix));
  }

  lemma KeyTransitive(a: string, b: string, c: string, isSuffix: bool)
    requires KeyLess(a, b, isSuffix) && KeyLess(b, c, isSuffix)
    ensures KeyLess(a, c, isSuffix)
  {
    LexTransitive(Key(a, isSuffix), Key(b, isSuffix), Key(c, isSuffix));
  }

  lemma KeyTotal(a: string, b: string, isSuffix: bool)
    requires a != b
    ensures KeyLess(a, b, isSuffix) || KeyLess(b, a, isSuffix)
  {
    if isSuffix {
      RevInjective(a, b);
    }
    LexTotal(Key(a, isSuffix), Key(b, isSuffix));
  }

  lemma KeyAsymmetric(a: string, b: string, isSuffix: bool)
    requires KeyLess(a, b, isSuffix)
    ensures !KeyLess(b, a, isSuffix)
  {
    LexAsymmetric(Key(a, isSuffix), Key(b, isSuffix));
  }

  /** `str.startswith(s, p)` */
  predicate IsPrefix(p: string, s: string)
  {
    |p| <= |s| && s[..|p|] == p
  }

  /** `str.endswith(s, p)` */
  predicate IsSuffix(p: string, s: string)
  {
    |p| <= |s| && s[|s| - |p|..] == p
  }

  /** `str.startswith` for a prefix set, `str.endswith` for a suffix set. */
  predicate Extends(s: string, p: string, isSuffix: bool)
  {
    if isSuffix then IsSuffix(p, s) else IsPrefix(p, s)
  }

  /** The trigrams of `s`, left to right: every 3-character window `s[i:i+3]`. */
  function Windows(s: string): (r: seq<string>)
    ensures |s| < 3 ==> r == []
    ensures |s| >= 3 ==> |r| == |s| - 2
    ensures forall i :: 0 <= i < |r| ==> r[i] == s[i..i + 3]
  {
    if |s| < 3 then [] else seq(|s| - 2, i requires 0 <= i < |s| - 2 => s[i..i + 3])
  }

  /** The set of trigrams occurring in a text: what a trigram index records for a document. */
  function TrigramSet(s: string): set<string>
  {
    set x | x in Windows(s)
  }

  lemma WindowsAreTrigrams(s: string)
    ensures forall x :: x in Windows(s) <==> x in TrigramSet(s)
  {
    forall x ensures x in Windows(s) <==> x in TrigramSet(s) {
      if x in TrigramSet(s) {
        var i :| 0 <= i <= |s| - 3 && x == s[i..i + 3];
        assert Windows(s)[i] == x;
      }
    }
  }

  /** `w` occurs in `text` starting at position `k`. */
  predicate OccursAt(w: string, text: string, k: int)
  {
    0 <= k <= |text| - |w| && text[k..k + |w|] == w
  }

  /** `w` occurs in `text` at some position. */
  predicate Occurs(w: string, text: string)
  {
    exists k | 0 <= k <= |text| :: OccursAt(w, text, k)
  }

  /** Every trigram of a substring is a trigram of the enclosing text. */
  lemma SubstringTrigrams(w: string, text: string)
    requires Occurs(w, text)
    ensures forall x :: x in Windows(w) ==> x in TrigramSet(text)
  {
    var k: int :| OccursAt(w, text, k);
    assert OccursAt(w, text, k);
    forall x | x in Windows(w)
      ensures x in TrigramSet(text)
    {
      var i :| 0 <= i < |Windows(w)| && Windows(w)[i] == x;
      assert |w| >= 3 && i + 3 <= |w|;
      assert x == w[i..i + 3];
      var t := text[k..k + |w|];
      assert t == w;
      assert |text[k + i..k + i + 3]| == 3;
      assert forall j | 0 <= j < 3 :: x[j] == t[i + j] == text[k + i + j];
      assert x == text[k + i..k + i + 3];
      assert Windows(text)[k + i] == x;
    }
  }

  /** The trigrams of a substring are among the trigrams of the text. */
  lemma OccursTrigrams(w: string, text: string)
    requires Occurs(w, text)
    ensures TrigramSet(w) <= TrigramSet(text)
  {
    SubstringTrigrams(w, text);
    WindowsAreTrigrams(w);
  }

  lemma PrefixOccurs(p: string, s: string)
    requires IsPrefix(p, s)
    ensures Occurs(p, s)
  {
    assert OccursAt(p, s, 0);
  }

  lemma SuffixOccurs(p: string, s: string)
    requires IsSuffix(p, s)
    ensures Occurs(p, s)
  {
    assert OccursAt(p, s, |s| - |p|);
  }

  lemma OccursTransitive(u: string, v: string, w: string)
    requires Occurs(u, v) && Occurs(v, w)
    ensures Occurs(u, w)
  {
    var i: int :| OccursAt(u, v, i);
    var j: int :| OccursAt(v, w, j);
    assert OccursAt(u, v, i) && OccursAt(v, w, j);
    assert OccursAt(u, w, j + i) by {
      var t := w[j..j + |v|];
      assert t == v;
      assert 0 <= j + i && j + i + |u| <= |w|;
      forall k | 0 <= k < |u| ensures w[j + i..j + i + |u|][k] == u[k] {
        assert t[i + k] == w[j + i + k];
        assert v[i..i + |u|][k] == v[i + k];
      }
    }
    assert OccursAt(u, w, j + i);
  }

  lemma OccursInLeft(u: string, a: string, b: string)
    requires Occurs(u, a)
    ensures Occurs(u, a + b)
  {
    var i: int :| OccursAt(u, a, i);
    assert OccursAt(u, a, i);
    assert (a + b)[i..i + |u|] == a[i..i + |u|];
    assert OccursAt(u, a + b, i);
  }

  lemma OccursInRight(u: string, a: string, b: string)
    requires Occurs(u, b)
    ensures Occurs(u, a + b)
  {
    var i: int :| OccursAt(u, b, i);
    assert OccursAt(u, b, i);
    assert (a + b)[|a| + i..|a| + i + |u|] == b[i..i + |u|];
    assert OccursAt(u, a + b, |a| + i);
  }

  /** A suffix of `a` followed by a prefix of `b` occurs in `a + b`. */
  lemma JunctionOccurs(s: string, p: string, a: string, b: string)
    requires IsSuffix(s, a) && IsPrefix(p, b)
    ensures Occurs(s + p, a + b)
  {
    var k := |a| - |s|;
    assert (a + b)[k..k + |s + p|] == s + p by {
      forall i | 0 <= i < |s + p| ensures (a + b)[k + i] == (s + p)[i] {
        if i < |s| {
          assert a[|a| - |s|..][i] == s[i];
        } else {
          assert b[..|p|][i - |s|] == p[i - |s|];
        }
      }
    }
    assert OccursAt(s + p, a + b, k);
  }

  lemma PrefixTransitive(a: string, b: string, c: string)
    requires IsPrefix(a, b) && IsPrefix(b, c)
    ensures IsPrefix(a, c)
  {
    assert c[..|a|] == c[..|b|][..|a|];
  }

  lemma SuffixTransitive(a: string, b: string, c: string)
    requires IsSuffix(a, b) && IsSuffix(b, c)
    ensures IsSuffix(a, c)
  {
    assert c[|c| - |a|..] == c[|c| - |b|..][|b| - |a|..];
  }

  lemma ExtendsTransitive(a: string, b: string, c: string, isSuffix: bool)
    requires Extends(b, a, isSuffix) && Extends(c, b, isSuffix)
    ensures Extends(c, a, isSuffix)
  {
    if isSuffix { SuffixTransitive(a, b, c); } else { PrefixTransitive(a, b, c); }
  }

  lemma PrefixOfConcat(p: string, a: string, b: string)
    requires IsPrefix(p, a)
    ensures IsPrefix(p, a + b)
  {
    assert (a + b)[..|p|] == a[..|p|];
  }

  lemma SuffixOfConcat(s: string, a: string, b: string)
    requires IsSuffix(s, b)
    ensures IsSuffix(s, a + b)
  {
    assert (a + b)[|a + b| - |s|..] == b[|b| - |s|..];
  }

  /** `x + p` is a prefix of `x + w` when p is a prefix of w (and dually for suffixes). */
  lemma PrefixAfter(x: string, p: string, w: string)
    requires IsPrefix(p, w)
    ensures IsPrefix(x + p, x + w)
  {
    assert (x + w)[..|x + p|] == x + w[..|p|];
  }

  lemma SuffixBefore(s: string, x: string, w: string)
    requires IsSuffix(s, w)
    ensures IsSuffix(s + x, w + x)
  {
    assert (w + x)[|w + x| - |s + x|..] == w[|w| - |s|..] + x;
  }

  /** The concatenation of a list of strings, left to right. */
  function Join(ws: seq<string>): string
  {
    if |ws| == 0 then "" else Join(ws[..|ws| - 1]) + ws[|ws| - 1]
  }

  /** Each piece of a joined list occurs in the joined string. */
  lemma {:induction false} JoinOccurs(ws: seq<string>, i: nat)
    requires i < |ws|
    ensures Occurs(ws[i], Join(ws))
  {
    var n := |ws|;
    if i == n - 1 {
      assert OccursAt(ws[i], ws[i], 0);
      OccursInRight(ws[i], Join(ws[..n - 1]), ws[i]);
    } else {
      JoinOccurs(ws[..n - 1], i);
      OccursInLeft(ws[i], Join(ws[..n - 1]), ws[n - 1]);
    }
  }
}
