/**
 The in-memory trigram index: a map from each trigram to the ids of the files
 containing it, the file names in id order, and the next id. `add_file` records a
 document's 3-windows; `get_candidate_fileids` evaluates a query against the
 postings, intersecting for AND and uniting for OR.
 */
module TrigramIndex {
  import opened Wrappers
  import opened Strings
  import opened QueryAlgebra

  /** `index` (a `defaultdict(set)`), `files` and `fileid`. */
  datatype Index = Index(postings: map<string, set<nat>>, files: seq<string>, fileid: nat)

  /** `self.index[t]`: a missing trigram reads as the empty posting. */
  function Postings(idx: Index, t: string): (r: set<nat>)
    ensures t !in idx.postings ==> r == {}
  {
    if t in idx.postings then idx.postings[t] else {}
  }

  /** Ids are dense: the next id is the number of files, and every posted id names a file. */
  predicate WellIndexed(idx: Index)
  {
    idx.fileid == |idx.files| && forall t | t in idx.postings :: forall f | f in idx.postings[t] :: f < |idx.files|
  }

  /** The empty index the constructor starts from. */
  function EmptyIndex(): (r: Index)
    ensures WellIndexed(r) && |r.files| == 0
  {
    Index(map[], [], 0)
  }

  /** The index after recording `doc` under the next id: the closed form of `add_file`. */
  function WithDoc(idx: Index, name: string, doc: string): Index
  {
    var w := TrigramSet(doc);
    Index(map t | t in idx.postings.Keys + w :: Postings(idx, t) + (if t in w then {idx.fileid} else {}),
      idx.files + [name], idx.fileid + 1)
  }

  /** The windows `doc[i:i+3]` that start before `n`. */
  function WindowsBefore(doc: string, n: nat): set<string>
  {
    set i | 0 <= i < n && i < |Windows(doc)| :: Windows(doc)[i]
  }

  /** The ids below `n`: `set(range(n))`. */
  function Range(n: nat): (r: set<nat>)
    ensures forall f: nat :: f in r <==> f < n
  {
    if n == 0 then {} else Range(n - 1) + {n - 1}
  }

  /** One `self.index[prev].add(id)`, creating the entry when it is missing. */
  function PostOne(r: map<string, set<nat>>, t: string, id: nat): (r': map<string, set<nat>>)
    ensures r'.Keys == r.Keys + {t}
    ensures forall u | u in r' :: r'[u] == (if u in r then r[u] else {}) + (if u == t then {id} else {})
  {
    r[t := (if t in r then r[t] else {}) + {id}]
  }

  /** One more window. */
  lemma WindowsBeforeStep(d: string, n: nat)
    requires n < |Windows(d)|
    ensures WindowsBefore(d, n + 1) == WindowsBefore(d, n) + {Windows(d)[n]}
  {
  }

  /** All the windows. */
  lemma WindowsBeforeAll(d: string)
    ensures WindowsBefore(d, |Windows(d)|) == TrigramSet(d)
  {
    forall x ensures x in WindowsBefore(d, |Windows(d)|) <==> x in TrigramSet(d) {
      if x in TrigramSet(d) {
        var i :| 0 <= i < |Windows(d)| && Windows(d)[i] == x;
      }
    }
  }

  /** `r` is `post` with `id` added under exactly the trigrams `added`, entries created. */
  predicate Posted(post: map<string, set<nat>>, r: map<string, set<nat>>, added: set<string>, id: nat)
  {
    && r.Keys == post.Keys + added
    && forall t | t in r :: r[t] == (if t in post then post[t] else {}) + (if t in added then {id} else {})
  }

  /** Posting under one more trigram extends the trigrams posted under. */
  lemma PostedOne(post: map<string, set<nat>>, r: map<string, set<nat>>, added: set<string>, t: string, id: nat)
    requires Posted(post, r, added, id)
    ensures Posted(post, PostOne(r, t, id), added + {t}, id)
  {
  }

  /** The window loop of `add_file`: posts `id` under each 3-window of `d`, creating the
      entries the `defaultdict` creates. */
  method PostWindows(post: map<string, set<nat>>, d: string, id: nat) returns (r: map<string, set<nat>>)
    ensures r.Keys == post.Keys + TrigramSet(d)
    ensures forall t | t in r :: r[t] == (if t in post then post[t] else {}) + (if t in TrigramSet(d) then {id} else {})
  {
    r := post;
    var prev := d[..if |d| < 3 then |d| else 3];
    ghost var added: set<string> := {};
    if |prev| == 3 {
      PostedOne(post, r, added, prev, id);
      r := PostOne(r, prev, id);
      assert Windows(d)[0] == prev;
      WindowsBeforeStep(d, 0);
      added := {prev};
    }
    var j := 3;
    while j < |d|
      invariant 3 <= j || |d| < 3
      invariant |d| >= 3 ==> j <= |d| && prev == d[j - 3..j]
      invariant added == WindowsBefore(d, if |d| < 3 then 0 else j - 2)
      invariant Posted(post, r, added, id)
    {
      prev := prev[1..] + [d[j]];
      assert prev == d[j - 2..j + 1] == Windows(d)[j - 2];
      PostedOne(post, r, added, prev, id);
      r := PostOne(r, prev, id);
      WindowsBeforeStep(d, j - 2);
      added := added + {prev};
      j := j + 1;
    }
    WindowsBeforeAll(d);
  }

  /** `add_file(file)`: posts the next id under each window of the document, then appends
      the name. `doc` is None when reading the file fails to decode, and the index is
      then left unchanged. */
  method AddFile(idx: Index, name: string, doc: Option<string>) returns (r: Index)
    ensures doc.None? ==> r == idx
    ensures doc.Some? ==> r == WithDoc(idx, name, doc.value)
  {
    if doc.None? {
      return idx;
    }
    var post := PostWindows(idx.postings, doc.value, idx.fileid);
    r := Index(post, idx.files + [name], idx.fileid + 1);
  }

  /** Recording a document adds its id to the posting of each of its trigrams and to no
      other, and appends its name. */
  lemma WithDocPostings(idx: Index, name: string, doc: string, t: string)
    ensures Postings(WithDoc(idx, name, doc), t) ==
      Postings(idx, t) + (if t in TrigramSet(doc) then {idx.fileid} else {})
    ensures WithDoc(idx, name, doc).files == idx.files + [name]
  {
  }

  /** Recording a document keeps the ids dense. */
  lemma WithDocWellIndexed(idx: Index, name: string, doc: string)
    requires WellIndexed(idx)
    ensures WellIndexed(WithDoc(idx, name, doc))
    ensures |WithDoc(idx, name, doc).files| == |idx.files| + 1
  {
  }

  /** The index describes `docs`: file `f` is posted under `t` exactly when `t` is a
      trigram of the `f`-th document. */
  ghost predicate Consistent(idx: Index, docs: seq<string>)
  {
    |docs| == |idx.files| && idx.fileid == |idx.files| &&
    forall t, f: nat :: PostedExactly(idx, docs, t, f)
  }

  /** File `f` is posted under `t` exactly when `t` is a trigram of the `f`-th document. */
  predicate PostedExactly(idx: Index, docs: seq<string>, t: string, f: nat)
  {
    f in Postings(idx, t) <==> f < |docs| && t in TrigramSet(docs[f])
  }

  /** Recording a document extends the described list by that document. */
  lemma WithDocConsistent(idx: Index, docs: seq<string>, name: string, doc: string)
    requires Consistent(idx, docs)
    ensures Consistent(WithDoc(idx, name, doc), docs + [doc])
  {
    var r, docs' := WithDoc(idx, name, doc), docs + [doc];
    forall t, f: nat ensures PostedExactly(r, docs', t, f) {
      WithDocPostings(idx, name, doc, t);
      assert PostedExactly(idx, docs, t, f);
      if f < |docs| {
        assert docs'[f] == docs[f];
      }
    }
  }

  /** The trigrams the index records for file `f`. */
  function FileTrigrams(idx: Index, f: nat): set<string>
  {
    set t | t in idx.postings && f in idx.postings[t]
  }

  /** A consistent index records exactly each document's trigrams. */
  lemma ConsistentFileTrigrams(idx: Index, docs: seq<string>, f: nat)
    requires Consistent(idx, docs) && f < |docs|
    ensures FileTrigrams(idx, f) == TrigramSet(docs[f])
  {
    forall t ensures t in FileTrigrams(idx, f) <==> t in TrigramSet(docs[f]) {
      assert PostedExactly(idx, docs, t, f);
    }
  }

  /** `candid &= self.index[t]` over the first `n` trigrams. */
  function AndPostings(idx: Index, t: seq<string>, n: nat, acc: set<nat>): set<nat>
    requires n <= |t|
  {
    if n == 0 then acc else AndPostings(idx, t, n - 1, acc) * Postings(idx, t[n - 1])
  }

  /** `candid |= self.index[t]` over the first `n` trigrams. */
  function OrPostings(idx: Index, t: seq<string>, n: nat, acc: set<nat>): set<nat>
    requires n <= |t|
  {
    if n == 0 then acc else OrPostings(idx, t, n - 1, acc) + Postings(idx, t[n - 1])
  }

  /** `candid &= get_candidate_fileids(s)` over the first `n` subqueries. */
  function AndSubs(idx: Index, q: Query, n: nat, acc: set<nat>): set<nat>
    requires q.Node? && n <= |q.sub|
    decreases q, 0, n
  {
    if n == 0 then acc else AndSubs(idx, q, n - 1, acc) * Candidates(idx, q.sub[n - 1])
  }

  /** `candid |= get_candidate_fileids(s)` over the first `n` subqueries. */
  function OrSubs(idx: Index, q: Query, n: nat, acc: set<nat>): set<nat>
    requires q.Node? && n <= |q.sub|
    decreases q, 0, n
  {
    if n == 0 then acc else OrSubs(idx, q, n - 1, acc) + Candidates(idx, q.sub[n - 1])
  }

  /** `get_candidate_fileids(q)`. An AND starts from its first trigram's posting, or, with
      no trigrams, from the last subquery's result; with neither it stays None and gives
      the empty set. */
  function Candidates(idx: Index, q: Query): set<nat>
    decreases q, 1, 0
  {
    match q
    case QNone => {}
    case QAll => Range(|idx.files|)
    case Node(QAnd, t, s) =>
      if |t| > 0 then AndSubs(idx, q, |s|, AndPostings(idx, t, |t|, Postings(idx, t[0])))
      else if |s| > 0 then AndSubs(idx, q, |s|, Candidates(idx, s[|s| - 1]))
      else {}
    case Node(QOr, t, s) => OrSubs(idx, q, |s|, OrPostings(idx, t, |t|, {}))
  }

  lemma {:induction false} AndPostingsMeaning(idx: Index, t: seq<string>, n: nat, acc: set<nat>, f: nat)
    requires n <= |t|
    ensures f in AndPostings(idx, t, n, acc) <==> f in acc && forall i | 0 <= i < n :: f in Postings(idx, t[i])
  {
    if n > 0 {
      AndPostingsMeaning(idx, t, n - 1, acc, f);
    }
  }

  lemma {:induction false} OrPostingsMeaning(idx: Index, t: seq<string>, n: nat, acc: set<nat>, f: nat)
    requires n <= |t|
    ensures f in OrPostings(idx, t, n, acc) <==> f in acc || exists i | 0 <= i < n :: f in Postings(idx, t[i])
  {
    if n > 0 {
      OrPostingsMeaning(idx, t, n - 1, acc, f);
    }
  }

  lemma {:induction false} AndSubsMeaning(idx: Index, q: Query, n: nat, acc: set<nat>, f: nat)
    requires q.Node? && n <= |q.sub|
    ensures f in AndSubs(idx, q, n, acc) <==> f in acc && forall i | 0 <= i < n :: f in Candidates(idx, q.sub[i])
  {
    if n > 0 {
      AndSubsMeaning(idx, q, n - 1, acc, f);
    }
  }

  lemma {:induction false} OrSubsMeaning(idx: Index, q: Query, n: nat, acc: set<nat>, f: nat)
    requires q.Node? && n <= |q.sub|
    ensures f in OrSubs(idx, q, n, acc) <==> f in acc || exists i | 0 <= i < n :: f in Candidates(idx, q.sub[i])
  {
    if n > 0 {
      OrSubsMeaning(idx, q, n - 1, acc, f);
    }
  }

  /** No AND node anywhere has neither trigrams nor subqueries. */
  predicate NoEmptyAnd(q: Query)
  {
    match q
    case Node(op, t, s) =>
      !(op == QAnd && |t| == 0 && |s| == 0) && forall i | 0 <= i < |s| :: NoEmptyAnd(s[i])
    case _ => true
  }

  /** Posted ids name files, so every candidate names a file. */
  lemma {:induction false} CandidatesInRange(idx: Index, q: Query, f: nat)
    requires WellIndexed(idx) && f in Candidates(idx, q)
    ensures f < |idx.files|
  {
    match q
    case QNone =>
    case QAll =>
    case Node(QAnd, t, s) =>
      if |t| > 0 {
        AndSubsMeaning(idx, q, |s|, AndPostings(idx, t, |t|, Postings(idx, t[0])), f);
        AndPostingsMeaning(idx, t, |t|, Postings(idx, t[0]), f);
      } else {
        AndSubsMeaning(idx, q, |s|, Candidates(idx, s[|s| - 1]), f);
        CandidatesInRange(idx, s[|s| - 1], f);
      }
    case Node(QOr, t, s) =>
      OrSubsMeaning(idx, q, |s|, OrPostings(idx, t, |t|, {}), f);
      if f in OrPostings(idx, t, |t|, {}) {
        OrPostingsMeaning(idx, t, |t|, {}, f);
      } else {
        var i :| 0 <= i < |s| && f in Candidates(idx, s[i]);
        CandidatesInRange(idx, s[i], f);
      }
  }

  /** The AND case of `CandidatesMeaning`, given it for the subqueries. */
  lemma AndCandidatesMeaning(idx: Index, q: Query, f: nat)
    requires q.Node? && q.op == QAnd && !(|q.trigram| == 0 && |q.sub| == 0)
    requires forall i | 0 <= i < |q.sub| :: f in Candidates(idx, q.sub[i]) <==> Eval(q.sub[i], FileTrigrams(idx, f))
    ensures f in Candidates(idx, q) <==> Eval(q, FileTrigrams(idx, f))
  {
    var t, s := q.trigram, q.sub;
    assert forall x :: x in FileTrigrams(idx, f) <==> f in Postings(idx, x);
    if |t| > 0 {
      AndSubsMeaning(idx, q, |s|, AndPostings(idx, t, |t|, Postings(idx, t[0])), f);
      AndPostingsMeaning(idx, t, |t|, Postings(idx, t[0]), f);
    } else {
      AndSubsMeaning(idx, q, |s|, Candidates(idx, s[|s| - 1]), f);
    }
  }

  /** The OR case of `CandidatesMeaning`, given it for the subqueries. */
  lemma OrCandidatesMeaning(idx: Index, q: Query, f: nat)
    requires q.Node? && q.op == QOr
    requires forall i | 0 <= i < |q.sub| :: f in Candidates(idx, q.sub[i]) <==> Eval(q.sub[i], FileTrigrams(idx, f))
    ensures f in Candidates(idx, q) <==> Eval(q, FileTrigrams(idx, f))
  {
    var t, s := q.trigram, q.sub;
    assert forall x :: x in FileTrigrams(idx, f) <==> f in Postings(idx, x);
    OrSubsMeaning(idx, q, |s|, OrPostings(idx, t, |t|, {}), f);
    OrPostingsMeaning(idx, t, |t|, {}, f);
  }

  /** A file is a candidate exactly when the query holds for the trigrams the index
      records for it (for queries without an empty AND). */
  lemma {:induction false} CandidatesMeaning(idx: Index, q: Query, f: nat)
    requires NoEmptyAnd(q) && f < |idx.files|
    ensures f in Candidates(idx, q) <==> Eval(q, FileTrigrams(idx, f))
  {
    match q
    case QNone =>
    case QAll =>
    case Node(op, t, s) =>
      forall i | 0 <= i < |s| ensures f in Candidates(idx, s[i]) <==> Eval(s[i], FileTrigrams(idx, f)) {
        CandidatesMeaning(idx, s[i], f);
      }
      if op == QAnd {
        AndCandidatesMeaning(idx, q, f);
      } else {
        OrCandidatesMeaning(idx, q, f);
      }
  }

  /** On an index built from `docs`, the candidates are exactly the documents whose
      trigrams satisfy the query. */
  lemma CandidatesFindDocuments(idx: Index, docs: seq<string>, q: Query, f: nat)
    requires Consistent(idx, docs) && NoEmptyAnd(q) && f < |docs|
    ensures f in Candidates(idx, q) <==> Eval(q, TrigramSet(docs[f]))
  {
    CandidatesMeaning(idx, q, f);
    ConsistentFileTrigrams(idx, docs, f);
  }

  /** An AND with neither trigrams nor subqueries selects no file, although as a query
      it holds everywhere. */
  lemma EmptyAndSelectsNothing(idx: Index, present: set<string>)
    ensures Candidates(idx, Node(QAnd, [], [])) == {}
    ensures Eval(Node(QAnd, [], []), present)
  {
  }

  /** `get_filenames(fileids)`: the name of each id, in the order given; an id past the
      end raises. */
  function GetFilenames(idx: Index, ids: seq<nat>): (r: Result<seq<string>>)
    ensures r.Ok? <==> forall i | 0 <= i < |ids| :: ids[i] < |idx.files|
    ensures r.Ok? ==> |r.value| == |ids| && forall i | 0 <= i < |ids| :: r.value[i] == idx.files[ids[i]]
  {
    if |ids| == 0 then Ok([])
    else if ids[0] >= |idx.files| then Err(IndexError)
    else
      var rest :- GetFilenames(idx, ids[1..]);
      Ok([idx.files[ids[0]]] + rest)
  }

  /** Any enumeration of the candidates can be turned into names. */
  lemma CandidateNames(idx: Index, q: Query, ids: seq<nat>)
    requires WellIndexed(idx) && forall i | 0 <= i < |ids| :: ids[i] in Candidates(idx, q)
    ensures GetFilenames(idx, ids).Ok?
    ensures |GetFilenames(idx, ids).value| == |ids|
  {
    forall i | 0 <= i < |ids| ensures ids[i] < |idx.files| {
      CandidatesInRange(idx, q, ids[i]);
    }
  }

  /** `get_filecount()` */
  function GetFilecount(idx: Index): nat
  {
    |idx.files|
  }

  /** Every recorded document adds one to the count, and the new file's id is the old count. */
  lemma FilecountCountsDocs(idx: Index, name: string, doc: string)
    requires WellIndexed(idx)
    ensures GetFilecount(WithDoc(idx, name, doc)) == GetFilecount(idx) + 1
    ensures GetFilenames(WithDoc(idx, name, doc), [GetFilecount(idx)]) == Ok([name])
  {
    var r := WithDoc(idx, name, doc);
    assert r.files[|idx.files|] == name;
    var ids := [GetFilecount(idx)];
    assert ids[0] < |r.files| && ids[1..] == [];
    assert GetFilenames(r, ids[1..]) == Ok([]);
    assert [name] + [] == [name];
  }
}
