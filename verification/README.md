# pycodesearch core, modelled in Dafny

pycodesearch is a Python port of trigram-indexed regular-expression code search. A
regular expression becomes a boolean **query** over trigrams: ANDs and ORs of
three-character strings that every file containing a match must hold. A **trigram
index** maps each trigram to the ids of the files containing it. It answers the query
with a set of candidate files, which are then searched with the full regular
expression.

This project models that core as pure Dafny functions over immutable values and
proves what the pieces promise:

- **Query algebra** (`query.py`, `regexp.py`). The `Query` type and its meaning over a
  document's trigram set. The simplifying `andOr` combinator computes exactly AND / OR.
  `implies` is sound. `andTrigrams` and the string rendering `__str__` are modelled.
  `maybeRewrite` is modelled as written and as described.
- **String sets** (`stringset.py` and the copies in `regexp.py`). Lists that `clean`
  sorts (by reversed string for suffix sets) and deduplicates, with `union`, `cross`,
  `minLen`, `isSubsetOf`.
- **The GCS analysis** (`requery/gcs.py`, the older copy in `regexp.py`). `analyze`
  summarises an expression as `RegexpInfo`: canEmpty, the exact set, prefix and suffix
  sets, and a match query. `simplify`/`simplifySet` bound those sets. `regexpQuery`
  gives the final query. It is proved sound: a text containing a match of the
  expression satisfies the query.
- **The RESET and FREE builders** (`requery/reset.py`, `requery/free.py`). RESET
  computes a finite set of strings and ORs their trigram ANDs. FREE builds the query
  from literals directly and is proved sound.
- **The older front end** (`search/RegexHandler.py`, `search/QueryBuilder.py`). It has
  explicit-concatenation formatting, a shunting-yard parser, a string-set builder and
  its query.
- **The finite-language rewrite** (`junk-342/transform.py`).
- **The trigram index** (`index.py`). `add_file`'s windowing and id assignment,
  candidate selection (proved to select exactly the files whose trigrams satisfy the
  query), file names and the file count.
- **Sorted posting-list merges** (`index/QueryHandler.py`) and the **sparse integer
  set** (`sparse/set.py`).
- **Trigram generators** (`requery/free.py`, `junk-342/regex_trials/trgm_generate.py`).

Modelling choices:

- Python exceptions become `Result` values (`Wrappers`). The kinds are IndexError,
  KeyError, TypeError and AttributeError. A function that falls off its end and
  returns `None` gives `NoneReturned`.
- Objects the source mutates in place are values here. Each operation returns the new
  state.
- Where the source iterates a Python `set` (`list(string_set)`, `for s in
  string_set`), the iteration order is a parameter `order` that enumerates the set.
  The lemmas show the results' meaning does not depend on it.
- The factoring step of `andOr` uses `list(set)`. It is taken in the sorted order
  `clean` produces. Query meaning does not depend on trigram order
  (`QueryAlgebra.EvalTrigramSet`).
- `regexp.py` repeats `query.py`, `stringset.py` and `requery/gcs.py` almost line for
  line. One model covers both. Apart from the recursion limit below, the behavioural
  difference is the redundancy pass of `simplifySet`, so that part is parameterised by
  `legacy` (true = `regexp.py`).
  The guard of the older `andTrigrams` (`minLen(t) < 3` only) is shown equivalent.
- The parse trees from the `ply` grammar are the datatype `RegexAst.Regex`. The GCS
  analysis crashes (in `simplifySet`, on a `None` match) on wildcard, character-class
  and `{m}` nodes, and on `REPEAT` nodes whose `min` is missing or not 0. It gives
  `Err(AttributeError)` there. A `REPEAT` node whose `min` is 0 gives `anyMatch()`.

## Model

| member | source | states |
|---|---|---|
| QueryAlgebra.Unwrap | query.py:52-55 | Dropping a wrapper node of one sub-query and no trigrams keeps the meaning on every document and never grows the query |
| QueryAlgebra.TrigramsImplySound | query.py:239-255 | If `trigramsImply(t, q)` and every trigram of `t` is present, then `q` holds |
| QueryAlgebra.ImpliesSound | query.py:128-148 | `implies` has no false positives: whenever it answers true, every document matching q matches r |
| QueryAlgebra.ImpliesBaseCases | query.py:134-141 | None implies every query and every query implies All; All implies only All and only None implies None |
| QueryAlgebra.Filter | query.py:97-101 | The trigrams of one operand kept or removed by membership in the other, with the expected membership and a strict shrink when something is removed |
| QueryAlgebra.Common | query.py:97-102 | The factored list holds exactly the trigrams both operands share |
| QueryAlgebra.Rest | query.py:100-101 | An operand with the common trigrams removed keeps its op and sub-queries and exactly its other trigrams |
| QueryAlgebra.RestSmaller | query.py:100-101 | Removing at least one shared trigram makes the operand strictly smaller, so the recursive call in factoring terminates |
| QueryAlgebra.EvalTrigramSet | query.py:97-102 | A node's meaning depends only on the set of its trigrams, not on their order or repetition |
| QueryAlgebra.MergeCorrect | query.py:71-93 | The merging steps (same-op union, atom absorption, atom pairing, appending a sub-query) compute the requested AND/OR |
| QueryAlgebra.MergeSameOp | query.py:75-78 | Merging a same-op node with a same-op node or an atom (union of trigrams, joined subs) evaluates to the requested AND/OR |
| QueryAlgebra.MergeAppend | query.py:87-93 | Appending a query as a sub-query of a node with the requested op evaluates to the requested AND/OR |
| QueryAlgebra.AndOrCorrect | query.py:25-126 | `andOr(q, r, op)` holds on a document exactly when `q op r` does, for every trigram set |
| QueryAlgebra.FactorCommonCorrect | query.py:104-123 | Factoring shared trigrams into a node of the other op keeps the meaning: (c OR q') AND (c OR r') = c OR (q' AND r'), and dually |
| QueryAlgebra.FactorNoCommonCorrect | query.py:125-126 | Without shared trigrams, the new node of the two operands computes the op |
| QueryAlgebra.FactoredCallIsMerge | query.py:121-123 | The second recursive call `t.andOr(s, t.op)` never reaches factoring: it is one merge step |
| QueryAlgebra.AndOrImplied | query.py:58-69 | When q implies r, AND returns q and OR returns r (unwrapped) |
| QueryAlgebra.AndOrIdentities | query.py:58-69 | q AND All = q, q OR None = q, q AND None = None, q OR All = All |
| QueryAlgebra.AndOrSameOp | query.py:75-78 | Two nodes of the requested op merge into one node: sorted duplicate-free union of their trigrams, concatenation of their sub-queries |
| QueryAlgebra.AndOrFactorsCommon | query.py:95-123 | An AND of ORs (OR of ANDs) with shared trigrams: the shared ones, sorted, go into a node of the other op, and neither remainder keeps any of them |
| QueryAlgebra.WindowsQuery | query.py:193-199 | The AND node built for one string holds, sorted and without repeats, exactly the string's 3-windows |
| QueryAlgebra.OrWindowQueriesCorrect | query.py:192-199 | The loop's OR holds exactly when the start query holds or some string has all its trigrams present |
| QueryAlgebra.AndTrigrams | query.py:180-189 | With no strings or a string shorter than 3, `andTrigrams` returns q unchanged |
| QueryAlgebra.AndTrigramsCorrect | query.py:180-201 | `andTrigrams(q, t)` holds exactly when q holds and (t is empty, or t has a short string, or some string of t has all its trigrams present) |
| QueryAlgebra.AndTrigramsGuardsAgree | regexp.py:184-193 | The older guard `minLen(t) < 3` is the same test as the newer `len(t) == 0 or min(...) < 3` |
| QueryAlgebra.Retag | query.py:178 | Writing `op` over a query gives a node of that op, keeping a node's trigrams and sub-queries |
| QueryAlgebra.MaybeRewriteAsWritten | query.py:150-178 | As written: no change for constants and for nodes with more than one part; an empty node becomes All/None; a single sub-query is retagged inside the unchanged wrapper |
| QueryAlgebra.MaybeRewriteAsWrittenChangesMeaning | query.py:173-178 | As written, rewriting `AND(OR("abc","def"))` to use AND turns it into a query that rejects a document it accepted |
| QueryAlgebra.MaybeRewrite | query.py:150-178 | As described: the meaning is unchanged on every document; an empty node becomes its constant; a single trigram takes the requested op |
| QueryAlgebra.Show | query.py:203-236 | `str(q)` is "-" for None, "+" for All, the quoted trigram for a single trigram, and a parenthesised string for a non-atomic OR |
| QueryAlgebra.ShowTrigrams | query.py:203-236 | An AND of trigrams alone prints them quoted, space-separated, without brackets; an OR separates them with a bar inside one pair of brackets |
| QueryAlgebra.ShowTwoSubs | query.py:203-236 | Two sub-queries alone: an AND joins them with a space, an OR brackets each and separates them with a bar |
| QueryAlgebra.ShowTrigramAndSub | query.py:203-236 | One trigram and one sub-query: for an AND the quoted trigram, a space and the sub-query; for an OR each bracketed and separated by a bar |
| QueryAlgebra.EvalMonotone | query.py:5-14 | Queries have no negation: a document with more trigrams satisfies every query a document with fewer does |
| StringSet.Have | stringset.py:10-14 | `have(s)` is true exactly when the set has an element |
| StringSet.Add | stringset.py:17-21 | `add` appends: the elements grow by exactly the new string and the old list is a prefix |
| StringSet.Contains | regexp.py:567-571 | `contains(s, x)` is true exactly when x is an element |
| StringSet.Insert | stringset.py:24-37 | Inserting into a clean list gives a clean list with exactly one more element (if new) |
| StringSet.InsertAfterHead | stringset.py:24-37 | Keeping a head that sorts before the new string and a clean tail holding the rest gives a clean list of the old elements plus the new one |
| StringSet.Clean | stringset.py:24-37 | `clean` gives a sorted, duplicate-free list (by reversed string for suffix sets) with the same elements and no more entries |
| StringSet.SortedUnique | stringset.py:24-37 | Two sorted duplicate-free lists with the same elements are equal |
| StringSet.CleanCanonical | stringset.py:24-37 | `clean` depends only on the elements: lists with the same elements clean to the same list |
| StringSet.CleanIdempotent | stringset.py:24-37 | `clean` is idempotent and leaves a clean list unchanged |
| StringSet.MinLen | stringset.py:44-53 | `minLen` is the length of some shortest string and at most every length; 0 for the empty list |
| StringSet.MinFrom | stringset.py:51-52 | The running minimum is at most the start and every later length, and is attained |
| StringSet.MinLenOfElems | stringset.py:44-53 | `minLen` depends only on the elements |
| StringSet.MaxLen | regexp.py:609-618 | `maxLen` is the length of some longest string and at least every length; 0 for the empty list |
| StringSet.MaxFrom | regexp.py:615-617 | The running maximum is at least the start and every later length, and is attained |
| StringSet.MinLenAtMostMaxLen | regexp.py:597-618 | The shortest length never exceeds the longest |
| StringSet.Union | stringset.py:56-62 | `union` gives a clean list holding exactly the elements of both |
| StringSet.CrossList | stringset.py:69 | The comprehension holds exactly the concatenations x+y, with \|s\|·\|t\| entries |
| StringSet.Cross | stringset.py:65-71 | `cross` gives a clean list holding exactly the concatenations x+y, empty when either side is |
| StringSet.IsSubsetOf | stringset.py:74-79 | `isSubsetOf` is element-set containment |
| Strings.Windows | requery/free.py:10-16 | The 3-windows of a string: none below length 3, else one per start position, each `s[i:i+3]` |
| Strings.WindowsAreTrigrams | index.py:43-48 | The windows of a string are exactly its recorded trigram set |
| Strings.SubstringTrigrams | query.py:5-14 | Every trigram of a substring is a trigram of the enclosing text: the fact every query builder relies on |
| Gcs.Truncate | requery/gcs.py:159-165 | A string long enough is cut to n-1 characters, which it extends at the front (prefix set) or back (suffix set); shorter strings are kept |
| Gcs.TruncPass | requery/gcs.py:158-169 | One pass of the cutting loop holds exactly the truncations of the strings visited |
| Gcs.TruncPassIdentity | requery/gcs.py:158-169 | On a sorted set whose strings are already short, a pass changes nothing |
| Gcs.PassFacts | requery/gcs.py:156-171 | After a pass with n, every string has at most n-1 characters and each input string's truncation is present |
| Gcs.TruncLoop | requery/gcs.py:156-171 | The cutting loop ends with a sorted set of at most 20 strings of at most 2 characters, each input string extending one of them |
| Gcs.TruncLoopShort | requery/gcs.py:156-171 | A sorted set of at most 20 strings of at most two characters comes out unchanged |
| Gcs.PruneSubList | requery/gcs.py:177-183 | The redundancy pass only drops strings: a sorted sub-list no longer than its input |
| Gcs.PruneCovers | requery/gcs.py:173-183 | Every string the redundancy pass drops extends a string it keeps |
| Gcs.PruneIrredundant | requery/gcs.py:177-183 | No string kept extends the string kept before it |
| Gcs.PruneLegacyChain | regexp.py:432-438 | In the older pass every kept string extends the one kept before it |
| Gcs.PruneFacts | requery/gcs.py:151-183 | Cleaning, cutting and pruning leave a sorted set of at most 20 short strings covering every input string (older pass: a chain) |
| Gcs.SimplifiedSet | requery/gcs.py:143-185 | `simplifySet` leaves a sorted set of at most 20 strings of at most 2 characters, irredundant and covering every input string |
| Gcs.SimplifiedSetOfShort | requery/gcs.py:156-185 | A set already in simplified shape only goes through the redundancy pass |
| Gcs.LegacyPruneLosesCoverage | regexp.py:432-438 | The older pass, on the prefixes "ab" and "cd", keeps no prefix of "cd" |
| Gcs.FlushPrefixes | requery/gcs.py:129-136 | Each flushed exact string contributes a prefix of itself |
| Gcs.FlushSuffixes | requery/gcs.py:129-136 | Each flushed exact string contributes a suffix of itself |
| Gcs.SimplifySets | requery/gcs.py:139-141 | Both sets come out in simplified shape, the exact set and canEmpty untouched |
| Gcs.Simplify | requery/gcs.py:118-141 | The exact set survives exactly when the flush rule does not fire (then it is clean, at most 7 strings, shortest under 3 or 4); otherwise it is empty and both sets are simplified |
| Gcs.Concat | requery/gcs.py:247-280 | `concat` gives a bounded info that cannot match "" (canEmpty keeps its default); both sides exact and no flush gives the cleaned cross product |
| Gcs.Alternate | requery/gcs.py:283-306 | `alternate` gives a bounded info that can match "" when either side can; both exact and no flush gives the cleaned union |
| Gcs.PlusInfo | requery/gcs.py:42-50 | `x+` turns an exact set into both the prefix and the suffix set and keeps the query |
| Gcs.Analyze | requery/gcs.py:16-62 | Every failure of `analyze` is the AttributeError raised for node kinds without a match query |
| Gcs.AnalyzeParts | requery/gcs.py:65-76 | The parts of a concatenation or union are analysed one each, failing with the same error |
| Gcs.AnalyzeBounded | requery/gcs.py:16-76 | Every info `analyze` returns is in the shape `simplify` leaves |
| Gcs.PartsBounded | requery/gcs.py:34-37 | The folded info of a concatenation or union is in the shape `simplify` leaves |
| Gcs.FoldBounded | requery/gcs.py:65-76 | Folding `concat` or `alternate` over bounded infos gives a bounded info |
| Gcs.RegexpQuery | requery/gcs.py:6-13 | `regexpQuery` succeeds exactly when `analyze` does |
| GcsExamples.ShortSetKeepsQuery | query.py:180-201 | ANDing in a set that is empty or holds a string shorter than 3 leaves the query as it was |
| GcsExamples.SimplifySetsKeepQuery | requery/gcs.py:139-185 | Simplifying prefix and suffix sets of strings of at most two characters adds nothing to the query |
| GcsExamples.FinalFlushInexact | requery/gcs.py:118-141 | The final forced flush of an info with no exact set leaves its query as it was |
| GcsExamples.RegexpQueryInexact | requery/gcs.py:6-13 | When the analysis ends with no exact set, `regexpQuery` returns the analysis's own query |
| GcsExamples.SimplifyNoTrigrams | requery/gcs.py:118-141 | `simplify` keeps an info that can require no trigram (All, with only short strings) in that state |
| GcsExamples.FinalNoTrigrams | requery/gcs.py:6-13 | The final flush and `addExact` of such an info give All |
| GcsExamples.RegexpQueryNoTrigrams | requery/gcs.py:6-13 | An expression whose analysis can require no trigram gives "match everything" |
| GcsExamples.ConcatShortExact | requery/gcs.py:247-280 | Concatenating two exact infos whose strings join to at most two characters gives an info requiring no trigram |
| GcsExamples.LiteralExact | requery/gcs.py:27-62 | A literal of at most three characters stays exact with query All |
| GcsExamples.LongLiteral | requery/gcs.py:27-62 | A literal of four or more characters is flushed: no exact set and the AND of its windows as query |
| GcsExamples.SingleStringQuery | query.py:180-201 | ANDing All with one string of at least three characters gives the AND of its windows |
| GcsExamples.AnalyzePair | requery/gcs.py:65-76 | A two-part concatenation or union is one `concat` or `alternate` of the parts' infos |
| GcsExamples.AlternateExact | requery/gcs.py:283-306 | `alternate` of two exact infos is exact, holding the union of their sets |
| GcsExamples.AlternateFront | requery/gcs.py:283-306 | A one-string exact info alternated with a sorted exact set it precedes gives the string followed by the set |
| GcsExamples.FourLiterals | requery/gcs.py:36-37 | A union of four ordered short literals is exact with exactly those four strings |
| GcsExamples.UnionsJoinExample | requery/gcs.py:334 | The concatenation of the unions of a, b, c, d and of ef, g, hi, j gives "match everything" |
| GcsExamples.AbcdefWindows | query.py:193-196 | The windows of `Abcdef` are `Abc`, `bcd`, `cde`, `def` |
| GcsExamples.AbcdefExample | requery/gcs.py:313 | `Abcdef` gives the AND of `Abc`, `bcd`, `cde`, `def`, printed `"Abc" "bcd" "cde" "def"` |
| GcsExamples.ShowFourTrigrams | query.py:203-236 | An AND of four trigrams prints them quoted and separated by single spaces |
| GcsSound.EvalWithin | query.py:5-14 | A query true of a substring's trigrams is true of the text's |
| GcsSound.AndTrigramsKeeps | query.py:180-201 | ANDing in a set's trigrams keeps a query true of a text containing one of the set's strings |
| GcsSound.LeavesDescribe | requery/gcs.py:200-244 | `anyMatch` and `anyChar` describe every string, `emptyString` describes "", `noMatch` describes none |
| GcsSound.AddExactDescribes | requery/gcs.py:111-116 | `addExact` keeps a described string described |
| GcsSound.SimplifySetDescribes | requery/gcs.py:143-185 | `simplifySet` keeps the query true and the string covered by the simplified set |
| GcsSound.SimplifySetsDescribes | requery/gcs.py:139-141 | Simplifying both sets keeps a described string described |
| GcsSound.FlushCovers | requery/gcs.py:127-137 | Flushing an exact set holding w leaves a prefix and a suffix of w in the sets |
| GcsSound.SimplifyDescribes | requery/gcs.py:118-141 | `simplify` keeps a described string described |
| GcsSound.ConcatRawDescribes | requery/gcs.py:247-277 | Before simplifying, `concat` describes u+v when its operands describe u and v |
| GcsSound.ConcatQuery | requery/gcs.py:253-277 | Both queries, and the junction strings' trigrams when used, hold of u+v |
| GcsSound.JunctionQuery | requery/gcs.py:270-277 | When u ends in one of the suffixes and v starts with one of the prefixes, the trigrams of some cross string occur in u+v |
| GcsSound.ConcatPrefix | requery/gcs.py:254-262 | u+v extends some prefix of the concatenation |
| GcsSound.ConcatSuffix | requery/gcs.py:263-268 | u+v extends some suffix of the concatenation |
| GcsSound.ConcatDescribes | requery/gcs.py:247-280 | `concat` describes u+v when its operands describe u and v |
| GcsSound.AlternateRawDescribes | requery/gcs.py:283-303 | Before simplifying, `alternate` describes what either operand describes |
| GcsSound.AlternateQuery | requery/gcs.py:291-303 | The OR query, with the lone exact side's trigrams ANDed in, holds of w |
| GcsSound.AlternateCovers | requery/gcs.py:289-301 | A string an operand holds exactly or covers is covered by the united set |
| GcsSound.AlternateDescribes | requery/gcs.py:283-306 | `alternate` describes every string either operand describes |
| GcsSound.AlternateDescribesLeft | requery/gcs.py:283-306 | `alternate` describes every string its left operand describes |
| GcsSound.AlternateDescribesRight | requery/gcs.py:283-306 | `alternate` describes every string its right operand describes |
| GcsSound.PlusDescribes | requery/gcs.py:42-50 | `x+` describes a string that starts with one string x describes and ends with one |
| GcsSound.AnalyzeSound | requery/gcs.py:16-62 | Every string the expression matches is described by the info `analyze` returns |
| GcsSound.ConcatSound | requery/gcs.py:34-35 | A string a concatenation matches is described by its folded info |
| GcsSound.AltSound | requery/gcs.py:36-37 | A string a union matches is described by its folded info |
| GcsSound.OptSound | requery/gcs.py:40-41 | A string `e?` matches is described by the alternation of e's info with the empty string's |
| GcsSound.PlusSound | requery/gcs.py:42-50 | A string `e+` matches is described by e's info with its exact set moved into prefix and suffix |
| GcsSound.FoldConcatSound | requery/gcs.py:65-76 | Folding `concat` describes the concatenation of strings the parts describe |
| GcsSound.FoldAltSound | requery/gcs.py:65-76 | Folding `alternate` describes every string one part describes |
| GcsSound.FoldAltFront | requery/gcs.py:73-75 | One more `alternate` step keeps what the fold so far describes |
| GcsSound.FoldAltLast | requery/gcs.py:73-75 | One more `alternate` step adds what the new part describes |
| GcsSound.RegexpQuerySound | requery/gcs.py:6-13 | If the expression matches w and w occurs in a text, the final query holds of the text's trigrams |
| ResetBuilder.Cross | requery/reset.py:7-8 | `cross` holds exactly the concatenations x+y; empty when either side is |
| ResetBuilder.CrossAgrees | requery/reset.py:7-8 | The set `cross` and the list `cross` of string sets hold the same strings |
| ResetBuilder.DoubledSize | requery/reset.py:11-12 | Doubling each string keeps the number of strings |
| ResetBuilder.Repeat | requery/reset.py:11-12 | `repeat` holds exactly the strings and their doubles, at most twice as many |
| ResetBuilder.CrossChildren | requery/reset.py:24-25 | The concatenation case succeeds when both children give sets (or the first is empty and the second returned None); its set is the cross product |
| ResetBuilder.UnionChildren | requery/reset.py:27-28 | The union case succeeds exactly when both children give sets, and unites them |
| ResetBuilder.RepetitionSet | requery/reset.py:30-37 | `+` and `*` include the repeated set, `?` and `*` include "", other quantifiers leave the set as it is |
| ResetBuilder.Analyze | requery/reset.py:15-37 | A literal gives its own value; node kinds without a case give None |
| ResetBuilder.AnalyzeTree | requery/reset.py:15-17 | The missing tree gives the empty set |
| ResetBuilder.MembersMatch | requery/reset.py:15-37 | Every string in the set is matched by the expression: the set under-approximates the language |
| ResetBuilder.RegexpQuery | requery/reset.py:40-44 | `regexp_query` succeeds exactly when `analyze` does, and is All for an empty set or one with a short string |
| ResetBuilder.EnumeratedShort | requery/reset.py:44 | An enumeration has a short string (or is empty) exactly when the set does |
| ResetBuilder.EnumeratedPresent | requery/reset.py:44 | An enumeration has a string with all trigrams present exactly when the set does |
| ResetBuilder.RegexpQueryMeaning | requery/reset.py:40-44 | The query holds exactly when the set is empty, has a short string, or has a string with all trigrams present, whatever the enumeration order |
| FreeBuilder.LiteralQuery | requery/free.py:26-33 | A literal gives All exactly when it is shorter than 3, else the AND of its windows |
| FreeBuilder.LiteralQueryMeaning | requery/free.py:26-33 | A literal's query holds exactly when all its trigrams are present |
| FreeBuilder.Combine | requery/free.py:35-44 | A concatenation or union succeeds exactly when both children give queries, and is their `andOr` |
| FreeBuilder.Free | requery/free.py:22-48 | Repetitions give All, literals their literal query, a node with fewer than two children fails, kinds without a case give None |
| FreeBuilder.FreeSound | requery/free.py:22-48 | A text containing a string the expression matches satisfies the query |
| FreeBuilder.FreeConcatSound | requery/free.py:35-38 | A text containing a match of a concatenation satisfies the AND of its parts' queries |
| FreeBuilder.FreeAltSound | requery/free.py:41-44 | A text containing a match of a union satisfies the OR of its parts' queries |
| FreeBuilder.FreePlusExample | requery/free.py:47-48 | `abc+de` gives "match everything" |
| FreeBuilder.FreeRepeatedGroupExample | requery/free.py:56 | `(abc*)+de` gives "match everything" |
| FreeBuilder.FreeStarredGroupExample | requery/free.py:57 | `ab(cd)*ef` gives "match everything" |
| TrigramGen.FreeTrigrams | requery/free.py:10-16 | The generator yields exactly the 3-windows of the string |
| TrigramGen.GenerateTrigrams | junk-342/regex_trials/trgm_generate.py:1-6 | The generator yields the windows for strings of length at least 3, and the whole string alone for shorter ones |
| RegexHandler.Push | search/RegexHandler.py:8-9 | `push` grows the stack by exactly one element |
| RegexHandler.Pop | search/RegexHandler.py:11-12 | `pop` fails exactly on the empty stack and removes one element |
| RegexHandler.Empty | search/RegexHandler.py:13-14 | `empty` is true exactly when `pop` would fail |
| RegexHandler.Top | search/RegexHandler.py:15-16 | `top` fails exactly on the empty stack and gives what `pop` would return |
| RegexHandler.PushPop | search/RegexHandler.py:5-16 | Last in, first out: pop after push gives back the element and the old stack |
| RegexHandler.Formatted | search/RegexHandler.py:24-31 | The formatted string keeps the first and last characters |
| RegexHandler.FormatRegex | search/RegexHandler.py:24-31 | `format_regex` fails exactly on the empty string |
| RegexHandler.KeepAppend | search/RegexHandler.py:24-31 | Filtering distributes over concatenation |
| RegexHandler.KeepDot | search/RegexHandler.py:24-31 | An inserted dot is invisible to any filter that drops dots |
| RegexHandler.FormatKeeps | search/RegexHandler.py:24-31 | Formatting only inserts dots: the other characters, in order, are unchanged |
| RegexHandler.FormattedExplicit | search/RegexHandler.py:24-31 | The formatted string needs no further dots |
| RegexHandler.ExplicitFixed | search/RegexHandler.py:24-31 | A string that needs no dots is unchanged |
| RegexHandler.FormatIdempotent | search/RegexHandler.py:24-31 | Formatting twice is formatting once |
| RegexHandler.NewNode | search/RegexHandler.py:41-49 | `new_node` removes one operator and keeps the operands of the queue in order, and keeps trees labelled |
| RegexHandler.PopUntilOpen | search/RegexHandler.py:56-59 | The `)` loop stops at `(` or an empty stack, keeping operands and labels |
| RegexHandler.PopWhile | search/RegexHandler.py:60-63 | The operator loop stops when the incoming operator binds tighter than the top, keeping operands and labels |
| RegexHandler.Drain | search/RegexHandler.py:65-66 | The final loop empties the operator stack, keeping operands and labels |
| RegexHandler.Step | search/RegexHandler.py:51-63 | Reading one character adds it to the queue's operands exactly when it is an operand |
| RegexHandler.Parse | search/RegexHandler.py:36-67 | Parsing the empty expression fails with IndexError |
| RegexHandler.Run | search/RegexHandler.py:51-63 | The main loop keeps every tree labelled and every stacked entry an operator, and its trees yield the operands read so far, in order; it builds no parenthesis node, and the `(`s left on its stack are those read and not yet closed |
| RegexHandler.ParseSound | search/RegexHandler.py:36-67 | A successful parse gives a labelled tree whose operands are a suffix of the expression's operands |
| RegexHandler.FormatKeepsDepth | search/RegexHandler.py:24-31 | Formatting leaves the count of `(` minus `)` unchanged |
| RegexHandler.StepNoParens | search/RegexHandler.py:52-63 | One character builds no parenthesis node, and the stacked `(` count moves by the character's depth |
| RegexHandler.PopWhileNoParens | search/RegexHandler.py:61-62 | The operator loop never pops a `(`, because every operator's precedence is above it |
| RegexHandler.CloseNoParens | search/RegexHandler.py:56-59 | A `)` pops operators down to the innermost `(` and then discards that `(`: one `(` fewer, no parenthesis node |
| RegexHandler.ParseParenFree | search/RegexHandler.py:36-67 | A successful parse of an expression with as many `(` as `)` gives a tree without any parenthesis node |
| RegexHandler.UnmatchedOpenNode | search/RegexHandler.py:41-66 | An unmatched `(` left on the stack becomes a `(` node over the last tree in the final loop |
| RegexHandler.UnmatchedCloseRaises | search/RegexHandler.py:56-59 | A `)` with no `(` on the stack fails: the loop empties the stack and the pop that follows raises |
| QueryBuilder.ParseShaped | search/RegexHandler.py:36-67 | Every tree `parse` returns for an expression with as many `(` as `)` is one the query builder is proved on |
| QueryBuilder.DoubleShort | search/QueryBuilder.py:36-44 | The `+`/`*` set holds exactly the body's strings and the doubles of those of length at most one |
| QueryBuilder.NodeSet | search/QueryBuilder.py:19-51 | An operand gives its own one-string set; a leaf holding an operator raises; only a parenthesis node returns None |
| QueryBuilder.GetStringSet | search/QueryBuilder.py:19-21 | The missing tree gives the empty set |
| QueryBuilder.CrossMonotone | search/QueryBuilder.py:46-51 | Crossing is monotone in both sets |
| QueryBuilder.BinaryWithin | search/QueryBuilder.py:29-30 | For `.` and `\|` the builder's set stays within the RESET set when the children's do |
| QueryBuilder.UnaryWithin | search/QueryBuilder.py:32-44 | For `?`, `+`, `*` the builder's set stays within the RESET set when the child's does |
| QueryBuilder.RepetitionWithin | search/QueryBuilder.py:32-44 | The short doubles (and "") lie within the RESET repetition set |
| QueryBuilder.NodeSetWithinReset | search/QueryBuilder.py:19-51 | On a parenthesis-free tree the builder succeeds and its set lies within the RESET set of the same expression |
| QueryBuilder.NodeSetMatches | search/QueryBuilder.py:19-51 | Every string of the builder's set is matched by the expression the tree stands for |
| QueryBuilder.WindowQueries | search/QueryBuilder.py:60-63 | One AND of trigrams per enumerated string, in order |
| QueryBuilder.GetQuery | search/QueryBuilder.py:53-64 | `get_query` succeeds exactly when the set is built; it passes on raised errors and turns None into TypeError; the result is All when some string is short, else an OR with one sub-query per string |
| QueryBuilder.ShortOrAll | search/QueryBuilder.py:56-64 | The loop returns All as soon as it meets a string shorter than three characters, and otherwise the OR of every string's query, in order |
| QueryBuilder.SetQueryMeaning | search/QueryBuilder.py:53-64 | The query holds exactly when some enumerated string is short or has all its trigrams present |
| QueryBuilder.GetQueryMeaning | search/QueryBuilder.py:53-64 | The same, stated over the set, so it does not depend on the iteration order |
| QueryBuilder.GetQueryFindsMembers | search/QueryBuilder.py:53-64 | A text containing one of the set's strings satisfies the query |
| Transform.Body | junk-342/transform.py:32-33 | Reading `value["value"]` succeeds exactly for a node value |
| Transform.PlusFirst | junk-342/transform.py:28-32 | The first piece of `e+` has the body's type and value; it fails on a body without a value as written |
| Transform.ConvertWith | junk-342/transform.py:16-71 | The result has no `*` or `+` anywhere; `*` becomes two equal `?` pieces; `+` becomes the body then a `?` piece; `{0}` becomes ""; other nodes keep type and quantifier; corrected, a well-formed tree converts into a well-formed tree |
| Transform.ConvertValue | junk-342/transform.py:67-71 | Recursing into the value keeps the node's type and quantifier, and leaves string values alone |
| Transform.ConvertList | junk-342/transform.py:68-69 | Converting a list keeps its length and leaves every element bounded |
| Transform.ConvertAsWritten | junk-342/transform.py:16-71 | As written, whatever converts has no `*` or `+` left |
| Transform.Convert | junk-342/transform.py:16-71 | Corrected, a well-formed tree always converts, into a well-formed tree with no `*` or `+` left |
| Transform.ExactlyOneExample | junk-342/transform.py:51-55 | `(ab){1}` as written becomes an ill-formed repetition holding a string; corrected it is the literal |
| Transform.ExactlyTwoExample | junk-342/transform.py:57-62 | `(ab){2}` as written becomes a concatenation of ill-formed concat nodes; corrected it is two copies of the literal |
| Transform.WildcardExample | junk-342/transform.py:67-71 | `(.)?` as written raises KeyError; corrected it is unchanged |
| TrigramIndex.Postings | index.py:78 | A trigram never indexed reads as the empty posting |
| TrigramIndex.EmptyIndex | index.py:18-20 | The fresh index is well indexed and has no files |
| TrigramIndex.Range | index.py:73 | `set(range(n))` holds exactly the ids below n |
| TrigramIndex.PostOne | index.py:45-48 | One posting adds the id under the one trigram, creating the entry, and changes nothing else |
| TrigramIndex.WindowsBeforeStep | index.py:46-48 | One more loop iteration adds one more window |
| TrigramIndex.WindowsBeforeAll | index.py:43-48 | The loop visits exactly the document's trigram set |
| TrigramIndex.PostWindows | index.py:43-48 | The window loop adds the id under exactly the document's trigrams, creating missing entries, and changes nothing else |
| TrigramIndex.PostedOne | index.py:45-48 | Posting the id under one more trigram keeps the id under exactly the trigrams added so far and nothing else changed |
| TrigramIndex.AddFile | index.py:39-53 | An unreadable file leaves the index unchanged; otherwise the document is recorded under the next id |
| TrigramIndex.WithDocPostings | index.py:43-50 | Recording a document adds its id to the posting of each of its trigrams and appends its name |
| TrigramIndex.WithDocWellIndexed | index.py:49-50 | Recording a document keeps ids dense and adds one file |
| TrigramIndex.WithDocConsistent | index.py:39-50 | An index describing a list of documents, after recording one more, describes the extended list |
| TrigramIndex.ConsistentFileTrigrams | index.py:39-50 | In an index built from documents, the trigrams recorded for a file are its document's trigrams |
| TrigramIndex.AndPostingsMeaning | index.py:81-82 | The intersection loop keeps exactly the ids in the start set and in every posting |
| TrigramIndex.OrPostingsMeaning | index.py:93-94 | The union loop keeps exactly the ids in the start set or some posting |
| TrigramIndex.AndSubsMeaning | index.py:88-89 | The sub-query intersection keeps exactly the ids in the start set and every sub-query's candidates |
| TrigramIndex.OrSubsMeaning | index.py:95-96 | The sub-query union keeps exactly the ids in the start set or some sub-query's candidates |
| TrigramIndex.CandidatesInRange | index.py:68-98 | Every candidate id names a file |
| TrigramIndex.AndCandidatesMeaning | index.py:75-89 | An AND node selects exactly the files whose trigrams satisfy it, given the same for its sub-queries |
| TrigramIndex.OrCandidatesMeaning | index.py:91-96 | An OR node selects exactly the files whose trigrams satisfy it, given the same for its sub-queries |
| TrigramIndex.CandidatesMeaning | index.py:68-98 | A file is a candidate exactly when the query holds of the trigrams the index records for it (no AND node empty) |
| TrigramIndex.CandidatesFindDocuments | index.py:68-98 | On an index built from documents, the candidates are exactly the documents whose trigrams satisfy the query |
| TrigramIndex.EmptyAndSelectsNothing | index.py:84-98 | An AND with neither trigrams nor sub-queries selects no file, although it holds of every document |
| TrigramIndex.GetFilenames | index.py:100-101 | The names of the given ids in order; an id past the end fails |
| TrigramIndex.CandidateNames | index.py:68-101 | Every enumeration of the candidates can be turned into names |
| TrigramIndex.FilecountCountsDocs | index.py:49-50 | Every recorded document adds one to the count, and its id names it |
| PostingMerge.IncreasingAppend | index/QueryHandler.py:41-44 | Appending an increasing tail above the last element keeps a list increasing |
| PostingMerge.ListAnd | index/QueryHandler.py:9-22 | The result only holds ids of both lists; on increasing lists it is increasing and holds exactly the common ids |
| PostingMerge.AndStep | index/QueryHandler.py:13-21 | Each step of the walk keeps the result increasing, below both heads, and holding every common id already passed |
| PostingMerge.CommonFound | index/QueryHandler.py:13-22 | Once either list is used up, every common id has been kept |
| PostingMerge.ListOr | index/QueryHandler.py:25-45 | Corrected, the result holds exactly the ids of either list, and is increasing when both are |
| PostingMerge.Ids | index/QueryHandler.py:42 | Each id of the leftover of the first list becomes one element |
| PostingMerge.OrLoop | index/QueryHandler.py:29-44 | As written, every element but the last is an id |
| PostingMerge.ListOrAsWritten | index/QueryHandler.py:25-45 | As written, every element but the last is an id |
| PostingMerge.ListOrAsWrittenNests | index/QueryHandler.py:43-44 | As written, `list_or([], [1])` is `[[1]]` and `list_or([1], [1, 2])` is `[1, [2]]` |
| SparseSets.PyIndex | sparse/set.py:17-18 | Python list indexing: defined exactly for `-n <= x < n`, counting negatives from the end |
| SparseSets.Init | sparse/set.py:6-10 | A new set is shaped, linked, exact and empty |
| SparseSets.Add | sparse/set.py:15-21 | A value at or above `max_len` leaves the set unchanged; otherwise the add fails (IndexError) exactly when the set is full or the value is below `-max_len`, and on success the count grows by one, the dense prefix gains the value at its end, and the members gain the value |
| SparseSets.AddLinked | sparse/set.py:15-19 | Adding a non-negative value keeps every member's slot pointing at it |
| SparseSets.AddExact | sparse/set.py:15-19 | Adding a non-negative value keeps every filled slot pointing back at itself |
| SparseSets.HasAsWritten | sparse/set.py:23-27 | As written, a value at or above `max_len` gives None, and a value in range fails exactly when its slot was never filled |
| SparseSets.Has | sparse/set.py:23-27 | Corrected, `Has` answers for every value from `-max_len` to `max_len - 1`, and true only for members |
| SparseSets.HasMeaning | sparse/set.py:23-25 | On a linked set, the corrected `Has` answers membership exactly |
| SparseSets.HasAsWrittenMeaning | sparse/set.py:23-25 | As written, on an exact set `Has` answers true for members and raises TypeError for every other value in range |
| SparseSets.AddThenHas | sparse/set.py:15-25 | Right after an accepted `Add(x)`, both versions of `Has(x)` answer true |
| SparseSets.Reset | sparse/set.py:12-13 | Corrected, `Reset` leaves a linked set with no members |
| SparseSets.ResetAsWritten | sparse/set.py:12-13 | As written, `Reset` fails on every set |
| SparseSets.ResetThenHas | sparse/set.py:12-25 | After the corrected reset nothing in range is a member, and the next add leaves exactly that value |
| SparseSets.HasAsWrittenExamples | sparse/set.py:12-25 | On ten slots: `Has(3)` before any add raises; after adding 5 and resetting, `Has(5)` as written answers true and corrected false; `Reset` as written raises |
| SparseSets.NegativeAliasExample | sparse/set.py:15-25 | Adding -1 then 9 to ten slots makes -1 a member that `Has` no longer finds |
| SparseSets.Passing | sparse/set.py:16 | The values passing the guard of `Add`, in order, are exactly those below `max_len` |
| SparseSets.Filled | sparse/set.py:17 | Each value as a filled slot |
| SparseSets.Replay | sparse/set.py:6-21 | A sequence of adds from a new set keeps the set shaped |
| SparseSets.ReplayMeaning | sparse/set.py:15-33 | A sequence of adds succeeds exactly when at most `max_len` pass the guard and none is below `-max_len`; then `Len()` counts them, the first `Len()` slots of `Dense()` are them in insertion order, and the members are exactly them |
| SparseSets.AddStep | sparse/set.py:15-19 | One add to a set holding a sequence of values succeeds exactly when there is room and the value indexes the arrays; then the set holds the sequence plus the value |
| SparseSets.IndexableSnoc | sparse/set.py:15-19 | A sequence plus one value can all index the arrays exactly when the sequence can and the value can |
| SparseSets.ReplayExact | sparse/set.py:15-19 | Adds of non-negative values keep the set linked and exact |

## Left out

- `regexp.py` sets `sys.setrecursionlimit(100)` when it loads (regexp.py:9). Its
  `analyze`/`fold` recursion then raises RecursionError on a tree about 50 levels deep,
  such as a 50-way union or about 50 starred atoms in a row. `Gcs.Analyze` with
  `legacy = true` returns a result for such trees: the interpreter's frame limit is
  not modelled.
- Logging in `requery/reset.py` (lines 1 and 42) and `search/RegexHandler.py` (lines 1-3
  and 38) is left out; it does not affect any result.
- File I/O, `pickle` persistence, `os.walk` and logging of `index.py` are left out. `add_file`'s read is a parameter: `None` stands for a file that raised UnicodeDecodeError.
- The `ply` lexers and parsers (`reparser/`, `parser/`) are not part of this model. Their output trees are the `RegexAst.Regex` and `Transform.DTree` datatypes.
- `requery/xeger.py` and `requery/xgr.py` (random string generation) are left out, because they use randomness.
- The demo blocks under `if __name__ == "__main__"` and all `print` output are left out. `Add` and `Has` of the sparse set print on out-of-range values; only the returned value is modelled.
- ResetBuilder.MembersMatch: RESET (and the older QueryBuilder) is not sound. It unrolls each repetition at most twice, so its query can reject a text that matches. Only the under-approximation is proved.
- QueryBuilder.NodeSetWithinReset: stated for trees without a parenthesis node. A `)` discards its matching `(` without building a node, and an unmatched `)` raises (`RegexHandler.UnmatchedCloseRaises`). Only an unmatched `(` becomes a node, in the final loop (`RegexHandler.UnmatchedOpenNode`), and the builder returns None for it. So every tree `parse` returns for an expression with as many `(` as `)` qualifies (`QueryBuilder.ParseShaped`).
- RegexHandler.ParseSound: proves only that the tree's operands are a suffix of the input's. Other trees left on the output queue are discarded by `outq.top()`, as the source does.
- TrigramIndex.CandidatesMeaning: excludes AND nodes with neither trigrams nor sub-queries. `get_candidate_fileids` returns the empty set for those, although they match everything (`TrigramIndex.EmptyAndSelectsNothing`).
- `index.py`'s `list_and`/`list_or` are Python set `&` and `|`, modelled as set operations. `read()` is an accessor. `defaultdict` lookups add empty entries as a side effect, which does not change any posting.
- PostingMerge.ListAnd / PostingMerge.ListOr take the two posting lists directly. The lookup `self.index[tri]` through `IndexHandler` is not part of this model.
- SparseSets.Add: when writing `sparse[x]` raises after `dense[cur_len]` was written, the partly updated object is not modelled. The error is returned instead. A negative `max_len` is not modelled (it is a `nat`).
- StringSet: `clear` and `copy` of the older copy only matter for shared mutable lists. On values they are the empty list and the identity, so they are not separate members.
- The `__str__` of `RegexpInfo` (debug output) is left out.
- Query equality in the `andOr` factoring uses sorted order for `list(set)`. Python's set iteration order is unspecified; the meaning is unaffected (`QueryAlgebra.EvalTrigramSet`).

## Findings

| source | as written | input that shows it | evidently intended | confidence | as-written member | corrected member |
|---|---|---|---|---|---|---|
| regexp.py:432-438 | keeps a string only if it extends the last kept one (the `not` of requery/gcs.py:180 is missing) | prefix set `["ab", "cd"]`: "cd" is dropped and no kept prefix covers it | drop a string only when it extends the last kept one | high, not executed | Gcs.LegacyPruneLosesCoverage | Gcs.PruneCovers |
| query.py:173-178 | `q = q.sub[0]` rebinds the local, so `q.op = op` retags the sub-query inside the unchanged wrapper | `AND(OR("abc","def"))` rewritten to AND no longer holds for a document with only "abc" | replace the wrapper by its sub-query without changing the meaning | medium, not executed | QueryAlgebra.MaybeRewriteAsWrittenChangesMeaning | QueryAlgebra.MaybeRewrite |
| index/QueryHandler.py:43-44 | appends the leftover of the second list as one nested list | `list_or([], [1])` gives `[[1]]` | extend by the leftover, as line 42 does for the first list | high, not executed | PostingMerge.ListOrAsWrittenNests | PostingMerge.ListOr |
| junk-342/transform.py:51-55 | `{1}` keeps the repetition type but takes the body's value | `(ab){1}` becomes a repetition whose value is the string "ab" | replace the node by its body | medium, not executed | Transform.ExactlyOneExample | Transform.Convert |
| junk-342/transform.py:57-62 | `{2}` retypes the node as concat before copying, so each copy is a concat whose value is one node | `(ab){2}` becomes a concat of two ill-formed concat nodes | the concatenation of two copies of the body | medium, not executed | Transform.ExactlyTwoExample | Transform.Convert |
| junk-342/transform.py:67-71 | reads `parse_tree["value"]`, which wildcard nodes lack | `(.)?` raises KeyError | leave nodes without a value alone | medium, not executed | Transform.WildcardExample | Transform.Convert |
| sparse/set.py:23-25 | compares `sparse[x]` with `max_len`; a never-added x has `sparse[x]` None | `Set(10).Has(3)` raises TypeError | answer False for a value never added, and compare with `cur_len` so a reset empties the set | high, not executed | SparseSets.HasAsWrittenExamples | SparseSets.HasMeaning |
| sparse/set.py:12-13 | `self.self.cur_len = 0` looks up an attribute that does not exist | any `Reset()` raises AttributeError | set `cur_len` to 0 | high, not executed | SparseSets.ResetAsWritten | SparseSets.ResetThenHas |
