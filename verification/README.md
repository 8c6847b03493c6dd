# FP2 path finding, modelled in Dafny

FP2 solves one problem three times: it finds a shortest path through a small
2-D graph with A*. It does so in three styles of C++:

- **metaprogram**: the graph, the scores and the search are all types. The
  search runs inside the compiler on the `meta::pack` type list.
- **semifunctional**: the search is a `consteval` recursion over fixed-size
  arrays. Its containers are `static_vector` and `static_ordered_list`, and
  `Maybe` is its small monad.
- **imperative**: a plain run-time A* over a pointer graph, with an ordered
  `std::multiset` as its open set.

This project models the core of all three as immutable data and pure functions,
plus a few methods where the source loops. A pack is a `seq`. A template
predicate or metafunction is a Dafny function value. A pointer into an array of
nodes becomes an index into a `seq`. A pointer-linked list becomes the
sequence of storage slots it visits. The float scores of both run-time searches
become `Search.Score`, either a natural number or infinity. `size_t`
arithmetic is modelled modulo 2^64 where the source's result depends on
wrap-around.

Modules, one per source component:

- `Wrappers`: `Option`, which stands for `null_type` and for `std::optional`.
- `SizeT`: unsigned 64-bit arithmetic.
- `MetaFunctional`: `metaprogram/metafunctional.hpp` and
  `metaprogram/functional.hpp`.
- `Pack`: the pack algebra in `metaprogram/pack/pack.hpp` and
  `pack_helpers.hpp`.
- `NodeScores`, `KvPairs`, `MetaAStar`: the type-level A*.
- `RecursiveGraph`, `FlattenedGraph`, `Flattener`: the recursive graph and its
  flattener.
- `TypeString`: `parse_string_arg` and the pretty-printer loop.
- `ConstexprMath`: `constexpr_pow`.
- `SfFunctional`, `Maybe`, `StaticVector`, `OrderedList`, `SfGraph`, `SfAStar`:
  the semifunctional version.
- `Search`: the score domain shared by both run-time searches.
- `ImpGraph`, `ImpAStar`: the imperative version.

Two behaviours of the source are modelled as written but are worth knowing.

- `SfAStar.Relax` adds `d(neighbour, to)` to the tentative g-score, as line 104
  of `semifunctional/A_star.hpp` does. That is the distance from the
  neighbour to the goal, not the length of the edge just taken. Only the
  structural properties of the search are proved, so this choice does not
  affect any lemma.
- The type-level A* in `metaprogram/A_star/A_star.hpp` appends improved scores
  to the end of its score packs. It reads scores back with `find`, which
  returns the FIRST entry of a node, and that is always the initial entry.
  `MetaAStar.ScoreLookupsNeverChange` proves this. The selection of the next
  node does see the appended f-scores, since it folds over every entry of the
  f-score pack. The g-score and f-score lookups made while relaxing the
  neighbours, however, always read the initial entries.
- The imperative A* erases a rescored neighbour from its open set with
  `discovered.erase(neighbour)` (line 71 of `imperative/A_star.hpp`). On a
  `std::multiset` ordered by f-score this erases every open node with the same
  f-score. `ImpAStar.Relax` and the search built on it do exactly that.
  `ImpAStar.RelaxCorrected` erases only the neighbour, and both versions are
  proved to keep the search invariant.

## Model

| member | source | states |
|---|---|---|
| SizeT.AddIsModular | metaprogram/A_star/A_star.hpp:64-68 | the score sum in `tentative_gscore` is addition modulo 2^64, and the result drops below the first operand exactly when the true sum reaches 2^64 |
| SizeT.SubIsModular | metaprogram/pack/pack.hpp:151 | `size - N` in `remove_at` is subtraction modulo 2^64, and adding `N` back restores `size` |
| MetaFunctional.BindFront | metaprogram/metafunctional.hpp:18-21 | the bound template sees the bound types before its own arguments |
| MetaFunctional.BindBack | metaprogram/metafunctional.hpp:23-25 | the bound template sees the bound types after its own arguments |
| MetaFunctional.BindFrontTwice | metaprogram/metafunctional.hpp:18-21 | binding to the front twice equals one binding of both lists, the list bound first coming first |
| MetaFunctional.CompareBy | metaprogram/metafunctional.hpp:37-45 | the comparator returns one of its two arguments, the one with the smaller key; on equal keys it returns the second |
| MetaFunctional.Invert | metaprogram/metafunctional.hpp:48-53 | the inverted predicate holds exactly where the original fails |
| MetaFunctional.InvertTwice | metaprogram/metafunctional.hpp:48-53 | inverting twice gives back the original predicate |
| MetaFunctional.OneOf | metaprogram/functional.hpp:12-15 | `one_of` is true iff the element equals one of the rest |
| Pack.Head | metaprogram/pack/pack_helpers.hpp:9-27 | the head is `null_type` exactly for the empty pack |
| Pack.Tail | metaprogram/pack/pack_helpers.hpp:9-27 | the tail of the empty pack is empty, otherwise it is one element shorter |
| Pack.SplitReconstructs | metaprogram/pack/pack_helpers.hpp:20-27 | a non-empty pack is its head followed by its tail, element by element |
| Pack.Append | metaprogram/pack/pack.hpp:56 | `append` keeps the pack as a prefix and the added types as the suffix |
| Pack.Prepend | metaprogram/pack/pack.hpp:57 | `prepend` puts the added types before the pack |
| Pack.ExpandOutside | metaprogram/pack/pack.hpp:49 | `expand_outside` wraps each element in place and keeps the length |
| Pack.Contains | metaprogram/pack/pack.hpp:65-71 | `contains<T>` is true iff T occurs in the pack |
| Pack.ContainsAny | metaprogram/pack/pack.hpp:74-81 | corrected `contains_any`: true iff some type of the other pack occurs, false when either pack is empty |
| Pack.ContainsAll | metaprogram/pack/pack.hpp:84-91 | corrected `contains_all`: true iff every type of the other pack occurs, true for an empty other pack |
| Pack.ContainsAnyAsWritten | metaprogram/pack/pack.hpp:74-81 | the written recursion is reached exactly when both packs are non-empty and the first queried type is absent; otherwise the answer agrees with the corrected one |
| Pack.ContainsAllAsWritten | metaprogram/pack/pack.hpp:84-91 | the written recursion is reached exactly when the first queried type is present; otherwise the answer agrees with the corrected one |
| Pack.ContainsRecursionIllFormed | metaprogram/pack/pack.hpp:74-91 | concrete packs whose answer is defined but whose evaluation reaches the ill-formed recursive call |
| Pack.PopFront | metaprogram/pack/pack.hpp:96-102 | dropping N from the front gives the suffix after N, and the empty pack when N reaches the size |
| Pack.PopBack | metaprogram/pack/pack.hpp:107-117 | dropping N from the back gives the prefix of length size - N, and the empty pack when N reaches the size |
| Pack.Get | metaprogram/pack/pack.hpp:121 | `get<N>` is the N-th element, or `null_type` past the end |
| Pack.Last | metaprogram/pack/pack.hpp:124 | `last` is the final element, or `null_type` for the empty pack |
| Pack.RemoveAtAsWritten | metaprogram/pack/pack.hpp:151 | for a pack shorter than `SIZE_MAX`, the written `remove_at` always keeps a prefix of the pack followed by a later suffix, in order |
| Pack.RemoveAtAsWrittenCases | metaprogram/pack/pack.hpp:151 | the written `remove_at` removes index N when N < size, returns the pack unchanged at N == size, and empties it when size < N < SIZE_MAX because `size - N` wraps; at N == SIZE_MAX, `N + 1` wraps to 0 and the pack comes back unchanged |
| Pack.RemoveAtPastEndEmpties | metaprogram/pack/pack.hpp:151 | a concrete index past the end for which the written `remove_at` deletes everything |
| Pack.RemoveAt | metaprogram/pack/pack.hpp:149-151 | corrected `remove_at`: removes exactly element N, and leaves the pack unchanged past the end |
| Pack.Filter | metaprogram/pack/pack.hpp:127-146 | the filtered pack is no longer than the pack, and every kept element satisfies the predicate and comes from the pack |
| Pack.FilterConcat | metaprogram/pack/pack.hpp:127-146 | filtering distributes over concatenation, so the order of kept elements is preserved |
| Pack.FilterKeeps | metaprogram/pack/pack.hpp:127-146 | every element that satisfies the predicate survives the filter |
| Pack.FilterAllTrue | metaprogram/pack/pack.hpp:127-146 | a predicate true on every element keeps the pack unchanged |
| Pack.RemoveIf | metaprogram/pack/pack.hpp:273-287 | no element of the result satisfies the predicate, and the result is no longer than the pack |
| Pack.RemoveIfIsFilterInvert | metaprogram/pack/pack.hpp:273-287 | `remove_if<P>` equals `filter` with the inverted predicate |
| Pack.FilterRemoveIfPartition | metaprogram/pack/pack.hpp:273-287 | `filter<P>` and `remove_if<P>` together hold every element exactly as often as the pack |
| Pack.RemoveIfConcat | metaprogram/pack/pack.hpp:273-287 | `remove_if` distributes over concatenation |
| Pack.RemoveIfNoneMatch | metaprogram/pack/pack.hpp:273-287 | a predicate that matches nothing leaves the pack unchanged |
| Pack.RemoveIfAllMatch | metaprogram/pack/pack.hpp:273-287 | a predicate that matches everything empties the pack |
| Pack.TfFilter | metaprogram/pack/pack.hpp:182-194 | `tf_filter` keeps elements of the pack whose transformed value satisfies the predicate |
| Pack.TfFilterKeepsAll | metaprogram/pack/pack.hpp:182-194 | when every transformed element satisfies the predicate, `tf_filter` keeps the pack unchanged |
| Pack.RemoveType | metaprogram/pack/pack.hpp:155-160 | `remove_type<T>` leaves no T and adds nothing new |
| Pack.RemoveTypeCounts | metaprogram/pack/pack.hpp:155-160 | `remove_type<T>` removes every copy of T and keeps every other element as often as before |
| Pack.RemoveFirst | metaprogram/pack/pack.hpp:166-177 | `remove_first_type<T>` removes exactly one copy of T when present and changes nothing otherwise |
| Pack.RemoveFirstAtFirstIndex | metaprogram/pack/pack.hpp:166-177 | the copy removed is the first occurrence, and the order of the rest is kept |
| Pack.Find | metaprogram/pack/pack.hpp:269-270 | `find<P>` is `null_type` iff no element matches, and otherwise the first matching element |
| Pack.FilterHead | metaprogram/pack/pack.hpp:127-146 | the head of a filtered pack is the first element satisfying the predicate |
| Pack.FindConcat | metaprogram/pack/pack.hpp:269-270 | searching a concatenation finds in the first part when it can, else in the second |
| Pack.LeftFold | metaprogram/pack/pack.hpp:197-212 | `left_fold` is `null_type` exactly for the empty pack and the single element for a one-element pack |
| Pack.LeftFoldAccumulates | metaprogram/pack/pack.hpp:197-212 | the fold built from the back through `pop_back<1>` and `last` equals the accumulation from the front, Pred(Pred(T0, T1), T2) and so on |
| Pack.RightFold | metaprogram/pack/pack.hpp:215-230 | `right_fold` is `null_type` for the empty pack, the element for a singleton, and Pred(head, fold of tail) otherwise |
| Pack.FoldsAgreeWhenAssociative | metaprogram/pack/pack.hpp:197-230 | for an associative operation the left and right folds agree |
| Pack.Flatten | metaprogram/pack/pack.hpp:233-246 | the flattened pack contains no nested pack |
| Pack.FlattenConcat | metaprogram/pack/pack.hpp:233-246 | flattening distributes over concatenation |
| Pack.FlattenFlat | metaprogram/pack/pack.hpp:233-246 | a pack without nested packs is its own flattening |
| Pack.FlattenIdempotent | metaprogram/pack/pack.hpp:233-246 | flattening twice equals flattening once |
| Pack.LeftFoldPicks | metaprogram/pack/pack.hpp:197-212 | folding with an operation that returns one of its arguments yields an element of the pack |
| Pack.Sort | metaprogram/pack/pack.hpp:250-264 | `sort` returns a permutation of the pack |
| Pack.CompareByStep | metaprogram/metafunctional.hpp:37-45 | one `compare_by` step keeps the left type only when its key is strictly smaller |
| Pack.LeftFoldCompareByIsMin | metaprogram/pack/pack.hpp:256 | the fold with `compare_by` that `sort` uses picks an element of least key |
| Pack.LeftFoldCompareByIsLast | metaprogram/pack/pack.hpp:256 | among the elements of least key, the fold picks the last one |
| Pack.SortCompareBySorted | metaprogram/pack/pack.hpp:250-264 | sorting with `compare_by<Key>` orders the pack by non-decreasing key |
| Pack.Reverse | metaprogram/pack/pack.hpp:290-296 | element i of the reversed pack is element size-1-i of the pack |
| Pack.ReverseMembers | metaprogram/pack/pack.hpp:290-296 | reversing keeps exactly the same members |
| Pack.ReverseInvolution | metaprogram/pack/pack.hpp:290-296 | reversing twice gives back the pack |
| Pack.UniqueLast | metaprogram/pack/pack.hpp:299-306 | `unique_impl` yields a duplicate-free pack with the same members |
| Pack.Unique | metaprogram/pack/pack.hpp:299-311 | `unique` yields a duplicate-free pack with exactly the members of the pack |
| Pack.UniqueIsFirstOccurrences | metaprogram/pack/pack.hpp:311 | `unique` keeps the first occurrence of each type, in the original order |
| Pack.UniqueOfNoDup | metaprogram/pack/pack.hpp:299-311 | a pack without duplicates is unchanged by `unique` |
| Pack.UniqueIdempotent | metaprogram/pack/pack.hpp:299-311 | `unique` applied twice equals `unique` applied once |
| NodeScores.UpdateScore | metaprogram/A_star/node_score.hpp:28-34 | `update_score<N, S>` rescores the entry of N to S, keeps its node, and leaves entries of other nodes unchanged |
| NodeScores.InitialScoresEntries | metaprogram/A_star/A_star.hpp:22-27 | the initial score pack has one entry per graph node, scored `max_score` except the start node |
| NodeScores.Lookup | metaprogram/A_star/node_score.hpp:37-39 | `find<equals_node<N>>` is `null_type` iff no entry is about N, else the first entry of the table about N: no earlier entry names N |
| NodeScores.LookupInitial | metaprogram/A_star/A_star.hpp:22-27 | a lookup in the initial table returns the start score for the start node and `max_score` for every other node |
| KvPairs.Keys | metaprogram/A_star/kv_pair.hpp:14 | `get_key` mapped over the pack keeps the length and reads the key at each position |
| KvPairs.FindValue | metaprogram/A_star/kv_pair.hpp:18-22 | `find_value` is `null_type` iff the key is absent, else the first pair with that key |
| KvPairs.FindValueAppend | metaprogram/A_star/kv_pair.hpp:18-22 | appending pairs does not change the result for a key already present |
| KvPairs.ValueOfFirst | metaprogram/A_star/kv_pair.hpp:18-22 | the value found for a key is the value of its first pair |
| KvPairs.ValueOfIsFindValue | metaprogram/A_star/kv_pair.hpp:18-22 | the recursive value lookup agrees with `find_value` |
| RecursiveGraph.ReachableShrinks | metaprogram/graph/recursive_graph.hpp:11-23 | a node reachable through children is never larger than where the walk starts |
| RecursiveGraph.ChildRelationAcyclic | metaprogram/graph/recursive_graph.hpp:11-13 | no node is reachable from one of its own children, so the recursive graph is acyclic |
| Flattener.OwnEdges | metaprogram/graph/flattener.hpp:35-36 | the node's own edges are one default `edge<Node, Child>` per child, in child order, each from the node to that child |
| Flattener.Flatten | metaprogram/graph/flattener.hpp:21-47 | the flattened node and edge packs are duplicate-free and contain the root |
| Flattener.FlattenNodesAreReachable | metaprogram/graph/flattener.hpp:21-44 | a node is in the flattened graph iff it is reachable from the root |
| Flattener.EdgesWithinNodes | metaprogram/graph/flattener.hpp:30-41 | both ends of every flattened edge are nodes of the flattened graph |
| MetaAStar.NeighbourIffAdjacent | metaprogram/A_star/A_star.hpp:37-55 | `neighbour_filter` accepts B for A iff they are different and some edge touches both |
| MetaAStar.ConnectingEdge | metaprogram/A_star/A_star.hpp:58-59 | the connecting edge of two neighbours is an edge of the graph touching both |
| MetaAStar.Neighbours | metaprogram/A_star/A_star.hpp:130-131 | every listed neighbour is a graph node accepted by `neighbour_filter` |
| MetaAStar.NeighboursAreAdjacent | metaprogram/A_star/A_star.hpp:130-131 | the neighbours of a node are exactly the graph nodes adjacent to it |
| MetaAStar.Current | metaprogram/A_star/A_star.hpp:116-120 | the current node is the node of the f-score entry with the least `fscore_cost_fn` cost, the last one on ties; there is none only for an empty f-score pack |
| MetaAStar.ImprovedForNodeNeverHolds | metaprogram/A_star/A_star.hpp:73-83 | `improved_score_filter_for_node` compares a node's score with itself, so it never holds; its inversion keeps every came-from pair |
| MetaAStar.Tentative | metaprogram/A_star/A_star.hpp:63-69 | the tentative score is about the neighbour itself and is the current node's g-score plus the connecting edge's cost, less 2^64 when that sum overflows `size_t`; it falls below the g-score exactly when the sum overflows |
| MetaAStar.Tentatives | metaprogram/A_star/A_star.hpp:63-69 | one tentative score per neighbour, about that neighbour |
| MetaAStar.InitEstablishesInv | metaprogram/A_star/A_star.hpp:20-27 | the initial search state satisfies the search invariant |
| MetaAStar.ScoreLookupsNeverChange | metaprogram/A_star/A_star.hpp:144-153 | in every reachable state, looking up any node's g- or f-score returns its initial entry |
| MetaAStar.TentativeFromNonStartWraps | metaprogram/A_star/A_star.hpp:63-68 | from any node but the start the tentative score is `max_score` + cost, which wraps to cost - 1 |
| MetaAStar.StepGScore | metaprogram/A_star/A_star.hpp:144-146 | after a step the g-score pack is the initial pack followed by the improved scores of this step |
| MetaAStar.StepFScore | metaprogram/A_star/A_star.hpp:149-153 | after a step the f-score pack is the initial pack, then the older appended entries that `improved_score_filter` does not flag (in order), then for each improved neighbour n, in order, an entry of n with tentative + Heuristic(n, To) added in `size_t`; it is only about graph nodes |
| MetaAStar.StepCameFrom | metaprogram/A_star/A_star.hpp:164-173 | after a step the came-from pack is the old pack, unfiltered, followed by one pair per neighbour of the current node pointing back to it |
| MetaAStar.StepDiscovered | metaprogram/A_star/A_star.hpp:157-160 | after a step the discovered pack is duplicate-free, lacks the current node, and holds the old discovered nodes plus the improved neighbours |
| MetaAStar.Step | metaprogram/A_star/A_star.hpp:128-187 | the arguments of the recursive instantiation: the new discovered pack is duplicate-free and no longer holds the current node |
| MetaAStar.StepPreservesInv | metaprogram/A_star/A_star.hpp:128-187 | one expansion step preserves the search invariant |
| MetaAStar.ReconstructPath | metaprogram/A_star/A_star.hpp:94-106 | at the start node or at a node without a came-from pair the node is put in front of the path so far; a finished path is longer than that path and begins at the start or at a node without a pair |
| MetaAStar.ReconstructPathShape | metaprogram/A_star/A_star.hpp:94-106 | the reconstructed path ends with the given suffix and starts at the start node or at a node without a came-from pair |
| MetaAStar.ReconstructPathInGraph | metaprogram/A_star/A_star.hpp:94-106 | every node of a reconstructed path is a graph node |
| MetaAStar.ReconstructPathIsWalk | metaprogram/A_star/A_star.hpp:94-106 | consecutive nodes of a reconstructed path are joined by an edge |
| MetaAStar.AStarImpl | metaprogram/A_star/A_star.hpp:109-190 | a returned path ends at the goal, is a walk and stays in the graph; the instantiation is ill-formed only for a graph without nodes; an empty discovered pack gives `null_type`; when the current node is the goal the result is the path rebuilt from it, or out of fuel |
| MetaAStar.AStar | metaprogram/A_star/A_star.hpp:13-28 | a returned path ends at the goal and is a walk in the graph; the instantiation is ill-formed iff the graph has no nodes, because the fold over an empty f-score pack has no `::node` |
| MetaAStar.InitialCurrentIsStart | metaprogram/A_star/A_star.hpp:20-27 | with a finite heuristic, the first node expanded is the start node |
| MetaAStar.SearchFromGoal | metaprogram/A_star/A_star.hpp:123-126 | a search from the goal to itself returns the one-node path |
| TypeString.DecodeRuns | metaprogram/type_string.hpp:24-26 | each digit run becomes the character `stoull` then `cast<char>` give; the result fails exactly when some run exceeds `unsigned long long` |
| TypeString.ParseStringArg | metaprogram/type_string.hpp:9-29 | the result fails iff some digit run other than the last is out of range, and otherwise has one character per run except the last, each the cast of its run's value |
| TypeString.LastRunNeverConverted | metaprogram/type_string.hpp:24-28 | one digit run followed by a comma parses to the empty string: `drop_last` removes the run before it is converted |
| TypeString.OutOfRangeLastRunAccepted | metaprogram/type_string.hpp:24-28 | a last run above the range of `unsigned long long` does not make parsing fail, since `stoull` never sees it |
| TypeString.RunsAreDigitRuns | metaprogram/type_string.hpp:13-22 | every collected number string is a non-empty run of digits |
| TypeString.RunsFromDigits | metaprogram/type_string.hpp:13-15 | digits are appended to the current number string |
| TypeString.TrailingDigitsIgnored | metaprogram/type_string.hpp:13-22 | a run of digits at the very end of the source is never pushed, because only a non-digit flushes the current number |
| TypeString.ParseEncodedArg | metaprogram/type_string.hpp:9-29 | parsing the `{{c0, c1, ..., 0}}` encoding of a string with 8-bit character codes gives back the string |
| TypeString.Print | metaprogram/type_string.hpp:77-81 | `print` appends its text only below `max_indent` and changes no counter |
| TypeString.PlainTextCopied | metaprogram/type_string.hpp:117 | text without brackets, braces or commas is copied unchanged below `max_indent` and dropped above it |
| TypeString.StepSilentAtCap | metaprogram/type_string.hpp:84-118 | at or beyond `max_indent` no character adds output |
| TypeString.CommaBreaksLine | metaprogram/type_string.hpp:106-115 | outside braces a comma ends the line, re-indents, and swallows the next character |
| TypeString.CommaInBracesKeepsLine | metaprogram/type_string.hpp:106-115 | inside braces a comma is printed, the line continues, and the next character is still skipped |
| TypeString.BracketIndents | metaprogram/type_string.hpp:90-103 | a bracketed plain argument below the cap is printed on its own line one level deeper, then the closing bracket on a new line at the old level |
| TypeString.BracketElidedAtCap | metaprogram/type_string.hpp:90-103 | a bracket that reaches `max_indent` prints `< ... >` once and suppresses its contents and closing bracket |
| TypeString.Step | metaprogram/type_string.hpp:84-118 | one character changes the indent level only if it is `<` or `>`, and the brace count only if it is `{` or `}` |
| TypeString.FormatOnlyAppends | metaprogram/type_string.hpp:84-118 | the formatter only appends to its output and never rewrites what it has printed |
| TypeString.Format | metaprogram/type_string.hpp:73-121 | text without brackets, braces or commas comes out unchanged when `max_indent` is positive, and empty when it is zero |
| TypeString.FormatTail | metaprogram/type_string.hpp:84-118 | the formatter processes plain text and then continues from the resulting state |
| TypeString.IndentRequest | metaprogram/type_string.hpp:90-115 | the indent string a step builds has the length `indent_level * indent_size` (on `size_t`) for the level the step leaves, and only `<`, `>` and `,` build one |
| TypeString.FormatCheckedFrom | metaprogram/type_string.hpp:84-118 | when no indent string exceeds `max_size()`, the loop with its exception reaches exactly the state of the exception-free loop |
| TypeString.FormatChecked | metaprogram/type_string.hpp:73-121 | when `pretty_type_string`'s loop does not throw `length_error`, its text is the formatted text |
| TypeString.CloseAtTopLevelThrows | metaprogram/type_string.hpp:99-102 | a `>` with no bracket open wraps the level to SIZE_MAX, asks for 2^64 - indent_size spaces, and so any text starting with it throws `length_error` |
| TypeString.PlainNeverThrows | metaprogram/type_string.hpp:117 | plain text never throws, and the checked loop continues from the state it leaves |
| TypeString.BracketFitsNeverThrows | metaprogram/type_string.hpp:90-103 | a bracketed plain argument whose indents fit in `max_size()` is formatted without an exception, with the exception-free result |
| ConstexprMath.PowerHalve | constexpr_math.hpp:33-37 | one loop round keeps the invariant: value^exp equals the low bit's factor times (value squared)^(exp/2) |
| ConstexprMath.ConstexprPow | constexpr_math.hpp:29-41 | the square-and-multiply loop returns value raised to exp, and 1 for exp 0 |
| SfFunctional.Produce | semifunctional/functional.hpp:29-31 | `produce` yields the given value for every argument |
| SfFunctional.Pick | semifunctional/functional.hpp:36-40 | `pick` yields the first function where the condition holds and the second elsewhere |
| SfFunctional.PickSameBranches | semifunctional/functional.hpp:36-40 | with the same function in both branches, `pick` is that function |
| SfFunctional.PickNegated | semifunctional/functional.hpp:36-40 | negating the condition and swapping the branches gives the same function |
| SfFunctional.Equal | semifunctional/functional.hpp:44-46 | `equal(v)` holds exactly for v |
| SfFunctional.NonEqualAsWritten | semifunctional/functional.hpp:57-59 | the written `non_equal(v)` holds exactly for v |
| SfFunctional.NonEqualAsWrittenIsEqual | semifunctional/functional.hpp:57-59 | the written `non_equal(v)` accepts v itself and agrees with `equal(v)` everywhere |
| SfFunctional.NonEqual | semifunctional/functional.hpp:57-59 | corrected `non_equal(v)` holds exactly for values other than v |
| SfFunctional.NonEqualComplementsEqual | semifunctional/functional.hpp:44-59 | corrected `non_equal(v)` is the complement of `equal(v)` |
| SfFunctional.GetOther | semifunctional/functional.hpp:50-54 | `get_other` returns field b when field a equals the value, and field a otherwise |
| SfFunctional.GetOtherEnd | semifunctional/functional.hpp:50-54 | given either end of an edge with distinct ends, `get_other` returns the other end |
| SfFunctional.Conjunction | semifunctional/functional.hpp:62-64 | the conjunction holds iff both predicates hold |
| SfFunctional.Disjunction | semifunctional/functional.hpp:67-69 | the disjunction holds iff either predicate holds |
| SfFunctional.ConjunctionDual | semifunctional/functional.hpp:62-69 | De Morgan: a failed conjunction is the disjunction of the negations |
| SfFunctional.CreateFilledArray | semifunctional/functional.hpp:73-78 | the array has N elements, element i being `pred(i)` |
| Maybe.Map | semifunctional/monad/maybe.hpp:21-29 | `opt >> fn` is empty for an empty optional and `fn` of the value otherwise |
| Maybe.Else | semifunctional/monad/maybe.hpp:41-56 | `Else{v}` returns the held value, or v when empty |
| Maybe.MapIdentity | semifunctional/monad/maybe.hpp:21-29 | mapping the identity changes nothing |
| Maybe.MapCompose | semifunctional/monad/maybe.hpp:21-29 | mapping f then g equals mapping their composition |
| Maybe.MapThenElse | semifunctional/monad/maybe.hpp:21-56 | the chain `opt >> fn >> Else{v}` gives `fn` of the value, or v for an empty optional |
| StaticVector.Contents | semifunctional/container/static_vector.hpp:26-30 | iteration visits `size` elements, the filled slots in order |
| StaticVector.Empty | semifunctional/container/static_vector.hpp:16 | a default-built vector has the given capacity and no elements |
| StaticVector.PushBack | semifunctional/container/static_vector.hpp:42-51 | `push_back` appends the element, keeps the capacity and returns the stored element |
| StaticVector.PopBack | semifunctional/container/static_vector.hpp:53-55 | `pop_back` drops the last element and keeps the capacity |
| StaticVector.Size | semifunctional/container/static_vector.hpp:57-59 | `size` is the number of elements iteration visits |
| StaticVector.IsEmpty | semifunctional/container/static_vector.hpp:61-63 | `empty` holds iff there are no elements |
| StaticVector.IsFull | semifunctional/container/static_vector.hpp:65-67 | `full` holds iff the element count equals the capacity, and iff every slot is filled |
| StaticVector.At | semifunctional/container/static_vector.hpp:69-76 | `operator[]` below the size returns that element |
| StaticVector.FromSeq | semifunctional/container/static_vector.hpp:18-23 | the variadic constructor holds exactly the given elements in order |
| StaticVector.Assign | semifunctional/container/static_vector.hpp:69-72 | writing through `operator[]` replaces exactly that element |
| StaticVector.PopBackAfterPushBack | semifunctional/container/static_vector.hpp:42-55 | `pop_back` undoes `push_back`, down to the storage |
| StaticVector.PushBackAfterPopBack | semifunctional/container/static_vector.hpp:42-55 | pushing the removed last element back undoes `pop_back`, down to the storage |
| OrderedList.Iterate | semifunctional/container/static_ordered_list.hpp:61-82 | iteration from `head` along `next` visits the stored nodes in list order |
| OrderedList.FirstNotLess | semifunctional/container/static_ordered_list.hpp:24-25 | the insertion search stops at the first node whose key is not below the new key |
| OrderedList.FirstIndexOf | semifunctional/container/static_ordered_list.hpp:38-40 | the search for the old key stops at its first occurrence |
| OrderedList.Empty | semifunctional/container/static_ordered_list.hpp:91-94 | a new list is empty, sorted and has the given capacity |
| OrderedList.Insert | semifunctional/container/static_ordered_list.hpp:20-33 | `insert` stores the node at the end of storage and links it in before the first node with a key not below it; a sorted list stays sorted |
| OrderedList.SkipIsRelink | semifunctional/container/static_ordered_list.hpp:47-54 | skipping the relink when `elem->next == *p` gives the same list the relink would give |
| OrderedList.RelinkInPlace | semifunctional/container/static_ordered_list.hpp:47-54 | relinking a node to its own position leaves the list unchanged |
| OrderedList.Update | semifunctional/container/static_ordered_list.hpp:36-58 | `update` rekeys the first node with the old key, keeps its value and the other nodes, moves only it within the list, and keeps a sorted list sorted |
| OrderedList.ReinsertPosition | semifunctional/container/static_ordered_list.hpp:43-44 | in a sorted list, the position found before unlinking equals the position in the list without the node, shifted past it |
| OrderedList.UpdateIsReinsert | semifunctional/container/static_ordered_list.hpp:36-58 | on a sorted list `update` equals unlinking the node and inserting it again with the new key |
| OrderedList.At | semifunctional/container/static_ordered_list.hpp:85-89 | `operator[](i)` is the i-th node in list order |
| OrderedList.AtAscending | semifunctional/container/static_ordered_list.hpp:85-89 | in a sorted list, indexing is monotone in the key |
| SfGraph.AddEdge | semifunctional/graph.hpp:31-34 | one edge adds its second end when its first end is the node, then its first end when its second end is the node |
| SfGraph.AddEdges | semifunctional/graph.hpp:31-34 | the edge loop appends every incident edge's other end in edge order, keeping name and position |
| SfGraph.MakeGraph | semifunctional/graph.hpp:27-38 | `make_graph` keeps every node's name and position and appends its incident neighbours |
| SfGraph.IncidentIffJoined | semifunctional/graph.hpp:31-34 | j is appended to node i iff some edge joins i and j |
| SfGraph.IncidentSymmetric | semifunctional/graph.hpp:31-34 | j is appended to i iff i is appended to j |
| SfGraph.MakeGraphSymmetric | semifunctional/graph.hpp:27-38 | from neighbour-free nodes, `make_graph` builds an undirected graph whose neighbours are exactly the joined nodes |
| SfGraph.LoopCountsTwice | semifunctional/graph.hpp:32-33 | a self-loop adds the node to its own neighbours twice |
| Search.Less | semifunctional/A_star.hpp:106 | `<` on scores: only a finite score is below anything, finite is below infinity, and finite scores compare as numbers |
| Search.Plus | semifunctional/A_star.hpp:104 | a sum of scores is finite iff both terms are |
| Search.LessIsStrictTotalOrder | imperative/A_star.hpp:20-22 | the score order is irreflexive, transitive and total, as a `std::multiset` comparator must be |
| Search.PlusNotLess | imperative/A_star.hpp:64-67 | adding a non-negative cost never lowers a score |
| SfAStar.Indexer | semifunctional/A_star.hpp:25-34 | the index of a node is its position, or the node count when it is not found |
| SfAStar.Init | semifunctional/A_star.hpp:133-142 | the initial state satisfies the invariant, discovers only the start, has no came-from links and gives the start f = h(from, to) |
| SfAStar.Select | semifunctional/A_star.hpp:76-86 | the selected node is discovered, has the least f-score among discovered nodes, and is the first such |
| SfAStar.ReconstructPath | semifunctional/A_star.hpp:38-51 | a rebuilt path ends at the given node, starts at a node without a predecessor, follows a predecessor link at each step and has at most fuel + 1 nodes; a node without a predecessor gives the one-node path |
| SfAStar.ReconstructPathFailsOnlyOnLongChains | semifunctional/A_star.hpp:38-51 | rebuilding a path gives up only when every predecessor chain to the node has more than fuel + 1 nodes |
| SfAStar.ReconstructPathIsWalk | semifunctional/A_star.hpp:38-51 | the reconstructed path runs from the start to the given node through graph neighbours |
| SfAStar.Relax | semifunctional/A_star.hpp:103-111 | only the neighbour's entries change; they change exactly when the tentative score is below its g-score, and then the neighbour is opened, linked to the expanded node and given f = g + h |
| SfAStar.RelaxKeepsInv | semifunctional/A_star.hpp:99-111 | relaxing one neighbour keeps the invariant: every came-from link points to a neighbour with a finite g-score |
| SfAStar.RelaxAll | semifunctional/A_star.hpp:99-112 | relaxing every neighbour of the selected node keeps the invariant |
| SfAStar.CloseKeepsInv | semifunctional/A_star.hpp:95 | marking the selected node undiscovered keeps the invariant |
| SfAStar.AStarImpl | semifunctional/A_star.hpp:54-122 | a returned path is a path from start to goal in the graph; with nothing open the result is no path; when the goal is the node selected, the result is the predecessor chain from the start to the goal, or out of fuel only when every such chain is longer than the node count; with only the goal open and unlinked, the result is the one-node path |
| SfAStar.AStar | semifunctional/A_star.hpp:125-152 | a returned path is a path from start to goal through neighbours; a search from a node to itself returns that node |
| ImpGraph.AddNode | imperative/graph.hpp:27-33 | `add_node` appends a neighbour-free node, returns its index and leaves the others unchanged |
| ImpGraph.AddEdge | imperative/graph.hpp:36-39 | `add_edge` appends each end to the other's neighbours, and twice to a self-loop's node, leaving other nodes unchanged |
| ImpGraph.AddNodeKeeps | imperative/graph.hpp:27-33 | adding a node keeps neighbour references in range and symmetric |
| ImpGraph.AddEdgeAppends | imperative/graph.hpp:36-39 | after `add_edge`, every node's neighbour list is its old list plus the entries that edge contributes to it |
| ImpGraph.AddEdgeKeepsClosed | imperative/graph.hpp:36-39 | adding an edge keeps every neighbour reference in range |
| ImpGraph.AddEdgeKeepsSymmetric | imperative/graph.hpp:36-39 | adding an edge keeps the neighbour relation symmetric, counting multiplicities |
| ImpAStar.UpperBound | imperative/A_star.hpp:48 | the multiset insert position is after every entry with an f-score not above the new one and before the first higher one |
| ImpAStar.Insert | imperative/A_star.hpp:73 | `discovered.insert` adds exactly one copy of the node and keeps the open set ordered by f-score |
| ImpAStar.FirstIsLowest | imperative/A_star.hpp:59 | the node at `begin()` of an ordered open set has the least f-score |
| ImpAStar.EraseAsWritten | imperative/A_star.hpp:71 | the written `discovered.erase(neighbour)` keeps exactly the open nodes whose f-score differs from the neighbour's |
| ImpAStar.EraseAsWrittenLosesEqualScores | imperative/A_star.hpp:71 | a concrete open set where erasing one node by key also drops another node with the same f-score, which the corrected erase keeps |
| ImpAStar.EraseAsWrittenDropsX | imperative/A_star.hpp:71 | the written erase removes the neighbour itself and keeps nothing that was not open |
| ImpAStar.EraseAsWrittenOrdered | imperative/A_star.hpp:71 | the written erase keeps the open set ordered by f-score |
| ImpAStar.EraseAsWrittenDistinct | imperative/A_star.hpp:71 | the written erase keeps the open set duplicate-free |
| ImpAStar.EraseAsWrittenWithinErase | imperative/A_star.hpp:71 | every node the written erase keeps, the corrected erase keeps too |
| ImpAStar.Erase | imperative/A_star.hpp:71 | the corrected erase removes every copy of the neighbour and keeps every other node as often as before |
| ImpAStar.EraseOrdered | imperative/A_star.hpp:71 | the corrected erase keeps the open set ordered |
| ImpAStar.EraseDistinct | imperative/A_star.hpp:71 | the corrected erase keeps the open set duplicate-free |
| ImpAStar.Init | imperative/A_star.hpp:51-55 | the initial state satisfies the invariant, opens only the start and gives it f = h(from, to) |
| ImpAStar.Relax | imperative/A_star.hpp:63-74 | as written: only the neighbour's scores and link change; they change exactly when the tentative g-score is lower, and then the g-score becomes the tentative score, the f-score the tentative score plus h(neighbour, to), and the neighbour is open and linked to the current node; an open node other than the neighbour stays open exactly when its f-score differs from the neighbour's old one; no node other than the neighbour joins the open set; with no improvement the state is unchanged |
| ImpAStar.RelaxCorrected | imperative/A_star.hpp:63-74 | with the corrected erase, no open node leaves the open set |
| ImpAStar.RelaxWithinCorrected | imperative/A_star.hpp:63-74 | the written and corrected relaxations agree on scores and links, and the written open set holds no node the corrected one lacks |
| ImpAStar.RelaxKeepsInv | imperative/A_star.hpp:63-74 | relaxing one neighbour as written keeps the invariant: came-from links join graph neighbours with finite g-scores, and the open set stays ordered and in range |
| ImpAStar.RelaxCorrectedKeepsInv | imperative/A_star.hpp:63-74 | the corrected relaxation keeps the same invariant |
| ImpAStar.RelaxKeepsDistinct | imperative/A_star.hpp:67-73 | erase-then-insert as written keeps each node at most once in the open set |
| ImpAStar.RelaxCorrectedKeepsDistinct | imperative/A_star.hpp:67-73 | the corrected erase-then-insert does so too |
| ImpAStar.RelaxAll | imperative/A_star.hpp:63-75 | relaxing every neighbour of the current node keeps the invariant |
| ImpAStar.ReconstructPath | imperative/A_star.hpp:28-39 | the path ends at the given node, starts at a node with no predecessor, and each node's came-from entry is the node before it; whenever such a chain exists the walk returns it |
| ImpAStar.ChainNoRepeat | imperative/A_star.hpp:28-39 | a predecessor chain never visits a node twice |
| ImpAStar.ChainShort | imperative/A_star.hpp:28-39 | a predecessor chain has at most one node more than `came_from` has entries |
| ImpAStar.ChainUnique | imperative/A_star.hpp:28-39 | the predecessor links allow at most one chain back from a node, so the reconstructed path is the only such path |
| ImpAStar.ReconstructedIsPath | imperative/A_star.hpp:28-39 | a reconstructed path in a reachable state leads from start to goal through neighbours |
| ImpAStar.MainLoop | imperative/A_star.hpp:58-79 | a returned path leads from start to goal through neighbours; an empty open set gives no path; when the goal is first in the open set the result is its predecessor chain, out of fuel only when no such chain exists, and the one-node path when it has no predecessor |
| ImpAStar.AStar | imperative/A_star.hpp:42-80 | a returned path leads from start to goal through neighbours; a search from a node to itself returns that node |

## Left out

- Floating point: `float` scores, `infinity`, `std::sqrt` and the Euclidean heuristic and cost functions (`heuristic.hpp`, `cost_function.hpp`, `distance_based_cost`). Scores are natural numbers or infinity in `Search.Score`, and the heuristic and distance functions are parameters.
- `newtons_method` and `constexpr_sqrt` in `constexpr_math.hpp`: floating-point iterations.
- `ConstexprMath.ConstexprPow`: computes over unbounded integers. The overflow of a fixed-width `T` is not modelled because `T` is generic.
- `type_string<T>` and the `ctre` regex search in `pretty_type_string`: both depend on compiler intrinsics and a foreign library. The formatter is modelled from the string it receives.
- TypeString.Step: gives the state after one character when no exception is raised. The `std::length_error` that building an over-long indent string raises (a `>` with no bracket open, and any later `,`) is modelled by `TypeString.StepThrows` and `TypeString.FormatChecked`. `std::string::max_size()` is left to the library by the C++ standard, so it is a parameter.
- `TypeString.ParseStringArg`: `std::string`'s `length_error` and the exception `stoull` throws on a run it cannot parse are represented by the `None` result only.
- `pack::expand_inside`, `transform`, `append_pack`/`prepend_pack` and `meta::cast`, `map_trait`, `value_as_type`, `many_to_one_wrapper`: these only re-wrap types. `append_pack` is `Pack.Append` on the pack's elements.
- `sf::convert` and the `fwd`/`lam`/`generic`/`compare_as` macros: plumbing with no logic of its own.
- `semifunctional/monad/either.hpp` and the common headers: not part of the search.
- The `main.cpp` drivers and `define_graph.hpp`: I/O and sample data.
- Pointer identity: `sf::Node::operator==` compares addresses, and `imp::node*` keys the hash maps. Nodes are identified by their index instead, and `unique_ptr` ownership is not modelled.
- Termination of the searches: each run-time search takes a `fuel` bound and answers `OutOfFuel` when it runs out. Nothing proves that a given bound suffices. `SfAStar.ReconstructPath` bounds its walk by the node count.
- `MetaAStar.AStarImpl`: the compile-time recursion is bounded by `fuel` in the same way.
- `Flattener`: the `MakeEdge` template parameter is fixed to its default, the `edge` of flattened_graph.hpp, which is the only one the program uses (metaprogram/main.cpp:23). A custom edge type that maps distinct node pairs to the same type would change what `unique` removes, and its endpoints need not be the pair, so `Flattener.EdgesWithinNodes` would not carry over.
- `OrderedList`: keys are `int` compared with `<`. A custom `Compare` is not modelled.
- SfAStar.AStar: only soundness is proved (a returned path is a real path from start to goal), and optimality is not. The outcome when nothing is open and when the goal is selected is stated on `SfAStar.AStarImpl`, which it calls on the initial state.
- ImpAStar.AStar: the same. Its outcome rules are stated on `ImpAStar.MainLoop`.
- MetaAStar.AStar: the same. Its outcome rules are stated on `MetaAStar.AStarImpl`.
- ImpAStar.MainLoop: when the goal comes out first, the result is stated through the predecessor chain (`ImpAStar.Chain`, unique by `ImpAStar.ChainUnique`) rather than by naming `ImpAStar.ReconstructPath`, because that is a method. `OutOfFuel` there means the links loop and no chain exists; the source's `reconstruct_path` would not return in that case.
- MetaAStar.Improved: the source does not compile for a node without a g-score entry. The model answers false for such a node. Every node the search asks about has an entry (`MetaAStar.ScoreLookupsNeverChange`).
- Pack.Sort: requires an operation that returns one of its two arguments (`Picks`). For any other operation `remove_first_type` may remove nothing from the pack, and the source's recursion never ends, so the model does not cover it.
- `OrderedList`: `insert` into a full list (`storage.size < Alloc()`), `update` of a key that is not in the list (the source dereferences a null link) and `operator[]` past the end are undefined behaviour in the source (a write past the storage array, a null dereference), and an error when evaluated at compile time. They are preconditions of `OrderedList.Insert`, `OrderedList.Update` and `OrderedList.At`.
- `StaticVector`: out-of-range `push_back` and `operator[]` are compile-time errors in the source and are preconditions here.

## Findings

| source | as written | input that shows it | evidently intended | confidence | as-written member | corrected member |
|---|---|---|---|---|---|---|
| metaprogram/pack/pack.hpp:74-91 | `contains_any_impl` and `contains_all_impl` recurse with `contains_any<tail>()` / `contains_all<tail>()`, calling a `bool` variable template as a function, which is ill-formed once that branch is instantiated | `contains_any` of pack `<A>` against `<B, A>`; `contains_all` of `<A, B>` against `<A, B>` | recurse on the tail and return its answer | high, not executed | Pack.ContainsAnyAsWritten, Pack.ContainsAllAsWritten, Pack.ContainsRecursionIllFormed | Pack.ContainsAny, Pack.ContainsAll |
| metaprogram/pack/pack.hpp:151 | `remove_at<N>` keeps `pop_back<size - N>`; for N > size the unsigned `size - N` wraps to a huge count and the kept prefix is empty | `remove_at<2>` on a one-element pack gives the empty pack | remove element N, or nothing past the end | medium, not executed | Pack.RemoveAtAsWritten, Pack.RemoveAtPastEndEmpties | Pack.RemoveAt |
| semifunctional/functional.hpp:57-59 | `non_equal(value)` tests `other == value`, the same as `equal` | `non_equal(3)(3)` is true | `other != value` | high, not executed | SfFunctional.NonEqualAsWritten, SfFunctional.NonEqualAsWrittenIsEqual | SfFunctional.NonEqual, SfFunctional.NonEqualComplementsEqual |
| imperative/A_star.hpp:71 | `discovered.erase(neighbour)` on a `std::multiset` ordered by f-score erases every node whose f-score equals the neighbour's, not just the neighbour | open set {1, 2} with f(1) = f(2) = 5: erasing 1 also drops 2, which leaves the open set and is expanded later only if another relaxation inserts it again | erase only the neighbour's own entry | high, not executed | ImpAStar.EraseAsWritten, ImpAStar.EraseAsWrittenLosesEqualScores, ImpAStar.Relax, ImpAStar.RelaxWithinCorrected | ImpAStar.Erase, ImpAStar.EraseOrdered, ImpAStar.RelaxCorrected, ImpAStar.RelaxCorrectedKeepsInv |
