# Apriori itemset miner and C4.5 tree skeleton, in Dafny

This project models two programs.

The first is the Apriori frequent-itemset miner in `Apriori/src/Apriori.java`. A
transaction is a strictly increasing list of integer items. The constructor
counts how often each item occurs, keeps the items that reach the support
threshold as the level-1 itemsets, and computes `maxSize`. `generateFIS` then
works level by level. At each level `buildNewCandidates` merges pairs of the
previous level's frequent itemsets with `mergeTwoSet` and prunes by pair count.
`validateCandidates` then scans the transactions that are not yet skipped. It
filters each one to the candidates' items, enumerates its k-subsets with
`combinationUtil`, counts the candidate hits, and marks lines without a hit as
unwanted. `writeToOutput` sorts the result keys with a lexicographic comparator
and prints one line per itemset.

The second is the discrete skeleton of the C4.5 decision-tree builder in
`Bayes/src/C45Classifier.java`. It covers:

- the homogeneity test;
- partitioning a node's rows by the value of one column;
- removing the split attribute from the children;
- the majority vote;
- the build loop;
- classification with `test`.

The gain ratio is a parameter, the `Score`. Every property is proved for every
score.

Files and modules:

- `collections.dfy` (`Collections`): Option, duplicate-freeness, subsequences, and the hash-map counting idiom both programs use (`Counter`, `CountAll`, `KeepAtLeast`).
- `itemsets.dfy` (`Itemsets`): canonical itemsets, containment, support, and live support, which is support outside the skipped lines.
- `merge.dfy` (`Merge`): `mergeTwoSet`.
- `candidates.dfy` (`Candidates`): `buildNewCandidates` and candidate completeness.
- `subsets.dfy` (`Subsets`): `combinationUtil` and `subsetOfSizeK`.
- `validate.dfy` (`Validate`): `validateCandidates`.
- `levels.dfy` (`Levels`): the constructor's counting, `maxSize`, the level loop of `generateFIS`, and the end-to-end theorems.
- `output.dfy` (`Output`): the comparator, the key sort, and the line format, with a parser proving that the format reads back.
- `decision_tree.dfy` (`DecisionTree`): the C4.5 skeleton.

The model follows the miner's code at these points:

- The prune threshold is k, lowered to 1 when k = 2 (lines 155 and 178).
- Lines already marked unwanted are passed over before filtering (line 232).
- There is one validation strategy: filter each line to the candidates' items, then enumerate its subsets.
- The level loop is bounded by `maxSize` (line 291).
- A threshold of 0 or below is accepted, and the model runs it as the code does. The end-to-end theorems assume a threshold of at least 1. Below that, every itemset counts as frequent, so the frequent set is infinite. The source reports only the candidates it builds from items it has seen. `validateCandidates` starts each count at 0 (lines 213-216) and keeps every candidate whose count reaches the threshold (line 274), so some are reported with count 0. `Levels.ZeroThresholdRecordsAbsentPair` shows one: {1,3} from [[1,2],[3,4]].

The tree builder is modelled as written (`DecisionTree.BuildAsWritten`). It is also modelled corrected, where it throws on a node whose remaining attributes are all constant (see Findings). The corrected `DecisionTree.Build` is the one the classifier theorems are about.

## Model

| member | source | states |
|---|---|---|
| Collections.CountAll | Apriori/src/Apriori.java:60-64 | the counting idiom yields, for every value seen, exactly its number of occurrences, and keys only for values seen |
| Collections.KeepAtLeast | Apriori/src/Apriori.java:179-184 | exactly the keys whose count reaches the threshold are kept; a duplicate-free key list stays duplicate-free |
| Merge.Step | Apriori/src/Apriori.java:115-133 | one loop pass appends exactly one item and advances at least one read position |
| Merge.MergeLoop | Apriori/src/Apriori.java:113-134 | the loop ends with both sets read or the candidate at its size cap, and never exceeds the cap |
| Merge.LoopGathered | Apriori/src/Apriori.java:113-134 | the candidate holds exactly the items read so far from either set |
| Merge.LoopOrdered | Apriori/src/Apriori.java:113-134 | over increasing inputs the candidate stays increasing and below every unread item |
| Merge.TooManyItems | Apriori/src/Apriori.java:136-141 | a merge that stops with both sets unread (null) met more distinct items than the cap |
| Merge.MergeTwoSet | Apriori/src/Apriori.java:105-142 | a non-null result has at most size+1 items, contains all of the first or all of the second set, uses only their items, and is increasing when both inputs are; null on increasing inputs means the union exceeds size+1 |
| Merge.MergeOneApart | Apriori/src/Apriori.java:105-142 | two equal-size sets that differ in exactly one item merge to exactly their sorted union |
| Merge.MergeSize | Apriori/src/Apriori.java:105-142 | two different canonical sets of equal size merge, if at all, to a list one item longer |
| Merge.AcceptsDisjointPair | Apriori/src/Apriori.java:136-139 | [1,2] and [3,4] merge to [1,2,3]: a result is accepted once the first set is read to its end |
| Candidates.RowMerges | Apriori/src/Apriori.java:159-174 | at most one list per later set, and each is the merge of `L[i]` with some later `L[q]` |
| Candidates.PairMerges | Apriori/src/Apriori.java:158-175 | every merged list is the merge of some pair p < q |
| Candidates.PruneThreshold | Apriori/src/Apriori.java:155-178 | for k >= 2 the threshold is at least 1 and at most C(k, 2), the number of pairs of (k-1)-subsets of a k-set |
| Candidates.MergesCounted | Apriori/src/Apriori.java:158-175 | the tally of a merged list is the number of pairs i < j whose merge yields it |
| Candidates.KeptIffEnoughPairs | Apriori/src/Apriori.java:177-184 | an entry survives the prune iff its pair count reaches k, or 1 when k = 2 |
| Candidates.BuildNewCandidates | Apriori/src/Apriori.java:151-187 | the result is duplicate-free and holds exactly the merged lists whose pair count reaches the prune threshold |
| Candidates.CandidateShape | Apriori/src/Apriori.java:151-187 | from distinct canonical (k-1)-sets only canonical k-sets are built |
| Candidates.MergeOfWithouts | Apriori/src/Apriori.java:105-142 | any two different (k-1)-subsets of a canonical k-set merge to the set itself |
| Candidates.EnoughPairs | Apriori/src/Apriori.java:158-183 | when every (k-1)-subset of s is listed, at least the prune threshold of pairs merge to s, because C(k,2) >= k for k >= 3 |
| Candidates.CandidateCompleteness | Apriori/src/Apriori.java:158-183 | a canonical k-set whose (k-1)-subsets are all listed is among the candidates |
| Subsets.Combinations | Apriori/src/Apriori.java:189-201 | every list appended has exactly k items and starts with the partial subset `temp` |
| Subsets.SubsetsOfSize | Apriori/src/Apriori.java:203-208 | every subset has k items, and there are C(n, k) of them |
| Subsets.CombinationsMembers | Apriori/src/Apriori.java:189-201 | the recursion from a partial subset yields exactly its size-k extensions by a subsequence of the rest |
| Subsets.SubsetsMembers | Apriori/src/Apriori.java:203-208 | subsetOfSizeK yields exactly the order-preserving length-k subsequences |
| Subsets.SubsetsOfIncreasing | Apriori/src/Apriori.java:203-208 | over a sorted transaction it yields exactly the canonical k-itemsets the transaction contains |
| Subsets.CombinationsCount | Apriori/src/Apriori.java:189-201 | the recursion yields C(n - index, k - \|temp\|) lists |
| Subsets.SubsetsTooLarge | Apriori/src/Apriori.java:194-195 | k > n yields nothing |
| Subsets.IncludedBeforeExcluded | Apriori/src/Apriori.java:197-200 | every subset that includes data[index] is lexicographically below every subset that excludes it |
| Subsets.CombinationsSorted | Apriori/src/Apriori.java:197-200 | over a sorted transaction the subsets come out in strictly increasing lexicographic order |
| Subsets.SubsetsDistinct | Apriori/src/Apriori.java:203-208 | over a sorted transaction no subset is produced twice |
| Subsets.SubsetMultiplicity | Apriori/src/Apriori.java:203-208 | a list occurs once among the k-subsets if it is a contained canonical k-itemset, otherwise never |
| Validate.Dict | Apriori/src/Apriori.java:220-223 | the dictionary holds exactly the items of the candidates |
| Validate.KeepItems | Apriori/src/Apriori.java:238-245 | the filtered transaction holds exactly the line's items that are in the dictionary, and stays increasing |
| Validate.FilterKeepsCandidates | Apriori/src/Apriori.java:238-245 | filtering loses nothing: a candidate is in the line iff it is in the filtered line |
| Validate.FilteredLongEnough | Apriori/src/Apriori.java:247-251 | a line containing a candidate is not dropped as too short |
| Validate.TallySubsets | Apriori/src/Apriori.java:255-261 | each key's count grows by the number of times it is among the subsets, no key is added, and `empty` is false iff some subset is a key |
| Validate.HitIffContained | Apriori/src/Apriori.java:254-264 | a line hits a candidate iff it contains a canonical k-candidate |
| Validate.Zeros | Apriori/src/Apriori.java:213-216 | every candidate starts at count 0 |
| Validate.ScanLine | Apriori/src/Apriori.java:229-266 | one line keeps the key set and adds at most that line to the skip set |
| Validate.ScanLines | Apriori/src/Apriori.java:229-266 | the skip set only grows, and only by lines scanned |
| Validate.ScanLineExact | Apriori/src/Apriori.java:232-265 | a line not skipped adds one to exactly the canonical k-candidates it contains, and is recorded as unwanted iff it is long enough yet contains none |
| Validate.ScanExact | Apriori/src/Apriori.java:229-266 | after the scan each count is the candidate's support outside the skipped lines, and the skip set has grown by exactly the dropped lines |
| Validate.Record | Apriori/src/Apriori.java:272-280 | mItemSet gains exactly the kept keys with their counts; other entries are unchanged |
| Validate.FrequentExactly | Apriori/src/Apriori.java:272-280 | the kept candidates are exactly those whose count reaches the threshold, each once |
| Validate.ValidateCandidates | Apriori/src/Apriori.java:210-283 | returns exactly the candidates whose live support reaches the threshold, records exactly them in mItemSet with that count, leaves other entries unchanged, and adds exactly the dropped lines to the skip set |
| Levels.Occurrences | Apriori/src/Apriori.java:57-64 | exactly the items read on some line are counted, and over sorted transactions an item's count is its support |
| Levels.OccurrencesAreSupport | Apriori/src/Apriori.java:57-64 | over sorted transactions an item's occurrence count is its support |
| Levels.OneItemSets | Apriori/src/Apriori.java:80-90 | level 1 holds, once each, exactly the one-item lists whose occurrence count reaches the threshold |
| Levels.OneItemCounts | Apriori/src/Apriori.java:82-90 | mItemSet receives exactly those lists with their occurrence counts |
| Levels.OneItemFrequent | Apriori/src/Apriori.java:80-90 | level 1 is exactly the frequent 1-itemsets, each stored with its support |
| Levels.LargestFrequent | Apriori/src/Apriori.java:92-96 | the fold returns the largest length whose count reaches the threshold, or its start value |
| Levels.MaxSize | Apriori/src/Apriori.java:92-96 | maxSize is the largest length l such that at least threshold transactions have length exactly l, or 0 |
| Levels.PrefixFrequent | Apriori/src/Apriori.java:144-147 | every prefix of a frequent itemset is frequent |
| Levels.WithoutFrequent | Apriori/src/Apriori.java:144-147 | every (k-1)-subset of a frequent k-itemset is frequent |
| Levels.FrequentAreCandidates | Apriori/src/Apriori.java:291-292 | every frequent k-itemset is among the candidates built from the frequent (k-1)-itemsets |
| Levels.CandidatesCanonical | Apriori/src/Apriori.java:291-292 | every candidate is a canonical k-itemset |
| Levels.LiveIsSupport | Apriori/src/Apriori.java:232-236 | skipping lines never hides a supporter of a large enough frequent itemset |
| Levels.StepFrequent | Apriori/src/Apriori.java:292-296 | one level returns exactly the frequent k-itemsets |
| Levels.StepRecorded | Apriori/src/Apriori.java:292-296 | after one level mItemSet holds exactly the frequent itemsets of sizes 1..k with their supports |
| Levels.StepSkip | Apriori/src/Apriori.java:262-264 | after one level no skipped line contains a frequent itemset of size k or more |
| Levels.Levels | Apriori/src/Apriori.java:291-301 | the level loop only adds entries to mItemSet and lines to the skip set, and cannot throw once the current level is non-empty |
| Levels.LevelsCorrect | Apriori/src/Apriori.java:291-301 | the loop throws iff it starts on an empty list below the bound; otherwise it records exactly the frequent itemsets up to the bound, with their supports |
| Levels.LevelOneInv | Apriori/src/Apriori.java:80-90 | the constructor establishes the level-2 invariant |
| Levels.GenerateAsWritten | Apriori/src/Apriori.java:288-302 | for every threshold, generateFIS throws iff level 1 is empty and maxSize >= 2; otherwise the level-1 entries stay recorded |
| Levels.Generate | Apriori/src/Apriori.java:288-302 | the corrected driver never throws and keeps the level-1 entries |
| Levels.GenerateAsWrittenResult | Apriori/src/Apriori.java:288-302 | as written, generateFIS throws iff no item is frequent and maxSize >= 2; otherwise it records exactly the frequent itemsets of size 1 or of size at most maxSize |
| Levels.ZeroThresholdRecordsAbsentPair | Apriori/src/Apriori.java:210-283 | with threshold 0, [[1,2],[3,4]] gets {1,3} recorded with count 0, though neither transaction contains it |
| Levels.EmptyLevelOneThrows | Apriori/src/Apriori.java:288-292 | on [[1,2],[3,4]] with threshold 2 the driver as written throws, and the corrected one returns an empty table |
| Levels.MaxSizeMissesFrequentPair | Apriori/src/Apriori.java:92-96 | on [[1,2,3],[1,2,3,4]] with threshold 2 maxSize is 0, so {1,2}, with support 2, is never mined |
| Levels.GenerateComplete | Apriori/src/Apriori.java:288-302 | the corrected driver never throws and records exactly the frequent itemsets with their supports |
| Levels.CorrectedFindsPair | Apriori/src/Apriori.java:288-302 | the corrected driver mines {1,2} with count 2 from [[1,2,3],[1,2,3,4]] |
| Levels.FoundWhenFrequent | Apriori/src/Apriori.java:288-302 | every frequent itemset is recorded by the corrected driver with its support |
| Output.CompareFrom | Apriori/src/Apriori.java:320-338 | the comparator's loop from position i returns -1, 0 or 1 |
| Output.Compare | Apriori/src/Apriori.java:320-338 | the comparator returns -1, 0 or 1 exactly as the first list is lexicographically below, equal to or above the second |
| Output.CompareAntisymmetric | Apriori/src/Apriori.java:320-338 | compare(a, b) = -compare(b, a) |
| Output.CompareTransitive | Apriori/src/Apriori.java:320-338 | the comparator orders transitively |
| Output.PrefixFirst | Apriori/src/Apriori.java:333-337 | a proper prefix sorts first |
| Output.SortKeys | Apriori/src/Apriori.java:318-338 | sorting permutes the keys |
| Output.SortKeysSorted | Apriori/src/Apriori.java:320-338 | sorting distinct keys orders them strictly by the comparator |
| Output.SortedUnique | Apriori/src/Apriori.java:320-338 | two strictly sorted lists with the same keys are equal, so any correct sort gives the same report |
| Output.ReadShowInt | Apriori/src/Apriori.java:307 | the decimal form of an item reads back as the item |
| Output.ListToString | Apriori/src/Apriori.java:304-310 | empty exactly for no items; otherwise it ends in a space, and it holds only digits, minus signs and spaces, never the `(` that opens the count |
| Output.ReadListToString | Apriori/src/Apriori.java:304-310 | listTOString's output, every item followed by a space, reads back as the items |
| Output.FormatLine | Apriori/src/Apriori.java:343 | the line reads back as its itemset and count |
| Output.Report | Apriori/src/Apriori.java:317-344 | one line per key, each reading back as a key of the table with the count stored for it |
| Output.ReportContents | Apriori/src/Apriori.java:317-344 | when the keys are the table's keys, each once, every key has a line and the lines are in strictly ascending comparator order |
| DecisionTree.IsHomogeneous | Bayes/src/C45Classifier.java:87-95 | true iff every listed row has the first row's label, which is iff the rows show a single label |
| DecisionTree.HomogeneousOneLabel | Bayes/src/C45Classifier.java:87-95 | homogeneous iff the set of labels is the first row's label alone |
| DecisionTree.GetPartitions | Bayes/src/C45Classifier.java:267-280 | the keys are exactly the values of the column, and each list is the rows with that value, in order |
| DecisionTree.PartitionsCover | Bayes/src/C45Classifier.java:267-280 | every row is in the list under its own value |
| DecisionTree.PartitionsExclusive | Bayes/src/C45Classifier.java:267-280 | a list holds only the node's rows with that list's value, so no row is in two lists |
| DecisionTree.PartitionsOrdered | Bayes/src/C45Classifier.java:267-280 | every list is non-empty and keeps the original relative order |
| DecisionTree.SelectMultiplicity | Bayes/src/C45Classifier.java:270-278 | a row appears in its value's list as often as it is listed, and in no other list |
| DecisionTree.RemoveFirst | Bayes/src/C45Classifier.java:251-252 | removing the split attribute takes exactly one occurrence of it away |
| DecisionTree.RemoveFirstSplit | Bayes/src/C45Classifier.java:251-252 | `List.remove(Object)` drops exactly the first occurrence of the attribute: earlier entries keep their places, later ones move down by one, and a list without it is unchanged |
| DecisionTree.PartitionBasedOnFeature | Bayes/src/C45Classifier.java:246-260 | one child per value of the feature, holding that value's rows and the node's attributes with the first occurrence of the feature removed |
| DecisionTree.ChildrenFacts | Bayes/src/C45Classifier.java:246-260 | every child has rows, and one attribute fewer when the feature was an attribute |
| DecisionTree.ScanMax | Bayes/src/C45Classifier.java:55-76 | nothing is kept iff no entry has a weight; otherwise the kept entry has the greatest weight among weighted entries, and every earlier weighted entry is strictly lighter |
| DecisionTree.Majority | Bayes/src/C45Classifier.java:45-63 | the vote is a label of a node row, no label is carried by more rows, and every label earlier in iteration order is carried by fewer |
| DecisionTree.Ratios | Bayes/src/C45Classifier.java:187-203 | an attribute has a comparable ratio iff it is not constant on the node's rows; a constant one gives 0.0 / -0.0, which is NaN |
| DecisionTree.PickSplit | Bayes/src/C45Classifier.java:68-76 | the attribute stays -1 (None) iff every attribute is constant on the node's rows; otherwise it is the first attribute of greatest score among the non-constant ones |
| DecisionTree.Build | Bayes/src/C45Classifier.java:32-84 | a leaf decides a label of the node's rows; an inner node splits on a remaining attribute that is not constant on the node's rows, with one child per value |
| DecisionTree.BuildAsWritten | Bayes/src/C45Classifier.java:32-84 | the source's build throws (None) on a non-homogeneous node whose remaining attributes are all constant on its rows |
| DecisionTree.AsWrittenAgrees | Bayes/src/C45Classifier.java:32-84 | when the source's build does not throw, it yields the same tree as `Build` |
| DecisionTree.BuildShape | Bayes/src/C45Classifier.java:37-80 | a node is a leaf iff its rows are homogeneous or every remaining attribute is constant on them, which includes the case of none left; a homogeneous leaf decides the common label, and every leaf decides a majority label |
| DecisionTree.BuildSplit | Bayes/src/C45Classifier.java:65-80 | an inner node splits on the chosen attribute and each child is built from its value's rows with one attribute fewer |
| DecisionTree.BuildDepth | Bayes/src/C45Classifier.java:32-84 | the tree is no deeper than the node's attribute list is long |
| DecisionTree.TestTrainingRow | Bayes/src/C45Classifier.java:151-158 | classifying one of the node's rows always finds a child at each step and ends in a label of one of the node's rows |
| DecisionTree.TestConsistentRow | Bayes/src/C45Classifier.java:151-158 | a row that no other row with the same attribute values contradicts is classified with its own label |
| DecisionTree.TrainingRowsClassified | Bayes/src/C45Classifier.java:151-158 | every row of a node is classified by the node's tree |
| DecisionTree.Classifier | Bayes/src/C45Classifier.java:13-30 | the tree is at most width-1 deep and classifies every training row |
| DecisionTree.ClassifierAsWritten | Bayes/src/C45Classifier.java:13-85 | whenever the constructor does not throw, it builds the same tree as `Classifier` |
| DecisionTree.Test | Bayes/src/C45Classifier.java:151-158 | a leaf always answers, and every answer is the decision of one of the tree's leaves |
| DecisionTree.ClassifierFacts | Bayes/src/C45Classifier.java:13-85 | a training row is classified with its own label unless another row with the same values in columns 1 to width-1 has a different one |
| DecisionTree.ConstantAttributesThrow | Bayes/src/C45Classifier.java:68-78 | on rows [yes, a] and [no, a] the source's constructor throws, while the corrected tree is a single leaf that classifies both rows |

## Left out

- File and console I/O are not modelled. This covers reading the transaction file, the tab-separated training file and the test file, writing the output file, `main`, timing and printing. The database is an in-memory sequence. `validateCandidates` re-reads the same file at every level, so it is modelled over one fixed sequence.
- Parse failures are not modelled: `Integer.parseInt` errors and swallowed `IOException`s. The input is assumed well formed.
- `unitTesting` is not modelled. It asserts nothing.
- Java's `HashMap` iteration order is unspecified. The model fixes it to first-insertion order. Every property is stated so that it holds for any order, except the majority vote's tie-break, which is stated relative to the modelled order.
- `keys.sort` is Java's merge sort. The model sorts by insertion. `Output.SortedUnique` shows that on distinct keys every correct sort gives the same list.
- Gain ratio, entropy and `logOf2` (Bayes/src/C45Classifier.java:187-238) are floating-point. The model keeps what decides the split. An attribute constant on the node's rows makes one partition of weight 1, so its gain is 0.0, its split information is -0.0 and its ratio is NaN. NaN is never greater than anything, so such an attribute is never chosen (`DecisionTree.Ratios`). Every other attribute's ratio is the `Score` parameter.
- DecisionTree.PickSplit: takes the ratio of an attribute that is not constant on the node's rows to be a natural-number score. In exact arithmetic that ratio is a gain of at least 0 divided by a split information above 0, so it beats the initial -1. Rounding errors in that ratio are not modelled.
- DecisionTree.ClassifierFacts: is about the corrected tree. Suppose a non-homogeneous node has attributes left, and all of them are constant on its rows. There the source's constructor throws, and `DecisionTree.ClassifierAsWritten` is None (see Findings).
- `testData`'s accuracy count is not modelled. It is I/O plus floating-point division.
- `Bayes.java` and `kmeans.java` are not part of this model. They are floating-point probability and distance computations.
- Java `int` overflow of counts is not modelled. Counts are unbounded naturals.
- The C4.5 build loop works level by level through a queue. The model builds each subtree recursively. Nodes do not interact, so the tree is the same.
- `test` can throw in two ways. A split column past the end of the row makes `data.get` throw an IndexOutOfBoundsException (line 154). A value that has no child makes `children.get` return null, and the next loop check throws a NullPointerException. The model returns `None` in both cases.
- DecisionTree.Build: requires a non-empty database whose first row has a label column and whose other rows are at least as wide as the first. Rows wider than the first are accepted, as in the source, which reads only columns below the first row's width (lines 24, 271). A row shorter than the first makes the source throw only when one of its missing columns is read, which never happens when the root is homogeneous. Databases with such rows are not modelled.
- Levels.GenerateComplete: assumes a threshold of at least 1. With a threshold of 0 or below every itemset is frequent, while the source reports only the finitely many candidates it builds, some with count 0 (`Levels.ZeroThresholdRecordsAbsentPair`). That degenerate case is outside the theorem.
- Levels.GenerateAsWrittenResult: assumes a threshold of at least 1, for the same reason.
- Levels.OneItemFrequent: assumes a threshold of at least 1, for the same reason.
- Levels.LevelOneInv: assumes a threshold of at least 1, for the same reason.
- Levels.FoundWhenFrequent: assumes a threshold of at least 1, for the same reason.
- Validate.ValidateCandidates: requires every transaction to be strictly increasing, as the header comment of `Apriori.java` assumes. The level loop and the end-to-end theorems assume the same. Unsorted transactions or repeated items within a line are not modelled.
- A disjoint pair such as [1,2] and [3,4] is accepted by `mergeTwoSet` as [1,2,3] (`Merge.AcceptsDisjointPair`). This only produces extra candidates, which the prune and the support count then handle, so the results are not affected.

## Findings

| source | as written | input that shows it | evidently intended | confidence | as-written member | corrected member |
|---|---|---|---|---|---|---|
| Apriori/src/Apriori.java:288-292 | when no single item is frequent and maxSize >= 2, the loop calls `buildNewCandidates` on the empty level-1 list, which reads `lastCandidates.get(0)` (line 155) and throws | transactions [[1,2],[3,4]], threshold 2 | stop with the empty result | not executed | Levels.EmptyLevelOneThrows | Levels.GenerateComplete |
| Bayes/src/C45Classifier.java:68-78 | when every remaining attribute of a non-homogeneous node is constant on its rows, every gain ratio is 0.0 / -0.0 = NaN and none beats -1. The attribute stays -1, and `partitionBasedOnFeature(-1)` throws reading column -1 (line 271) | rows [yes, a] and [no, a] | a leaf by majority vote, as when no attribute is left | not executed | DecisionTree.ConstantAttributesThrow | DecisionTree.Build |
| Apriori/src/Apriori.java:92-96 | maxSize is the largest length shared by at least threshold transactions, so frequent itemsets longer than it are never searched | transactions [[1,2,3],[1,2,3,4]], threshold 2: {1,2} has support 2 but is not mined | search up to the longest transaction | not executed | Levels.MaxSizeMissesFrequentPair | Levels.CorrectedFindsPair |
