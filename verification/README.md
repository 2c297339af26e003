# Verified model of the PostgreSQL toolkit's computations

The toolkit reads PostgreSQL catalogs and prints findings.  Between the SQL that
fetches rows and the text that is printed sit deterministic computations; this
project models those and proves what they promise.  Rows are inputs.

* **Blocking forest** (`WaitGraph`, `BlockingTrees`, `Locks`).  The "is blocked by"
  edges of one activity snapshot form a graph that may be cyclic, may name blockers
  the snapshot does not show, and may name one blocker twice.  `Locks` builds the
  forest with the dicts, sets and node objects the program uses; `BlockingTrees`
  gives the same forest as a function of the graph and proves the graph theorems
  behind `pids()`, `size()` and `depth()`.  No assumption is made on the session
  list, except that the two results about which rows the dicts hold and about row
  order need distinct pids.  A loop over a
  set or over the keys of a dict picks keys in an arbitrary order.
* **Index advice** (`IndexRules`, `IndexPruning`, `Indexes`, `IndexAdvice`).
  `covers`, `find_duplicates`, `find_redundant` and the `DROP INDEX` findings of
  `analyze_indexes`, against a model of which index serves which request.  An index
  is a value here; `wider is narrower` becomes equality of values, which the
  comparison of key lengths excludes anyway.  Theorems about acting on the advice
  assume what the catalog guarantees: schema and name identify an index.
* **Bloat arithmetic** (`Rounding`, `Packing`, `Bloat`, `BloatRows`).  The two
  estimation queries as functions over exact numbers, measured against arbitrary
  packings of equal, unsplittable tuples into pages of equal capacity; then the
  threshold filter and the measuring pass behind `--exact`.
* **Printers and readers** (`Identifiers`, `Reloptions`, `Plans`, `HumanBytes`, with
  `Scanning` and `Decimal`).  Each printer has a reader, written from the rules of
  the language it is read in, and a theorem about reading back what was printed.

`Sorting` is Python's `sorted`; `Findings` holds the severities.  Where the program updates objects, dicts or lists in
place or loops, the model is a class or a method with a loop, proved equal to a
specification function; the theorems are about that function.

## Where the code differs from what is said about it

* `README.md:215-217` and the docstring at `pgtk/indexes.py:100` say that an index
  that enforces something is never proposed for dropping.  Two checks do propose it:
  `index.duplicate`, for every protected member of a group after the first, and
  `index.invalid`, for an invalid unique index.  `IndexAdvice.UniqueTwinIsAdvised` is
  an input, `IndexAdvice.ProtectedDropIff` and `IndexAdvice.ProtectedNeverDroppedIff`
  say exactly when it happens.
* What the dropped copy enforced need not stay enforced: the keeper takes over a duty of
  the copy exactly when it has that duty itself (`IndexAdvice.DutyIsKeptIff`).
  `IndexAdvice.ReplicaIdentityIsLost` is an input at which it does not.
* `find_duplicates` calls its groups the same access path, but `shape()` ignores
  INCLUDE columns.  Acting on the invalid, duplicate and redundant advice keeps every
  ordered access path (`IndexPruning.OrderSurvives`).  It keeps every request, INCLUDE
  columns too, exactly under the condition of `IndexPruning.AdviceKeepsRequestsIff`;
  `IndexAdvice.IncludeColumnIsLost` is an input at which it does not.
* `index.unused` looks at each index alone, so it may propose the cover on which
  `index.redundant` relies (`IndexAdvice.UnusedAdviceDropsTheCover`).  Acting on all four
  checks keeps every ordered access path exactly under the condition of
  `IndexAdvice.AllAdviceKeepsOrderIff`, and every request exactly under that of
  `IndexAdvice.AllAdviceKeepsRequestsIff`.
* `_IDENT` ends in `$`, which also matches before a newline at the end of the name.
  `Identifiers.QualifiedReadsBackIff` gives the exact set of names that read back,
  `Identifiers.TrailingNewlineIsLost` one that does not.
* `parse_reloptions` strips braces from both ends, so a value at the end of the text
  loses its own opening braces (`Reloptions.ParseInvertsPrintIff`, with the input
  `Reloptions.OpeningBraceIsLost`).
  The two knobs of `dead_tuple_threshold` survive in more cases
  (`Reloptions.KnobsReadBackIff`).
* `human_bytes` says it writes sizes as `pg_size_pretty` does.  It changes the unit at
  1024 and prints one decimal below 100, the forms `tests/test_units.py:64-69` list;
  `pg_size_pretty` prints whole numbers and keeps a unit up to 10240.  The model
  follows the code.
* With no entry per page the index estimate is 0 pages, so all of the index is
  reported as bloat (`Bloat.AllBloatIffNoEntryFits`).  `Bloat.WideEntriesAreAllBloat`
  is an input: eight columns without statistics.
* The thresholds of the bloat report judge the estimates.  With `--exact` the measured
  rows replace them and are not judged again, so a row below both thresholds can be
  reported (`BloatRows.FullTableIsReported`); `BloatRows.ExactReportMeetsIff` says
  exactly when none is.

## Model

| member | source | states |
|---|---|---|
| WaitGraph.GraphOf | pgtk/locks.py:155-156 | For every session list the two dicts are consistent: sessions are filed under their own pid, only visible sessions wait, and nobody waits on an empty list |
| WaitGraph.LastRowStands | pgtk/locks.py:155-156 | With a pid repeated the last row stands, and the last one with blockers says whom it waits on |
| WaitGraph.DictsHoldTheRows | pgtk/locks.py:155-156 | With distinct pids the dicts hold exactly the rows, and the waiting ones exactly with their blockers |
| WaitGraph.GraphIgnoresRowOrder | pgtk/locks.py:155-156 | Rows in another order give the same graph |
| WaitGraph.EraseLoops | pgtk/locks.py:149-152 | Whatever a walk through a cyclic graph reaches, a walk without revisits reaches too |
| WaitGraph.Ascend | pgtk/locks.py:147-158 | In an acyclic graph with visible blockers, climbing from any waiter ends at a session that blocks and does not wait |
| BlockingTrees.WaiterList | pgtk/locks.py:160-167 | The ascending list under a blocker has each waiter exactly as often as it names the blocker |
| BlockingTrees.ChildrenAreWaiters | pgtk/locks.py:160-170 | The children of a node are its visible waiters off the path, ascending, with that multiplicity |
| BlockingTrees.NodesShowRows | pgtk/locks.py:165-167 | Every node of a tree, at any depth, shows the row of its pid and the lock that pid waits for |
| BlockingTrees.TreePathsAreSimpleWalks | pgtk/locks.py:165-171 | Root-to-node pid paths of a tree are exactly the walks from the root that visit nobody twice |
| BlockingTrees.PidsAreReachable | pgtk/locks.py:99-112 | `pids()` of a tree is exactly the set of sessions reachable from its root, cycles or not |
| BlockingTrees.DepthIsLongestSimpleWalk | pgtk/locks.py:114-115 | `depth()` is the number of sessions on a longest walk from the root without revisits |
| BlockingTrees.ForestRoots | pgtk/locks.py:157-173 | The trees are rooted at exactly the visible sessions that block somebody and wait on nobody, once each, ascending |
| BlockingTrees.RootHasWaiter | pgtk/locks.py:199-202 | Every tree of the forest has size at least 2 |
| BlockingTrees.WaiterShownIff | pgtk/locks.py:147-173 | A waiter appears in the forest exactly when some visible session that does not wait reaches it |
| BlockingTrees.AcyclicForestIsComplete | pgtk/locks.py:147-173 | If the graph is acyclic and all blockers are visible, every waiter appears |
| BlockingTrees.ForestIgnoresRowOrder | pgtk/locks.py:144-173 | Snapshots with the same rows in any order give the same forest |
| Locks.BlockingNode.Append | pgtk/locks.py:170 | Appending a child object extends the represented tree by the child's tree and nothing else |
| Locks.BlockingNode.Pids | pgtk/locks.py:99-109 | The accumulating loop returns the pid set of the represented tree |
| Locks.BlockingNode.Size | pgtk/locks.py:111-112 | Distinct sessions, not nodes |
| Locks.BlockingNode.Depth | pgtk/locks.py:114-115 | The depth of the represented tree |
| Locks.InvertBlockers | pgtk/locks.py:160-163 | Whatever the iteration order, each waiter ends up under each blocker once per mention |
| Locks.FindRoots | pgtk/locks.py:157-158 | Whatever the iteration order, the sorted result lists the roots of the graph |
| Locks.BuildNode | pgtk/locks.py:165-171 | The recursion ends on every graph and its fresh object represents the specified tree |
| Locks.BuildBlockingForest | pgtk/locks.py:144-173 | For every session list the returned objects represent the specified forest |
| Locks.ReportRoots | pgtk/locks.py:199-228 | The loop yields one finding per tree, skipping trees without waiters, and each finding has the facts of a tree and the severity its state and count call for |
| Locks.IdleStates | pgtk/locks.py:204-209 | Idle in transaction is critical also after an error; merely idle is not |
| Locks.AnalyzeBlockingRoots | pgtk/locks.py:194-228 | From sessions to findings through the objects: exactly the roots, once each and ascending, and every finding true of the wait graph |
| Locks.EveryTreeIsReported | pgtk/locks.py:199-202 | The `waiters == 0` skip never happens |
| Locks.FindingsAreTrue | pgtk/locks.py:199-228 | Each finding counts exactly the sessions its root holds up, gives the longest chain, lists its direct waiters in ascending order, once per mention, and is critical exactly if the state of the root starts with "idle in transaction" or more than two sessions are held up |
| Locks.RootsAreReportedOnce | pgtk/locks.py:199-228 | Exactly the roots are reported, each once, ascending |
| IndexRules.CoversIffServesMore | pgtk/indexes.py:177-200 | `covers` holds exactly when the wider index has more keys and serves every request the narrower one serves |
| IndexRules.CoversIsStrictOrder | pgtk/indexes.py:177-200 | `covers` is irreflexive, asymmetric and transitive |
| IndexRules.KeeperLeIsKeptBefore | pgtk/indexes.py:167-171 | The sort key ranks protected indexes first, then larger ones, then by name: a prefix or the smaller character at the first difference |
| IndexRules.DuplicatesAreTheClasses | pgtk/indexes.py:159-174 | The groups are exactly the classes of valid indexes of equal schema and shape with two or more members, complete, without repetition, and one per class |
| IndexRules.GroupsByAppearance | pgtk/indexes.py:159-174 | The groups come in the order in which their first members appear in the list |
| IndexRules.GroupsAreInOrder | pgtk/indexes.py:167-171 | Of two members of a group the earlier is protected if the later is, the larger if both or neither are, and first by name if of equal size too |
| IndexRules.KeeperIsLeast | pgtk/indexes.py:167-171 | The keeper is protected whenever a member is, and the largest, first by name, of those protected like it |
| IndexRules.RedundantPairsAre | pgtk/indexes.py:203-212 | Reported are exactly the valid unprotected indexes with a valid cover, each with a cover from the list |
| IndexPruning.CopyIffNotKeeper | pgtk/indexes.py:159-174 | Each class of valid indexes has one keeper, which is no copy, and every other member is a copy |
| IndexPruning.RedundantHasKeptCover | pgtk/indexes.py:203-212 | Every redundant index is covered, INCLUDE columns too, by a valid index that is not itself reported |
| IndexPruning.OrderSurvives | pgtk/indexes.py:159-212 | After dropping all invalid, duplicate and redundant indexes at once, a survivor of the same family extends the keys of each valid index, so no ordered access path is lost |
| IndexPruning.RequestsSurvive | pgtk/indexes.py:159-212 | If each copy can be replaced, the survivor also has all the columns |
| IndexPruning.AdviceKeepsRequestsIff | pgtk/indexes.py:159-212 | The same advice keeps every request served exactly when the columns of each valid index are among those of the least index of its class or some valid index covers it |
| IndexAdvice.IncludeColumnIsLost | pgtk/indexes.py:159-174 | An input: a larger copy without the INCLUDE column displaces the index that has it |
| Indexes.FindDuplicates | pgtk/indexes.py:159-174 | The dict-filling loop returns the specified groups in order of first appearance |
| Indexes.NextCover | pgtk/indexes.py:209 | The first valid cover in list order, none exactly when there is no valid cover |
| Indexes.FindRedundant | pgtk/indexes.py:203-212 | The loop returns the specified pairs |
| Indexes.RedundantAt | pgtk/indexes.py:203-212 | One pair for each list entry that is valid, enforces nothing and has a valid cover, in list order |
| Indexes.UnusedAt | pgtk/indexes.py:215-257 | One finding for each list entry that is valid, enforces nothing, was never scanned and has the minimum size, in list order, a warning if the start of the statistics is known and a notice otherwise |
| Indexes.InvalidAt | pgtk/indexes.py:272-298 | One finding for each invalid list entry, in list order, critical if it is unique and a warning otherwise |
| Indexes.UnusedFindings | pgtk/indexes.py:215-257 | One finding for each valid unprotected index without scans and of the minimum size, in list order, milder when the start of the statistics is unknown |
| Indexes.AnalyzeIndexes | pgtk/indexes.py:285-360 | The findings whose remediation is DROP INDEX, with severities, in report order: invalid indexes, group members after the keeper, redundant and unused indexes |
| Indexes.DropAdviceNames | pgtk/indexes.py:285-360 | A check names an index in that report exactly when the index is invalid, a copy, unprotected with a valid cover, or unused |
| Indexes.AdviceByMetadata | pgtk/indexes.py:285-360 | The same by the fields of the indexes: a copy has a valid twin of its schema, table and keys that is protected, larger or named first |
| Indexes.AdviceInSections | pgtk/indexes.py:285-360 | The four checks come one after the other, each with its severity |
| IndexAdvice.ProtectedDropIff | pgtk/indexes.py:98-101 | A protected index is advised for dropping exactly when it is invalid or a valid twin sorts before it |
| IndexAdvice.ProtectedNeverDroppedIff | README.md:215-217 | The promise holds exactly when all protected indexes are valid and no two share a shape |
| IndexAdvice.UniqueTwinIsAdvised | README.md:215-217 | An input that breaks the promise |
| IndexAdvice.ProtectedIffDuty | pgtk/indexes.py:98-101 | Protected is exactly what is unique, a primary key, a replica identity or backs a constraint |
| IndexAdvice.DutyIsKeptIff | pgtk/indexes.py:98-101 | After acting on all the advice, each duty of a valid index (uniqueness, primary key, replica identity, backing a constraint) is with an index of its shape exactly when the least index of the class has it |
| IndexAdvice.ReplicaIdentityIsLost | pgtk/indexes.py:98-101 | An input: of two unique indexes the larger is kept and the replica identity is dropped |
| IndexAdvice.UnusedAdviceDropsTheCover | pgtk/indexes.py:353-360 | An input where the unused-index advice removes the cover that the redundancy advice relies on, and no ordered access path is left |
| IndexAdvice.KeptIff | pgtk/indexes.py:285-360 | No check names an index exactly when it is valid, least of its class, protected or uncovered, and not unused |
| IndexAdvice.AllAdviceKeepsOrderIff | pgtk/indexes.py:285-360 | Acting on all four checks loses no ordered access path exactly when each such index that is unused has a used one extending its keys |
| IndexAdvice.AllAdviceKeepsRequestsIff | pgtk/indexes.py:285-360 | It loses no request exactly when each valid index can be replaced and no such index is unused |
| Rounding.PaddingAligns | pgtk/bloat.py:47-50 | The padding leads to the one multiple of the alignment in [n, n + align) |
| Packing.Volume | pgtk/bloat.py:43 | Tuples of any packing take no more room than its pages offer |
| Packing.FitsIff | pgtk/bloat.py:145-147 | n tuples fit on m pages exactly when m times the whole tuples per page reaches n |
| Bloat.TupleSizeIsAligned | pgtk/bloat.py:47-50 | Header in whole units; data at least its width, short of whole units by less than a byte, and by nothing exactly for whole widths |
| Bloat.PaddingIsNotMonotone | pgtk/bloat.py:49-50 | A pair of fractional widths whose padded sizes are in the opposite order |
| Bloat.PaddingKeepsOrderIff | pgtk/bloat.py:49-50 | Exactly when padding keeps the order of two widths |
| Bloat.IndexTupleIsAligned | pgtk/bloat.py:136-141 | Index entry widths are within half a byte of whole units, either header taking 8 bytes |
| Bloat.HeapPagesIsVolume | pgtk/bloat.py:43 | The heap term is the least page count whose capacity holds the tuples' volume |
| Bloat.HeapPagesIsLowerBound | pgtk/bloat.py:43 | No packing of whole tuples needs fewer pages than the heap term |
| Bloat.TwiceHeapPagesSuffice | pgtk/bloat.py:43 | If one tuple fits a page, twice the heap term suffices for a packing |
| Bloat.HeapPagesIsOptimalIff | pgtk/bloat.py:43 | The heap term is the optimum for all tuple counts exactly when the page capacity is a whole multiple of the tuple size |
| Bloat.TableEstimateIsMonotone | pgtk/bloat.py:43-44 | More tuples never lower the estimate, a higher fillfactor never raises it |
| Bloat.TableEstimateNotNegative | pgtk/bloat.py:43-44 | The estimate is never negative and null exactly for fillfactor 0 |
| Bloat.TableEstimateIff | pgtk/bloat.py:43-44 | A page count is at least the estimate exactly when it splits into heap pages with room for the tuples and TOAST pages with four chunks each |
| Bloat.TableBloatIsUpperBound | pgtk/bloat.py:35-44 | No rewrite into any packing, with TOAST pages for the chunks, frees more than the reported bytes, and some pages that suffice free exactly those |
| Bloat.IndexEstimateIsOptimal | pgtk/bloat.py:145-147 | n entries fit on m leaf pages exactly when m is at least the estimate without the metapage |
| Bloat.IndexEstimateCounts | pgtk/bloat.py:143-147 | With k whole entries to a page the estimate is the metapage and the least number of pages holding the entries at k a page; with none it is 0 |
| Bloat.AllBloatIffNoEntryFits | pgtk/bloat.py:143-156 | The whole index is reported as bloat exactly when no entry fits a page |
| Bloat.WideEntriesAreAllBloat | pgtk/bloat.py:143-156 | An input, sound statistics with an 8 KiB entry, at which all of the index is reported |
| Bloat.ReportConserves | pgtk/bloat.py:33-38 | The sizes are pages times the block size, bloat plus the capped estimate is the real size, the percentage lies in [0, 100] and agrees with the bytes, and a null estimate reports none |
| BloatRows.MeasuredShowsReading | pgtk/bloat.py:242-294 | A measured row names the same relation and has the numbers of its reading, a table's as they are; of an index the free share, that share of the bytes rounded down, and density and fragmentation to the nearest hundredth |
| BloatRows.IndexMeasureConserves | pgtk/bloat.py:274-285 | Bloat plus the used bytes rounded up is the index size; NaN or a density beyond 100 leaves no bloat |
| BloatRows.MeasureExact | pgtk/bloat.py:242-294 | Without the extension an error, otherwise each row carries its reading and its extra facts, in order |
| BloatRows.FilterMissesNoTable | pgtk/bloat.py:330-334 | A table that some packing, with TOAST pages for the chunks, would shrink by both thresholds passes the filter, whatever the thresholds |
| BloatRows.TablePassesIff | pgtk/bloat.py:330-334 | A table passes exactly when heap and TOAST pages that suffice free both thresholds; without an estimate only thresholds that ask nothing |
| BloatRows.CandidatesAt | pgtk/bloat.py:330-334 | Each row of at least the minimum bytes and percentage is kept, once and where it stood |
| BloatRows.IndexPassesIff | pgtk/bloat.py:330-334 | An index passes exactly when a rebuild into some packing plus the metapage frees both thresholds, or no entry fits and the whole index does |
| BloatRows.AnalyzeBloat | pgtk/bloat.py:330-336 | The rows that pass on their estimates, in order, each with its reading when exact |
| BloatRows.MeasuredPassesIff | pgtk/bloat.py:274-285 | A measured row meets both thresholds exactly when its reading does; an index has its free share, and none for NaN |
| BloatRows.ExactReportMeetsIff | pgtk/bloat.py:330-336 | All measured rows of the report meet both thresholds exactly when the reading of every row passing on its estimate does |
| BloatRows.FullTableIsReported | pgtk/bloat.py:330-336 | An input: a table estimated half empty and measured full stays in the report |
| Identifiers.PrintedBareIff | pgtk/db.py:79-88 | Without quotes are printed exactly the words of lower-case letters, underscores, digits and dollar signs that start with a letter or underscore, even with a newline at the end |
| Identifiers.IdentifierReadsBack | pgtk/db.py:79-88 | One printed name reads back exactly when it is not empty, has no null character and is not a lower-case word with a newline |
| Identifiers.QualifiedReadsBackIff | pgtk/db.py:91-92 | By section 4.1.1 of the PostgreSQL documentation the printed pair reads back exactly for two such names, dots and quotes included |
| Identifiers.QualifiedIsInjective | pgtk/db.py:91-92 | Different pairs of such names print differently |
| Identifiers.TrailingNewlineIsLost | pgtk/db.py:79-88 | An input: a lower-case word with a newline |
| Reloptions.SettingIffPlain | pgtk/vacuum.py:101-103 | A setting is scanned as one exactly when its key is over a to z and underscore, its value has no white space, comma or closing brace, and neither is empty |
| Reloptions.MatchAtIff | pgtk/vacuum.py:101-103 | A match is such a setting printed at the start of the text whose value cannot go on |
| Reloptions.ScanFinds | pgtk/vacuum.py:133-135 | In any text the scan takes matches from the left without overlap, and a match can start nowhere but in one taken |
| Reloptions.StripIs | pgtk/vacuum.py:135 | Off both ends go all braces and blanks, and nothing else |
| Reloptions.LastValueStands | pgtk/vacuum.py:135 | Of a repeated key the last value stands |
| Reloptions.PrintedReadsAs | pgtk/vacuum.py:133-135 | What scanning either form of any printed list yields |
| Reloptions.ParseInvertsPrintIff | pgtk/vacuum.py:101-135 | Parsing gives a map back from either form and any printing order, exactly when the list does not end in an opening brace |
| Reloptions.OpeningBraceIsLost | pgtk/vacuum.py:101-135 | An input: one setting whose value ends in an opening brace |
| Reloptions.KnobsReadBackIff | pgtk/vacuum.py:138-147 | Both knobs are read back as the map sets them, from either form, exactly when the list does not end in an opening brace or its last key is no knob |
| Reloptions.ThresholdSeesOverrides | pgtk/vacuum.py:138-147 | The threshold takes each knob from the table's options where set and from the cluster otherwise, from either form, whenever the knobs read back |
| Reloptions.BothKnobsCount | pgtk/vacuum.py:138-147 | A table that sets both knobs to decimal numbers is judged by just these |
| Plans.WalkVisits | pgtk/plans.py:69-72 | The walk visits the positions of the tree one by one, each node carrying the path of its position |
| Plans.WalkIsComplete | pgtk/plans.py:69-72 | The walk holds exactly the nodes that child indices lead to |
| Plans.NodesShowPlans | pgtk/plans.py:85-94 | The node at any child indices shows the JSON object there and its type, "unknown" without one |
| Plans.PathsResolve | pgtk/plans.py:85-94 | Splitting a node's path at dots and following the indices returns that node |
| Plans.PathsAreDistinctAndOrdered | pgtk/plans.py:81-88 | Nodes at different places of the walk have different paths, in numeric lexicographic order |
| Plans.AncestorIff | pgtk/plans.py:85-94 | A node lies in another's subtree exactly when it is that node or its path continues the other's after a dot |
| HumanBytes.HumanBytes | pgtk/findings.py:60-70 | The dividing loop yields the specified text, the one of the two following rows |
| HumanBytes.SizeTextIs | pgtk/findings.py:60-70 | The text without the loop: the unit by the size, bytes whole, a hundred or more of a unit whole, less with one decimal, to the nearest and ties to even |
| HumanBytes.TextReadsBack | pgtk/findings.py:60-70 | A reader that knows the units as 1, 1024, 1048576, 1073741824 and 1099511627776 bytes reads the text as the value it denotes |
| HumanBytes.DenotedMonotone | pgtk/findings.py:60-70 | Rounding and the change of unit never reverse the order of two values, negative ones included |
| HumanBytes.PrintingKeepsOrder | pgtk/findings.py:60-70 | The same for the values read from two printed texts |
| HumanBytes.DenotedIsClose | pgtk/findings.py:60-70 | Below 1024 the text is the value without its fraction; from there on it is off by at most half its last digit, which is within 5 percent, and within half a percent for scaled amounts of 100 or more |
| Rounding.RoundHalfEvenIsNear | pgtk/findings.py:68 | The nearest whole number, the even one of two |
| HumanBytes.PointIffDecimal | pgtk/findings.py:68 | A number is printed with a point exactly when it is printed with a decimal |
| HumanBytes.TruncateIsTowardsZero | pgtk/findings.py:67 | Dropping the fraction loses less than a byte, goes towards zero and keeps whole counts |

## Left out

- Bloat.TableBloatIsUpperBound: TOAST counts with the four chunks a page that the query charges; the query has no width model for chunks to measure that against.
- Bloat.HeapPagesIsLowerBound: takes a whole tuple count; the planner's `reltuples` is a float and may be fractional.
- Identifiers.QualifiedReadsBackIff: lexical only; whether a bare name is a keyword is decided by the parser, and truncation of names beyond 63 bytes does not concern names that come from the catalog.
- Reloptions.ThresholdSeesOverrides: Python's `float` on option text is a parameter.
- The aggregation of column statistics into header and data widths (pgtk/bloat.py:66-70, 121-125) and all joins and filters of the queries: rows are inputs, their filters appear as preconditions.
- BloatRows.MeasureExact: what the extension answers is a parameter; `BloatRows.Measured` is a field-by-field definition, and what it means is said by the lemmas about index rows.  For a table the reading is copied, so `BloatRows.ReadingMeets` says something of index rows only.
- Rounding of SQL numeric division and of floats, and IEEE special values other than the NaN density: arithmetic is exact.
- `repr`-based grouping keys (pgtk/indexes.py:165): equality of schema and shape.
- `load_indexes`, `load_sessions` and `parse_explain`: decoding of rows and JSON into the records modelled here.
- Session fields other than pid, user, application, state and blockers; timestamps, summaries and remediation prose.
- The idle-in-transaction, long-wait and connection-pressure findings, the severities of bloat findings, plan rules, version decoding: each settled by one comparison.
- `_missing_index_findings`: statistical advice without a coverage promise.
- Connections, rendering, command line, demo and backup scripts: input and output.
