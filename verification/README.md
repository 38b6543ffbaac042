# Elite Reasoning: a verified model of its algorithms and protocols

This project models, in Dafny, the algorithms and state machines of the Elite Reasoning MCP
server that have something to get wrong, and proves what they keep over all inputs and all runs.
`dafny verify dfyconfig.toml` checks all of it.

- **Associative memory.** A personalized PageRank over an undirected multigraph, run by nested
  loops over a mutable buffer with an early exit. `Diffusion` is the theory of one damped step
  (mass, contraction, error of stopping, uniqueness of the limit), `PageRank` instantiates it for an
  adjacency list and characterises where mass can be, `Expansion` says which nodes the node bound
  reaches, and `AssociativeMemory` proves the engine's loops against all three and restates reach in
  terms of the stored edges.
- **Statistics.** `Binomial` and `McNemar`: the exact test in its two forms, what its p-value is the
  probability of, and what the significance gate therefore demands. `Kappa`, `Wilson`, `Gini`:
  the ranges, extremes and monotonicity of the three scores, each against an independent definition.
  `TriggerLearner` and `Optimizer` use the last two.
- **JSONC comments.** `Jsonc`: the character-level state machine against a token grammar it was never
  written from, with reading and rendering inverse to one another.
- **Continuation protocol.** `EvidenceLog` is the table behind it, `Continuity` the checkpoint
  machine over its newest-first window of 200 rows.
- **Call graph**, **rate limiter**, **rank fusion**, **source merging**: `CallGraph`, `RateLimiter`,
  `RankFusion`, `SourceMerge`. Each mutable loop refines a simple definition, and the promised
  property is proved of the definition.
- **Middleware chain.** `MiddlewareChain`: three loops (before-hooks, retries, after-hooks) refine
  nested layers.
- **Prevention rules.** `RuleStore` is the table, `EventBus` the event index and the middleware that
  drives it, `RuleLifecycle` the state machine; the invariants hold over runs that mix all three.

`Sequences`, `Sums`, `Nonlinear` and `Wrappers` hold what these share. Floating-point numbers are
real numbers, clocks are inputs, tables are sequences of rows in insertion order, and hooks, the tool
behind the chain, text matching and failing store calls are arbitrary functions that the theorems
quantify over.

Where the code and its own words disagree, the model follows the code:

- The recall bounds a large graph by what a comment calls a 2-hop expansion
  (`core/memory/hipporag.py:116-126`). It is one pass over the edge list that keeps growing the active set: it can keep
  a node three hops away, drop one two hops away with room left, and drop a neighbour
  (`AssociativeMemory.NotTwoHops`). It reaches exactly the ends of trails whose edges stand in the list in
  rising order before the pass stops (`Expansion.ExpandExactly`), and `Expansion.StaysWithinTwoHops` and
  `Expansion.StaysForEveryBound` say for which edge lists that stays within two hops.
- `done` is described as all checkpoints having current passing evidence
  (`core/orchestration/continuity.py:153`), but an outcome gate that failed last does not block it as long as an older
  pass of the gate is listed and every required check is fresh, that is, passed again since if the
  failure names it: `Continuity.DoneDespiteFailureExactly`.
- With the default limit of 10, rank fusion does not always put an id found by both searches before
  one found once: that needs a limit of at most 9 for short and long queries and at most 20 otherwise
  (`RankFusion.SearchSeparates`, `RankFusion.BothFirstExactly`).
- The lifecycle documents retirement of rules that never fired and promotion to trusted
  (`core/learning/rule_lifecycle.py:34-42`). The code retires any rule that fires in fewer than one of twenty evaluations
  (`RuleLifecycle.RetiredDespiteFirings`). And no statement in the repository writes the time of the last
  firing, so over every run active rules go dormant once they have more than fifty evaluations, stay
  dormant, and no rule is ever trusted (`RuleLifecycle.NeverTrusted`, `RuleLifecycle.DormantForGood`).
- The transitions allow a rule to be demoted and promoted again at every tick (`RuleLifecycle.SettlesExactly`,
  `RuleLifecycle.ChurnsForever`). In actual runs this befalls a rule only while it has exactly fifty
  evaluations (`RuleLifecycle.ChurnsInRuns`, `RuleLifecycle.ChurningRun`); every other rule settles within two ticks.
- A limit below one still yields one web source, because the limit is looked at only after adding one
  (`SourceMerge.Merge`).

## Model

| member | source | states |
|---|---|---|
| Diffusion.StepMass | core/memory/hipporag.py:157-169 | one iteration turns total mass m into (1-alpha)*m + alpha*\|p0\|, for every stochastic kernel |
| Diffusion.IterateIsDistribution | core/memory/hipporag.py:155-172 | every iterate is a probability vector and leaves each node at least alpha times its seed weight |
| Diffusion.StepContracts | core/memory/hipporag.py:157-169 | one step brings any two vectors closer in L1 by the factor 1-alpha |
| Diffusion.SuccessiveDifference | core/memory/hipporag.py:171-174 | the difference measured by iteration k+1 is at most 2*(1-alpha)^(k+1) |
| Diffusion.DefaultsConverge | core/memory/hipporag.py:85-93 | with alpha 0.5 iteration 18 always moves less than 1e-5 |
| Diffusion.StoppingError | core/memory/hipporag.py:171-174 | a result that moved by diff lies within (1-alpha)/alpha*diff of every fixed point |
| Diffusion.FixedPointUnique | core/memory/hipporag.py:154-174 | two fixed points of the iteration are equal |
| Diffusion.LaterIterates | core/memory/hipporag.py:171-174 | fixed point or none: after an iteration that moved by diff, alpha times the distance of its result from every later iterate is at most (1-alpha)*diff |
| PageRank.KernelIsStochastic | core/memory/hipporag.py:158-166 | every node, dangling or not, hands out exactly its own mass |
| PageRank.HopLocality | core/memory/hipporag.py:145-174 | after k iterations a node has mass if and only if it lies within k hops of a seed |
| AssociativeMemory.NormaliseIsDistribution | core/memory/hipporag.py:132-143 | the restart vector is a distribution with the support of the raw scores |
| Expansion.ExpandActive | core/memory/hipporag.py:118-125 | the loop over the edges with its break computes the specified pass |
| Expansion.ExpandExactly | core/memory/hipporag.py:118-125 | a node is reached if and only if a trail of edges at rising positions, all before the stop, leads there from a matching node; the stop is the first position at which the set reaches the bound, or the end |
| Expansion.StaysWithinTwoHops | core/memory/hipporag.py:116-126 | the pass stays within two hops if and only if no edge before the stop leaves the two-hop neighbourhood behind the edges that reach its inner end |
| Expansion.StaysForEveryBound | core/memory/hipporag.py:116-126 | for all bounds at once, the same condition on the edge list and the matching nodes alone |
| Expansion.NoTripleStays | core/memory/hipporag.py:116-126 | an edge list without three successive edges at rising positions from a matching node keeps the pass within two hops |
| Expansion.NeighbourReached | core/memory/hipporag.py:118-125 | a neighbour of a matching node is reached when their edge stands before the stop |
| AssociativeMemory.KeptExactly | core/memory/hipporag.py:116-126 | the bound keeps exactly the first of the reached nodes in dictionary order, as many as it allows, in that order |
| AssociativeMemory.NotTwoHops | core/memory/hipporag.py:116-126 | three graphs in which it keeps a node three hops away, drops one two hops away with room left, and drops a neighbour |
| AssociativeMemory.KeptNodes | core/memory/hipporag.py:117-128 | the kept nodes are distinct stored nodes and at most the bound, and none is kept exactly when the bound is 0 and something matched |
| AssociativeMemory.KeepNodes | core/memory/hipporag.py:116-126 | the branch and its loop keep the specified nodes |
| AssociativeMemory.AdjacencyCountsLinks | core/memory/hipporag.py:145-152 | node v occurs in the list of u as often as there are edge ends between them, so the adjacency multiset is symmetric with self-loops and parallel edges |
| AssociativeMemory.NeighboursInEdgeOrder | core/memory/hipporag.py:145-152 | the entries of a list stand in the order of the edges they come from |
| AssociativeMemory.SpreadByLinks | core/memory/hipporag.py:158-166 | a step hands a neighbour the share of the mass that its links have of all edge ends, and a node without links keeps its own |
| AssociativeMemory.RemovalPrunes | core/memory/hipporag.py:80-83 | removing a node drops the edge ends at that node and no other |
| AssociativeMemory.SeedVector | core/memory/hipporag.py:132-137 | the filled buffer is the raw score of every kept node, and the seed count is the number of kept matching nodes |
| AssociativeMemory.BuildAdjacency | core/memory/hipporag.py:145-152 | the loop over the edges builds the specified adjacency |
| AssociativeMemory.Scatter | core/memory/hipporag.py:160-163 | the inner loop adds the same amount once per occurrence of a neighbour and changes nothing else |
| AssociativeMemory.SpreadOnce | core/memory/hipporag.py:157-169 | the double loop over a fresh buffer computes the damped matrix step |
| AssociativeMemory.L1Difference | core/memory/hipporag.py:171 | the accumulated sum is the L1 distance |
| AssociativeMemory.PowerIteration | core/memory/hipporag.py:154-174 | the result is the k-th iterate for the first k that meets the tolerance or exhausts the iterations; with defaults k is at most 18 |
| AssociativeMemory.DefaultsStopEarly | core/memory/hipporag.py:85-93 | with alpha 0.5 and 18 or more iterations allowed the loop always leaves by its tolerance test |
| AssociativeMemory.RankingListsTop | core/memory/hipporag.py:183-206 | the listed memories are those of as many kept nodes as asked for or there are, the larger product of score and weight first and the earlier in the dictionary on a tie, none left out ranking before one listed; each carries its score, that product, and the captions of the first three entries of its list |
| AssociativeMemory.QuarantineDamps | core/memory/hipporag.py:104-143 | a quarantined or little trusted node gets exactly a fifth of the restart weight of a trusted one with as many matches |
| AssociativeMemory.RestartByMerit | core/memory/hipporag.py:104-143 | each kept node's restart weight is its share of all matches, those of suspicious nodes counting a fifth; when nothing kept matches all weights are the same |
| AssociativeMemory.RecallIsDistribution | core/memory/hipporag.py:128-174 | the scores of a recall form a probability vector with the alpha floor |
| AssociativeMemory.RecallReach | core/memory/hipporag.py:128-174 | once something kept matches, a kept node scores above zero after k iterations if and only if at most k stored edges join it to a matching node |
| AssociativeMemory.ReachLeads | core/memory/hipporag.py:176-206 | with positive weights, whatever a recall lists before a node within reach of a match, or instead of it, is within reach too |
| AssociativeMemory.Engine.AddNode | core/memory/hipporag.py:48-58 | adds or overwrites a node, keeping the dictionary order of an old one |
| AssociativeMemory.Engine.AddEdge | core/memory/hipporag.py:60-62 | appends the edge, duplicates and self-loops included |
| AssociativeMemory.Engine.RemoveNode | core/memory/hipporag.py:80-83 | removes the node and all edges at it |
| AssociativeMemory.Engine.AssociativeRecall | core/memory/hipporag.py:85-215 | a recall reports the kept matches and kept nodes, and lists the top memories by score times weight under the scores of the iteration it stops at; it changes nothing and divides by zero exactly when the bound is 0 and something matched |
| Binomial.CombFactorial | core/eval/statistical_significance.py:51 | Pascal's triangle is the factorial quotient of math.comb |
| Binomial.TailRises | core/eval/statistical_significance.py:50-51 | with n = 2m+d, one more win on each side cannot thin the lower binomial tail |
| McNemar.ExactPIsTwoSidedTail | core/eval/statistical_significance.py:39-52 | the p-value is the probability under fair flips of a split at least as lopsided; it lies in (0, 1] and is 1 exactly when the counts differ by at most one |
| McNemar.Symmetric | core/eval/statistical_significance.py:39-52 | swapping the counts does not change the p-value |
| McNemar.TailRisesWithTies | core/eval/statistical_significance.py:50-51 | at a fixed lead more ties never lower the tail |
| McNemar.TailFallsWithLead | core/eval/statistical_significance.py:50-51 | a longer lead never raises the tail |
| McNemar.FormsAgree | core/eval/blind_protocol.py:150-179 | the blind protocol's own sum of binomial masses reports the same rounded number |
| McNemar.Round4Nearest | core/eval/statistical_significance.py:52 | the reported number is the nearest multiple of a ten-thousandth, the even one of two equally near |
| McNemar.SmallLeadInsignificant | core/eval/statistical_significance.py:50-52 | a lead of at most five never reaches 5%, for any number of pairs, rounding to four places included |
| McNemar.NoLossesNeedSix | core/eval/statistical_significance.py:50-52 | without a loss, p is at most 5% if and only if there are six wins |
| McNemar.ScorecardCounts | core/eval/statistical_significance.py:136-152 | the scorecard counts exactly the pairs only one arm passed, and reports the rounded p-value of the exact test on these counts |
| McNemar.SignificanceNeedsSix | core/eval/statistical_significance.py:127-181 | a significant scorecard has six more treatment-only than baseline-only wins, and six suffice when there are no losses |
| McNemar.VerdictMeaning | core/eval/statistical_significance.py:142-183 | pass rates compare as discordant counts do, so the verdict is significant exactly for a significant test won by the treatment and inconclusive exactly without a treatment lead |
| McNemar.SignificanceKeptByWins | core/eval/statistical_significance.py:149-152 | winning one more pair never takes significance away |
| Gini.GiniIsPairwise | core/scheduler/optimizer.py:292-298 | the sorted-index formula is the pairwise definition, sum of \|ci-cj\| over 2*n*total |
| Gini.GiniRange | core/scheduler/optimizer.py:292-298 | it lies in [0, (n-1)/n) and is 0 exactly when all counts are equal |
| Gini.GroupCountsExactly | core/scheduler/optimizer.py:287-292 | the counts are one for every tool in the log, as often as it occurs |
| Gini.BreachNeedsFiveTools | core/scheduler/optimizer.py:65-73 | usage of fewer than five distinct tools never breaches the 0.75 trigger |
| Gini.BreachExactly | core/scheduler/optimizer.py:65-73 | a log of n distinct tools that breaches exists if and only if n is at least five |
| Optimizer.FiringKeepsSpacing | core/scheduler/optimizer.py:117-139 | a firing outside its cooldown keeps the whole history spaced and remembered |
| Optimizer.TickConsistent | core/scheduler/optimizer.py:101-115 | every prefix of a tick keeps all firings a cooldown apart, each a real breach, and the stamps up to date |
| Optimizer.FiresExactly | core/scheduler/optimizer.py:101-115 | a trigger fires if and only if its metric is above an upper or below a lower threshold and a cooldown has passed since every firing of its name |
| Optimizer.TickFiresExactly | core/scheduler/optimizer.py:101-139 | a tick fires, in order, exactly the triggers that cross their threshold and have rested since all earlier firings of their name, those of the same tick included |
| Optimizer.OptimizationLoop.ShouldCheck | core/scheduler/optimizer.py:96-99 | true on exactly every tenth call |
| Optimizer.OptimizationLoop.Tick | core/scheduler/optimizer.py:101-139 | the loop fires exactly the triggers that are due, stamps them, and keeps two firings of one trigger a cooldown apart over any run |
| Wilson.RadicandNonnegative | core/learning/trigger_learner.py:27 | the square root is always taken of a non-negative number |
| Wilson.BoundMeaning | core/learning/trigger_learner.py:20-28 | the bound is the smaller root of (p-x)^2 = z^2*x*(1-x)/n and lies in [0, p] |
| Wilson.RisesWithSuccesses | core/learning/trigger_learner.py:20-28 | at a fixed number of firings it strictly rises with the successes |
| Wilson.RisesWithSamples | core/learning/trigger_learner.py:20-28 | at a fixed positive rate it strictly rises with the number of firings |
| Wilson.PerfectRecord | core/learning/trigger_learner.py:20-28 | at n of n it equals n/(n+z^2) |
| Wilson.OneOfOneLosesToFiftyOfSixty | core/learning/trigger_learner.py:21 | the docstring's own example holds |
| TriggerLearner.TallyBounded | core/memory/persistent_store.py:3306-3342 | improved, degraded and prevented counts never exceed fired counts |
| TriggerLearner.TalliedGrows | core/memory/persistent_store.py:3317-3341 | the upsert keeps one row per fired pair, holding exactly that pair's tally of the whole log |
| TriggerLearner.EffectivenessTable.RecordTriggerEffectiveness | core/memory/persistent_store.py:3306-3342 | a recording counts the firing in its pair's row, a new one if there was none, and changes no other; afterwards the table is the tally of the log so far |
| TriggerLearner.BestRowIsFirstMaximum | core/learning/trigger_learner.py:80 | the choice is the first row of maximal score |
| TriggerLearner.AdviceExactly | core/learning/trigger_learner.py:104-124 | advice is learned, from a row of the type with ten firings and at its score, if and only if there is one; otherwise it is the built-in trigger of the type, or the prompt event |
| Wilson.RisesWithBoth | core/learning/trigger_learner.py:20-28 | a higher rate on at least as many firings, or the same positive rate on more, strictly raises the bound |
| TriggerLearner.AdviceNotDominated | core/learning/trigger_learner.py:104-121 | no measured pair has at least as many firings and at least as high a rate as the advised one, unless it ties in both or neither ever improved anything |
| TriggerLearner.SuggestTrigger | core/learning/trigger_learner.py:104-124 | suggests the best measured trigger, else the default |
| TriggerLearner.GroupByType | core/learning/trigger_learner.py:66-76 | groups exactly the sufficiently measured rows, in row order |
| TriggerLearner.Learn | core/learning/trigger_learner.py:43-102 | covers every measured and every built-in type, and says of each what SuggestTrigger would say |
| Kappa.ProductsCountMatches | core/eval/blind_protocol.py:189-192 | in any label order the per-label products count the pairs (i, j) in which the raters match |
| Kappa.MatchesBound | core/eval/blind_protocol.py:188-194 | chance agreement is at most halfway between observed and full agreement |
| Kappa.DenominatorZero | core/eval/blind_protocol.py:193-194 | the denominator is zero exactly when both raters use one common label throughout |
| Kappa.KappaRange | core/eval/blind_protocol.py:182-200 | kappa lies in [-1, 1] and is 1 exactly on full agreement |
| Kappa.KappaSymmetric | core/eval/blind_protocol.py:182-200 | swapping the raters does not change it |
| Kappa.CohensKappa | core/eval/blind_protocol.py:182-200 | the loop over labels computes the chance-corrected agreement; unequal or empty ratings are refused; 0.6 is the trust threshold |
| Jsonc.StripJsoncComments | core/orchestration/capabilities.py:64-106 | the loop over i, in_string and escape computes the specified stripping |
| Jsonc.Advance | core/orchestration/capabilities.py:70-105 | one pass through the loop body keeps what is written plus what is still to be stripped |
| Jsonc.StripRendered | core/orchestration/capabilities.py:64-106 | stripping a rendered stream of literals, code and comments is the render of the stream without its comments |
| Jsonc.LexRendered | core/orchestration/capabilities.py:64-106 | reading a rendered stream returns the stream |
| Jsonc.RenderLexed | core/orchestration/capabilities.py:64-106 | every text is the render of a well-formed stream |
| Jsonc.StrippedStream | core/orchestration/capabilities.py:64-106 | for every text, the stream of the stripped text is the text's stream without its comments, every string literal unchanged and in place |
| Jsonc.StripIdempotent | core/orchestration/capabilities.py:64-106 | stripping twice is stripping once, for every text |
| EvidenceLog.EvidenceIsReversedLog | core/memory/persistent_store.py:2043-2064 | ordering by timestamp and row id, descending, is exactly reverse recording order, cut at 200 |
| EvidenceLog.ReplaceKeepsRecorded | core/memory/persistent_store.py:2018-2036 | a replacing insert keeps the table in recording order with unique keys |
| EvidenceLog.EvidenceStore.RecordWorkflowEvidence | core/memory/persistent_store.py:2001-2041 | refuses an empty key or unknown run and changes nothing; otherwise drops the row of that key of that run, no other, and adds the record as the newest |
| EvidenceLog.ListingIsNewest | core/memory/persistent_store.py:2043-2064 | at any limit the listing holds the most recently recorded rows of the run, newest first, every row left out being older than all listed |
| EvidenceLog.BoundedMeaning | core/memory/persistent_store.py:2047 | a limit is honoured between 1 and 200, cut at both ends, and zero means 50 |
| EvidenceLog.EvidenceStore.ListWorkflowEvidence | core/memory/persistent_store.py:2043-2064 | lists rows of the run only, the last recorded first, as many as the bounded limit, and leaves out none newer than a listed one |
| Continuity.DoneExactly | core/orchestration/continuity.py:61-155 | done is issued if and only if each required check is fresh and the window holds a passing outcome gate; only done lifts the stop on the final response |
| Continuity.AskedInOrder | core/orchestration/continuity.py:28-131 | which check is asked for, in the contract's own kinds: syntax exactly if it is required and not fresh, scope if so and syntax is not wanted, tests after both, the final gate exactly if nothing else is wanted and no pass of it is listed; recovery exactly for a missing run |
| Continuity.DirectiveOfCheck | core/orchestration/continuity.py:49-155 | the checkpoint, phase and stop that go with each check |
| Continuity.DoneIsSafe | core/orchestration/continuity.py:28-32 | over every recorded log, done means that each required kind has a PASS, and one recorded after the newest outcome when that is a FAIL naming it |
| Continuity.NotAskedAgain | core/orchestration/continuity.py:72-131 | a check passed among the newest records is not asked for again |
| Continuity.RecordPass | core/memory/persistent_store.py:2018-2064 | recording a pass of a new kind puts it in front of the window and keeps the newest ones, also when old rows slide out or are replaced |
| Continuity.DoneWithinFour | core/orchestration/continuity.py:87-155 | from any log, a host that gets each requested check recorded as PASS is done after at most four |
| Continuity.ThreeAreNotEnough | core/orchestration/continuity.py:87-155 | four are necessary: no three records finish a fresh run that needs scope and tests |
| Continuity.DoneDespiteFailureExactly | core/orchestration/continuity.py:61-147 | when the newest outcome is not a PASS, done is issued if and only if an older PASS of the gate is listed and every required check is fresh |
| Continuity.DoneVouchesExactly | core/orchestration/continuity.py:130-155 | done implies that the newest outcome gate passed exactly in the windows where that is not so |
| Continuity.DoneDespiteNewerFailure | core/orchestration/continuity.py:130-131 | two windows in which done is issued despite a newer failed outcome, one failure naming no required check and one naming the required syntax check |
| CallGraph.ExtractCallGraph | core/search/symbol_indexer.py:202-257 | the loops build one node per defined name, with the line of its last definition, and exactly the call edges of top-level functions and methods of top-level classes; a syntax error gives the empty graph |
| CallGraph.RecordEdge | core/search/symbol_indexer.py:231-235 | one call adds the two ends of one edge, without duplicates |
| CallGraph.EdgesAreInverse | core/search/symbol_indexer.py:222-251 | after construction callers and callees are inverse, self-free and duplicate-free |
| CallGraph.GetBlastRadius | core/search/symbol_indexer.py:57-71 | the worklist terminates despite cycles and duplicate queue entries and lists, ascending and once, exactly the other symbols from which the modified one is reached |
| CallGraph.VisitKeepsFrontier | core/search/symbol_indexer.py:61-69 | visiting keeps everything seen reachable and every caller of a visited symbol visited or waiting |
| CallGraph.BlastRadiusIsCallers | core/search/symbol_indexer.py:57-58 | on an extracted graph the radius is the set of symbols that directly or indirectly call the modified one in the program |
| RateLimiter.AnyWindowBounded | core/integration/sync_server.py:82-107 | no closed 60-second window, wherever it starts, holds more than 60 accepted requests of an address |
| RateLimiter.RefusalMeansFullWindow | core/integration/sync_server.py:103-104 | a request is refused if and only if exactly 60 accepted ones lie in the 60 seconds ending with it |
| RateLimiter.EvictionReaches | core/integration/sync_server.py:99-101 | evicting from the front of an address's deque leaves exactly its accepted history in the new window |
| RateLimiter.Evict | core/integration/sync_server.py:99-101 | popping from the front drops everything before the window start and nothing else |
| RateLimiter.SoundGrows | core/integration/sync_server.py:91-107 | one decision keeps the trace ordered and lawful and every address's deque equal to its accepted history in its window |
| RateLimiter.Limiter.CheckRateLimit | core/integration/sync_server.py:91-107 | the decision equals counting the accepted requests of the last 60 seconds in the whole history |
| RankFusion.Search | core/memory/hybrid_search.py:67-111 | filling the dictionary, scoring, sorting and cutting yields the result that the next three rows and SearchIsTop describe |
| RankFusion.ResultScores | core/memory/hybrid_search.py:71-103 | every hit carries its last place in each list, and as score the sum over its places of weight over k plus place; the weights are the caller's if both are given, else those of the query length |
| RankFusion.SearchOrder | core/memory/hybrid_search.py:25-111 | of a text hit and a vector hit, neither found twice, the text hit is listed first if and only if its weight times k plus the other's place is no smaller than the reverse; spelled out for given weights and for each query length |
| RankFusion.SearchSeparates | core/memory/hybrid_search.py:25-111 | with the code's constants and no weights given, a search lists ids found twice before ids found once, for all lists, exactly up to a limit of 20, or 9 for short and long queries |
| RankFusion.EnterFts | core/memory/hybrid_search.py:80-83 | after the first loop the dictionary holds exactly the text hits with their last rank, in order of first occurrence |
| RankFusion.EnterVec | core/memory/hybrid_search.py:84-86 | the second loop adds the vector ranks and appends new ids |
| RankFusion.SearchIsTop | core/memory/hybrid_search.py:88-111 | min(limit, ids found) different ids with their scores and ranks, best first, none left out scoring higher |
| RankFusion.RankingOrder | core/memory/hybrid_search.py:104 | of two found ids the better score comes first, and on a tie the one seen first |
| RankFusion.Dominance | core/memory/hybrid_search.py:79-104 | an id ranked no worse in both lists and better in one comes first and is never cut off while the other stays |
| RankFusion.OneListKeepsOrder | core/memory/hybrid_search.py:79-111 | when one search finds nothing the order of the other is kept |
| RankFusion.BothFirstExactly | core/memory/hybrid_search.py:76-104 | for which weights, constant and list length every id found twice precedes every id found once, for all lists: an inequality that holds if and only if it does |
| RankFusion.TextBeatsVector | core/memory/hybrid_search.py:88-94 | a hit at text place r outscores one at vector place s, neither found twice, exactly when a product inequality holds |
| RankFusion.WeightsFavour | core/memory/hybrid_search.py:25-32 | short queries favour the text search and long ones the vector search even at twice the distance; in between the better place wins |
| RankFusion.SeparatingLimits | core/memory/hybrid_search.py:25-32 | with the code's constants that is a limit of at most 20 under neutral weights and at most 9 under the others |
| SourceMerge.Merge | core/evidence/web_research.py:139-152 | the loops with their breaks return max(k, 1) sources, or all there are: those first of their URL, by depth and then by engine, leaving out none before one listed |
| SourceMerge.MergeExactly | core/evidence/web_research.py:139-152 | the same of the prefix of the URL-deduplicated column-by-column interleave |
| SourceMerge.TakeColumn | core/evidence/web_research.py:145-150 | one pass over the engines takes the next column up to the limit |
| SourceMerge.MergedSize | core/evidence/web_research.py:139-153 | the result has min(k, different URLs found) sources with different URLs, all of them found |
| SourceMerge.NoneStarvedExactly | core/evidence/web_research.py:140-152 | k slots guarantee the first URL of each of e engines, whatever they found, if and only if e is at most max(k, 1) |
| SourceMerge.Triangulated | core/evidence/web_research.py:153-164 | three sources are listed if and only if k is at least 3 and three different URLs were found |
| MiddlewareChain.Execute | core/middleware/chain.py:76-112 | the retry loop ends as the specified last run ends |
| MiddlewareChain.LastRunExactly | core/middleware/fallback.py:35-41 | the last run is the first success, the first failure not worth a retry, or the last one allowed, whichever comes first |
| MiddlewareChain.FirstRetryIs | core/middleware/chain.py:77 | the retry policy of a chain is that of its first retry middleware |
| MiddlewareChain.RunsTakeTurns | core/middleware/chain.py:79-98 | the runs are numbered from 0 with one growing pause between each two |
| MiddlewareChain.RunsBounded | core/middleware/chain.py:77-98 | at most max_retries + 1 runs; a failure still worth a retry is reported only after all of them |
| MiddlewareChain.BackoffIsGeometric | core/middleware/fallback.py:43-45 | the pauses before the n-th retry add up to the geometric sum |
| MiddlewareChain.ConstantBackoff | core/middleware/fallback.py:43-45 | with factor 1 they add up to n equal pauses |
| MiddlewareChain.DefaultPause | core/middleware/fallback.py:30-33 | with the default policy a call pauses 0, 0.5 or 1.5 seconds in all |
| MiddlewareChain.RunBefores | core/middleware/chain.py:65-74 | the first loop stops at the first early result, and otherwise reaches the inside of all layers |
| MiddlewareChain.RunAfters | core/middleware/chain.py:114-119 | the last loop leaves the layers from the innermost outwards, passing over hooks that fail |
| MiddlewareChain.WrappedTool.Call | core/middleware/chain.py:56-121 | the three loops of a call equal nested layers around the tool, and the call ends as the next row says |
| MiddlewareChain.CallMeaning | core/middleware/chain.py:64-121 | a call ends with the first early result, marked; else the tool's last value, without augmentations, as the after-hooks leave it, the number of retries being noted; else a typed error with the code, message, worth of a retry and alternatives of the last exception |
| MiddlewareChain.ResultUnchanged | core/middleware/chain.py:81-121 | behind after-hooks that hand on what they get, a call returns exactly what the tool returned, and notes retries exactly if there were any |
| MiddlewareChain.StartsClean | core/middleware/chain.py:57-63 | hooks and tool see every argument but the reserved session id |
| MiddlewareChain.ShortExactly | core/middleware/chain.py:72-74 | a call short-circuits if and only if some before-hook in turn returns a result |
| MiddlewareChain.ShortResult | core/middleware/chain.py:65-74 | a short circuit returns the result of the first before-hook that returns one |
| MiddlewareChain.ShortCircuit | core/middleware/chain.py:65-74 | a short circuit ran the hooks up to that one and neither the tool nor any after-hook |
| MiddlewareChain.HookOrder | core/middleware/chain.py:65-121 | otherwise each before-hook ran once in order, then the tool, and after a success each after-hook once in reverse order, after a failure none |
| MiddlewareChain.ChainsNest | core/middleware/chain.py:44-50 | a chain registered in two parts is the second part nested in the first |
| MiddlewareChain.BrokenIsHarmless | core/middleware/chain.py:66-71 | a middleware whose hooks always fail changes the end of no call |
| MiddlewareChain.Chain.Use | core/middleware/chain.py:47-50 | registration appends |
| MiddlewareChain.Chain.Wrap | core/middleware/chain.py:52-54 | wrapping fixes the middlewares that apply to everything or name the tool, as registered at that time |
| RuleStore.ApplyWellFormed | core/memory/persistent_store.py:400-418 | every statement keeps identifiers unique and in order of registration and never reuses one, deletions included |
| RuleStore.RowOrigin | core/memory/persistent_store.py:2476-2505 | every row after a statement is a fresh registration or comes from one old row |
| RuleStore.Store.RegisterPreventionRule | core/memory/persistent_store.py:2464-2508 | a new name adds one enabled row on probation with its trigger, check and zero counters; a known name only gets the new check |
| RuleStore.Store.DeletePreventionRule | core/tools/adaptive.py:272 | afterwards no row has the name, every other row is there unchanged and in its order, and no identifier is freed |
| RuleStore.Store.GetActivePreventionRules | core/memory/persistent_store.py:2510-2539 | a rule is returned if and only if it is in the table and enabled, in order of registration |
| RuleStore.Store.IncrementRuleTrigger | core/memory/persistent_store.py:2541-2546 | every other row is unchanged; in the rule's own the firings grow by one and all else stays |
| RuleStore.Store.UpdateRuleEvaluation | core/memory/persistent_store.py:2743-2752 | every other row is unchanged; in the rule's own the evaluations grow by one and all else stays |
| RuleStore.Store.RecordRuleOutcome | core/learning/rule_lifecycle.py:86-94 | every other row is unchanged; in the rule's own the true or the false positives grow by one and all else stays |
| RuleStore.Store.MoveRule | core/learning/rule_lifecycle.py:163-181 | every other row is unchanged; the rule's own has the new state, a promotion stamp if active or trusted, a retirement stamp and no enabling if retired, and its counters as before |
| EventBus.BuildIndex | core/middleware/prevention.py:81-87 | the loop files every rule under its migrated trigger, in table order |
| EventBus.ScanFindsExactly | core/middleware/prevention.py:97-103 | the linear scan finds exactly the rules whose migrated trigger is the event or the pattern over it |
| EventBus.ScanFindsOnce | core/middleware/prevention.py:97-103 | each of them once, or twice when the event is its own pattern |
| EventBus.ScanInFull | core/middleware/prevention.py:97-103 | with a colon in the event, first the rules for the event and then those for what stands before the colon with a star; without one only the rules for the event |
| EventBus.EventBus.Reload | core/middleware/prevention.py:78-90 | indexes the enabled rules, or nothing when loading fails |
| EventBus.EventBus.Emit | core/middleware/prevention.py:92-140 | lookup through the index evaluates what the linear scan finds, in its order, under any failures of the store: it warns exactly of the firings counted, and counts exactly these firings and the recorded evaluations |
| EventBus.WarningsExactly | core/middleware/prevention.py:105-127 | the warnings are the rules found, in order, that fire without a failing count, a phase event firing every rule and any other only those whose text is found |
| EventBus.EmissionCounts | core/middleware/prevention.py:105-138 | an emission adds to every row exactly its counted firings and its recorded evaluations, and changes nothing else |
| EventBus.PhaseWarnsAll | core/middleware/prevention.py:114-127 | a phase event warns of every rule that hears it, whatever the text says, unless its count fails |
| EventBus.TextDecides | core/middleware/prevention.py:116-127 | a tool or prompt event warns of a rule that hears it exactly when its text is found and its count succeeds |
| EventBus.EventBus.EvaluateRule | core/middleware/prevention.py:105-138 | a firing is counted when its call succeeds, the evaluation in any case unless its own call fails |
| EventBus.PreventionRuleMiddleware.BeforeCall | core/middleware/prevention.py:161-197 | counts the call, reloads on every fiftieth, emits the call's events in order, and warns of exactly the rules that one of them warns of |
| EventBus.CallEvents | core/middleware/prevention.py:167-190 | the events of a call: none for an exempt tool, else its own, and for a prompt tool the prompt's and its phase's, in that order |
| EventBus.CallWarnsExactly | core/middleware/prevention.py:167-197 | who is warned before a call |
| EventBus.ReloadsExactly | core/middleware/prevention.py:163-165 | each fiftieth call works with the rules enabled at that time, or none if loading fails |
| EventBus.PreventionRuleMiddleware.AfterCall | core/middleware/prevention.py:199-208 | emits the after event, for exempt tools too, warns of exactly the rules it warns of, and neither counts nor reloads |
| EventBus.EvaluationSoundExactly | core/middleware/prevention.py:105-138 | one evaluation breaks the bound of firings by evaluations if and only if a counted firing loses its evaluation in a row where the two are equal |
| EventBus.EmissionSoundExactly | core/middleware/prevention.py:105-138 | an emission keeps the bound at every evaluation if and only if none is such a loss, whatever else fails |
| EventBus.SessionSound | core/middleware/prevention.py:105-138 | over any session in which no counted firing loses its evaluation, other store calls failing or not, no rule counts more firings than evaluations |
| EventBus.RetiredFallsSilent | core/middleware/prevention.py:161-165 | fifty calls after its retirement, whatever else happens, no call touches a retired rule's row |
| EventBus.SilentAfterReload | core/middleware/prevention.py:163-165 | the first reload after retirement removes the rule from the index for good |
| RuleLifecycle.Tick | core/learning/rule_lifecycle.py:58-84 | the loop over the snapshot moves each row to the state that an arrow leads to, unless the write fails, and reports every such change, written or not |
| RuleLifecycle.TickedAsDocumented | core/learning/rule_lifecycle.py:75-181 | a tick changes a row exactly when an arrow, stated in whole numbers and seconds, leads to another state, and then into that state with its stamp |
| RuleLifecycle.ReportExactly | core/learning/rule_lifecycle.py:58-84 | the report holds one entry, in order, for each rule that is to change, with the state it leaves and the one it gets |
| RuleLifecycle.SettlesExactly | core/learning/rule_lifecycle.py:96-146 | with counters and clock frozen a rule settles within three ticks if and only if it does not churn |
| RuleLifecycle.ChurnsForever | core/learning/rule_lifecycle.py:100-127 | a churning row, reached by a run or not, alternates between probation and active at every tick |
| RuleLifecycle.ChurnsInRuns | core/learning/rule_lifecycle.py:96-146 | over every run a rule churns if and only if it is on probation or active at exactly 50 evaluations, fired in three of them, and has more than seven in ten judgements false |
| RuleLifecycle.ChurningRun | core/learning/rule_lifecycle.py:96-146 | a run reaches such a rule |
| RuleLifecycle.SettlesInRuns | core/learning/rule_lifecycle.py:58-84 | over every run two frozen ticks settle a rule if and only if it does not churn |
| RuleLifecycle.TwoTicksAreNotEnough | core/learning/rule_lifecycle.py:96-146 | for arbitrary rows three are needed: one, which no run reaches, goes from trusted through active and dormant to retired |
| RuleLifecycle.RetiredDespiteFirings | core/learning/rule_lifecycle.py:36 | a rule that fired 49 times in 1000 evaluations is retired, against the documented zero |
| RuleLifecycle.NeverTrusted | core/learning/rule_lifecycle.py:109-127 | over every run from an empty table no rule becomes trusted and no firing time is known |
| RuleLifecycle.DormantForGood | core/learning/rule_lifecycle.py:137-144 | over every run a dormant rule stays dormant |
| RuleLifecycle.RunSound | core/learning/rule_lifecycle.py:101-103 | over every run of registrations, deletions, evaluations, outcomes and ticks the fire rate lies in [0, 1] and retired rules are disabled |
| RuleLifecycle.RetiredForGood | core/learning/rule_lifecycle.py:163-197 | under every run a retired rule stays retired and disabled |
| RuleLifecycle.TrustedOnlyFromActive | core/learning/rule_lifecycle.py:123-126 | a rule becomes trusted only by a tick, from active, with 200 evaluations and under 10% false positives |

## Left out

- Floating-point rounding: numbers are reals. The one place where rounding decides something, the
  four-decimal p-value against 0.05, is modelled (`McNemar.Round4`, half to even). Rounding of reported
  scores, and ties it may create in the recall's sort, are not.
- The scipy branch of both McNemar implementations, the Wilcoxon approximation, the bootstrap, Cohen's d,
  Elo and headache figures of the scorecard.
- Square root: a parameter, any function that inverts squaring on the non-negative reals.
- Text matching: how often a query matches a node, whether a rule's check text matches a payload, which phase
  a prompt is about, whether an error message is transient, whether a deliverable reads like code, and how
  many words a query has are inputs.
- Temporal weights of memories: any real function of the node.
- SQLite, full-text and vector indexes, HTTP, the web engines and the parser: what they return is input. Rows
  of an unordered query are taken in table order. Observability columns of the rule table are not kept.
- Recall with a negative `top_k` or node bound, and rank fusion with a negative limit.
- Deep copies and aliasing: a hook that changes a result object in place and then fails, a hook that rebinds
  the argument dictionary, and the rendering of augmentations into the response.
- Cancellation, threads and overlapping calls: a call, a tick and an emission run to their end. A stale tick that
  overlaps another could move a rule the other has just retired.
- `update_rule_lifecycle` (`core/memory/persistent_store.py:3248-3280`), which sets any state by hand, and
  `_execute_prevention_rules` (`core/integration/mcp_server.py:277-309`), which counts firings without evaluations and would
  undo the bound of `RuleLifecycle.RunSound`. Neither has a caller.
- Deleting a workflow run together with its evidence, and digest collisions between evidence of different kinds.
- The symbol order of `sorted` is the lexicographic order of character codes; the label order in kappa is arbitrary.
- Regex and keyword analysis of prompts, redaction, Markdown reports, installers, telemetry and the other plumbing.
