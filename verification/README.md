# Viper: deciding snapshot isolation of recorded histories

Viper takes a recorded transaction history and decides whether it is snapshot isolated. It checks every
transaction on its own, summarises it to external reads and writes, builds a polygraph over two events per
transaction (begin and commit) with known edges and either/or constraints, and asks a SAT solver for an acyclic
choice. This project models that whole way and proves what the answer means, including where it is wrong.

## The main results

* `Viper.CheckRecording` (internal consistency, summaries, chain polygraph, distance loop, solver) accepts
  exactly when every transaction is internally consistent and the summaries are snapshot isolated, that is,
  when distinct begin and commit times exist under which every read sees the latest committed version.
* How that verdict relates to the recorded values is settled for all recordings with unique writers, T0's values not
  counted. An explanation runs every transaction on the snapshot at its begin. The builders attribute every read
  of a written value to its writer; an explanation that does the same, without reads ahead, is never rejected
  (`Recorded.SummariesDecideValues`), and `Recorded.SummariesExplainValues` says exactly what is needed beyond being
  accepted. If the initial database may hold a written value too, explanations that read it from there are not found;
  they cannot occur if the history is `Unambiguous`, which a scan of the reads decides. Where they can,
  `Attributions.AttributionsExplainValues` reduces the question to finitely many histories the checker decides.
* Silent reads (below) are the one thing the edges do not cover. Checking the recording with its initial database completed,
  and two scans, decides explanation exactly (`Recorded.CompletedDecidesValues`).
* The plain builder (`PairwiseBuilder.CheckHistory`) and the chain builder (`Viper.CheckSummary`) give the same
  verdict, that of `Histories.IsSI`. Every early rejection is justified, and no early rejection is missed:
  `ChainBuilder.ConstructEncoding` rejects if and only if the history has a dirty read, diverging versions or a
  circle of overwrites, whatever the order in which sets and dictionaries are iterated.
* `Viper.CheckAppends` accepts an append history, whatever it contains, exactly when nothing makes the construction stop and begin and
  commit times exist that obey all that the lists demand (`AppendSchedules.AppendSchedule`, stated without chains or edges).
  `AppendEncodings.AppendEncodesLists` says how that relates to the lists themselves: begin and commit times under which every
  list read is the committed list at its reader's begin exist when, besides, all lists are whole and the order of
  the versions is demanded too. The program does not demand that order. So `Viper.CheckAppends` never rejects what can be
  explained, and is exact where every succession was read; `AppendLimits` has what it accepts otherwise.
* The distance loop (`Pruning.Decide`) answers as the unpruned instance does, after at most ten tries, which are at the scheduled
  distances; what one try commits is stated by the ranks of events alone (`Pruning.KBoundedConstraints`, `Pruning.KBoundedPairs`).
* One transaction is judged by its operations: running them on a snapshot (`Transactions.RunsOn`) decides internal
  consistency, and the first and last operations on a key decide the summary. A text is loaded as the grammar of its lines says.
* Kahn's sort and three-colour search on the mutable graphs are exact; the path-enumerating search is exact from any
  node that reaches all arcs, which T0's begin does in every built graph.

## How it is organised

The meaning of everything is given over schedules (`Events.Schedule`: begin and commit times). An edge is a demand on a
schedule (`Events.Holds`), a constraint demands one whole side, and an instance is a set of edges and constraints
(`Events.Fits`). Cycles are related to schedules once (`Events.BcAcyclicIffSchedulable`, `Solver.SatisfiableIffSchedulable`).
After that, encodings are compared schedule by schedule: snapshot reads, pairwise orders, chain orders.

| file | content |
|---|---|
| `Digraph`, `Events` | arcs, walks, cycles, topological orders; edges, constraints, sessions, schedules |
| `Solver`, `Checkers` | either/or satisfiability, the formula with one variable per edge occurrence, the two checkers that build it |
| `BcGraphs`, `PolyGraphs`, `PolyGraphFiles` | the two mutable graph classes; the text form of a polygraph |
| `Transactions`, `Histories`, `Recorded`, `Attributions` | operations, replay and summaries of one transaction; snapshot isolation; explanation of recorded values |
| `Encodings`, `Chains`, `ChainSchedules`, `ChainEncodings` | what the two encodings must contain, and that both mean snapshot isolation |
| `AppendHistories`, `AppendEncodings`, `AppendSchedules` | lists and their isolation by content; what the append polygraph must contain and means; what acceptance means |
| `Indexes`, `KnownGraphs`, `PairwiseBuilder`, `ChainBuilder`, `AppendBuilder`, `AppendConstruction` | the builders |
| `Pruning`, `Viper` | the heuristics and their loop; the whole checker |
| `Limits`, `AppendLimits` | concrete inputs on which verdict and explanation part |

Sets and dictionaries are iterated in an arbitrary order: a loop picks any remaining element, so every result holds
for every iteration order. A side of a constraint is a set of edges (the program stores the tuple of a set). The
external solver is a parameter `solve` of which only `Solver.Exact` is assumed: it answers true exactly when the
formula has a model with an acyclic graph. `RejectException` is a `None` or `false` result. The initial database, which the
program computes from the recorded T0, is the field `init`. The bound k of the heuristics is an integer scaled by ten.
Preconditions such as `Histories.Proper` collect what the program asserts: one writer per value of a key among the transactions
other than T0, edges between different transactions, none into T0.

## What was found

* A read of null that nobody wrote, while the recorded initial database does not hold null for that key, is left without any edge
  (`src/buildgraph/build_graph4adyaSI_chain.py:116-118`, `src/buildgraph/build_graph4adyaSI.py:136-138`). The checker
  then accepts a history that no snapshots explain: `Limits.SilentMissIsAccepted`. Adding a null to the recorded database for
  every key that is read and not in it, and rejecting nulls read from keys it holds with another value, closes the gap
  exactly: `Recorded.CompletedOrdersSilentReads`.
* A transaction may write the initial value of a key again; nothing asserts that it does not, since T0 is never indexed. A read of
  that value is always attributed to the transaction (`src/buildgraph/build_graph4adyaSI_chain.py:97-120`), so a history is
  rejected although reading the initial value explains it: `Limits.RewrittenInitialIsRejected`, with and without a
  recorded initial database.
* Without a recorded initial database, two transactions may read different unwritten values of one key and be accepted:
  `Limits.DisagreeingReadsAreAccepted`.
* `check_INT` compares a read with the last write of the same value in the transaction, failed or not. So reading a value and then
  failing to write it is rejected as a read of the future (`Limits.FailedRewriteIsRejected`), and so is, with
  successful writes only, reading a value that is written again later (`Limits.RewriteIsRejected`). An explained
  recording is accepted exactly when there is no such read: `Recorded.ExplainedIsAcceptedUnlessAhead`.
* The append builder's chains order nobody by themselves: neighbours in a chain that no one read in between are
  ordered by no edge (`src/buildgraph/build_graph4append.py:37-45`, `src/buildgraph/build_graph4append.py:108-125`). Lists that
  contradict what their transactions read of each other are accepted: `AppendLimits.UnreadOrderIsAccepted`. So is a list
  that shows a part of what one transaction appends: `AppendLimits.PartialReadIsAccepted`.
* The copy of `combine_writes` at `src/buildgraph/build_graph4append.py:97-103` lacks the test for a circle that
  `src/buildgraph/build_graph4adyaSI_chain.py:250-251` makes. It stops by removing a chain twice, or by a failing
  assertion, exactly when the lists demand a circle of versions or put two transactions right before a third
  (`AppendConstruction.CombineAppends`, `AppendConstruction.CombiningFailsOnDemands`); `AppendLimits.MutualAppendsCloseACircle`
  is an input. These are not rejections, so the program fails there where the model answers false.
* `check_INT` is called for logs in JSON form (`src/parse/wr_range_parse.py:125`), and that is the path modelled; `NoSelfReads`, which it
  provides, is an assumption of the builders.
* The solver numbers events with T0's begin and commit merged into node 0, the sorting code does not; this is harmless
  because no edge points at T0 (`Solver.NumberingsAgree`).

## Model

| member | source | states |
|---|---|---|
| Viper.CheckRecording | src/parse/wr_range_parse.py:125 | The whole checker accepts iff all transactions are internally consistent and their summaries are snapshot isolated; a recording explained from its writers without reads ahead is always accepted, and so is any explained one if no written value that was read can be initial; without silent reads an accepted recording with agreeing initial reads is explained |
| Viper.CheckAppends | src/algos/algo_entrances.py:56-104 | The checker of append histories accepts iff nothing makes the construction stop and times exist that keep T0 first, sessions in order, and all orders that lists demand, with every two maximal runs of demanded neighbours apart; so it accepts all whose lists are the committed ones at their readers' begins, and only those where lists are whole and every succession was read |
| AppendSchedules.AppendPolygraphMeansSchedule | src/buildgraph/build_graph4append.py:50-75 | The append polygraph has an acyclic choice iff such times exist |
| AppendSchedules.RunsAreChains | src/buildgraph/build_graph4append.py:78-103 | The chains of a key are exactly the maximal sequences of its writers in which each is demanded to follow the one before |
| Viper.CheckSummary | src/algos/algo_entrances.py:56-104 | Chain builder, sort, distance loop and solver together accept a summarised history iff it is snapshot isolated |
| Viper.Summarise | src/utils/range_utils.py:320-343 | For every transaction but T0 exactly what its first operation on a key read and what its last successful write of a key left; sessions, their strength and the initial database are the recording's |
| Recorded.SummaryMeans | src/utils/range_utils.py:320-343 | The summary maps a key to a value iff the operations say so, and keeps everything else of the recording |
| Viper.SearchFromT0IsComplete | src/utils/graphs.py:92-97 | In every graph with edges from T0 to all transactions, some walk from T0's begin meets a node twice iff the graph has a cycle |
| Viper.BuiltGraphsStartAtT0 | src/buildgraph/build_graph4adyaSI_chain.py:89-90 | The known graphs of both builders, inferred edges included, have those edges |
| Viper.SearchBothWays | src/utils/graphs.py:92-144 | On a built graph path enumeration from T0 and three-colour search give the same answer: whether there is a cycle |
| Viper.T0ReachesEvents | src/buildgraph/build_graph4adyaSI_chain.py:89-90 | Through the cb edges T0's begin reaches every begin and commit |
| Recorded.SummariesExplainValues | src/utils/range_utils.py:160-317 | For every recording with unique writers: values explained by snapshots from their writers without reads ahead iff internally consistent, initial reads agree, and snapshot isolated with silent reads ordered too |
| Recorded.UnambiguousExplanations | src/buildgraph/build_graph4adyaSI_chain.py:97-120 | Where no value that was written and read can be initial, every explanation reads written values from their writers |
| Recorded.CompletedOrdersSilentReads | src/buildgraph/build_graph4adyaSI_chain.py:102-118 | Silent reads can be ordered too iff the history with its initial database completed by nulls is snapshot isolated and no null was read where the database has another value |
| Recorded.CompletedDecidesValues | src/buildgraph/build_graph4adyaSI_chain.py:102-118 | The verdict on the completed recording and two scans of the reads decide exactly whether the values are explained |
| Recorded.ExplainedIsAcceptedUnlessAhead | src/utils/range_utils.py:254-256 | An explained recording is accepted iff no transaction reads a value whose last own write comes later |
| Attributions.AttributionsExplainValues | src/buildgraph/build_graph4adyaSI_chain.py:97-126 | For every recording with unique writers and any initial database: explained without reads ahead iff internally consistent and, for some choice of reads given to T0, the history so attributed is snapshot isolated |
| Attributions.AttributedIsProper | src/buildgraph/build_graph4adyaSI_chain.py:97-126 | Each history so attributed meets what the builders assume |
| Recorded.SummariesDecideValues | src/buildgraph/build_graph4adyaSI_chain.py:99-118 | The checker's own condition is necessary for an explanation from writers, and sufficient when there are no silent reads and initial reads agree |
| Recorded.SummaryIsProper | src/utils/range_utils.py:249-256 | If no transaction reads ahead, no transaction of reads, writes and range reads externally reads a value it leaves behind itself, so no self-loop edge is ever built |
| Histories.OrdersMeanSnapshotReads | Readme.md:192 | On distinct times, the orders demanded by the pairwise edges hold iff every read sees the latest version committed before its begin, writers of a key do not overlap and there is no dirty read |
| Histories.DirtyReadIsNotSI | src/buildgraph/build_graph4adyaSI.py:136-138 | Rejecting a dirty read is justified: such a history is not snapshot isolated |
| Encodings.PairwiseEncodesSI | src/buildgraph/build_graph4adyaSI.py:114-157 | Known edges plus all pairwise alternatives are satisfiable, and there is no dirty read, iff the history is snapshot isolated |
| Encodings.KnownMeansOrders | src/buildgraph/build_graph4adyaSI.py:114-141 | A schedule obeys the known edges iff T0 (and, if strong, every earlier transaction of a session) commits before the others begin, writers commit before their readers begin, and readers of the initial value begin before other writers commit |
| Events.SessionEdgesMeanOrder | src/buildgraph/build_graph4adyaSI_chain.py:75-79 | A schedule obeys the edges along the sessions iff every transaction of a session commits before each later one of it begins |
| Encodings.AlternativesMeanOrders | src/buildgraph/build_graph4adyaSI.py:143-157 | A schedule obeys one side of every pair iff writers of a key are apart and every other writer is before the version read or commits after the reader begins |
| Encodings.KnownIsProper | src/utils/graphs.py:225-229 | No known edge is a self-loop, leaves the node range or points at T0 |
| Encodings.AlternativesAreProper | src/utils/graphs.py:271-272 | The same for both sides of every pairwise alternative, and no side is empty |
| PairwiseBuilder.CheckHistory | src/algos/algo_entrances.py:29-53 | Plain builder and plain checker accept iff the history is snapshot isolated |
| PairwiseBuilder.BuildPairwise | src/buildgraph/build_graph4adyaSI.py:97-157 | Rejects iff there is a dirty read; otherwise builds exactly the known edges, records every alternative as a pair in one of the two orders and nothing else, and lists exactly the writers of every key, in any iteration order |
| PairwiseBuilder.AddReaderPairs | src/buildgraph/build_graph4adyaSI.py:143-147 | Every writer of the key other than version and reader gets its pair, in one of the two orders, and nothing unsound is added |
| PairwiseBuilder.AddLaterWriters | src/buildgraph/build_graph4adyaSI.py:156-157 | Every two writers of a key get one pair of opposite ww edges |
| PairwiseBuilder.PairsAreAlternatives | src/buildgraph/build_graph4adyaSI.py:152-157 | The recorded pairs and the writer lists together are the pairwise alternatives |
| PairwiseBuilder.RecordedPairsAreAlternatives | src/buildgraph/build_graph4adyaSI.py:143-157 | The recorded pairs alone are all pairwise alternatives |
| KnownGraphs.BaseGraph | src/buildgraph/build_graph4adyaSI_chain.py:71-90 | The initial graph has exactly the cb edges from T0 and, if strong, from each transaction of a session to the next |
| KnownGraphs.AddReads | src/buildgraph/build_graph4adyaSI_chain.py:97-126 | For one value of one key: dirty iff some read of it is a dirty read; otherwise exactly the edges its reads demand are added |
| KnownGraphs.AddInitialReads | src/buildgraph/build_graph4adyaSI_chain.py:104-115 | Readers of the initial value get a wr edge from T0 and rw edges to all other writers of the key, and no other edges |
| Indexes.ExtIndex | src/utils/range_utils.py:320-343 | The index lists a transaction under a key and value iff the transaction's summary maps the key to the value; no empty entries |
| Indexes.KWrites | src/utils/range_utils.py:528-543 | The union over all values is the set of transactions that wrote the key |
| ChainEncodings.ChainsKeepVerdict | src/buildgraph/build_graph4adyaSI_chain.py:199-291 | Known and inferred edges with the coalesced constraints are satisfiable iff the pairwise encoding of the same history is |
| ChainEncodings.ChainsEncodeSI | src/buildgraph/build_graph4adyaSI_chain.py:199-291 | The chain encoding is satisfiable iff the history is snapshot isolated |
| ChainEncodings.ChainsMeanPairwise | src/buildgraph/build_graph4adyaSI_chain.py:259-291 | Schedule by schedule, the orders demanded by chains and those demanded by pairs are the same |
| ChainEncodings.ChainFitsMeansOrders | src/buildgraph/build_graph4adyaSI_chain.py:199-224 | A schedule fits the built edges and constraints iff it obeys the chain orders |
| ChainEncodings.ConstraintsMeanApart | src/buildgraph/build_graph4adyaSI_chain.py:215-222 | One side of every coalesced constraint holds iff of every two chains of a key one comes wholly before the other |
| ChainEncodings.ChainEncodingIsProper | src/utils/graphs.py:225-229 | No inferred or coalesced edge is a self-loop or points at T0, and no side is empty |
| ChainSchedules.TailReaderIsNoHead | src/buildgraph/build_graph4adyaSI_chain.py:280-291 | No reader of a chain's last version is the first writer of another chain of the key |
| ChainSchedules.BeforeWholeChain | src/buildgraph/build_graph4adyaSI_chain.py:271-291 | A writer before the last of a chain it is not in is before every writer of the chain |
| ChainSchedules.AfterWholeChain | src/buildgraph/build_graph4adyaSI_chain.py:271-291 | A writer after the first of a chain it is not in is after every writer of the chain |
| ChainSchedules.ConsecutiveChains | src/buildgraph/build_graph4adyaSI_chain.py:271-291 | If chains follow the writers' order without a gap, of any two of them one comes wholly before the other |
| ChainSchedules.ChainsGiveOrders | src/buildgraph/build_graph4adyaSI_chain.py:259-291 | Chains in order and apart keep all writers of a key apart and every reader before or after every other writer |
| ChainEncodings.DivergenceIsUnschedulable | src/buildgraph/build_graph4adyaSI_chain.py:144-145 | If two transactions overwrite one version, no schedule obeys the pairwise orders |
| ChainEncodings.CycleIsUnschedulable | src/buildgraph/build_graph4adyaSI_chain.py:250-251 | If transactions overwrite each other's versions in a circle, no schedule obeys the pairwise orders |
| Chains.CombineWrites | src/buildgraph/build_graph4adyaSI_chain.py:227-254 | For any iteration order: rejects iff the successions of some key have a cycle; otherwise every writer is in exactly one chain, and two writers are neighbours iff one succeeds the other |
| Chains.ChainedHasNoCycle | src/buildgraph/build_graph4adyaSI_chain.py:250-251 | Once writers are chained that way the successions have no cycle, so acceptance is never wrong |
| Chains.ChainsAreUnique | src/buildgraph/build_graph4adyaSI_chain.py:246-254 | Two results for the same successions are the same set of chains: the order of merging does not matter |
| Chains.FindByLast | src/buildgraph/build_graph4adyaSI_chain.py:231-237 | Finds a chain ending with the transaction whenever there is one |
| Chains.FindByFirst | src/buildgraph/build_graph4adyaSI_chain.py:240-244 | Finds a chain starting with the transaction whenever there is one |
| Chains.MergeStep | src/buildgraph/build_graph4adyaSI_chain.py:252-254 | Replacing two chains by their concatenation handles one more succession and keeps the partition into chains |
| ChainBuilder.ConstructEncoding | src/buildgraph/build_graph4adyaSI_chain.py:51-54 | Rejects iff there is a dirty read, divergence or circle of overwrites; otherwise its edges and constraints are exactly those of the chain encoding |
| ChainBuilder.EarlyRejectionIsNotSI | src/buildgraph/build_graph4adyaSI_chain.py:116-146 | No snapshot isolated history is rejected early |
| ChainBuilder.EarlyRejectionIsJustified | src/buildgraph/build_graph4adyaSI_chain.py:246-251 | When versions diverge or overwrites form a circle, the pairwise encoding of the same history is unsatisfiable |
| ChainBuilder.AddAllReads | src/buildgraph/build_graph4adyaSI_chain.py:93-126 | Rejects iff there is a dirty read; otherwise all known edges are in the graph and `readfrom` lists exactly the readers of every version |
| ChainBuilder.FindSuccessions | src/buildgraph/build_graph4adyaSI_chain.py:130-146 | Rejects iff two transactions overwrite one version; otherwise `wwpairs` is exactly the overwrites |
| ChainBuilder.SuccessionsAreProper | src/buildgraph/build_graph4adyaSI_chain.py:130-146 | The `wwpairs` supplied to merging join writers of the key and are injective |
| ChainBuilder.InferRwEdges | src/buildgraph/build_graph4adyaSI_chain.py:259-267 | Adds exactly the edges from readers of a version, other than the next writer in its chain, to that writer |
| ChainBuilder.GenChain2ChainEdges | src/buildgraph/build_graph4adyaSI_chain.py:280-291 | One side: last of the first chain before first of the second, and all readers of that last version before it |
| ChainBuilder.KeyConstraints | src/buildgraph/build_graph4adyaSI_chain.py:216-222 | Every two chains of a key get a coalesced constraint in one orientation, and nothing else is added |
| Solver.SatisfiableIffSchedulable | src/checker/checkers.py:563-622 | One whole side per constraint can be chosen without a cycle iff some schedule fits |
| Solver.ModelGivesChoice | src/checker/checkers.py:601-610 | Any model of the XORs of ANDs, with a fresh variable per edge occurrence, contains one whole side of each constraint |
| Solver.ChoiceGivesModel | src/checker/checkers.py:601-610 | Any acyclic choice of sides gives a model; this needs the sides to be non-empty |
| Solver.XorMeansOneSide | src/checker/checkers.py:608 | A model of the formula switches on one whole side of each constraint |
| Solver.NumberingsAgree | src/utils/utils.py:507-526 | The 2i+1/2i+2 graph is acyclic iff the solver's graph with T0 merged into node 0 is |
| Checkers.CheckSides | src/checker/checkers.py:563-622 | With an exact solver, the optimised checker answers whether one side per constraint can be chosen without a cycle, that is, whether some schedule obeys the known edges and a whole side of each constraint |
| Checkers.CheckPairs | src/checker/checkers.py:420-485 | The plain checker answers whether some schedule obeys the known edges and one edge of every pair, with no two listed writers of a key overlapping |
| Checkers.SatisfiableBySameOrders | src/utils/graphs.py:236-241 | Dropping redundant edge types does not change satisfiability |
| Checkers.EncodedMeansSatisfiable | src/checker/checkers.py:582-610 | The built formula has an acyclic model iff the instance is satisfiable |
| Checkers.AddSide | src/checker/checkers.py:603-606 | The new variables stand for the edges of the side, one for one, and for no others |
| Events.BcAcyclicIffSchedulable | src/utils/graphs.py:423-438 | The begin/commit graph of any edges is acyclic iff begin and commit times exist that obey them |
| Digraph.AcyclicIffRanked | src/utils/graphs.py:465-518 | A finite graph has no cycle iff its nodes have distinct ranks under which all arcs go up |
| BcGraphs.BcGraph.Sort | src/utils/graphs.py:468-483 | Kahn's loop lists distinct nodes with all arcs among them going forward, and lists all nodes iff the graph has no cycle |
| BcGraphs.KahnStuck | src/utils/graphs.py:476-485 | When the queue runs empty, all nodes are listed iff the graph is acyclic |
| BcGraphs.BcGraph.InDegrees | src/utils/graphs.py:468-471 | The counters are the numbers of predecessors |
| BcGraphs.BcGraph.DetectCycleColour | src/utils/graphs.py:130-144 | Three-colour search answers true iff the graph has a directed cycle |
| BcGraphs.BcGraph.SearchColoured | src/utils/graphs.py:118-128 | Finding means there is a cycle; not finding leaves the node black and the colours consistent; white nodes are the recursion measure |
| BcGraphs.GreyClosesCycle | src/utils/graphs.py:121-122 | An arc to a grey node closes a cycle |
| BcGraphs.FinishedIsAcyclic | src/utils/graphs.py:136-144 | If every node is black in the end the graph is acyclic |
| BcGraphs.BcGraph.DetectCycleByPaths | src/utils/graphs.py:92-97 | Path enumeration terminates and finds something iff some walk from node 1 meets a node twice |
| BcGraphs.BcGraph.SearchPaths | src/utils/graphs.py:78-90 | Restores the visited marks; every recorded path is a cycle; none recorded means no walk on from here repeats |
| BcGraphs.RevisitsIffCyclic | src/utils/graphs.py:78-97 | From a node that reaches all arcs, some walk repeats a node iff there is a cycle |
| PolyGraphs.PolyGraph.AddEdge | src/utils/graphs.py:225-246 | The stored edges keep demanding the same orders as all edges inserted so far, at most one of wr, ww, cb is stored per ordered pair, and the type table mirrors the edges |
| PolyGraphs.PolyGraph.AddEdges | src/utils/graphs.py:250-260 | The same for all edges between two sets, and no others |
| PolyGraphs.PolyGraph.AddEdgePair | src/utils/graphs.py:262-276 | Adds the pair unless it or its mirror image is recorded, so no pair is ever recorded in both orders |
| PolyGraphs.PolyGraph.ToBcGraph | src/utils/graphs.py:423-438 | The begin/commit graph has exactly the arcs of all inserted edges, although redundant types were dropped |
| PolyGraphs.PolyGraph.ToBcGraphWithSessions | src/utils/graphs.py:440-463 | The same plus exactly the arcs from the commit of each transaction to the begin of the next one of its session |
| PolyGraphs.PolyGraph.TopoSort | src/utils/graphs.py:465-518 | Rejects iff the known graph without sessions has a cycle; otherwise a bijection onto ranks under which known arcs go up; if some schedule obeys the known edges and the sessions, commits of earlier transactions of a session are ranked before the begins of later ones |
| PolyGraphs.SessionOrderIsRanked | src/utils/graphs.py:456-461 | The sessions can be obeyed with the known edges only if both together have no cycle, and then sorting both ranks the sessions in order |
| PolyGraphs.SameOrdersSameArcs | src/utils/graphs.py:236-241 | Edge sets that differ only in redundant types have the same arcs under both numberings |
| PolyGraphFiles.Output | src/utils/graphs.py:308-321 | The text has the line for the number of nodes first, then one line for every stored edge and every recorded pair and no other; loading it gives the number of nodes, exactly the stored edges, and the pairs in sorted order |
| PolyGraphFiles.Load | src/utils/graphs.py:323-364 | Loads a graph iff the text consists of lines of the three formats, without a repeated edge or a number of nodes after a non-zero one, and amounts to that graph; every loaded pair is in order by source, target and type name |
| PolyGraphFiles.ParseIsDescription | src/utils/graphs.py:341-364 | Parsing succeeds with a graph iff the text describes that graph |
| PolyGraphFiles.ParseOfLine | src/utils/graphs.py:366-385 | Every written line has the format of its record and is read back as that record |
| PolyGraphFiles.ParseMeans | src/utils/graphs.py:341-385 | A line is read as a record iff it has the format of that record |
| PolyGraphFiles.LineTextMeans | src/utils/graphs.py:311-317 | The literal formats of the three kinds of lines |
| PolyGraphFiles.TypeSpelling | src/utils/graphs.py:206 | The types are spelled wr, ww, rw and cb, in both directions |
| PolyGraphFiles.SortedPairsStayApart | src/utils/graphs.py:387-393 | Sorting merges no two recorded pairs, because none is recorded in both orders |
| PolyGraphFiles.SortPairMeans | src/utils/graphs.py:387-393 | Sorting gives the same for a pair and its mirror image: the one of the two whose first edge does not come after the second by source, target and type name |
| PolyGraphFiles.NumberOfDecimal | src/utils/graphs.py:373 | A number is written by the digits of its places, without leading zeros, and read back |
| PolyGraphFiles.NumberMeans | src/utils/graphs.py:373 | A string is read as a number iff it consists of digits worth that number by their places |
| Pruning.Decide | src/algos/algo_entrances.py:56-104 | Sort and loop answer iff the unpruned instance is satisfiable, after at most ten tries, none iff the known graph has a cycle; all tries are made with one ranking that sorts the known graph |
| Pruning.TryDistances | src/algos/algo_entrances.py:72-98 | The loop ends within ten tries with the unpruned verdict; all tries but the last failed, the last gave the answer, each was made at 10%, 20%, ... of the number of events or, the tenth, one less than it, and no is only said at that distance |
| Pruning.KBoundedConstraints | src/optimization/chain_heuristic.py:9-45 | By the ranks of the ordered events: gives up iff both sides of some constraint have an edge that spans more than the distance; otherwise leaves exactly the constraints without such an edge and adds exactly the sides with one |
| Pruning.CommittingMeansSpanning | src/optimization/chain_heuristic.py:9-19 | For all constraints: committing and contradiction by `PickEdge` are what the ranks of the ordered events say, for every type of edge |
| Pruning.PruningIsSound | src/optimization/chain_heuristic.py:22-45 | A satisfiable pruned instance means a satisfiable original |
| Pruning.LargestDistancePrunesNothing | src/algos/algo_entrances.py:93-97 | At one less than the number of events no constraint is committed |
| Pruning.PruningIsMonotone | src/optimization/chain_heuristic.py:9-45 | A larger distance commits fewer constraints to the same sides, contradicts itself less often and keeps satisfiable instances satisfiable |
| Pruning.CyclicKnownGraphIsUnsatisfiable | src/utils/graphs.py:504-509 | Rejecting after a failed sort is justified |
| Pruning.KBoundedPairs | src/optimization/pair_heuristic.py:9-49 | By the ranks of the ordered events: gives up iff both edges of some pair span more than the distance; otherwise leaves exactly the pairs with no such edge, adds exactly the edges that do, and leaves the graph's recorded pairs alone |
| Pruning.CommittedPairsKeepRanking | src/optimization/pair_heuristic.py:9-20 | Every committed edge goes up in the ranking, so it still sorts the grown graph |
| Pruning.RankedGraphIsAcyclic | src/optimization/pair_heuristic.py:36-45 | A graph sorted by a ranking has no cycle |
| Pruning.KeepingCommittedIsHarmless | src/utils/graphs.py:282-287 | Leaving committed pairs recorded gives the same satisfiability as deleting them |
| Transactions.CheckInt | src/utils/range_utils.py:259-317 | On reads, writes, range reads and deletes, accepts iff running the operations on some snapshot over the own writes reproduces everything they returned, every item of a range included, and no operation returns a value that a later one writes to that key, successfully or not |
| Transactions.RunsMeansReplays | src/utils/range_utils.py:276-317 | The operations of a transaction run on a snapshot iff their accesses to single keys, in order, replay on it |
| Transactions.NothingAheadMeans | src/utils/range_utils.py:254-256 | Comparing each read with the position of the last write of the value finds exactly the reads of values written later |
| Transactions.InternallyConsistent | src/utils/range_utils.py:249-252 | Some snapshot reproduces all that the operations returned iff each read returns what was last read or written; then the external reads are such a snapshot |
| Transactions.ReplaysIff | src/utils/range_utils.py:200-317 | A snapshot reproduces all reads iff they are coherent and it agrees with the external reads |
| Transactions.LastSeenSplits | src/utils/range_utils.py:264-313 | What `last_rw` holds is the external reads overlaid with the own writes |
| Transactions.ExtReads | src/utils/range_utils.py:200-246 | Maps a key to a value iff the first operation that reads or successfully writes the key is a read, delete, insert or range read that returns this value for it first |
| Transactions.ExternalReadsMean | src/utils/range_utils.py:200-246 | The external reads of the accesses are those of the operations |
| Transactions.ExternalReadIsFirstAccess | src/utils/range_utils.py:218-242 | A key is externally read iff its first access is a read, with that read's value |
| Transactions.ExtWrites | src/utils/range_utils.py:160-197 | Maps a key to a value iff the last operation that successfully writes the key writes this value |
| Transactions.OwnWritesMean | src/utils/range_utils.py:160-197 | The running map of own writes holds for each key what its last successful write left |
| Transactions.OverlayIsLastPut | src/utils/range_utils.py:177-179 | The overlay holds a key iff it was successfully written, with the value of the last such write |
| Transactions.CollectWrites | src/utils/range_utils.py:267-274 | Records for each key and value the last write of it, successful or not |
| Transactions.LastWritesMeans | src/utils/range_utils.py:267-274 | The recorded position of a key and value is beyond a position iff some write of them is |
| Transactions.NoSelfRead | src/utils/range_utils.py:254-256 | Without reads ahead, a transaction's external read of a key differs from what it leaves there |
| AppendBuilder.InferVersionOrder | src/buildgraph/build_graph4append.py:193-248 | For any iteration order: rejects iff observations demand two successors of one version or a list ends with an unknown element; otherwise the successions are exactly the demands |
| AppendBuilder.IndexAppends | src/buildgraph/build_graph4append.py:134-150 | Lists a transaction under a key and element iff it appended it |
| AppendBuilder.RunsFollowSuccessions | src/buildgraph/build_graph4append.py:236-247 | In every observed list each run of one writer is followed by its inferred successor |
| AppendBuilder.ObservedListsAgree | src/buildgraph/build_graph4append.py:241-247 | Two observed lists, runs of one writer collapsed, agree from any shared writer to the end of the shorter |
| AppendBuilder.ExtenderIsNext | src/buildgraph/build_graph4append.py:225-233 | A transaction that read a list and appended is the one successor of the list's last writer, in every list |
| AppendConstruction.ConstructAppends | src/buildgraph/build_graph4append.py:128-131 | Stops iff a list ends with an unknown or an own element, successors conflict, or successions form a circle or meet; otherwise its edges and constraints are exactly those of the append polygraph |
| AppendConstruction.AddAllObserved | src/buildgraph/build_graph4append.py:193-261 | Adds exactly the edges that single observations demand and records exactly the readers of every version; stops iff a transaction read a list ending with its own element |
| AppendConstruction.AddMissedOf | src/buildgraph/build_graph4append.py:250-261 | From one reader of a list, exactly to the other transactions that append what it does not show |
| AppendConstruction.ObservedEdgesAreKnown | src/buildgraph/build_graph4append.py:193-261 | Those edges are the known edges of the history of versions, and the edges to what lists do not show |
| AppendConstruction.CombineAppends | src/buildgraph/build_graph4append.py:78-103 | For any iteration order: fails iff the successions of some key have a cycle or two lead to one writer; otherwise every writer is in one chain, neighbours iff one succeeds the other |
| AppendConstruction.CombiningFailsOnDemands | src/buildgraph/build_graph4append.py:97-103 | With the inferred successions that is iff the lists demand a circle of versions or put two right before a third |
| AppendEncodings.AppendEncodesLists | src/buildgraph/build_graph4append.py:50-75 | For all append histories: every list can be the committed one at its reader's begin iff all lists are whole and the polygraph with the order of versions added has an acyclic choice |
| AppendEncodings.ExplainedAppendsAreAccepted | src/buildgraph/build_graph4append.py:193-261 | A history whose lists can all be the committed ones is not refused and its polygraph has an acyclic choice |
| AppendEncodings.IsolatedListsAreNotRefused | src/buildgraph/build_graph4append.py:226-247 | No schedule explains the lists of a history for which the construction stops |
| AppendEncodings.ReadSuccessionsAreDecided | src/buildgraph/build_graph4append.py:37-45 | Where every succession was read, the polygraph as built and the wholeness of the lists decide exactly |
| AppendEncodings.DemandsAreConsecutive | src/buildgraph/build_graph4append.py:225-247 | Under any schedule that explains the lists, two transactions shown next to each other are next to each other among all committed writers of the key |
| AppendEncodings.OrdersGiveLists | src/buildgraph/build_graph4append.py:193-261 | A schedule that obeys the polygraph and the order of versions explains every whole list |
| AppendEncodings.AppendFitsMeansOrders | src/buildgraph/build_graph4append.py:50-75 | A schedule fits the built edges and constraints iff it obeys the orders they stand for |
| Limits.SilentMissIsAccepted | src/buildgraph/build_graph4adyaSI_chain.py:116-118 | A concrete recording with a silent read is accepted although no snapshots explain it |
| Limits.DisagreeingReadsAreAccepted | src/buildgraph/build_graph4adyaSI_chain.py:102-104 | All recordings of two transactions that read different values of one key, and nothing else, are accepted without a recorded initial database although nothing explains them |
| Limits.FailedRewriteIsRejected | src/utils/range_utils.py:270-274 | A concrete explained recording is rejected because of a later failed write of the value read |
| Limits.RewriteIsRejected | src/utils/range_utils.py:254-256 | Two concrete explained recordings are rejected because of later successful writes of the value read |
| Limits.RewrittenInitialIsRejected | src/buildgraph/build_graph4adyaSI_chain.py:97-120 | Two transactions that read what the other writes, one of the values being the initial one: explained and without reads ahead, but not snapshot isolated as the builders attribute the reads |
| AppendLimits.UnreadOrderIsAccepted | src/buildgraph/build_graph4append.py:37-45 | A concrete append history is accepted although its lists contradict the order in which its transactions read each other |
| AppendLimits.PartialReadIsAccepted | src/buildgraph/build_graph4append.py:250-261 | A concrete append history is accepted although a list shows a part of one transaction's appends |
| AppendLimits.MutualAppendsCloseACircle | src/buildgraph/build_graph4append.py:97-103 | A concrete append history without conflict whose successions form a circle |

## Left out

- The SAT solvers themselves: `solve` is any exact decision of the built formula.
- Range queries in the builders (edges to later upserts, `src/buildgraph/build_graph4adyaSI_chain.py:159-193`): the two builders use
  different tests there. `Transactions.CheckInt`, `Transactions.ExtReads` and `Transactions.ExtWrites` cover them, with finite bounds.
- Viper.CheckRecording: stated for recordings of reads and writes of single keys, because of the range edges left out above, and because the
  program lets inserts pass `check_INT` unchecked; without other operations it holds for every recording.
- Transactions.CheckInt: does not take inserts, which the program does not look at here, nor appends, which it asserts not to occur.
- Recorded.SummaryIsProper: not stated for deletes and inserts, which may leave behind the value they saw; the program then fails an assertion.
- Transactions.ExtReads: deletes and inserts always succeed, as the program asserts; range bounds are finite.
- `hasFinal` and `process_final_state`: extra known edges to one last transaction.
- `initial_state`: the dictionary is given (`init`), the loop that collects it from T0 is not modelled.
- `all_index` and its assertion that values are unique over all writes: only uniqueness among external writes is assumed.
- The checkers with Z3, bit vectors or reachability, `directcheckers.py`, and the driver loops of the algorithms that use the pair heuristic.
- The append builder's external reads are given, and its one loop over observed values is split into two: successions, then edges.
- `pred` in the colour search and the printed cycle after a failed sort: diagnostics only.
- `ext_key2writes`: the writer lists are returned beside the graph instead of stored in it.
- PolyGraphFiles.Load: numbers with signs or spaces, unknown edge types and an unterminated last line are errors here; the program's `int` and `readlines` are more lenient. What `Output` writes never contains these.
- Floating-point k: the loop is exact in integers scaled by ten; rounding drift is not modelled.
- Parsing of logs, files and directories, profiling, printing, command line.
