# Fund-flow tracing over a Bitcoin graph: a Dafny model

This project models the core of the `bitcoin.graph` stored procedures that trace
funds through a graph of Bitcoin accounts and transactions:

- `GraphProcedure` — the **path expander** the breadth-first traversal calls once
  per partial path (`createExpander(...).expand`), the two candidate pickers it
  dispatches to (`inbound` when tracing backwards, `outbound` when tracing
  forwards) and the **path selector** `getUniqueLongestPaths`. The expander
  recomputes a time window and a value window from the path's last
  relationship; hub accounts (degree at least `EXCHANGE_THRESHOLD` = 5000) are
  dead ends; an account frontier keeps the relationships whose far-end
  transaction lies in both windows and orders them by that transaction's
  timestamp; a transaction frontier keeps the relationships whose own value
  lies in the value window and orders them by value; both keep at most
  `maxRelationshipCount`. The selector drops every path that another path at
  least as long contains in its rendering.
- `TransactionProcedure.getTransactions` — the depth rule of the traversal
  (backwards at most 2 relationships, forwards 2 to 14), the selector applied to
  what the traversal returns, and the **aggregation** of the selected paths that
  end at an account: a `"deposit"` label for each account of degree above 5000,
  and, for each consecutive pair of relationships, one input entry and one output
  entry on the record of the transaction between them. An exception anywhere in
  the procedure yields an empty stream.

Modules: `GraphModel` (nodes, relationships, paths, the store's
`getRelationships`), `Streams` (`filter`, `sorted`, `limit`), `Text`
(`String.contains`), `GraphProcedure`, `TransactionProcedure`.

The procedures' operations are functions over values (`Inbound`, `Outbound`,
`Expand`, `UniqueLongest`, `Aggregate`); the loops of the source are methods
proved equal to those functions (`IsSubpath`, `GetUniqueLongestPaths`,
`LabelAccounts`, `MergeRelationships`, `GetTransactions`). The aggregation maps
are local variables of `getTransactions`, so they are modelled as `map` values
that the loops reassign.

Two behaviours of the code worth knowing:

- Forwards, an account frontier follows its outgoing input relationships
  (GraphProcedure.java:97) and a transaction frontier its outgoing outputs
  (:112); backwards, an account follows its incoming outputs (:49) and a
  transaction its incoming inputs (:64). The type followed from a transaction
  depends only on the trace direction, not on how the transaction was reached.
- The selector rules a path out when another path of equal or greater length
  contains its rendering (GraphProcedure.java:222-224), so two distinct paths of
  equal length and equal rendering both drop out
  (`GraphProcedure.TwinsRemoveEachOther`).

## Model

| member | source | states |
|---|---|---|
| GraphModel.OtherNode | src/main/java/bitcoin/graph/GraphProcedure.java:51 | `getOtherNode` gives the end of a relationship leaving the node and the start otherwise |
| GraphModel.Relationships | src/main/java/bitcoin/graph/GraphProcedure.java:49 | the relationships of a node for a direction and type are exactly the stored relationships of that type attached to the node in that direction, each as often as stored |
| Streams.Filter | src/main/java/bitcoin/graph/GraphProcedure.java:50-55 | `filter` keeps exactly the elements satisfying the predicate, never more often than they occur |
| Streams.SortBy | src/main/java/bitcoin/graph/GraphProcedure.java:56-59 | `sorted(comparingLong(key))` yields the same elements (a permutation) in ascending key order |
| Streams.SortLimit | src/main/java/bitcoin/graph/GraphProcedure.java:56-60 | `sorted(key).limit(n)` yields min(n, size) elements of the input, ascending, and no element left out has a smaller key than one taken |
| GraphProcedure.Div10 | src/main/java/bitcoin/graph/GraphProcedure.java:167 | `value / 10` truncates toward zero: the remainder has the sign of the dividend and is smaller than 10 in magnitude |
| GraphProcedure.ReferenceNode | src/main/java/bitcoin/graph/GraphProcedure.java:159 | as written: the anchor is the start of an output, and otherwise the frontier node itself (see "## Findings") |
| GraphProcedure.AnchorsAgree | src/main/java/bitcoin/graph/GraphProcedure.java:159 | the as-written anchor is the transaction the last relationship touches whenever that relationship is an output or the frontier is its end, which holds at every step of a forward trace |
| GraphProcedure.BackwardInputAnchorsOnAccount | src/main/java/bitcoin/graph/GraphProcedure.java:159-162 | as written, a backward step from an account reached by an input anchors on that account, and with its default timestamp 0 the window admits no transaction stamped after 0; the corrected window admits the transaction the input entered |
| GraphProcedure.AdjacentTransactionIsTransaction | src/main/java/bitcoin/graph/GraphProcedure.java:159 | in a well-typed store, the corrected anchor is a transaction and an end point of the last relationship |
| GraphProcedure.StepWindow | src/main/java/bitcoin/graph/GraphProcedure.java:148-169 | with the corrected anchor of "## Findings": first step, one day (86400) from the query's start timestamp with the query's value bounds; later steps, a window `timespan` wide ending (backwards) or starting (forwards) at the transaction the last relationship touches, with value floor `value / 10` and ceiling `Long.MAX_VALUE` |
| GraphProcedure.AsWrittenStepWindow | src/main/java/bitcoin/graph/GraphProcedure.java:148-169 | the same windows as written, with a later step anchored at line 159's `lastTransaction` (`ReferenceNode`) |
| GraphProcedure.StepWindowFollowsLine159 | src/main/java/bitcoin/graph/GraphProcedure.java:159 | on every path the expander is handed (forwards at any depth, backwards at length at most 1 under `toDepth(2)`, TransactionProcedure.java:29), the corrected window equals the window as written |
| GraphProcedure.SortedLimited | src/main/java/bitcoin/graph/GraphProcedure.java:56-61 | a negative `maxRelationshipCount` makes `limit` throw, and the handler returns no relationships; otherwise the first `count` candidates by key |
| GraphProcedure.Candidates | src/main/java/bitcoin/graph/GraphProcedure.java:44-74 | past the deadline, at a hub account, at a node of neither kind or with a negative count nothing is returned; otherwise the first `count` filtered candidates by timestamp (account) or by value (transaction) |
| GraphProcedure.CandidatesSound | src/main/java/bitcoin/graph/GraphProcedure.java:47-72 | every returned relationship is stored, attached to the frontier in the trace direction, of the type followed from the frontier's kind, and passes that kind's window test |
| GraphProcedure.Inbound | src/main/java/bitcoin/graph/GraphProcedure.java:33-79 | deadline, hub, unknown-kind and negative-count cases return nothing; at most `count` results; an account yields incoming outputs whose source transaction is in both windows, a transaction incoming inputs whose value is in the value window; the earliest/smallest ones are chosen |
| GraphProcedure.Outbound | src/main/java/bitcoin/graph/GraphProcedure.java:81-127 | as `inbound` mirrored: an account yields outgoing inputs whose target transaction is in both windows, a transaction outgoing outputs whose value is in the value window |
| GraphProcedure.Expand | src/main/java/bitcoin/graph/GraphProcedure.java:140-202 | past the deadline or for a path without nodes nothing is followed; a hub frontier is terminal; at most `maxRelationshipCount` relationships, all attached to the path's last node in the trace direction; the result is `inbound`/`outbound` under the step's window |
| GraphProcedure.FirstHopWindow | src/main/java/bitcoin/graph/GraphProcedure.java:153-157 | on the first step from an account, each transaction reached lies in [timestamp, timestamp + 86400] and its input value within [minValue, maxValue] |
| GraphProcedure.LaterHopAccountWindow | src/main/java/bitcoin/graph/GraphProcedure.java:158-168 | on a later step from an account, each transaction reached lies within `timespan` after (forwards) or before (backwards) the corrected anchor, the transaction the last relationship touches, and moves at least a tenth of that relationship's value |
| GraphProcedure.LaterHopTransactionValue | src/main/java/bitcoin/graph/GraphProcedure.java:111-119 | on a later step from a transaction, each relationship followed carries at least a tenth of the value of the one that reached it |
| GraphProcedure.TransactionFrontierIgnoresTime | src/main/java/bitcoin/graph/GraphProcedure.java:111-119 | a transaction frontier's choice does not depend on the time window |
| GraphProcedure.FirstHopFollowsInputInWindow | src/main/java/bitcoin/graph/GraphProcedure.java:95-109 | an account of degree 3 with one input into a transaction stamped 5000 follows it when the trace starts at 1000 with an open value window |
| GraphProcedure.ExpandAlternates | src/main/java/bitcoin/graph/GraphProcedure.java:178-180 | in a well-typed store, expansion from an account reaches only transactions and from a transaction only accounts |
| GraphProcedure.UniqueLongest | src/main/java/bitcoin/graph/GraphProcedure.java:211-234 | a path is selected exactly when it has nodes and no other path at least as long contains its rendering; the selection keeps input order |
| GraphProcedure.IsSubpath | src/main/java/bitcoin/graph/GraphProcedure.java:217-228 | the inner scan reports true exactly when some other path at least as long contains the path's rendering |
| GraphProcedure.GetUniqueLongestPaths | src/main/java/bitcoin/graph/GraphProcedure.java:211-234 | the nested loop returns exactly the selection `UniqueLongest` |
| GraphProcedure.TwinsRemoveEachOther | src/main/java/bitcoin/graph/GraphProcedure.java:219-226 | two distinct paths of equal length and equal rendering both drop out |
| GraphProcedure.SingletonKept | src/main/java/bitcoin/graph/GraphProcedure.java:214-231 | a lone path with nodes is returned unchanged |
| GraphProcedure.LongerContainingPathWins | src/main/java/bitcoin/graph/GraphProcedure.java:219-230 | of a path and a strictly longer one whose rendering contains it, only the longer one is returned |
| GraphProcedure.CoveringChainEnds | src/main/java/bitcoin/graph/GraphProcedure.java:219-228 | when renderings are distinct, every path lies inside a selected path at least as long: climbing from it to a path that covers it ends at a selected path whose rendering contains its own |
| GraphProcedure.SomePathSurvives | src/main/java/bitcoin/graph/GraphProcedure.java:211-234 | a non-empty set of paths with nodes and distinct renderings keeps at least one path |
| Text.Contains | src/main/java/bitcoin/graph/GraphProcedure.java:224 | `contains` scans for the searched string as a contiguous run; a string contains only strings no longer than itself |
| Text.ContainsTrans | src/main/java/bitcoin/graph/GraphProcedure.java:224 | `contains` is transitive |
| Text.ContainsAt | src/main/java/bitcoin/graph/GraphProcedure.java:224 | `contains` holds exactly when the searched string occurs at some position |
| Text.ContainsOtherIsLonger | src/main/java/bitcoin/graph/GraphProcedure.java:224 | a string contains a different string only if it is strictly longer |
| TransactionProcedure.IncludedDepth | src/main/java/bitcoin/graph/TransactionProcedure.java:29 | the depth rule: backwards `toDepth(2)` (depth at most 2), forwards `includingDepths(2, 14)` |
| TransactionProcedure.Traverse | src/main/java/bitcoin/graph/TransactionProcedure.java:29 | backwards only paths of at most 2 relationships, forwards only paths of 2 to 14 relationships are returned, and every reached path of an included depth is |
| TransactionProcedure.ThresholdAccountBlockedButUnlabelled | src/main/java/bitcoin/graph/TransactionProcedure.java:58 | an account of degree exactly 5000 is a dead end for expansion yet receives no label |
| TransactionProcedure.LabelNode | src/main/java/bitcoin/graph/TransactionProcedure.java:55-68 | one node adds "deposit" to its address's label set exactly when it is an account of degree above 5000, creating the set if absent, and changes no other address |
| TransactionProcedure.LabelNodesSpec | src/main/java/bitcoin/graph/TransactionProcedure.java:52-70 | an address gains an entry exactly when a node on the path is an account with that address and degree above 5000, and gains "deposit" and nothing else |
| TransactionProcedure.LabelNodesDepositsOnly | src/main/java/bitcoin/graph/TransactionProcedure.java:52-70 | the node loop only ever stores the label "deposit": label sets holding only "deposit" still do so afterwards |
| TransactionProcedure.LabelAccounts | src/main/java/bitcoin/graph/TransactionProcedure.java:52-70 | the node loop computes `LabelNodes` |
| TransactionProcedure.Orient | src/main/java/bitcoin/graph/TransactionProcedure.java:85-97 | the leg's input and output are the pair's own relationships (so their values are recorded unchanged), and a pair consecutive in the trace direction is read as an input into, and an output out of, one transaction between the `from` and `to` accounts |
| TransactionProcedure.OrientReadsTransfer | src/main/java/bitcoin/graph/TransactionProcedure.java:85-97 | the orientation reads a pair as input-into / output-out-of one transaction exactly when the pair is consecutive in the trace direction, forwards and backwards |
| TransactionProcedure.Legs | src/main/java/bitcoin/graph/TransactionProcedure.java:72-76 | relationships are taken two at a time: n relationships give n/2 pairs |
| TransactionProcedure.TrailingRelationshipIgnored | src/main/java/bitcoin/graph/TransactionProcedure.java:75-76 | an unpaired last relationship contributes nothing |
| TransactionProcedure.MergeLeg | src/main/java/bitcoin/graph/TransactionProcedure.java:99-131 | one pair adds exactly its transaction's key to the records, and that record then holds the pair's input and output entries |
| TransactionProcedure.MergeLegEffect | src/main/java/bitcoin/graph/TransactionProcedure.java:99-131 | one pair adds its input and output entry to its transaction's record, creating it with the transaction's hash and timestamp when absent, and leaves every other record as it was |
| TransactionProcedure.MergeLegsKeys | src/main/java/bitcoin/graph/TransactionProcedure.java:102-131 | a record exists after merging exactly when it existed before or some pair passes through its transaction |
| TransactionProcedure.MergeLegsEntries | src/main/java/bitcoin/graph/TransactionProcedure.java:104-129 | a record's inputs (outputs) are its old ones united with those of the pairs through it, without duplicates |
| TransactionProcedure.MergeLegsKeepsRecords | src/main/java/bitcoin/graph/TransactionProcedure.java:102-113 | an existing record keeps hash and timestamp; a record no pair passes through is unchanged |
| TransactionProcedure.NewRecordFromFirstLeg | src/main/java/bitcoin/graph/TransactionProcedure.java:114-130 | a newly created record takes hash and timestamp from the first pair through its transaction |
| TransactionProcedure.EntriesBoundedByLegs | src/main/java/bitcoin/graph/TransactionProcedure.java:104-129 | a record gains at most one input and one output entry per pair merged into it |
| TransactionProcedure.MergeLegAbsorbed | src/main/java/bitcoin/graph/TransactionProcedure.java:102-113 | an identical input/output reached again is not duplicated: the records stay as they were |
| TransactionProcedure.MergeLegsIdempotent | src/main/java/bitcoin/graph/TransactionProcedure.java:102-131 | merging the same pairs twice gives what merging them once gives |
| TransactionProcedure.MergeLegsGrows | src/main/java/bitcoin/graph/TransactionProcedure.java:102-131 | merging pairs removes no record and leaves no record without an input and an output entry |
| TransactionProcedure.MergeLegsAppend | src/main/java/bitcoin/graph/TransactionProcedure.java:72-134 | merging two runs of pairs one after the other gives what merging their concatenation gives |
| TransactionProcedure.MergeRelationships | src/main/java/bitcoin/graph/TransactionProcedure.java:72-134 | the relationship loop computes `MergeLegs` of the path's pairs |
| TransactionProcedure.AbsorbPath | src/main/java/bitcoin/graph/TransactionProcedure.java:50-136 | a path not ending at an account changes nothing; otherwise no record is lost, every record keeps entries and every label set stays {"deposit"} |
| TransactionProcedure.Aggregate | src/main/java/bitcoin/graph/TransactionProcedure.java:47-136 | starting from empty maps, every record of the result holds an input and an output entry and every label set is exactly {"deposit"} |
| TransactionProcedure.AggregateTransactions | src/main/java/bitcoin/graph/TransactionProcedure.java:50-136 | the transaction records are the pairs of the paths ending at an account merged into an empty map; other paths add nothing |
| TransactionProcedure.AggregateLabels | src/main/java/bitcoin/graph/TransactionProcedure.java:50-70 | an address is labelled exactly when an account of that address and degree above 5000 lies on a selected path ending at an account, and its label set is then exactly {"deposit"} |
| TransactionProcedure.AbsorbPathIdempotent | src/main/java/bitcoin/graph/TransactionProcedure.java:50-136 | processing the same path twice changes nothing the first pass did not |
| TransactionProcedure.GetTransactions | src/main/java/bitcoin/graph/TransactionProcedure.java:26-142 | an exception gives an empty stream; otherwise a one-element stream holding the aggregation of the selected, depth-included paths |
| TransactionProcedure.NodelessPathsGiveEmptyResult | src/main/java/bitcoin/graph/TransactionProcedure.java:45-138 | when every reached path lacks nodes, the result holds no records and no labels |

## Left out

- The Neo4j traversal engine (breadth-first order, `RELATIONSHIP_GLOBAL` uniqueness, evaluator pruning): `GetTransactions` takes the paths the traversal reaches as the parameter `reached` and applies only the depth rule to them.
- StepWindow: anchors a later step at the transaction the last relationship touches, not at line 159's `lastNode` for an input; `AsWrittenStepWindow` is the window as written, and `StepWindowFollowsLine159` shows the two are equal on every path the procedure expands.
- LaterHopAccountWindow: states the backward time bound against the corrected anchor; as written, a backward step from an account reached by an input is anchored on that account, a step `toDepth(2)` never lets the procedure take.
- Expand: uses the corrected anchor of "## Findings" for the later-step time window. This differs from the source only for a backward step from an account reached by an input, and the backward depth limit of 2 means the procedure never takes that step.
- `System.currentTimeMillis()`: one reading `now` is a parameter; the source reads the clock again in `inbound`/`outbound`, which run lazily when the traversal asks for the iterator, so the model does not capture a deadline that passes between `expand` and that call.
- The deadline `now + MAX_SEARCH_TIME` of `getTransactions`: `timeout` is a parameter of the expander; the constant is declared but not combined with a clock.
- `Path.toString()` of the graph library: the rendering is the parameter `render`; the selector is proved for every rendering.
- Reference identity of paths: a path carries an `id`, and two paths are the same object exactly when they are equal values.
- Store lookups and `SafeConvert`: properties are fields of the node and relationship values, holding the defaults (0, the empty string) the source substitutes for missing ones.
- Inbound: the source collects with `forEach` on a parallel stream (GraphProcedure.java:61, :71), which keeps no encounter order, into a plain `ArrayList` from several threads. The model fixes the ascending order as one possible outcome; only the multiset of relationships chosen is what the source promises. The race on the list (lost adds, or an exception caught at :75 that returns a partial list) is not modelled.
- Outbound: the same holds for GraphProcedure.java:109, :119 and the handler at :123.
- Expand: inherits the fixed order of `Inbound` and `Outbound`.
- GetTransactions: the lookup at TransactionProcedure.java:27 returns null for a missing account, and what the graph library's traversal then does is outside the model. If it throws, `thrown` holds and the stream is empty. If it yields paths without nodes (which GraphProcedure.java:144-146 and :215 guard against), `NodelessPathsGiveEmptyResult` shows the stream holds one result with empty maps. Which exceptions occur is not modelled: `thrown` is an input, and logging is left out.
- `Java long` overflow of the window bounds (`timestamp + timespan`, `timestamp - timespan`, `timestamp + DAY_RANGE`): the bounds are unbounded integers, so the model does not capture wrap-around for extreme arguments.
- Entry values are integers rather than their decimal string rendering; distinct `long` values render distinctly, so deduplication is the same.
- The iterator and `ResourceIterable` wrappers of `expand` and the expander's `reverse()`: not modelled, they only hand the list through.
- `PathProcedure.java` is not part of this model.

## Findings

| source | as written | input that shows it | evidently intended | confidence | as-written member | corrected member |
|---|---|---|---|---|---|---|
| src/main/java/bitcoin/graph/GraphProcedure.java:159 | the time window's anchor is the frontier node unless the last relationship is an output | a backward trace at an account reached by an input, e.g. an account with no timestamp (default 0) and the input it sent: the window becomes [-timespan, 0] and admits no transaction stamped after 0 | the anchor is the transaction the last relationship touches (`lastTransaction`): the start of an output, the end of an input | medium; not executed; masked because the backward depth limit of 2 (TransactionProcedure.java:29) stops before such a step | GraphProcedure.BackwardInputAnchorsOnAccount | GraphProcedure.AdjacentTransactionIsTransaction |
