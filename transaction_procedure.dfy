/** The aggregation of `TransactionProcedure.getTransactions`.

    The traversal's paths (those its depth evaluator includes) go through
    the selector of `GraphProcedure`; every selected path that ends at an
    account then contributes
    - a "deposit" label for each account on it whose degree exceeds the
      exchange threshold, and
    - for each consecutive pair of its relationships, one input entry and one
      output entry on the record of the transaction the pair passes through.
    Records, inputs and outputs are keyed and deduplicated as the source's
    hash maps and hash sets do. */
module TransactionProcedure {
  import opened GraphModel
  import opened Streams
  import opened GraphProcedure

  const DEPOSIT: string := "deposit"

  /** `{from: address, value: value}`. */
  datatype InputEntry = InputEntry(from: string, value: int)

  /** `{to: address, value: value}`. */
  datatype OutputEntry = OutputEntry(to: string, value: int)

  /** The record kept per transaction. */
  datatype TxRecord = TxRecord(hash: string, timestamp: int, inputs: set<InputEntry>, outputs: set<OutputEntry>)

  /** Records by the transaction's element id. */
  type Transactions = map<nat, TxRecord>

  /** Label sets by account address. */
  type Labels = map<string, set<string>>

  datatype TransactionsAndLabels = TransactionsAndLabels(transactions: Transactions, labels: Labels)

  // ---------------------------------------------------------------------
  // The depth rule and the traversal's output
  // ---------------------------------------------------------------------

  /** The depth evaluator: backwards, paths of at most two relationships;
      forwards, paths of two to fourteen relationships. */
  predicate IncludedDepth(reverse: bool, depth: nat) {
    if reverse then depth <= 2 else 2 <= depth && depth <= 14
  }

  /** The paths the traversal returns: those of the paths it reaches that
      the depth evaluator includes. */
  function Traverse(reached: seq<Path>, reverse: bool): (r: seq<Path>)
    ensures forall p :: p in r ==> p in reached
    ensures reverse ==> forall p :: p in r ==> |p.rels| <= 2
    ensures !reverse ==> forall p :: p in r ==> 2 <= |p.rels| <= 14
    ensures forall p :: p in reached && IncludedDepth(reverse, |p.rels|) ==> p in r
  {
    Filter(reached, (p: Path) => IncludedDepth(reverse, |p.rels|))
  }

  // ---------------------------------------------------------------------
  // Labels
  // ---------------------------------------------------------------------

  /** An account whose degree exceeds the exchange threshold. */
  predicate IsDeposit(n: Node) {
    IsAccount(n) && n.degree > EXCHANGE_THRESHOLD
  }

  /** The labels recorded for `address`, none if it has no entry. */
  function LabelsAt(labels: Labels, address: string): set<string> {
    if address in labels then labels[address] else {}
  }

  /** Records the label of one node. */
  function LabelNode(labels: Labels, n: Node): (r: Labels)
    ensures forall a :: a in r <==> a in labels || (IsDeposit(n) && a == n.address)
    ensures forall a :: LabelsAt(r, a) == LabelsAt(labels, a) + (if IsDeposit(n) && a == n.address then {DEPOSIT} else {})
  {
    if IsDeposit(n) then labels[n.address := LabelsAt(labels, n.address) + {DEPOSIT}] else labels
  }

  /** Records the labels of the nodes of a path, first to last. */
  function LabelNodes(labels: Labels, nodes: seq<Node>): Labels
    decreases |nodes|
  {
    if nodes == [] then labels
    else LabelNode(LabelNodes(labels, nodes[..|nodes| - 1]), nodes[|nodes| - 1])
  }

  /** Every recorded label set is exactly {"deposit"}. */
  predicate DepositsOnly(labels: Labels) {
    forall a :: a in labels ==> labels[a] == {DEPOSIT}
  }

  /** Some deposit account among `nodes` has address `a`. */
  ghost predicate DepositAmong(nodes: seq<Node>, a: string) {
    exists n :: n in nodes && IsDeposit(n) && n.address == a
  }

  /** An account of degree exactly 5000 is not expanded from (its degree is
      not below the threshold) but is not labelled either (its degree does
      not exceed it). */
  lemma ThresholdAccountBlockedButUnlabelled(n: Node, labels: Labels)
    requires IsAccount(n) && n.degree == EXCHANGE_THRESHOLD
    ensures forall g, count, w, now, timeout, dir :: Candidates(g, count, w, n, now, timeout, dir) == []
    ensures LabelNode(labels, n) == labels
  {
  }

  /** Labelling a node sequence adds an entry for `a` exactly when a deposit
      account of that address is among the nodes, and then adds "deposit" to
      it and nothing else. */
  lemma {:induction false} LabelNodesSpec(labels: Labels, nodes: seq<Node>, a: string)
    ensures a in LabelNodes(labels, nodes) <==> a in labels || DepositAmong(nodes, a)
    ensures LabelsAt(LabelNodes(labels, nodes), a)
         == LabelsAt(labels, a) + (if DepositAmong(nodes, a) then {DEPOSIT} else {})
    decreases |nodes|
  {
    if nodes != [] {
      var init, last := nodes[..|nodes| - 1], nodes[|nodes| - 1];
      LabelNodesSpec(labels, init, a);
      assert nodes == init + [last];
      assert DepositAmong(nodes, a) <==> DepositAmong(init, a) || (IsDeposit(last) && last.address == a) by {
        if DepositAmong(nodes, a) {
          var n :| n in nodes && IsDeposit(n) && n.address == a;
          assert n in init || n == last;
        }
      }
    }
  }

  /** Labelling keeps every label set equal to {"deposit"}. */
  lemma LabelNodesDepositsOnly(labels: Labels, nodes: seq<Node>)
    ensures DepositsOnly(labels) ==> DepositsOnly(LabelNodes(labels, nodes))
  {
    if DepositsOnly(labels) {
      forall a | a in LabelNodes(labels, nodes)
        ensures LabelNodes(labels, nodes)[a] == {DEPOSIT}
      {
        LabelNodesSpec(labels, nodes, a);
      }
    }
  }

  // ---------------------------------------------------------------------
  // Relationship pairs
  // ---------------------------------------------------------------------

  /** One processed pair: the account funds come from, the account they go
      to, the transaction in between and the two relationships. */
  datatype Leg = Leg(from: Node, to: Node, txn: Node, input: Edge, output: Edge)

  /** Reads a pair of consecutive relationships. Forwards the first one is
      the input and the second the output; backwards the traversal met them
      in the opposite order, so the roles swap. */
  function Orient(first: Edge, second: Edge, reverse: bool): (l: Leg)
    ensures l.input in {first, second} && l.output in {first, second}
    ensures ConsecutivePair(first, second, reverse) ==> IsTransfer(l)
  {
    if reverse then Leg(second.start, first.end, first.start, second, first)
    else Leg(first.start, second.end, first.end, first, second)
  }

  /** Two consecutive relationships of a path traced in the given direction
      around one transaction: forwards an input into it followed by an
      output out of it, backwards the output first. */
  predicate ConsecutivePair(first: Edge, second: Edge, reverse: bool) {
    if reverse then first.rtype == Output && second.rtype == Input && second.end == first.start
    else first.rtype == Input && second.rtype == Output && first.end == second.start
  }

  /** A leg is a transfer through its transaction: its input enters the
      transaction from `from`, its output leaves it towards `to`. */
  predicate IsTransfer(l: Leg) {
    && l.input.rtype == Input && l.output.rtype == Output
    && l.input.start == l.from && l.input.end == l.txn
    && l.output.start == l.txn && l.output.end == l.to
  }

  /** Orientation reads a pair as a transfer exactly when the pair follows
      the trace direction, in both directions of tracing. */
  lemma OrientReadsTransfer(first: Edge, second: Edge, reverse: bool)
    ensures IsTransfer(Orient(first, second, reverse)) <==> ConsecutivePair(first, second, reverse)
  {
  }

  /** The legs of a path: relationships (0, 1), (2, 3), ... read in pairs; an
      unpaired last relationship is dropped. */
  function Legs(rels: seq<Edge>, reverse: bool): (r: seq<Leg>)
    ensures |r| == |rels| / 2
  {
    seq(|rels| / 2, k requires 0 <= k < |rels| / 2 => Orient(rels[2 * k], rels[2 * k + 1], reverse))
  }

  /** A relationship appended after an even number of relationships is
      unpaired and contributes nothing. */
  lemma TrailingRelationshipIgnored(rels: seq<Edge>, e: Edge, reverse: bool)
    requires |rels| % 2 == 0
    ensures Legs(rels + [e], reverse) == Legs(rels, reverse)
  {
    var longer := rels + [e];
    assert |longer| / 2 == |rels| / 2;
    forall k | 0 <= k < |rels| / 2
      ensures Legs(longer, reverse)[k] == Legs(rels, reverse)[k]
    {
      assert longer[2 * k] == rels[2 * k] && longer[2 * k + 1] == rels[2 * k + 1];
    }
  }

  // ---------------------------------------------------------------------
  // Transaction records
  // ---------------------------------------------------------------------

  /** The input entry a leg adds. */
  function InputOf(l: Leg): InputEntry {
    InputEntry(l.from.address, l.input.value)
  }

  /** The output entry a leg adds. */
  function OutputOf(l: Leg): OutputEntry {
    OutputEntry(l.to.address, l.output.value)
  }

  /** Adds one leg: to the existing record of its transaction, or to a new
      record that takes the transaction's hash and timestamp. */
  function MergeLeg(txs: Transactions, l: Leg): (r: Transactions)
    ensures r.Keys == txs.Keys + {l.txn.id}
    ensures InputOf(l) in r[l.txn.id].inputs && OutputOf(l) in r[l.txn.id].outputs
  {
    var key := l.txn.id;
    if key in txs then
      txs[key := txs[key].(inputs := txs[key].inputs + {InputOf(l)}, outputs := txs[key].outputs + {OutputOf(l)})]
    else
      txs[key := TxRecord(l.txn.hash, l.txn.timestamp, {InputOf(l)}, {OutputOf(l)})]
  }

  /** Every record holds at least one input and one output entry. */
  predicate RecordsNonEmpty(txs: Transactions) {
    forall k :: k in txs ==> txs[k].inputs != {} && txs[k].outputs != {}
  }

  /** Adds legs first to last. */
  function MergeLegs(txs: Transactions, legs: seq<Leg>): (r: Transactions)
    decreases |legs|
  {
    if legs == [] then txs
    else MergeLeg(MergeLegs(txs, legs[..|legs| - 1]), legs[|legs| - 1])
  }

  /** Merging legs removes no record and leaves no record without
      entries. */
  lemma {:induction false} MergeLegsGrows(txs: Transactions, legs: seq<Leg>)
    ensures txs.Keys <= MergeLegs(txs, legs).Keys
    ensures RecordsNonEmpty(txs) ==> RecordsNonEmpty(MergeLegs(txs, legs))
    decreases |legs|
  {
    if legs != [] {
      MergeLegsGrows(txs, legs[..|legs| - 1]);
    }
  }

  /** The input entries recorded for transaction `k`, none if it has no record. */
  function InputsAt(txs: Transactions, k: nat): set<InputEntry> {
    if k in txs then txs[k].inputs else {}
  }

  /** The output entries recorded for transaction `k`, none if it has no record. */
  function OutputsAt(txs: Transactions, k: nat): set<OutputEntry> {
    if k in txs then txs[k].outputs else {}
  }

  /** Some leg passes through transaction `k`. */
  ghost predicate Touches(legs: seq<Leg>, k: nat) {
    exists i :: 0 <= i < |legs| && legs[i].txn.id == k
  }

  /** The input entries of the legs through transaction `k`. */
  ghost function LegInputs(legs: seq<Leg>, k: nat): set<InputEntry> {
    set i | 0 <= i < |legs| && legs[i].txn.id == k :: InputOf(legs[i])
  }

  /** The output entries of the legs through transaction `k`. */
  ghost function LegOutputs(legs: seq<Leg>, k: nat): set<OutputEntry> {
    set i | 0 <= i < |legs| && legs[i].txn.id == k :: OutputOf(legs[i])
  }

  /** The number of legs through transaction `k`. */
  function LegCount(legs: seq<Leg>, k: nat): nat {
    if legs == [] then 0
    else LegCount(legs[..|legs| - 1], k) + (if legs[|legs| - 1].txn.id == k then 1 else 0)
  }

  /** What merging one leg does to transaction `k`. */
  lemma MergeLegEffect(txs: Transactions, l: Leg, k: nat)
    ensures k in MergeLeg(txs, l) <==> k in txs || l.txn.id == k
    ensures InputsAt(MergeLeg(txs, l), k) == InputsAt(txs, k) + (if l.txn.id == k then {InputOf(l)} else {})
    ensures OutputsAt(MergeLeg(txs, l), k) == OutputsAt(txs, k) + (if l.txn.id == k then {OutputOf(l)} else {})
    ensures k in txs ==>
      MergeLeg(txs, l)[k].hash == txs[k].hash && MergeLeg(txs, l)[k].timestamp == txs[k].timestamp
    ensures k !in txs && l.txn.id == k ==>
      MergeLeg(txs, l)[k].hash == l.txn.hash && MergeLeg(txs, l)[k].timestamp == l.txn.timestamp
    ensures l.txn.id != k && k in txs ==> MergeLeg(txs, l)[k] == txs[k]
  {
  }

  /** Splits a non-empty leg sequence into its front and its last leg. */
  lemma TouchesSnoc(legs: seq<Leg>, k: nat)
    requires legs != []
    ensures Touches(legs, k) <==> Touches(legs[..|legs| - 1], k) || legs[|legs| - 1].txn.id == k
  {
    var init := legs[..|legs| - 1];
    if Touches(legs, k) {
      var i :| 0 <= i < |legs| && legs[i].txn.id == k;
      if i < |init| { assert init[i] == legs[i]; }
    }
    if Touches(init, k) {
      var i :| 0 <= i < |init| && init[i].txn.id == k;
      assert legs[i] == init[i];
    }
  }

  lemma LegInputsSnoc(legs: seq<Leg>, k: nat)
    requires legs != []
    ensures LegInputs(legs, k) == LegInputs(legs[..|legs| - 1], k)
      + (if legs[|legs| - 1].txn.id == k then {InputOf(legs[|legs| - 1])} else {})
  {
    var init := legs[..|legs| - 1];
    forall x | x in LegInputs(legs, k)
      ensures x in LegInputs(init, k) + (if legs[|legs| - 1].txn.id == k then {InputOf(legs[|legs| - 1])} else {})
    {
      var i :| 0 <= i < |legs| && legs[i].txn.id == k && InputOf(legs[i]) == x;
      if i < |init| { assert init[i] == legs[i]; }
    }
    forall x | x in LegInputs(init, k)
      ensures x in LegInputs(legs, k)
    {
      var i :| 0 <= i < |init| && init[i].txn.id == k && InputOf(init[i]) == x;
      assert legs[i] == init[i];
    }
  }

  lemma LegOutputsSnoc(legs: seq<Leg>, k: nat)
    requires legs != []
    ensures LegOutputs(legs, k) == LegOutputs(legs[..|legs| - 1], k)
      + (if legs[|legs| - 1].txn.id == k then {OutputOf(legs[|legs| - 1])} else {})
  {
    var init := legs[..|legs| - 1];
    forall x | x in LegOutputs(legs, k)
      ensures x in LegOutputs(init, k) + (if legs[|legs| - 1].txn.id == k then {OutputOf(legs[|legs| - 1])} else {})
    {
      var i :| 0 <= i < |legs| && legs[i].txn.id == k && OutputOf(legs[i]) == x;
      if i < |init| { assert init[i] == legs[i]; }
    }
    forall x | x in LegOutputs(init, k)
      ensures x in LegOutputs(legs, k)
    {
      var i :| 0 <= i < |init| && init[i].txn.id == k && OutputOf(init[i]) == x;
      assert legs[i] == init[i];
    }
  }

  /** A record exists after merging legs exactly when one existed before or
      a leg passes through its transaction. */
  lemma {:induction false} MergeLegsKeys(txs: Transactions, legs: seq<Leg>, k: nat)
    ensures k in MergeLegs(txs, legs) <==> k in txs || Touches(legs, k)
    decreases |legs|
  {
    if legs != [] {
      var init := legs[..|legs| - 1];
      MergeLegsKeys(txs, init, k);
      TouchesSnoc(legs, k);
      MergeLegEffect(MergeLegs(txs, init), legs[|legs| - 1], k);
    }
  }

  /** After merging legs, the entries of transaction `k` are the old ones
      plus those of the legs through `k`, as sets. */
  lemma {:induction false} MergeLegsEntries(txs: Transactions, legs: seq<Leg>, k: nat)
    ensures InputsAt(MergeLegs(txs, legs), k) == InputsAt(txs, k) + LegInputs(legs, k)
    ensures OutputsAt(MergeLegs(txs, legs), k) == OutputsAt(txs, k) + LegOutputs(legs, k)
    decreases |legs|
  {
    if legs != [] {
      var init := legs[..|legs| - 1];
      MergeLegsEntries(txs, init, k);
      LegInputsSnoc(legs, k);
      LegOutputsSnoc(legs, k);
      MergeLegEffect(MergeLegs(txs, init), legs[|legs| - 1], k);
    }
  }

  /** An existing record keeps its hash and timestamp, and a record no leg
      passes through is unchanged. */
  lemma {:induction false} MergeLegsKeepsRecords(txs: Transactions, legs: seq<Leg>, k: nat)
    requires k in txs
    ensures k in MergeLegs(txs, legs)
    ensures MergeLegs(txs, legs)[k].hash == txs[k].hash
    ensures MergeLegs(txs, legs)[k].timestamp == txs[k].timestamp
    ensures !Touches(legs, k) ==> MergeLegs(txs, legs)[k] == txs[k]
    decreases |legs|
  {
    if legs != [] {
      var init := legs[..|legs| - 1];
      MergeLegsKeepsRecords(txs, init, k);
      TouchesSnoc(legs, k);
      MergeLegEffect(MergeLegs(txs, init), legs[|legs| - 1], k);
    }
  }

  /** A record created by merging takes the hash and timestamp of the first
      leg through its transaction. */
  lemma {:induction false} NewRecordFromFirstLeg(txs: Transactions, legs: seq<Leg>, k: nat)
    requires k !in txs && Touches(legs, k)
    ensures k in MergeLegs(txs, legs)
    ensures exists i :: 0 <= i < |legs| && legs[i].txn.id == k
                        && (forall j :: 0 <= j < i ==> legs[j].txn.id != k)
                        && MergeLegs(txs, legs)[k].hash == legs[i].txn.hash
                        && MergeLegs(txs, legs)[k].timestamp == legs[i].txn.timestamp
    decreases |legs|
  {
    var init, last := legs[..|legs| - 1], legs[|legs| - 1];
    MergeLegsKeys(txs, legs, k);
    MergeLegsKeys(txs, init, k);
    TouchesSnoc(legs, k);
    var before := MergeLegs(txs, init);
    MergeLegEffect(before, last, k);
    if Touches(init, k) {
      NewRecordFromFirstLeg(txs, init, k);
      var i :| 0 <= i < |init| && init[i].txn.id == k
               && (forall j :: 0 <= j < i ==> init[j].txn.id != k)
               && before[k].hash == init[i].txn.hash
               && before[k].timestamp == init[i].txn.timestamp;
      assert legs[i] == init[i];
      assert forall j :: 0 <= j < i ==> legs[j] == init[j];
    } else {
      forall j | 0 <= j < |init|
        ensures legs[j].txn.id != k
      {
        assert legs[j] == init[j];
      }
      assert legs[|legs| - 1] == last;
    }
  }

  /** A record has at most as many input (and output) entries as it had
      plus the number of legs merged into it. */
  lemma {:induction false} EntriesBoundedByLegs(txs: Transactions, legs: seq<Leg>, k: nat)
    ensures |InputsAt(MergeLegs(txs, legs), k)| <= |InputsAt(txs, k)| + LegCount(legs, k)
    ensures |OutputsAt(MergeLegs(txs, legs), k)| <= |OutputsAt(txs, k)| + LegCount(legs, k)
    decreases |legs|
  {
    if legs != [] {
      var init, last := legs[..|legs| - 1], legs[|legs| - 1];
      EntriesBoundedByLegs(txs, init, k);
      var before := MergeLegs(txs, init);
      MergeLegEffect(before, last, k);
      if last.txn.id == k {
        var ins := InputsAt(before, k);
        var outs := OutputsAt(before, k);
        assert |ins + {InputOf(last)}| <= |ins| + 1;
        assert |outs + {OutputOf(last)}| <= |outs| + 1;
      }
    }
  }

  /** Merging a leg whose entries its transaction's record already holds
      changes nothing: an identical entry reached again is not duplicated. */
  lemma MergeLegAbsorbed(txs: Transactions, l: Leg)
    requires l.txn.id in txs
    requires InputOf(l) in txs[l.txn.id].inputs && OutputOf(l) in txs[l.txn.id].outputs
    ensures MergeLeg(txs, l) == txs
  {
    var r := txs[l.txn.id];
    assert r.inputs + {InputOf(l)} == r.inputs;
    assert r.outputs + {OutputOf(l)} == r.outputs;
    assert r.(inputs := r.inputs, outputs := r.outputs) == r;
  }

  /** Merging the same legs twice gives what merging them once gives. */
  lemma MergeLegsIdempotent(txs: Transactions, legs: seq<Leg>)
    ensures MergeLegs(MergeLegs(txs, legs), legs) == MergeLegs(txs, legs)
  {
    var once := MergeLegs(txs, legs);
    var twice := MergeLegs(once, legs);
    forall k
      ensures k in twice <==> k in once
    {
      MergeLegsKeys(once, legs, k);
      MergeLegsKeys(txs, legs, k);
    }
    forall k | k in once
      ensures twice[k] == once[k]
    {
      MergeLegsKeepsRecords(once, legs, k);
      MergeLegsEntries(once, legs, k);
      MergeLegsEntries(txs, legs, k);
      assert InputsAt(twice, k) == InputsAt(once, k);
      assert OutputsAt(twice, k) == OutputsAt(once, k);
    }
  }

  /** Merging `a + b` is merging `a`, then `b`. */
  lemma {:induction false} MergeLegsAppend(txs: Transactions, a: seq<Leg>, b: seq<Leg>)
    ensures MergeLegs(txs, a + b) == MergeLegs(MergeLegs(txs, a), b)
    decreases |b|
  {
    if b == [] {
      assert a + b == a;
    } else {
      assert (a + b)[..|a + b| - 1] == a + b[..|b| - 1];
      assert (a + b)[|a + b| - 1] == b[|b| - 1];
      MergeLegsAppend(txs, a, b[..|b| - 1]);
    }
  }

  // ---------------------------------------------------------------------
  // Paths
  // ---------------------------------------------------------------------

  /** A path adds to the result only when it ends at an account. */
  predicate Contributes(p: Path) {
    p.nodes != [] && IsAccount(Frontier(p))
  }

  /** The body of the per-path loop. */
  function AbsorbPath(s: TransactionsAndLabels, p: Path, reverse: bool): (r: TransactionsAndLabels)
    ensures !Contributes(p) ==> r == s
    ensures s.transactions.Keys <= r.transactions.Keys
    ensures RecordsNonEmpty(s.transactions) ==> RecordsNonEmpty(r.transactions)
    ensures DepositsOnly(s.labels) ==> DepositsOnly(r.labels)
  {
    LabelNodesDepositsOnly(s.labels, p.nodes);
    MergeLegsGrows(s.transactions, Legs(p.rels, reverse));
    if Contributes(p) then
      TransactionsAndLabels(MergeLegs(s.transactions, Legs(p.rels, reverse)), LabelNodes(s.labels, p.nodes))
    else s
  }

  /** The result built from the selected paths, first to last. */
  function Aggregate(paths: seq<Path>, reverse: bool): (r: TransactionsAndLabels)
    ensures RecordsNonEmpty(r.transactions)
    ensures DepositsOnly(r.labels)
    decreases |paths|
  {
    if paths == [] then TransactionsAndLabels(map[], map[])
    else AbsorbPath(Aggregate(paths[..|paths| - 1], reverse), paths[|paths| - 1], reverse)
  }

  /** Aggregating the prefix one path longer absorbs that path last. */
  lemma AggregatePrefixStep(paths: seq<Path>, k: nat, reverse: bool)
    requires k < |paths|
    ensures Aggregate(paths[..k + 1], reverse) == AbsorbPath(Aggregate(paths[..k], reverse), paths[k], reverse)
  {
    assert paths[..k + 1][..k] == paths[..k];
  }

  /** The legs of the contributing paths, concatenated in path order. */
  function AllLegs(paths: seq<Path>, reverse: bool): seq<Leg>
    decreases |paths|
  {
    if paths == [] then []
    else
      var last := paths[|paths| - 1];
      AllLegs(paths[..|paths| - 1], reverse) + (if Contributes(last) then Legs(last.rels, reverse) else [])
  }

  /** The transaction records are the legs of the contributing paths merged
      into an empty map: paths that do not end at an account add nothing. */
  lemma {:induction false} AggregateTransactions(paths: seq<Path>, reverse: bool)
    ensures Aggregate(paths, reverse).transactions == MergeLegs(map[], AllLegs(paths, reverse))
    decreases |paths|
  {
    if paths != [] {
      var init, last := paths[..|paths| - 1], paths[|paths| - 1];
      AggregateTransactions(init, reverse);
      var before := Aggregate(init, reverse);
      if Contributes(last) {
        assert Aggregate(paths, reverse).transactions == MergeLegs(before.transactions, Legs(last.rels, reverse));
        assert AllLegs(paths, reverse) == AllLegs(init, reverse) + Legs(last.rels, reverse);
        MergeLegsAppend(map[], AllLegs(init, reverse), Legs(last.rels, reverse));
      } else {
        assert Aggregate(paths, reverse) == before;
        assert AllLegs(paths, reverse) == AllLegs(init, reverse) + [] == AllLegs(init, reverse);
      }
    }
  }

  /** Some contributing path holds a deposit account of address `a`. */
  ghost predicate LabelledBy(paths: seq<Path>, a: string) {
    exists p :: p in paths && Contributes(p) && DepositAmong(p.nodes, a)
  }

  /** Splits the paths into their front and their last path. */
  lemma LabelledBySnoc(paths: seq<Path>, a: string)
    requires paths != []
    ensures LabelledBy(paths, a) <==>
      (LabelledBy(paths[..|paths| - 1], a) || (Contributes(paths[|paths| - 1]) && DepositAmong(paths[|paths| - 1].nodes, a)))
  {
    var init, last := paths[..|paths| - 1], paths[|paths| - 1];
    assert paths == init + [last];
    if LabelledBy(paths, a) {
      var p :| p in paths && Contributes(p) && DepositAmong(p.nodes, a);
      assert p in init || p == last;
    }
  }

  /** `a` has a label entry exactly when an account of that address with a
      degree above the exchange threshold lies on a path that ends at an
      account, and the entry is then exactly {"deposit"}. */
  lemma {:induction false} AggregateLabels(paths: seq<Path>, reverse: bool, a: string)
    ensures a in Aggregate(paths, reverse).labels <==> LabelledBy(paths, a)
    ensures a in Aggregate(paths, reverse).labels ==> Aggregate(paths, reverse).labels[a] == {DEPOSIT}
    decreases |paths|
  {
    if paths != [] {
      var init, last := paths[..|paths| - 1], paths[|paths| - 1];
      AggregateLabels(init, reverse, a);
      var before := Aggregate(init, reverse).labels;
      LabelledBySnoc(paths, a);
      if Contributes(last) {
        LabelNodesSpec(before, last.nodes, a);
      }
    }
  }

  /** Absorbing the same path a second time changes nothing. */
  lemma AbsorbPathIdempotent(s: TransactionsAndLabels, p: Path, reverse: bool)
    ensures AbsorbPath(AbsorbPath(s, p, reverse), p, reverse) == AbsorbPath(s, p, reverse)
  {
    if Contributes(p) {
      MergeLegsIdempotent(s.transactions, Legs(p.rels, reverse));
      var once := LabelNodes(s.labels, p.nodes);
      var twice := LabelNodes(once, p.nodes);
      forall a
        ensures a in twice <==> a in once
      {
        LabelNodesSpec(once, p.nodes, a);
        LabelNodesSpec(s.labels, p.nodes, a);
      }
      forall a | a in once
        ensures twice[a] == once[a]
      {
        LabelNodesSpec(once, p.nodes, a);
        LabelNodesSpec(s.labels, p.nodes, a);
        assert LabelsAt(twice, a) == LabelsAt(once, a);
      }
    }
  }

  // ---------------------------------------------------------------------
  // getTransactions
  // ---------------------------------------------------------------------

  /** The loop over a path's nodes: adds "deposit" to the label set of every
      account whose degree exceeds the exchange threshold. */
  method LabelAccounts(labels: Labels, nodes: seq<Node>) returns (updated: Labels)
    ensures updated == LabelNodes(labels, nodes)
  {
    updated := labels;
    var i := 0;
    while i < |nodes|
      invariant 0 <= i <= |nodes|
      invariant updated == LabelNodes(labels, nodes[..i])
    {
      var node := nodes[i];
      assert nodes[..i + 1][..i] == nodes[..i];
      assert LabelNodes(labels, nodes[..i + 1]) == LabelNode(updated, node);
      ghost var next := LabelNode(updated, node);
      i := i + 1;
      if IsAccount(node) {
        var address := node.address;
        var nodeLabel: Option<string> := if node.degree > EXCHANGE_THRESHOLD then Some(DEPOSIT) else None;
        if nodeLabel.None? {
          assert !IsDeposit(node);
          continue;
        }
        assert IsDeposit(node) && nodeLabel.value == DEPOSIT;
        assert next == updated[address := LabelsAt(updated, address) + {DEPOSIT}];
        if address in updated {
          updated := updated[address := updated[address] + {nodeLabel.value}];
        } else {
          assert LabelsAt(updated, address) + {DEPOSIT} == {DEPOSIT};
          updated := updated[address := {nodeLabel.value}];
        }
        assert updated == next;
      }
      assert updated == next;
    }
    assert nodes[..i] == nodes;
  }

  /** The loop over a path's relationships: takes them two at a time, stops
      at an unpaired last one, and merges each pair into the record of its
      transaction. */
  method MergeRelationships(transactions: Transactions, rels: seq<Edge>, reverse: bool) returns (updated: Transactions)
    ensures updated == MergeLegs(transactions, Legs(rels, reverse))
  {
    ghost var legs := Legs(rels, reverse);
    ghost var k := 0;
    updated := transactions;
    var i := 0;
    while i < |rels|
      invariant 0 <= i <= |rels| && i == 2 * k
      invariant updated == MergeLegs(transactions, legs[..k])
    {
      var firstRel := rels[i];
      if i + 1 == |rels| {
        i := i + 1;
        break;
      }
      var secondRel := rels[i + 1];
      ghost var before := updated;
      LegAt(rels, reverse, k);
      MergeLegsPrefixStep(transactions, legs, k);
      i := i + 2;
      k := k + 1;
      var from, to, transaction, input, output;
      if reverse {
        from, to, transaction, input, output := secondRel.start, firstRel.end, firstRel.start, secondRel, firstRel;
      } else {
        from, to, transaction, input, output := firstRel.start, secondRel.end, firstRel.end, firstRel, secondRel;
      }
      ghost var leg := Leg(from, to, transaction, input, output);
      assert leg == Orient(firstRel, secondRel, reverse);
      var hash := transaction.hash;
      var timestamp := transaction.timestamp;
      var inputEntry := InputEntry(from.address, input.value);
      var outputEntry := OutputEntry(to.address, output.value);
      MergeLegCases(before, leg);
      if transaction.id in updated {
        var existing := updated[transaction.id];
        updated := updated[transaction.id := existing.(inputs := existing.inputs + {inputEntry},
                                                       outputs := existing.outputs + {outputEntry})];
      } else {
        updated := updated[transaction.id := TxRecord(hash, timestamp, {inputEntry}, {outputEntry})];
      }
      assert updated == MergeLeg(before, leg);
    }
    assert k == |legs|;
    assert legs[..k] == legs;
  }

  /** The two cases of merging one leg, spelled out. */
  lemma MergeLegCases(txs: Transactions, l: Leg)
    ensures l.txn.id in txs ==>
      MergeLeg(txs, l) == txs[l.txn.id := txs[l.txn.id].(inputs := txs[l.txn.id].inputs + {InputOf(l)},
                                                        outputs := txs[l.txn.id].outputs + {OutputOf(l)})]
    ensures l.txn.id !in txs ==>
      MergeLeg(txs, l) == txs[l.txn.id := TxRecord(l.txn.hash, l.txn.timestamp, {InputOf(l)}, {OutputOf(l)})]
  {
  }

  /** Merging the prefix one leg longer merges that leg last. */
  lemma MergeLegsPrefixStep(txs: Transactions, legs: seq<Leg>, k: nat)
    requires k < |legs|
    ensures MergeLegs(txs, legs[..k + 1]) == MergeLeg(MergeLegs(txs, legs[..k]), legs[k])
  {
    assert legs[..k + 1][..k] == legs[..k];
  }

  /** Pair `k` of a path is read from its relationships `2k` and `2k + 1`. */
  lemma LegAt(rels: seq<Edge>, reverse: bool, k: nat)
    requires 2 * k + 1 < |rels|
    ensures k < |Legs(rels, reverse)|
    ensures Legs(rels, reverse)[k] == Orient(rels[2 * k], rels[2 * k + 1], reverse)
  {
  }

  /** `getTransactions` from the traversal on: `reached` holds the paths the
      traversal reaches from the start account, and `thrown` says whether a
      call in the handler's scope raised an exception (the start lookup
      finding more than one account, or the traversal failing), in which
      case the handler returns an empty stream; otherwise the stream holds
      one result. */
  method GetTransactions(thrown: bool, reached: seq<Path>, render: Path -> string, reverse: bool)
    returns (stream: seq<TransactionsAndLabels>)
    ensures thrown ==> stream == []
    ensures !thrown ==> stream == [Aggregate(UniqueLongest(Traverse(reached, reverse), render), reverse)]
  {
    if thrown {
      return [];
    }
    var allPaths := Traverse(reached, reverse);
    var uniqueLongestPaths := GetUniqueLongestPaths(allPaths, render);
    var transactions: Transactions := map[];
    var labels: Labels := map[];
    var k := 0;
    while k < |uniqueLongestPaths|
      invariant 0 <= k <= |uniqueLongestPaths|
      invariant TransactionsAndLabels(transactions, labels) == Aggregate(uniqueLongestPaths[..k], reverse)
    {
      var path := uniqueLongestPaths[k];
      AggregatePrefixStep(uniqueLongestPaths, k, reverse);
      assert path in uniqueLongestPaths;
      if IsAccount(Frontier(path)) {
        labels := LabelAccounts(labels, path.nodes);
        transactions := MergeRelationships(transactions, path.rels, reverse);
      }
      k := k + 1;
    }
    assert uniqueLongestPaths[..k] == uniqueLongestPaths;
    stream := [TransactionsAndLabels(transactions, labels)];
  }

  /** Paths without nodes contribute nothing: when every reached path lacks
      nodes (as a traversal from an absent start account would yield), the
      result holds no records and no labels. */
  lemma NodelessPathsGiveEmptyResult(reached: seq<Path>, render: Path -> string, reverse: bool)
    requires forall p :: p in reached ==> p.nodes == []
    ensures Aggregate(UniqueLongest(Traverse(reached, reverse), render), reverse) == TransactionsAndLabels(map[], map[])
  {
    assert UniqueLongest(Traverse(reached, reverse), render) == [];
  }
}
