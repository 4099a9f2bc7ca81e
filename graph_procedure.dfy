/** The fund-flow expander and the path selector of `GraphProcedure`.

    The expander is called by the breadth-first traversal once per partial
    path. It recomputes a time window and a value window from the last
    relationship of the path, then picks the relationships to follow from
    the path's last node (`inbound` when tracing backwards, `outbound` when
    tracing forwards): hub accounts are dead ends, account frontiers are
    filtered on the adjacent transaction, transaction frontiers on the
    relationship's own value, and the survivors are ordered by that key and
    cut to `maxRelationshipCount`. The wall-clock reading is the parameter
    `now`; the deadline is `timeout`.

    The selector keeps a path unless another path, at least as long, has a
    rendering that contains its own. The rendering (`Path.toString()` of the
    graph library) is the parameter `render`. */
module GraphProcedure {
  import opened GraphModel
  import opened Streams
  import opened Text

  const EXCHANGE_THRESHOLD: int := 5000
  const MAX_SEARCH_TIME: int := 10000
  const DAY_RANGE: int := 86400

  /** The arguments of `createExpander`, as the procedures receive them. */
  datatype Query = Query(
    timespan: Long,
    maxRelationshipCount: Long,
    timestamp: Long,
    minValue: Long,
    maxValue: Long,
    reverse: bool)

  /** The bounds one expansion step admits, all inclusive. */
  datatype Window = Window(minTimestamp: int, maxTimestamp: int, minValue: int, maxValue: int)

  /** Java's `v / 10` on a `long`: the quotient truncated toward zero. */
  function Div10(v: Long): (q: Long)
    ensures 0 <= v ==> 0 <= v - 10 * q < 10
    ensures v < 0 ==> -10 < v - 10 * q <= 0
  {
    if v >= 0 then v / 10 else -((-(v as int)) / 10)
  }

  // ---------------------------------------------------------------------
  // inbound / outbound
  // ---------------------------------------------------------------------

  /** The filter an account frontier applies to the transaction at the far
      end of a candidate relationship. */
  predicate TransactionInWindow(w: Window, t: Node) {
    && w.minTimestamp <= t.timestamp <= w.maxTimestamp
    && w.minValue <= t.inputValue <= w.maxValue
  }

  /** The filter a transaction frontier applies to a candidate relationship. */
  predicate ValueInWindow(w: Window, e: Edge) {
    w.minValue <= e.value <= w.maxValue
  }

  /** The relationship type followed from an account: `outbound` follows the
      account's outgoing inputs, `inbound` its incoming outputs. */
  function AccountRelType(dir: Direction): RelType {
    match dir
    case Outgoing => Input
    case Incoming => Output
  }

  /** The relationship type followed from a transaction: `outbound` follows
      its outgoing outputs, `inbound` its incoming inputs. */
  function TransactionRelType(dir: Direction): RelType {
    match dir
    case Outgoing => Output
    case Incoming => Input
  }

  /** The candidates of an account frontier that pass the filter. */
  function AccountCandidates(g: Graph, n: Node, dir: Direction, w: Window): seq<Edge> {
    Filter(Relationships(g, n, dir, AccountRelType(dir)), e => TransactionInWindow(w, OtherNode(e, n)))
  }

  /** The candidates of a transaction frontier that pass the filter. */
  function TransactionCandidates(g: Graph, n: Node, dir: Direction, w: Window): seq<Edge> {
    Filter(Relationships(g, n, dir, TransactionRelType(dir)), e => ValueInWindow(w, e))
  }

  /** The sort key of an account frontier: the far-end transaction's timestamp. */
  function TimestampKey(n: Node): Edge -> int {
    (e: Edge) => OtherNode(e, n).timestamp as int
  }

  /** The sort key of a transaction frontier: the relationship's value. */
  function ValueKey(): Edge -> int {
    (e: Edge) => e.value as int
  }

  /** `sorted(key).limit(count)` followed by collecting into the result
      list. `limit` throws on a negative count before anything is collected,
      and the handler then returns the empty list. */
  function SortedLimited(s: seq<Edge>, key: Edge -> int, count: Long): (r: seq<Edge>)
    ensures count < 0 ==> r == []
    ensures count >= 0 ==> FirstByKey(r, s, key, count)
  {
    if count < 0 then [] else SortLimit(s, key, count)
  }

  /** The pipeline `inbound` and `outbound` share, in direction `dir`. */
  function Candidates(g: Graph, count: Long, w: Window, n: Node, now: int, timeout: int, dir: Direction): (r: seq<Edge>)
    ensures now > timeout ==> r == []
    ensures IsAccount(n) && n.degree >= EXCHANGE_THRESHOLD ==> r == []
    ensures !IsAccount(n) && !IsTransaction(n) ==> r == []
    ensures count < 0 ==> r == []
    ensures IsAccount(n) ==> multiset(r) <= multiset(AccountCandidates(g, n, dir, w))
    ensures !IsAccount(n) ==> multiset(r) <= multiset(TransactionCandidates(g, n, dir, w))
    ensures now <= timeout && count >= 0 && IsAccount(n) && n.degree < EXCHANGE_THRESHOLD ==>
      FirstByKey(r, AccountCandidates(g, n, dir, w), TimestampKey(n), count)
    ensures now <= timeout && count >= 0 && !IsAccount(n) && IsTransaction(n) ==>
      FirstByKey(r, TransactionCandidates(g, n, dir, w), ValueKey(), count)
  {
    if now > timeout then []
    else if IsAccount(n) then
      if n.degree < EXCHANGE_THRESHOLD then
        SortedLimited(AccountCandidates(g, n, dir, w), TimestampKey(n), count)
      else []
    else if IsTransaction(n) then
      SortedLimited(TransactionCandidates(g, n, dir, w), ValueKey(), count)
    else []
  }

  /** Every relationship the pipeline yields is attached to `n` in
      direction `dir`, has the type followed from `n`'s kind and passes that
      kind's filter. */
  lemma CandidatesSound(g: Graph, count: Long, w: Window, n: Node, now: int, timeout: int, dir: Direction)
    ensures forall e :: e in Candidates(g, count, w, n, now, timeout, dir) ==>
      && e in g && Attached(e, n, dir)
      && (IsAccount(n) ==> e.rtype == AccountRelType(dir) && TransactionInWindow(w, OtherNode(e, n)))
      && (!IsAccount(n) ==> e.rtype == TransactionRelType(dir) && ValueInWindow(w, e))
  {
    var r := Candidates(g, count, w, n, now, timeout, dir);
    forall e | e in r
      ensures e in g && Attached(e, n, dir)
      ensures IsAccount(n) ==> e.rtype == AccountRelType(dir) && TransactionInWindow(w, OtherNode(e, n))
      ensures !IsAccount(n) ==> e.rtype == TransactionRelType(dir) && ValueInWindow(w, e)
    {
      assert e in multiset(r);
      if IsAccount(n) {
        assert e in AccountCandidates(g, n, dir, w);
      } else {
        assert e in TransactionCandidates(g, n, dir, w);
      }
    }
  }

  /** The pipeline yields at most `count` relationships. */
  lemma CandidatesCount(g: Graph, count: Long, w: Window, n: Node, now: int, timeout: int, dir: Direction)
    ensures count >= 0 ==> |Candidates(g, count, w, n, now, timeout, dir)| <= count
  {
  }

  /** `inbound`: the relationships that lead backwards from `n`. */
  function Inbound(g: Graph, count: Long, w: Window, n: Node, now: int, timeout: int): (r: seq<Edge>)
    ensures now > timeout ==> r == []
    ensures IsAccount(n) && n.degree >= EXCHANGE_THRESHOLD ==> r == []
    ensures !IsAccount(n) && !IsTransaction(n) ==> r == []
    ensures count < 0 ==> r == []
    ensures count >= 0 ==> |r| <= count
    ensures IsAccount(n) ==> forall e :: e in r ==>
      e in g && e.end == n && e.rtype == Output && TransactionInWindow(w, OtherNode(e, n))
    ensures !IsAccount(n) ==> forall e :: e in r ==>
      e in g && e.end == n && e.rtype == Input && ValueInWindow(w, e)
    ensures now <= timeout && count >= 0 && IsAccount(n) && n.degree < EXCHANGE_THRESHOLD ==>
      FirstByKey(r, AccountCandidates(g, n, Incoming, w), TimestampKey(n), count)
    ensures now <= timeout && count >= 0 && !IsAccount(n) && IsTransaction(n) ==>
      FirstByKey(r, TransactionCandidates(g, n, Incoming, w), ValueKey(), count)
  {
    CandidatesSound(g, count, w, n, now, timeout, Incoming);
    CandidatesCount(g, count, w, n, now, timeout, Incoming);
    Candidates(g, count, w, n, now, timeout, Incoming)
  }

  /** `outbound`: the relationships that lead forwards from `n`. */
  function Outbound(g: Graph, count: Long, w: Window, n: Node, now: int, timeout: int): (r: seq<Edge>)
    ensures now > timeout ==> r == []
    ensures IsAccount(n) && n.degree >= EXCHANGE_THRESHOLD ==> r == []
    ensures !IsAccount(n) && !IsTransaction(n) ==> r == []
    ensures count < 0 ==> r == []
    ensures count >= 0 ==> |r| <= count
    ensures IsAccount(n) ==> forall e :: e in r ==>
      e in g && e.start == n && e.rtype == Input && TransactionInWindow(w, OtherNode(e, n))
    ensures !IsAccount(n) ==> forall e :: e in r ==>
      e in g && e.start == n && e.rtype == Output && ValueInWindow(w, e)
    ensures now <= timeout && count >= 0 && IsAccount(n) && n.degree < EXCHANGE_THRESHOLD ==>
      FirstByKey(r, AccountCandidates(g, n, Outgoing, w), TimestampKey(n), count)
    ensures now <= timeout && count >= 0 && !IsAccount(n) && IsTransaction(n) ==>
      FirstByKey(r, TransactionCandidates(g, n, Outgoing, w), ValueKey(), count)
  {
    CandidatesSound(g, count, w, n, now, timeout, Outgoing);
    CandidatesCount(g, count, w, n, now, timeout, Outgoing);
    Candidates(g, count, w, n, now, timeout, Outgoing)
  }

  // ---------------------------------------------------------------------
  // expand
  // ---------------------------------------------------------------------

  /** The anchor the source computes for the next time window: the start of
      the last relationship when that is an output (the transaction it
      leaves), otherwise the frontier node itself. Forwards the frontier is
      then the transaction the input entered; backwards it is the account
      the input left (see `BackwardInputAnchorsOnAccount`). */
  function ReferenceNode(last: Edge, frontier: Node): (r: Node)
    ensures last.rtype == Output ==> r == AdjacentTransaction(last)
    ensures last.rtype != Output ==> r == frontier
  {
    if last.rtype == Output then last.start else frontier
  }

  /** The transaction a relationship touches: the start of an output, the
      end of an input. This is the anchor the step window uses. */
  function AdjacentTransaction(rel: Edge): Node {
    if rel.rtype == Output then rel.start else rel.end
  }

  /** The window of a later step, anchored at `anchor`: `timespan` after
      (forwards) or before (backwards) its timestamp, and at least a tenth of
      the last relationship's value, with no upper value bound beyond
      `Long.MAX_VALUE`. */
  function LaterWindow(q: Query, rel: Edge, anchor: Node): Window {
    var t := anchor.timestamp;
    if q.reverse then Window(t - q.timespan, t, Div10(rel.value), MAX_LONG)
    else Window(t, t + q.timespan, Div10(rel.value), MAX_LONG)
  }

  /** The windows of one step. The first step spans one day from the query's
      start timestamp and uses the query's value bounds; every later step
      spans `timespan` from the transaction the last relationship touches,
      forwards or backwards, and admits at least a tenth of that
      relationship's value. */
  function StepWindow(q: Query, last: Option<Edge>): (w: Window)
    ensures last.None? ==>
      && w.minTimestamp == q.timestamp && w.maxTimestamp - w.minTimestamp == DAY_RANGE
      && w.minValue == q.minValue && w.maxValue == q.maxValue
    ensures last.Some? ==>
      && w.maxTimestamp - w.minTimestamp == q.timespan
      && (if q.reverse then w.maxTimestamp else w.minTimestamp) == AdjacentTransaction(last.value).timestamp
      && w.minValue == Div10(last.value.value) && w.maxValue == MAX_LONG
  {
    match last
    case None => Window(q.timestamp, q.timestamp + DAY_RANGE, q.minValue, q.maxValue)
    case Some(rel) => LaterWindow(q, rel, AdjacentTransaction(rel))
  }

  /** The windows of one step as line 159 is written: a later step is
      anchored at `ReferenceNode`. */
  function AsWrittenStepWindow(q: Query, last: Option<Edge>, frontier: Node): (w: Window)
    ensures last.None? ==> w == StepWindow(q, last)
    ensures last.Some? ==>
      && w.maxTimestamp - w.minTimestamp == q.timespan
      && (if q.reverse then w.maxTimestamp else w.minTimestamp) == ReferenceNode(last.value, frontier).timestamp
      && w.minValue == Div10(last.value.value) && w.maxValue == MAX_LONG
  {
    match last
    case None => StepWindow(q, None)
    case Some(rel) => LaterWindow(q, rel, ReferenceNode(rel, frontier))
  }

  /** `p` runs along its relationships in the trace direction: forwards each
      relationship leaves the node before it, backwards each enters it. */
  ghost predicate Traced(p: Path, reverse: bool) {
    && |p.nodes| == |p.rels| + 1
    && forall i :: 0 <= i < |p.rels| ==>
         if reverse then p.rels[i].end == p.nodes[i] && p.rels[i].start == p.nodes[i + 1]
         else p.rels[i].start == p.nodes[i] && p.rels[i].end == p.nodes[i + 1]
  }

  /** On every path the expander is handed, the corrected window is the one
      line 159 computes: forwards at any depth, and backwards on the paths of
      length at most 1 that `toDepth(2)` still expands, from an account start
      in a well-typed store. */
  lemma StepWindowFollowsLine159(g: Graph, p: Path, q: Query)
    requires WellTyped(g) && Traced(p, q.reverse) && IsAccount(p.nodes[0])
    requires forall e :: e in p.rels ==> e in g && e.rtype != Other
    requires q.reverse ==> |p.rels| < 2
    ensures StepWindow(q, LastRelationship(p)) == AsWrittenStepWindow(q, LastRelationship(p), Frontier(p))
  {
    if p.rels != [] {
      var k := |p.rels| - 1;
      var last := p.rels[k];
      assert last in p.rels;
      if q.reverse {
        assert k == 0 && last.end == p.nodes[0];
        assert last.rtype == Output;
      } else {
        assert Frontier(p) == p.nodes[k + 1] == last.end;
      }
      AnchorsAgree(last, Frontier(p));
    }
  }

  /** The source's anchor and the adjacent transaction coincide whenever the
      last relationship is an output or the frontier is its end, which is
      every step of a forward trace. */
  lemma AnchorsAgree(rel: Edge, frontier: Node)
    requires rel.rtype == Output || frontier == rel.end
    ensures ReferenceNode(rel, frontier) == AdjacentTransaction(rel)
  {
  }

  /** In a well-typed store the anchor of the step window is a transaction. */
  lemma AdjacentTransactionIsTransaction(g: Graph, rel: Edge)
    requires WellTyped(g) && rel in g && rel.rtype != Other
    ensures IsTransaction(AdjacentTransaction(rel)) && !IsAccount(AdjacentTransaction(rel))
    ensures rel.start == AdjacentTransaction(rel) || rel.end == AdjacentTransaction(rel)
  {
  }

  /** As written, a backward step from an account reached by an input
      anchors on the account itself. An account carries no timestamp, so the
      default 0 anchors the window, which then admits no transaction stamped
      after 0; anchored at the transaction the input entered, the window
      admits that transaction's own timestamp. */
  lemma BackwardInputAnchorsOnAccount(q: Query, rel: Edge, account: Node)
    requires rel.rtype == Input && rel.start == account
    requires account.labels == {AccountLabel} && account.timestamp == 0
    requires q.reverse && q.timespan >= 0
    ensures ReferenceNode(rel, account) == account && !IsTransaction(ReferenceNode(rel, account))
    ensures forall t: Node :: t.timestamp > 0 ==>
      !TransactionInWindow(LaterWindow(q, rel, ReferenceNode(rel, account)), t)
    ensures var w := StepWindow(q, Some(rel));
      w.minTimestamp <= rel.end.timestamp <= w.maxTimestamp
  {
  }

  /** The last node of a path. */
  function Frontier(p: Path): Node
    requires p.nodes != []
  {
    p.nodes[|p.nodes| - 1]
  }

  /** The direction a query traces in. */
  function TraceDirection(q: Query): Direction {
    if q.reverse then Incoming else Outgoing
  }

  /** `expand`: the relationships the traversal may follow from the end of
      `p`. */
  function Expand(g: Graph, p: Path, q: Query, now: int, timeout: int): (r: seq<Edge>)
    ensures now > timeout ==> r == []
    ensures p.nodes == [] ==> r == []
    ensures p.nodes != [] && IsAccount(Frontier(p)) && Frontier(p).degree >= EXCHANGE_THRESHOLD ==> r == []
    ensures q.maxRelationshipCount >= 0 ==> |r| <= q.maxRelationshipCount
    ensures p.nodes != [] ==> forall e :: e in r ==> e in g && Attached(e, Frontier(p), TraceDirection(q))
    ensures p.nodes != [] && now <= timeout ==>
      r == Candidates(g, q.maxRelationshipCount, StepWindow(q, LastRelationship(p)),
                      Frontier(p), now, timeout, TraceDirection(q))
  {
    if now > timeout then []
    else if p.nodes == [] then []
    else
      var n := Frontier(p);
      var w := StepWindow(q, LastRelationship(p));
      if q.reverse then Inbound(g, q.maxRelationshipCount, w, n, now, timeout)
      else Outbound(g, q.maxRelationshipCount, w, n, now, timeout)
  }

  /** On the first step from an account, the far-end transaction of every
      relationship followed lies within one day of the query's start
      timestamp, and its input value within the query's value bounds. */
  lemma FirstHopWindow(g: Graph, p: Path, q: Query, now: int, timeout: int)
    requires p.nodes != [] && p.rels == [] && IsAccount(Frontier(p))
    ensures forall e :: e in Expand(g, p, q, now, timeout) ==>
      var t := OtherNode(e, Frontier(p));
      && e.rtype == (if q.reverse then Output else Input)
      && q.timestamp <= t.timestamp <= q.timestamp + DAY_RANGE
      && q.minValue <= t.inputValue <= q.maxValue
  {
    var n := Frontier(p);
    var w := StepWindow(q, LastRelationship(p));
    assert w == Window(q.timestamp, q.timestamp + DAY_RANGE, q.minValue, q.maxValue);
    CandidatesSound(g, q.maxRelationshipCount, w, n, now, timeout, TraceDirection(q));
  }

  /** On a later step from an account, the far-end transaction of every
      relationship followed lies within `timespan` after (forwards) or
      before (backwards) the transaction the last relationship touches, and
      moves at least a tenth of that relationship's value. Forwards this
      makes transaction timestamps along a path non-decreasing. */
  lemma LaterHopAccountWindow(g: Graph, p: Path, q: Query, now: int, timeout: int)
    requires p.nodes != [] && p.rels != [] && IsAccount(Frontier(p))
    ensures forall e :: e in Expand(g, p, q, now, timeout) ==>
      var last := p.rels[|p.rels| - 1];
      var anchor := AdjacentTransaction(last).timestamp;
      var t := OtherNode(e, Frontier(p));
      && (!q.reverse ==> anchor <= t.timestamp <= anchor + q.timespan)
      && (q.reverse ==> anchor - q.timespan <= t.timestamp <= anchor)
      && Div10(last.value) <= t.inputValue
  {
    var n := Frontier(p);
    var last := p.rels[|p.rels| - 1];
    var w := StepWindow(q, LastRelationship(p));
    assert w == LaterWindow(q, last, AdjacentTransaction(last));
    CandidatesSound(g, q.maxRelationshipCount, w, n, now, timeout, TraceDirection(q));
  }

  /** On a later step from a transaction, every relationship followed
      carries at least a tenth of the value of the relationship that reached
      the transaction. */
  lemma LaterHopTransactionValue(g: Graph, p: Path, q: Query, now: int, timeout: int)
    requires p.nodes != [] && p.rels != [] && !IsAccount(Frontier(p))
    ensures forall e :: e in Expand(g, p, q, now, timeout) ==>
      Div10(p.rels[|p.rels| - 1].value) <= e.value
  {
    var n := Frontier(p);
    var w := StepWindow(q, LastRelationship(p));
    assert w.minValue == Div10(p.rels[|p.rels| - 1].value);
    CandidatesSound(g, q.maxRelationshipCount, w, n, now, timeout, TraceDirection(q));
  }

  /** A concrete first step: an account of degree 3 whose only relationship
      is an input into a transaction stamped 5000 follows that input when the
      query starts at 1000 and admits any value from 0 upwards. */
  lemma FirstHopFollowsInputInWindow(a: Node, t: Node, e: Edge, now: int, timeout: int)
    requires a.labels == {AccountLabel} && a.degree == 3
    requires t.labels == {TransactionLabel} && t.timestamp == 5000 && t.inputValue == 7
    requires e == Edge(1, Input, a, t, 7)
    requires now <= timeout
    ensures Expand([e], Path(0, [a], []), Query(86400, 10, 1000, 0, MAX_LONG, false), now, timeout) == [e]
  {
    var q := Query(86400, 10, 1000, 0, MAX_LONG, false);
    var w := StepWindow(q, None);
    assert [e][1..] == [];
    assert Relationships([e], a, Outgoing, Input) == [e];
    assert TransactionInWindow(w, OtherNode(e, a));
    assert AccountCandidates([e], a, Outgoing, w) == [e];
    var r := Expand([e], Path(0, [a], []), q, now, timeout);
    assert |r| == 1 && multiset(r) <= multiset{e};
    assert r[0] in multiset(r);
  }

  /** Filtering with two predicates that agree on every element gives the
      same result. */
  lemma {:induction false} FilterCongruent(s: seq<Edge>, f: Edge -> bool, h: Edge -> bool)
    requires forall e :: e in s ==> f(e) == h(e)
    ensures Filter(s, f) == Filter(s, h)
    decreases |s|
  {
    if s != [] {
      FilterCongruent(s[1..], f, h);
    }
  }

  /** A transaction frontier never consults the time window: changing the
      timestamp bounds changes nothing about what is followed. */
  lemma TransactionFrontierIgnoresTime(g: Graph, count: Long, w: Window, n: Node, now: int, timeout: int,
                                       dir: Direction, minTimestamp: int, maxTimestamp: int)
    requires !IsAccount(n)
    ensures Candidates(g, count, w, n, now, timeout, dir)
         == Candidates(g, count, w.(minTimestamp := minTimestamp, maxTimestamp := maxTimestamp), n, now, timeout, dir)
  {
    var w' := w.(minTimestamp := minTimestamp, maxTimestamp := maxTimestamp);
    FilterCongruent(Relationships(g, n, dir, TransactionRelType(dir)), e => ValueInWindow(w, e), e => ValueInWindow(w', e));
  }

  /** In a well-typed store, expansion alternates node kinds: from an
      account it reaches transactions, from a transaction accounts. */
  lemma ExpandAlternates(g: Graph, p: Path, q: Query, now: int, timeout: int)
    requires WellTyped(g) && p.nodes != []
    ensures IsAccount(Frontier(p)) ==> forall e :: e in Expand(g, p, q, now, timeout) ==>
      IsTransaction(OtherNode(e, Frontier(p))) && !IsAccount(OtherNode(e, Frontier(p)))
    ensures IsTransaction(Frontier(p)) ==> forall e :: e in Expand(g, p, q, now, timeout) ==>
      IsAccount(OtherNode(e, Frontier(p))) && !IsTransaction(OtherNode(e, Frontier(p)))
  {
    var w := StepWindow(q, LastRelationship(p));
    CandidatesSound(g, q.maxRelationshipCount, w, Frontier(p), now, timeout, TraceDirection(q));
  }

  // ---------------------------------------------------------------------
  // getUniqueLongestPaths
  // ---------------------------------------------------------------------

  /** `other` rules `p` out: it is a different path object, it is at least
      as long, and its rendering contains the rendering of `p`. */
  predicate Covers(other: Path, p: Path, render: Path -> string) {
    && other != p
    && |other.rels| >= |p.rels|
    && Contains(render(other), render(p))
  }

  /** `p` survives selection among `all`: it has a start and an end node
      and no path of `all` covers it. */
  predicate Kept(all: seq<Path>, p: Path, render: Path -> string) {
    p.nodes != [] && forall other :: other in all ==> !Covers(other, p, render)
  }

  /** `Kept` as a filter predicate over `all`. */
  function KeptIn(all: seq<Path>, render: Path -> string): Path -> bool {
    p => Kept(all, p, render)
  }

  /** The paths of `all` that survive selection, in their original order. */
  function UniqueLongest(all: seq<Path>, render: Path -> string): (r: seq<Path>)
    ensures forall p :: p in r <==> p in all && Kept(all, p, render)
    ensures IsSubsequence(r, all)
  {
    FilterIsSubsequence(all, KeptIn(all, render));
    Filter(all, KeptIn(all, render))
  }

  /** The inner loop of `getUniqueLongestPaths`: scans `allPaths` and stops
      at the first path that covers `thisPath`. */
  method IsSubpath(allPaths: seq<Path>, thisPath: Path, render: Path -> string) returns (isSubpath: bool)
    ensures isSubpath <==> exists other :: other in allPaths && Covers(other, thisPath, render)
  {
    isSubpath := false;
    var j := 0;
    while j < |allPaths|
      invariant 0 <= j <= |allPaths|
      invariant !isSubpath ==> forall k :: 0 <= k < j ==> !Covers(allPaths[k], thisPath, render)
      invariant isSubpath ==> exists other :: other in allPaths && Covers(other, thisPath, render)
    {
      var otherPath := allPaths[j];
      if otherPath != thisPath && |otherPath.rels| >= |thisPath.rels|
         && Contains(render(otherPath), render(thisPath))
      {
        assert Covers(otherPath, thisPath, render);
        isSubpath := true;
        break;
      }
      j := j + 1;
    }
  }

  /** `getUniqueLongestPaths`: keeps, in order, every path with a start and
      an end node that no other path covers. */
  method GetUniqueLongestPaths(allPaths: seq<Path>, render: Path -> string) returns (uniqueLongestPaths: seq<Path>)
    ensures uniqueLongestPaths == UniqueLongest(allPaths, render)
  {
    uniqueLongestPaths := [];
    var i := 0;
    while i < |allPaths|
      invariant 0 <= i <= |allPaths|
      invariant uniqueLongestPaths == Filter(allPaths[..i], KeptIn(allPaths, render))
    {
      var thisPath := allPaths[i];
      FilterPrefixStep(allPaths, i, KeptIn(allPaths, render));
      i := i + 1;
      if thisPath.nodes == [] {
        continue;
      }
      var isSubpath := IsSubpath(allPaths, thisPath, render);
      if !isSubpath {
        uniqueLongestPaths := uniqueLongestPaths + [thisPath];
      }
    }
    assert allPaths[..i] == allPaths;
  }

  /** Two different path objects of the same length that render alike rule
      each other out. */
  lemma TwinsRemoveEachOther(all: seq<Path>, p: Path, q: Path, render: Path -> string)
    requires p in all && q in all && p != q
    requires |p.rels| == |q.rels| && render(p) == render(q)
    ensures p !in UniqueLongest(all, render) && q !in UniqueLongest(all, render)
  {
    ContainsSelf(render(p));
    assert Covers(q, p, render) && Covers(p, q, render);
  }

  /** A single path with a start node is returned unchanged. */
  lemma SingletonKept(p: Path, render: Path -> string)
    requires p.nodes != []
    ensures UniqueLongest([p], render) == [p]
  {
    assert Kept([p], p, render);
    assert [p][1..] == [];
  }

  /** Of a path and a strictly longer path whose rendering contains its own,
      only the longer one is returned. */
  lemma LongerContainingPathWins(p1: Path, p2: Path, render: Path -> string)
    requires p1.nodes != [] && p2.nodes != []
    requires |p2.rels| > |p1.rels| && Contains(render(p2), render(p1))
    ensures UniqueLongest([p1, p2], render) == [p2]
  {
    var all := [p1, p2];
    var keep := p => Kept(all, p, render);
    assert Covers(p2, p1, render);
    assert !keep(p1) && keep(p2);
    assert all[1..] == [p2] && [p2][1..] == [];
    assert Filter([p2], keep) == [p2];
    assert Filter(all, keep) == Filter([p2], keep);
  }

  /** The greatest length among `all`. */
  function MaxLength(all: seq<Path>): (m: nat)
    ensures forall p :: p in all ==> |p.rels| <= m
  {
    if all == [] then 0
    else
      var rest := MaxLength(all[1..]);
      if |all[0].rels| > rest then |all[0].rels| else rest
  }

  /** The greatest rendering length among `all`. */
  function MaxRenderLength(all: seq<Path>, render: Path -> string): (m: nat)
    ensures forall p :: p in all ==> |render(p)| <= m
  {
    if all == [] then 0
    else
      var rest := MaxRenderLength(all[1..], render);
      if |render(all[0])| > rest then |render(all[0])| else rest
  }

  /** When no two path objects render alike, following "is covered by"
      upwards from any path ends at a path that is returned: a longer or
      equally long covering path with a different rendering has a strictly
      longer rendering, so the climb terminates. Every path dropped thus
      lies inside a returned path at least as long. */
  lemma {:induction false} CoveringChainEnds(all: seq<Path>, p: Path, render: Path -> string)
    requires forall a :: a in all ==> a.nodes != []
    requires forall a, b :: a in all && b in all && a != b ==> render(a) != render(b)
    requires p in all
    ensures exists s :: s in all && Kept(all, s, render) && |s.rels| >= |p.rels| && Contains(render(s), render(p))
    decreases MaxLength(all) - |p.rels|, MaxRenderLength(all, render) - |render(p)|
  {
    if Kept(all, p, render) {
      ContainsSelf(render(p));
    } else {
      var other :| other in all && Covers(other, p, render);
      ContainsOtherIsLonger(render(other), render(p));
      CoveringChainEnds(all, other, render);
      var s :| s in all && Kept(all, s, render) && |s.rels| >= |other.rels| && Contains(render(s), render(other));
      ContainsTrans(render(s), render(other), render(p));
    }
  }

  /** When no two path objects render alike and every path has a start
      node, selection returns at least one path of a non-empty input. */
  lemma SomePathSurvives(all: seq<Path>, render: Path -> string)
    requires all != []
    requires forall a :: a in all ==> a.nodes != []
    requires forall a, b :: a in all && b in all && a != b ==> render(a) != render(b)
    ensures UniqueLongest(all, render) != []
  {
    CoveringChainEnds(all, all[0], render);
    var s :| s in all && Kept(all, s, render);
    assert s in UniqueLongest(all, render);
  }
}
