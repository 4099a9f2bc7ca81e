/** The read-only view of the graph store that the procedures consume:
    account and transaction nodes, input and output relationships, and the
    paths the breadth-first traversal hands back. A property that is missing
    in the store is represented here by its default (0 or the empty string),
    which is what the procedures substitute when they read it. */
module GraphModel {
  import opened Streams

  datatype Option<T> = None | Some(value: T)

  const MIN_LONG: int := -0x8000_0000_0000_0000
  const MAX_LONG: int := 0x7FFF_FFFF_FFFF_FFFF

  /** A value of Java's `long` type. */
  type Long = x: int | MIN_LONG <= x <= MAX_LONG

  /** The node labels the procedures test for. */
  datatype Label = AccountLabel | TransactionLabel

  /** The relationship types of the graph; `Other` is any further type. */
  datatype RelType = Input | Output | Other

  /** A node: its element id, its labels, its degree and the properties the
      procedures read (`address` on accounts; `hash`, `timestamp` and
      `input_value` on transactions). */
  datatype Node = Node(
    id: nat,
    labels: set<Label>,
    degree: int,
    address: string,
    hash: string,
    timestamp: Long,
    inputValue: Long)

  /** A relationship: its element id, its type, its end points and its
      `value` property. */
  datatype Edge = Edge(id: nat, rtype: RelType, start: Node, end: Node, value: Long)

  /** The relationships held by the store. */
  type Graph = seq<Edge>

  /** A path found by the traversal: `id` stands for the identity of the path
      object, `nodes` and `rels` for its node and relationship sequences. An
      empty node sequence stands for a path without start and end node. */
  datatype Path = Path(id: nat, nodes: seq<Node>, rels: seq<Edge>)

  datatype Direction = Incoming | Outgoing

  predicate IsAccount(n: Node) {
    AccountLabel in n.labels
  }

  predicate IsTransaction(n: Node) {
    TransactionLabel in n.labels
  }

  /** `Relationship.getOtherNode(n)`. */
  function OtherNode(e: Edge, n: Node): (m: Node)
    ensures e.start == n ==> m == e.end
    ensures e.start != n ==> m == e.start
  {
    if e.start == n then e.end else e.start
  }

  /** `Path.lastRelationship()`: absent for a path of length zero. */
  function LastRelationship(p: Path): (r: Option<Edge>)
    ensures r.None? <==> p.rels == []
    ensures r.Some? ==> r.value == p.rels[|p.rels| - 1]
  {
    if p.rels == [] then None else Some(p.rels[|p.rels| - 1])
  }

  /** `Node.getRelationships(dir, t)`: the relationships of type `t` that
      leave (`Outgoing`) or enter (`Incoming`) `n`, in store order. */
  function Relationships(g: Graph, n: Node, dir: Direction, t: RelType): (r: seq<Edge>)
    ensures forall e :: e in r <==> e in g && e.rtype == t && Attached(e, n, dir)
    ensures forall e {:trigger multiset(r)[e]} ::
      multiset(r)[e] == if e.rtype == t && Attached(e, n, dir) then multiset(g)[e] else 0
    ensures multiset(r) <= multiset(g)
  {
    Filter(g, (e: Edge) => e.rtype == t && Attached(e, n, dir))
  }

  /** `e` leaves `n` (`Outgoing`) or enters it (`Incoming`). */
  predicate Attached(e: Edge, n: Node, dir: Direction) {
    match dir
    case Outgoing => e.start == n
    case Incoming => e.end == n
  }

  /** The store is well typed: input relationships run from an account to a
      transaction, output relationships from a transaction to an account,
      and no node carries both labels. */
  ghost predicate WellTyped(g: Graph) {
    forall e :: e in g ==>
      && !(IsAccount(e.start) && IsTransaction(e.start))
      && !(IsAccount(e.end) && IsTransaction(e.end))
      && (e.rtype == Input ==> IsAccount(e.start) && IsTransaction(e.end))
      && (e.rtype == Output ==> IsTransaction(e.start) && IsAccount(e.end))
  }
}
