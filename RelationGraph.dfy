/**
 * The data model of the relation graph: the dataset of relations, the
 * visible nodes and edges, the lookup of a node by id the way
 * `Array.prototype.find` does it (first match wins), and the invariants
 * that the seeding, expansion and collapse operations keep.
 */
module RelationGraph {
  import opened Wrappers

  /** One entry of a person's relation list: the related person and the relation's name. */
  datatype Relation = Relation(name: string, rel1: string)

  /** The dataset: a person's name maps to that person's relations. A name that is not a key has none. */
  type Data = map<string, seq<Relation>>

  /**
   * A visible node. `level` is its depth: one more than the level of the
   * node that introduced it (0 for the root), fixed when it is first shown;
   * `sourceName` the node that introduced it (absent on the root), and
   * `hasChildren` whether the dataset has an entry for `id`.
   */
  datatype Node = Node(id: string, caption: string, level: nat, expanded: bool,
                       sourceName: Option<string>, hasChildren: bool)

  /** A visible edge, labelled with the relation's name. */
  datatype Edge = Edge(source: string, target: string, relation: string)

  /** The visible graph: the node list and the edge list, in insertion order. */
  datatype Graph = Graph(nodes: seq<Node>, edges: seq<Edge>)

  /** The root node of a search for `name`. */
  function RootNode(name: string): Node {
    Node(name, name, 0, true, None, true)
  }

  /** The node introduced for `child` when the node `parent` at `parentLevel` is opened. */
  function Child(data: Data, parent: string, parentLevel: nat, child: string): Node {
    Node(child, child, parentLevel + 1, false, Some(parent), child in data)
  }

  /** The expand/collapse affordance is drawn only on nodes with an entry in the dataset and a non-zero level. */
  predicate Affordance(n: Node) {
    n.hasChildren && n.level != 0
  }

  /** Index of the first node whose id is `id`, as `nodes.find(e => e.id === id)` picks it. */
  function FindNode(nodes: seq<Node>, id: string): (r: Option<nat>)
    ensures r.Some? ==> r.value < |nodes| && nodes[r.value].id == id
    ensures r.Some? ==> forall k :: 0 <= k < r.value ==> nodes[k].id != id
    ensures r.None? ==> forall k :: 0 <= k < |nodes| ==> nodes[k].id != id
  {
    if |nodes| == 0 then None
    else if nodes[0].id == id then Some(0)
    else match FindNode(nodes[1..], id)
      case None => None
      case Some(k) => Some(k + 1)
  }

  predicate HasId(nodes: seq<Node>, id: string) {
    FindNode(nodes, id).Some?
  }

  /** The first node whose id is `id`, if any. */
  function Lookup(nodes: seq<Node>, id: string): Option<Node> {
    match FindNode(nodes, id)
    case None => None
    case Some(j) => Some(nodes[j])
  }

  /** Whether an edge from `source` to `target` exists, whatever its label. */
  predicate HasEdge(edges: seq<Edge>, source: string, target: string) {
    exists e :: e in edges && e.source == source && e.target == target
  }

  /** `nodes` after `nodes.find(e => e.id === name).expanded = b`. */
  function SetFlag(nodes: seq<Node>, name: string, b: bool): seq<Node>
    requires HasId(nodes, name)
  {
    var j := FindNode(nodes, name).value;
    nodes[j := nodes[j].(expanded := b)]
  }

  /** Whether `c` was introduced by one of the names in `q`. */
  predicate HangsOff(c: Node, q: set<string>) {
    c.sourceName.Some? && c.sourceName.value in q
  }

  predicate UniqueIds(nodes: seq<Node>) {
    forall i, k :: 0 <= i < k < |nodes| ==> nodes[i].id != nodes[k].id
  }

  predicate UniqueEdgeKeys(edges: seq<Edge>) {
    forall i, k :: 0 <= i < k < |edges| ==>
      edges[i].source != edges[k].source || edges[i].target != edges[k].target
  }

  // ---------------------------------------------------------------------
  // Invariants of the visible graph

  /** The first node named `name` exists and is expanded. */
  predicate ExpandedAt(nodes: seq<Node>, name: string) {
    Lookup(nodes, name).Some? && Lookup(nodes, name).value.expanded
  }

  /** The root comes first, at level 0 and without a parent; every other node has a parent. */
  predicate RootFirst(nodes: seq<Node>) {
    && (|nodes| > 0 ==> nodes[0].sourceName.None? && nodes[0].level == 0)
    && (forall i :: 0 < i < |nodes| ==> nodes[i].sourceName.Some?)
  }

  /** `c` hangs off an expanded node one level above it. */
  predicate ParentOk(nodes: seq<Node>, c: Node)
    requires c.sourceName.Some?
  {
    ExpandedAt(nodes, c.sourceName.value)
    && c.level == Lookup(nodes, c.sourceName.value).value.level + 1
  }

  /** Nothing hangs off a collapsed node, and every child is one level below its parent. */
  predicate ParentsOk(nodes: seq<Node>) {
    forall c :: c in nodes && c.sourceName.Some? ==> ParentOk(nodes, c)
  }

  /** Every edge leaves an expanded node. */
  predicate EdgesOk(nodes: seq<Node>, edges: seq<Edge>) {
    forall e :: e in edges ==> ExpandedAt(nodes, e.source)
  }

  /**
   * Only nodes at level 0 or 1 share an id with another node: seeding pushes
   * one child per relation unchecked, while expanding pushes only ids that
   * are not shown yet.
   */
  predicate DupsShallow(nodes: seq<Node>) {
    forall i, k :: 0 <= i < k < |nodes| && nodes[i].id == nodes[k].id ==>
      nodes[i].level <= 1 && nodes[k].level <= 1
  }

  predicate WellFormed(g: Graph) {
    RootFirst(g.nodes) && ParentsOk(g.nodes) && EdgesOk(g.nodes, g.edges) && DupsShallow(g.nodes)
  }

  // ---------------------------------------------------------------------
  // Lookup under the changes the operations make

  /** Appending nodes does not change where an id already shown is found. */
  lemma FindAppendLeft(s: seq<Node>, t: seq<Node>, id: string)
    requires HasId(s, id)
    ensures FindNode(s + t, id) == FindNode(s, id)
  {
    var j := FindNode(s, id).value;
    assert (s + t)[j] == s[j];
    assert forall k :: 0 <= k < j ==> (s + t)[k] == s[k];
  }

  /** An id not shown in `s` is found in `s + t` where it is found in `t`, shifted by `|s|`. */
  lemma {:induction false} FindAppendRight(s: seq<Node>, t: seq<Node>, id: string)
    requires !HasId(s, id)
    ensures FindNode(t, id).None? ==> FindNode(s + t, id).None?
    ensures FindNode(t, id).Some? ==> FindNode(s + t, id) == Some(|s| + FindNode(t, id).value)
    decreases |s|
  {
    if s == [] {
      assert s + t == t;
    } else {
      assert (s + t)[1..] == s[1..] + t;
      FindAppendRight(s[1..], t, id);
    }
  }

  /** Appending nodes does not change which node an existing id finds. */
  lemma LookupAppend(s: seq<Node>, t: seq<Node>, id: string)
    ensures Lookup(s, id).Some? ==> Lookup(s + t, id) == Lookup(s, id)
    ensures Lookup(s, id).None? ==> Lookup(s + t, id) == Lookup(t, id)
  {
    if HasId(s, id) {
      FindAppendLeft(s, t, id);
      assert (s + t)[FindNode(s, id).value] == s[FindNode(s, id).value];
    } else {
      FindAppendRight(s, t, id);
      if HasId(t, id) {
        assert (s + t)[|s| + FindNode(t, id).value] == t[FindNode(t, id).value];
      }
    }
  }

  /** Setting a flag changes only the flag of the node that `name` finds. */
  lemma LookupSetFlag(s: seq<Node>, name: string, b: bool, id: string)
    requires HasId(s, name)
    ensures Lookup(SetFlag(s, name, b), id)
              == if id == name then Some(Lookup(s, name).value.(expanded := b)) else Lookup(s, id)
  {
    var s1 := SetFlag(s, name, b);
    assert forall k :: 0 <= k < |s| ==> s1[k].id == s[k].id;
    SameIdsSameFind(s, s1, id);
  }

  /** Appending nodes does not change where an already shown id is found, nor what setting its flag does. */
  lemma SetFlagAppend(s: seq<Node>, t: seq<Node>, name: string, b: bool)
    requires HasId(s, name)
    ensures FindNode(s + t, name) == FindNode(s, name)
    ensures SetFlag(s + t, name, b) == SetFlag(s, name, b) + t
  {
    FindAppendLeft(s, t, name);
  }

  /** Setting a flag and then restoring its old value gives back the list. */
  lemma SetFlagRestore(s: seq<Node>, name: string, b: bool)
    requires HasId(s, name)
    ensures HasId(SetFlag(s, name, b), name)
    ensures SetFlag(SetFlag(s, name, b), name, Lookup(s, name).value.expanded) == s
  {
    var s1 := SetFlag(s, name, b);
    assert forall k :: 0 <= k < |s| ==> s1[k].id == s[k].id;
    SameIdsSameFind(s, s1, name);
  }

  /** Every node after a flag change is a node from before with the flag possibly changed. */
  lemma SetFlagMember(s: seq<Node>, name: string, b: bool, c: Node) returns (c0: Node)
    requires HasId(s, name) && c in SetFlag(s, name, b)
    ensures c0 in s && c == c0.(expanded := c.expanded)
  {
    var s1 := SetFlag(s, name, b);
    var i :| 0 <= i < |s1| && s1[i] == c;
    c0 := s[i];
  }

  /** `FindNode` only looks at ids. */
  lemma SameIdsSameFind(s: seq<Node>, t: seq<Node>, id: string)
    requires |s| == |t| && forall k :: 0 <= k < |s| ==> s[k].id == t[k].id
    ensures FindNode(s, id) == FindNode(t, id)
  {
    match FindNode(s, id)
    case None =>
    case Some(j) =>
      assert t[j].id == id;
  }

  /** A node that is in the list and has no earlier namesake is what its id finds. */
  lemma LookupIsFirst(s: seq<Node>, j: nat)
    requires j < |s| && forall k :: 0 <= k < j ==> s[k].id != s[j].id
    ensures Lookup(s, s[j].id) == Some(s[j])
  {
  }

  /** When only shallow nodes share ids, a node below level 1 is what its id finds. */
  lemma LookupDeep(s: seq<Node>, c: Node)
    requires DupsShallow(s) && c in s && c.level > 1
    ensures Lookup(s, c.id) == Some(c)
  {
    var j :| 0 <= j < |s| && s[j] == c;
    LookupIsFirst(s, j);
  }
}
