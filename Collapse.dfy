/**
 * Collapsing a node: the worklist cascade of `nodeCollapse`, specified by
 * the least set of names that contains the collapsed node and every node
 * introduced by a name already in it.
 */
module Collapse {
  import opened Wrappers
  import opened Seqs
  import opened RelationGraph

  /** The test `e.sourceName !== name` of the node filter, for a set of names. */
  function KeepsNode(removed: set<string>): Node -> bool {
    (c: Node) => !HangsOff(c, removed)
  }

  /** The test `e.source !== name` of the edge filter, for a set of names. */
  function KeepsEdge(removed: set<string>): Edge -> bool {
    (e: Edge) => e.source !in removed
  }

  /** The nodes that survive removing everything introduced by a name in `removed`. */
  function Keep(nodes: seq<Node>, removed: set<string>): (r: seq<Node>)
    ensures forall c :: c in r <==> c in nodes && !HangsOff(c, removed)
  {
    FilterMembers(nodes, KeepsNode(removed));
    Filter(nodes, KeepsNode(removed))
  }

  /** The edges that survive removing every edge leaving a name in `removed`. */
  function KeepEdges(edges: seq<Edge>, removed: set<string>): (r: seq<Edge>)
    ensures forall e :: e in r <==> e in edges && e.source !in removed
  {
    FilterMembers(edges, KeepsEdge(removed));
    Filter(edges, KeepsEdge(removed))
  }

  // ---------------------------------------------------------------------
  // The cascade as a least fixpoint

  function IdSet(nodes: seq<Node>): set<string> {
    set c | c in nodes :: c.id
  }

  /** No node hangs off a name in `q` unless its own id is in `q`. */
  ghost predicate Closed(nodes: seq<Node>, q: set<string>) {
    forall c :: c in nodes && HangsOff(c, q) ==> c.id in q
  }

  /** One round of the cascade: add the ids of the nodes introduced by a name in `q`. */
  ghost function Grow(nodes: seq<Node>, q: set<string>): set<string> {
    q + set c | c in nodes && HangsOff(c, q) :: c.id
  }

  lemma GrowShrinks(nodes: seq<Node>, q: set<string>)
    requires !(Grow(nodes, q) <= q)
    ensures |IdSet(nodes) - Grow(nodes, q)| < |IdSet(nodes) - q|
  {
    var x :| x in Grow(nodes, q) && x !in q;
    var c :| c in nodes && HangsOff(c, q) && c.id == x;
    var a, b := IdSet(nodes) - Grow(nodes, q), IdSet(nodes) - q;
    assert x in b - a;
    assert b == a + (b - a) && a !! (b - a);
    assert |b - a| >= |{x}|;
  }

  /** Grow `q` until nothing more is added. */
  ghost function Closure(nodes: seq<Node>, q: set<string>): set<string>
    decreases |IdSet(nodes) - q|
  {
    var next := Grow(nodes, q);
    if next <= q then q
    else
      GrowShrinks(nodes, q);
      Closure(nodes, next)
  }

  /** Every name whose nodes a collapse of `target` removes: `target` and, transitively, the ids of what they introduced. */
  ghost function Cascade(nodes: seq<Node>, target: string): set<string> {
    Closure(nodes, {target})
  }

  /** The closure contains its seed and is closed. */
  lemma {:induction false} ClosureClosed(nodes: seq<Node>, q: set<string>)
    ensures q <= Closure(nodes, q) && Closed(nodes, Closure(nodes, q))
    decreases |IdSet(nodes) - q|
  {
    var next := Grow(nodes, q);
    if next <= q {
      forall c | c in nodes && HangsOff(c, q) ensures c.id in q {
        assert c.id in next;
      }
    } else {
      GrowShrinks(nodes, q);
      ClosureClosed(nodes, next);
    }
  }

  /** The closure is the least closed set containing its seed. */
  lemma {:induction false} ClosureLeast(nodes: seq<Node>, q: set<string>, p: set<string>)
    requires q <= p && Closed(nodes, p)
    ensures Closure(nodes, q) <= p
    decreases |IdSet(nodes) - q|
  {
    var next := Grow(nodes, q);
    if !(next <= q) {
      GrowShrinks(nodes, q);
      ClosureLeast(nodes, next, p);
    }
  }

  // ---------------------------------------------------------------------
  // Filters

  lemma KeepKeep(nodes: seq<Node>, removed: set<string>, name: string)
    ensures Keep(Keep(nodes, removed), {name}) == Keep(nodes, removed + {name})
  {
    FilterFilter(nodes, KeepsNode(removed), KeepsNode({name}), KeepsNode(removed + {name}));
  }

  lemma KeepEdgesKeepEdges(edges: seq<Edge>, removed: set<string>, name: string)
    ensures KeepEdges(KeepEdges(edges, removed), {name}) == KeepEdges(edges, removed + {name})
  {
    FilterFilter(edges, KeepsEdge(removed), KeepsEdge({name}), KeepsEdge(removed + {name}));
  }

  /** What an id finds is unchanged by a filter that keeps that node. */
  lemma {:induction false} LookupFilter(s: seq<Node>, p: Node -> bool, id: string)
    requires Lookup(s, id).Some? && p(Lookup(s, id).value)
    ensures Lookup(Filter(s, p), id) == Lookup(s, id)
    decreases |s|
  {
    var s', x := s[..|s| - 1], s[|s| - 1];
    assert s == s' + [x];
    LookupAppend(s', [x], id);
    var tail := if p(x) then [x] else [];
    assert Filter(s, p) == Filter(s', p) + tail;
    if Lookup(s', id).Some? {
      LookupFilter(s', p, id);
      LookupAppend(Filter(s', p), tail, id);
    } else {
      assert Lookup([x], id) == Some(x) && tail == [x];
      FilterNoId(s', p, id);
      LookupAppend(Filter(s', p), tail, id);
    }
  }

  /** Filtering shows no id that was not shown before. */
  lemma FilterNoId(s: seq<Node>, p: Node -> bool, id: string)
    requires !HasId(s, id)
    ensures !HasId(Filter(s, p), id)
  {
    FilterMembers(s, p);
    var r := Filter(s, p);
    forall k | 0 <= k < |r| ensures r[k].id != id {
      assert r[k] in s;
    }
  }

  // ---------------------------------------------------------------------
  // nodeCollapse

  /** The ids of the nodes of `ns` introduced by `name`, in order: what one pass pushes. */
  function Introduced(ns: seq<Node>, name: string): seq<string>
    decreases |ns|
  {
    if ns == [] then []
    else
      var last := ns[|ns| - 1];
      Introduced(ns[..|ns| - 1], name) + if last.sourceName == Some(name) then [last.id] else []
  }

  /**
   * One pass pushes the id of every node introduced by `name` and nothing
   * else, and every node is either kept or has its id pushed.
   */
  lemma {:induction false} IntroducedSpec(ns: seq<Node>, name: string)
    ensures var r := Introduced(ns, name);
      && |Keep(ns, {name})| + |r| == |ns|
      && (forall c :: c in ns && c.sourceName == Some(name) ==> c.id in r)
      && (forall x :: x in r ==> exists c :: c in ns && c.sourceName == Some(name) && c.id == x)
    decreases |ns|
  {
    if ns != [] {
      var ns', last := ns[..|ns| - 1], ns[|ns| - 1];
      assert ns == ns' + [last];
      IntroducedSpec(ns', name);
      SiftStep(ns', last, name);
      assert forall c :: c in ns ==> c in ns' || c == last;
      assert forall c :: c in ns' ==> c in ns;
    }
  }

  /** One more node either joins the kept nodes or has its id pushed. */
  lemma SiftStep(s: seq<Node>, x: Node, name: string)
    ensures Filter(s + [x], KeepsNode({name})) == Filter(s, KeepsNode({name})) + if x.sourceName != Some(name) then [x] else []
    ensures Introduced(s + [x], name) == Introduced(s, name) + if x.sourceName == Some(name) then [x.id] else []
  {
    assert (s + [x])[..|s|] == s;
  }

  /**
   * One pass of the worklist loop: `ns.filter(...)` whose callback keeps a
   * node not introduced by `name` and otherwise pushes the node's id.
   */
  method Sift(ns: seq<Node>, name: string) returns (kept: seq<Node>, pushed: seq<string>)
    ensures kept == Keep(ns, {name}) && pushed == Introduced(ns, name)
  {
    kept, pushed := [], [];
    for i := 0 to |ns|
      invariant kept == Filter(ns[..i], KeepsNode({name}))
      invariant pushed == Introduced(ns[..i], name)
    {
      assert ns[..i + 1] == ns[..i] + [ns[i]];
      SiftStep(ns[..i], ns[i], name);
      if ns[i].sourceName != Some(name) {
        kept := kept + [ns[i]];
      } else {
        pushed := pushed + [ns[i].id];
      }
    }
    assert ns[..|ns|] == ns;
  }

  /**
   * The worklist loop of `nodeCollapse`: pop a name, drop every node it
   * introduced (pushing their ids) and every edge leaving it, until the
   * worklist is empty.
   */
  method NodeCollapse(nodes: seq<Node>, edges: seq<Edge>, targetId: string)
    returns (ns: seq<Node>, es: seq<Edge>)
    ensures ns == Keep(nodes, Cascade(nodes, targetId))
    ensures es == KeepEdges(edges, Cascade(nodes, targetId))
  {
    ghost var all := Cascade(nodes, targetId);
    ClosureClosed(nodes, {targetId});
    var wait2Clean := [targetId];
    ns, es := nodes, edges;
    ghost var cleaned: set<string> := {};
    FilterAll(nodes, KeepsNode(cleaned));
    FilterAll(edges, KeepsEdge(cleaned));
    while |wait2Clean| > 0
      invariant ns == Keep(nodes, cleaned)
      invariant es == KeepEdges(edges, cleaned)
      invariant cleaned <= all
      invariant forall x :: x in wait2Clean ==> x in all
      invariant targetId in cleaned || targetId in wait2Clean
      invariant forall c :: c in nodes && HangsOff(c, cleaned) ==> c.id in cleaned || c.id in wait2Clean
      decreases |ns| + |wait2Clean|
    {
      var name := wait2Clean[|wait2Clean| - 1];
      wait2Clean := wait2Clean[..|wait2Clean| - 1];
      var kept, pushed := Sift(ns, name);
      IntroducedSpec(ns, name);
      forall x | x in pushed ensures x in all {
        var c :| c in ns && c.sourceName == Some(name) && c.id == x;
        assert c in nodes && HangsOff(c, all);
      }
      forall c | c in nodes && HangsOff(c, cleaned + {name})
        ensures c.id in cleaned + {name} || c.id in wait2Clean + pushed
      {
        if !HangsOff(c, cleaned) {
          assert c in ns;
        }
      }
      KeepKeep(nodes, cleaned, name);
      KeepEdgesKeepEdges(edges, cleaned, name);
      ns := kept;
      es := KeepEdges(es, {name});
      wait2Clean := wait2Clean + pushed;
      cleaned := cleaned + {name};
    }
    assert wait2Clean == [];
    ClosureLeast(nodes, {targetId}, cleaned);
    assert cleaned == all;
  }

  // ---------------------------------------------------------------------
  // The collapse branch of the click handler

  /** The names whose nodes and outgoing edges collapsing `name` removes. */
  ghost function Removed(g: Graph, name: string): set<string>
    requires HasId(g.nodes, name)
  {
    Cascade(SetFlag(g.nodes, name, false), name)
  }

  /** Clear the flag of the node `name` finds, then run `nodeCollapse` on the result. */
  ghost function CollapseGraph(g: Graph, name: string): Graph
    requires HasId(g.nodes, name)
  {
    var removed := Removed(g, name);
    Graph(Keep(SetFlag(g.nodes, name, false), removed), KeepEdges(g.edges, removed))
  }

  /**
   * No orphans: no surviving node was introduced by the collapsed node or
   * by a removed node, and no surviving edge leaves either.
   */
  lemma CollapseNoOrphans(g: Graph, name: string)
    requires HasId(g.nodes, name)
    ensures var removed, r := Removed(g, name), CollapseGraph(g, name);
      && name in removed
      && (forall c :: c in SetFlag(g.nodes, name, false) && c !in r.nodes ==> c.id in removed)
      && (forall c :: c in r.nodes ==> !HangsOff(c, removed))
      && (forall e :: e in r.edges ==> e.source !in removed)
  {
    ClosureClosed(SetFlag(g.nodes, name, false), {name});
  }

  /**
   * Nothing else changes: a node goes exactly when it hangs off the cascade,
   * an edge exactly when it leaves it (edges into removed nodes from
   * elsewhere stay), and the cascade is the least set closed under
   * "introduced by", so a node goes only if its chain of introducers leads
   * to `name`.
   */
  lemma CollapseOnlyCascade(g: Graph, name: string)
    requires HasId(g.nodes, name)
    ensures var nodes1, removed, r := SetFlag(g.nodes, name, false), Removed(g, name), CollapseGraph(g, name);
      && (forall c :: c in r.nodes <==> c in nodes1 && !HangsOff(c, removed))
      && (forall e :: e in r.edges <==> e in g.edges && e.source !in removed)
      && (forall q :: name in q && Closed(nodes1, q) ==> removed <= q)
  {
    var nodes1 := SetFlag(g.nodes, name, false);
    forall q | name in q && Closed(nodes1, q) ensures Removed(g, name) <= q {
      ClosureLeast(nodes1, {name}, q);
    }
  }

  /** Filtering keeps relative order: removing from a concatenation removes from each part. */
  lemma KeepAppend(s: seq<Node>, t: seq<Node>, removed: set<string>)
    ensures Keep(s + t, removed) == Keep(s, removed) + Keep(t, removed)
  {
    FilterAppend(s, t, KeepsNode(removed));
  }

  /** The root (no introducer) is never removed and stays first. */
  lemma CollapseKeepsRoot(g: Graph, name: string)
    requires HasId(g.nodes, name) && RootFirst(g.nodes) && |g.nodes| > 0
    ensures var r := CollapseGraph(g, name);
      |r.nodes| > 0 && r.nodes[0] == SetFlag(g.nodes, name, false)[0]
  {
    FilterHead(SetFlag(g.nodes, name, false), KeepsNode(Removed(g, name)));
  }

  /**
   * The collapsed node itself survives, with its flag cleared: the levels
   * along introducer chains grow, so the cascade never reaches the
   * collapsed node's own introducer.
   */
  lemma CollapseKeepsTarget(g: Graph, name: string)
    requires HasId(g.nodes, name) && WellFormed(g)
    ensures Lookup(CollapseGraph(g, name).nodes, name)
              == Some(Lookup(g.nodes, name).value.(expanded := false))
  {
    var nodes1 := SetFlag(g.nodes, name, false);
    var t := Lookup(g.nodes, name).value;
    LookupSetFlag(g.nodes, name, false, name);
    var q := Below(nodes1, name, t.level);
    BelowClosed(g, name);
    ClosureLeast(nodes1, {name}, q);
    var removed := Removed(g, name);
    if HangsOff(t, removed) {
      var p := t.sourceName.value;
      assert t in g.nodes;
      assert ParentOk(g.nodes, t);
      if p != name {
        var d :| d in nodes1 && d.level > t.level && d.id == p;
        var d0 := SetFlagMember(g.nodes, name, false, d);
        LookupDeep(g.nodes, d0);
      }
      assert false;
    }
    LookupFilter(nodes1, KeepsNode(removed), name);
  }

  /** `name` together with the ids of all nodes deeper than `level`. */
  ghost function Below(nodes: seq<Node>, name: string, level: nat): set<string> {
    {name} + set c | c in nodes && c.level > level :: c.id
  }

  /**
   * Levels grow along introducer chains, and a node below level 1 is what
   * its id finds, so the collapsed name and everything deeper than it is
   * closed under "introduced by".
   */
  lemma BelowClosed(g: Graph, name: string)
    requires HasId(g.nodes, name) && ParentsOk(g.nodes) && DupsShallow(g.nodes)
    ensures var nodes1 := SetFlag(g.nodes, name, false);
      Closed(nodes1, Below(nodes1, name, Lookup(g.nodes, name).value.level))
  {
    var nodes1 := SetFlag(g.nodes, name, false);
    var level := Lookup(g.nodes, name).value.level;
    var q := Below(nodes1, name, level);
    forall c | c in nodes1 && HangsOff(c, q) ensures c.id in q {
      var c0 := SetFlagMember(g.nodes, name, false, c);
      assert ParentOk(g.nodes, c0);
      var y := c.sourceName.value;
      if y != name {
        var d :| d in nodes1 && d.level > level && d.id == y;
        if d.level > 1 {
          var d0 := SetFlagMember(g.nodes, name, false, d);
          LookupDeep(g.nodes, d0);
        }
      }
    }
  }

  /** Dropping nodes by introducer keeps the root first and an introducer on every other node. */
  lemma KeepRootFirst(nodes: seq<Node>, removed: set<string>)
    requires RootFirst(nodes)
    ensures RootFirst(Keep(nodes, removed))
  {
    if |nodes| > 0 {
      var rest := nodes[1..];
      assert nodes == [nodes[0]] + rest;
      KeepAppend([nodes[0]], rest, removed);
      FilterAll([nodes[0]], KeepsNode(removed));
      var r := Keep(nodes, removed);
      forall i | 0 < i < |r| ensures r[i].sourceName.Some? {
        assert r[i] in Keep(rest, removed);
        var k :| 0 <= k < |rest| && rest[k] == r[i];
        assert rest[k] == nodes[k + 1];
      }
    }
  }

  /** Collapse keeps the root first and an introducer on every other node. */
  lemma CollapseRootFirst(g: Graph, name: string)
    requires HasId(g.nodes, name) && RootFirst(g.nodes)
    ensures RootFirst(CollapseGraph(g, name).nodes)
  {
    var nodes1 := SetFlag(g.nodes, name, false);
    assert RootFirst(nodes1);
    KeepRootFirst(nodes1, Removed(g, name));
  }

  /** A name outside the cascade that found an expanded node finds the same node after the collapse. */
  lemma CollapseLookupOutside(g: Graph, name: string, p: string)
    requires HasId(g.nodes, name) && p !in Removed(g, name) && ExpandedAt(g.nodes, p)
    ensures Lookup(CollapseGraph(g, name).nodes, p) == Lookup(g.nodes, p)
    ensures ExpandedAt(CollapseGraph(g, name).nodes, p)
  {
    var nodes1 := SetFlag(g.nodes, name, false);
    var removed := Removed(g, name);
    LookupSetFlag(g.nodes, name, false, p);
    ClosureClosed(nodes1, {name});
    var f := Lookup(g.nodes, p).value;
    assert f in nodes1 by {
      var c := FindNode(g.nodes, p).value;
      assert nodes1[c] == f;
    }
    LookupFilter(nodes1, KeepsNode(removed), p);
  }

  /** Collapse keeps every surviving child one level below its expanded introducer. */
  lemma CollapseParentsOk(g: Graph, name: string)
    requires HasId(g.nodes, name) && ParentsOk(g.nodes)
    ensures ParentsOk(CollapseGraph(g, name).nodes)
  {
    var r := CollapseGraph(g, name);
    forall c | c in r.nodes && c.sourceName.Some? ensures ParentOk(r.nodes, c) {
      var c0 := SetFlagMember(g.nodes, name, false, c);
      assert ParentOk(g.nodes, c0);
      CollapseLookupOutside(g, name, c.sourceName.value);
    }
  }

  /** Collapse keeps every surviving edge leaving an expanded node. */
  lemma CollapseEdgesOk(g: Graph, name: string)
    requires HasId(g.nodes, name) && EdgesOk(g.nodes, g.edges)
    ensures var r := CollapseGraph(g, name); EdgesOk(r.nodes, r.edges)
  {
    var r := CollapseGraph(g, name);
    forall e | e in r.edges ensures ExpandedAt(r.nodes, e.source) {
      CollapseLookupOutside(g, name, e.source);
    }
  }

  /** Filtering keeps only shallow nodes sharing ids: it never brings two nodes together that were not in order before. */
  lemma {:induction false} FilterDupsShallow(s: seq<Node>, p: Node -> bool)
    requires DupsShallow(s)
    ensures DupsShallow(Filter(s, p))
    decreases |s|
  {
    if s != [] {
      var s', x := s[..|s| - 1], s[|s| - 1];
      assert forall k :: 0 <= k < |s'| ==> s'[k] == s[k];
      FilterDupsShallow(s', p);
      FilterMembers(s', p);
      var r', r := Filter(s', p), Filter(s, p);
      forall i, k | 0 <= i < k < |r| && r[i].id == r[k].id
        ensures r[i].level <= 1 && r[k].level <= 1
      {
        if k == |r'| {
          assert r[i] == r'[i] && r'[i] in r';
          var m :| 0 <= m < |s'| && s'[m] == r[i];
          assert s[m] == r[i] && s[|s| - 1] == r[k];
        }
      }
    }
  }

  /** Collapse keeps only shallow nodes sharing ids. */
  lemma CollapseDupsShallow(g: Graph, name: string)
    requires HasId(g.nodes, name) && DupsShallow(g.nodes)
    ensures DupsShallow(CollapseGraph(g, name).nodes)
  {
    var nodes1 := SetFlag(g.nodes, name, false);
    assert forall k :: 0 <= k < |nodes1| ==> nodes1[k].id == g.nodes[k].id && nodes1[k].level == g.nodes[k].level;
    FilterDupsShallow(nodes1, KeepsNode(Removed(g, name)));
  }

  /** Collapse keeps the graph well formed. */
  lemma CollapsePreservesWellFormed(g: Graph, name: string)
    requires HasId(g.nodes, name) && WellFormed(g)
    ensures WellFormed(CollapseGraph(g, name))
  {
    CollapseRootFirst(g, name);
    CollapseParentsOk(g, name);
    CollapseEdgesOk(g, name);
    CollapseDupsShallow(g, name);
  }
}
