/** The webhook's mount graph. Every node caches the set of roots above it; adding and removing
    mounts consult and maintain only that cache. The class keeps the source's heap of nodes; its
    contracts equate the cache with reachability computed from scratch. */
module MultiTrees {
  import opened Basics
  import opened Graphs

  /** The error returns of the graph operations. */
  datatype Status =
    | Ok
    | StartMissing
    | EndMissing
    | RootShared(node: string, root: string)
    | EdgeMissing
    | NodeMissing

  /** A child link; set once, never written again. */
  datatype Child = Child(node: Node, status: string)

  datatype Tree = Tree(root: Node)

  class Node {
    const value: string
    var children: map<string, Child>
    var roots: set<string>

    constructor (n: string)
      ensures value == n && children == map[] && roots == {n}
    {
      value := n;
      children := map[];
      roots := {n};
    }
  }

  // ---------------------------------------------------------------- the index, from the graph alone

  /** Root sets under which one run of the intersection test may overlook every shared root: it
      answers with the shared root it meets first, and the empty name reads as "none". */
  ghost predicate Overlooks(g: Graph, s: string, e: string) {
    && ShareRoot(g, s, e)
    && forall n :: n in Desc(g, e) && RootsOf(g, n) * RootsOf(g, s) != {} ==> "" in RootsOf(g, n) * RootsOf(g, s)
  }

  /** A run of the test over the nodes at and below `e` that answers "no shared root" everywhere. */
  ghost predicate MayPassTest(g: Graph, s: string, e: string) {
    forall n :: n in Desc(g, e) ==>
      var shared := RootsOf(g, n) * RootsOf(g, s);
      shared == {} || "" in shared
  }

  /** What a caller can look up beforehand: the test is right about every edge that may be added at `s` if
      and only if the empty name is not among the cached roots of `s`. */
  lemma TestIsRightIffNamed(g: Graph, s: string)
    requires Closed(g) && Multitree(g) && s in g
    ensures (forall e :: e in g && e !in g[s] ==> (MayPassTest(g, s, e) <==> Multitree(WithEdge(g, s, e))))
            <==> "" !in RootsOf(g, s)
  {
    hide Multitree, Closed;
    if "" in RootsOf(g, s) {
      BlankRootPasses(g, s);
    } else {
      forall e | e in g && e !in g[s]
        ensures MayPassTest(g, s, e) <==> Multitree(WithEdge(g, s, e))
      {
        RootTestIsExact(g, s, e);
      }
    }
  }

  /** Under a root of the empty name, the edge back to that root passes and closes a cycle. */
  lemma BlankRootPasses(g: Graph, s: string)
    requires Closed(g) && Multitree(g) && s in g && "" in RootsOf(g, s)
    ensures "" in g && "" !in g[s] && MayPassTest(g, s, "") && !Multitree(WithEdge(g, s, ""))
  {
    hide Multitree, Closed;
    ReachesSelf(g, "");
    assert "" in Desc(g, "") && "" in RootsOf(g, "") * RootsOf(g, s);
    RootTestIsExact(g, s, "");
  }

  /** What passed closes no cycle, if closing one would not have been overlooked. */
  lemma PassedHasNoReturn(g: Graph, s: string, e: string)
    requires Closed(g) && Multitree(g) && s in g && MayPassTest(g, s, e) && (Reaches(g, e, s) ==> !Overlooks(g, s, e))
    ensures !Reaches(g, e, s) && Acyclic(g)
  {
    hide Multitree, Reaches, Closed;
    MultitreeIsAcyclic(g);
    if Reaches(g, e, s) {
      NewEdgeHasNoReturn(g, s, e);
    }
  }

  /** The failing family is inhabited: a self-loop on a node with the empty name. */
  lemma EmptyNameDefeatsTheTest()
    ensures var g: Graph := map["" := {}];
            Closed(g) && Multitree(g) && MayPassTest(g, "", "") && !Multitree(WithEdge(g, "", ""))
  {
    var g: Graph := map["" := {}];
    assert forall a, b :: !Edge(g, a, b);
    forall p | Walk(g, p) ensures p == [""] {
      WalkFirstStep(g, p);
    }
    ReachesSelf(g, "");
    assert IsRoot(g, "");
    assert "" in Desc(g, "") && "" in RootsOf(g, "") * RootsOf(g, "");
    RootTestIsExact(g, "", "");
  }

  /** With no node of the empty name above `s` the test cannot overlook anything. */
  lemma NamedRootsAreNotOverlooked(g: Graph, s: string, e: string)
    requires "" !in RootsOf(g, s)
    ensures !Overlooks(g, s, e)
  {
  }

  lemma WithNodeWalk(g: Graph, n: string, p: seq<string>)
    requires Closed(g) && n !in g && Walk(WithNode(g, n), p)
    ensures p == [n] || Walk(g, p)
  {
    var h := WithNode(g, n);
    forall i | 0 <= i < |p| - 1 ensures Edge(g, p[i], p[i + 1]) {
      assert Edge(h, p[i], p[i + 1]);
    }
    WalkFirstStep(h, p);
  }

  lemma WithNodeReaches(g: Graph, n: string, r: string, m: string)
    requires Closed(g) && n !in g && m in g
    ensures Reaches(WithNode(g, n), r, m) <==> Reaches(g, r, m)
  {
    var h := WithNode(g, n);
    if Reaches(h, r, m) {
      var p :| Connects(h, p, r, m);
      WithNodeWalk(g, n, p);
      assert Connects(g, p, r, m);
    }
    if Reaches(g, r, m) {
      ReachesMonotone(g, h, r, m);
    }
  }

  lemma WithNodeIsMultitree(g: Graph, n: string)
    requires Closed(g) && Multitree(g) && n !in g
    ensures Closed(WithNode(g, n)) && Multitree(WithNode(g, n))
  {
    var h := WithNode(g, n);
    assert forall a, b :: Edge(h, a, b) <==> Edge(g, a, b);
    forall p, q, a, b | Connects(h, p, a, b) && Connects(h, q, a, b) ensures p == q {
      WithNodeWalk(g, n, p);
      WithNodeWalk(g, n, q);
      if Walk(g, p) && Walk(g, q) {
        assert Connects(g, p, a, b) && Connects(g, q, a, b);
      }
    }
  }

  lemma WithNodeIndex(g: Graph, n: string)
    requires Closed(g) && Multitree(g) && n !in g
    ensures Closed(WithNode(g, n)) && Multitree(WithNode(g, n))
    ensures RootsOf(WithNode(g, n), n) == {n}
    ensures forall m :: m in g ==> RootsOf(WithNode(g, n), m) == RootsOf(g, m)
    ensures Roots(WithNode(g, n)) == Roots(g) + {n}
  {
    var h := WithNode(g, n);
    WithNodeIsMultitree(g, n);
    assert IsRoot(h, n) by {
      forall a | a in h ensures n !in h[a] { assert !Edge(g, a, n); }
    }
    forall r | r in g ensures IsRoot(h, r) <==> IsRoot(g, r) {
      if IsRoot(h, r) {
        forall a | a in g ensures r !in g[a] { assert h[a] == g[a]; }
      }
    }
    ReachesSelf(h, n);
    forall r | r in h && r != n ensures !Reaches(h, r, n) {
      if Reaches(h, r, n) {
        var c := ReachesLastStep(h, r, n);
      }
    }
    forall m, r | m in g ensures Reaches(h, r, m) <==> Reaches(g, r, m) {
      WithNodeReaches(g, n, r, m);
    }
    forall m | m in g ensures RootsOf(h, m) == RootsOf(g, m) {
      assert !Reaches(g, n, m) by {
        if Reaches(g, n, m) { ReachesIn(g, n, m); }
      }
    }
  }

  /** A root set after some roots left it and others entered. */
  function Shifted(roots: set<string>, del: set<string>, add: set<string>): set<string> {
    roots - del + add
  }

  lemma ShiftedTwice(roots: set<string>, del: set<string>, add: set<string>)
    ensures Shifted(roots - del, del, add) == Shifted(roots, del, add)
  {
  }

  lemma WithEdgeIsAcyclic(g: Graph, s: string, e: string)
    requires Closed(g) && Acyclic(g) && s in g && e in g && e !in g[s] && !Reaches(g, e, s)
    ensures Acyclic(WithEdge(g, s, e))
  {
    forall p | Walk(WithEdge(g, s, e), p) && |p| > 1
      ensures p[0] != p[|p| - 1]
    {
      var k := SplitAtNewEdge(g, s, e, p);
      if k == |p| {
        assert p[..k] == p;
      } else if p[0] == p[|p| - 1] {
        assert Connects(g, p[k..], e, p[0]) && Connects(g, p[..k], p[0], s);
        ReachesTrans(g, e, p[0], s);
        assert false;
      }
    }
  }

  /** An edge back to where one came from closes a cycle, around which the deep update would run for ever. */
  lemma ReturnIsCycle(g: Graph, s: string, e: string) returns (p: seq<string>)
    requires Closed(g) && s in g && e in g && Reaches(g, e, s)
    ensures Walk(WithEdge(g, s, e), p) && |p| > 1 && p[0] == e == p[|p| - 1]
  {
    var h := WithEdge(g, s, e);
    var down :| Connects(g, down, e, s);
    WalkMonotone(g, h, down);
    WalkJoin(h, down, [e]);
    p := down + [e];
  }

  /** Adding an edge that closes no cycle: the index of the larger graph, from that of the smaller one,
      whether the larger one is a multitree or not. */
  lemma WithEdgeIndex(g: Graph, s: string, e: string)
    requires Closed(g) && s in g && e in g && e !in g[s] && !Reaches(g, e, s)
    ensures var h := WithEdge(g, s, e);
            && h.Keys == g.Keys && Closed(h) && Roots(h) == Roots(g) - {e} && Desc(h, e) == Desc(g, e)
            && forall n :: n in g ==>
                 RootsOf(h, n) == if n in Desc(g, e) then Shifted(RootsOf(g, n), {e}, RootsOf(g, s)) else RootsOf(g, n)
  {
    hide Reaches, RootsOf, Closed;
    var h := WithEdge(g, s, e);
    WithEdgeClosed(g, s, e);
    forall n | n in g { RootsWithEdge(g, s, e, n); }
    forall r | r in g ensures IsRoot(h, r) <==> IsRoot(g, r) && r != e {
      assert e in h[s];
      if IsRoot(h, r) {
        forall a | a in g ensures r !in g[a] { assert r !in h[a]; }
      }
    }
    forall n | n in g ensures n in Desc(h, e) <==> n in Desc(g, e) {
      ReachesWithEdge(g, s, e, e, n);
    }
  }

  /** All root sets of a graph, and root sets shifted at some of its nodes. */
  ghost function RootMap(g: Graph): map<string, set<string>> {
    map k | k in g :: RootsOf(g, k)
  }

  function ShiftedAt(roots: map<string, set<string>>, below: set<string>, del: set<string>, add: set<string>): map<string, set<string>> {
    map k | k in roots :: if k in below then Shifted(roots[k], del, add) else roots[k]
  }

  lemma RootMapAt(g: Graph, k: string)
    requires k in g
    ensures k in RootMap(g) && RootMap(g)[k] == RootsOf(g, k)
  {
    hide RootsOf;
  }

  lemma WithEdgeRootMap(g: Graph, s: string, e: string)
    requires Closed(g) && s in g && e in g && e !in g[s] && !Reaches(g, e, s)
    ensures var h := WithEdge(g, s, e);
            && h.Keys == g.Keys && Closed(h) && Roots(h) == Roots(g) - {e} && Desc(h, e) == Desc(g, e)
            && RootMap(h) == ShiftedAt(RootMap(g), Desc(h, e), {e}, RootsOf(g, s))
  {
    hide Reaches, Closed, RootsOf, Shifted, Desc, Roots;
    WithEdgeIndex(g, s, e);
  }

  lemma NewEdgeHasNoReturn(g: Graph, s: string, e: string)
    requires Closed(g) && Multitree(g) && s in g && !ShareRoot(g, s, e)
    ensures !Reaches(g, e, s)
  {
    if Reaches(g, e, s) {
      MultitreeIsAcyclic(g);
      ReachesSelf(g, s);
      CommonAncestorSharesRoot(g, s, e, s, s);
    }
  }

  /** Removing an edge is the inverse update: roots of the parent leave, and the child becomes its
      own root exactly when nothing is left above it. */
  lemma WithoutEdgeIndex(g: Graph, s: string, e: string)
    requires Closed(g) && Multitree(g) && s in g && e in g[s]
    ensures var h := WithoutEdge(g, s, e);
            && e in g && s != e && e in Desc(h, e) && h.Keys == g.Keys && Closed(h) && Multitree(h)
            && Roots(h) == Roots(g) + (if RootsOf(g, e) - RootsOf(g, s) == {} then {e} else {})
            && forall n :: n in g ==>
                 RootsOf(h, n) ==
                 if n in Desc(h, e)
                 then Shifted(RootsOf(g, n), RootsOf(g, s), if RootsOf(g, e) - RootsOf(g, s) == {} then {e} else {})
                 else RootsOf(g, n)
  {
    var h := WithoutEdge(g, s, e);
    assert Edge(g, s, e);
    forall a, b | Edge(h, a, b) ensures b in h { assert Edge(g, a, b); }
    SubgraphOfMultitree(h, g);
    assert h[s] + {e} == g[s];
    assert WithEdge(h, s, e) == g;
    RootTestIsExact(h, s, e);
    NewEdgeHasNoReturn(h, s, e);
    WithEdgeIndex(h, s, e);
    MultitreeIsAcyclic(h);
    assert s != e by {
      if s == e { ReachesSelf(h, s); }
    }
    ReachesSelf(h, e);
    assert e in Desc(h, e);
    LeftoverIsRootless(h, s, e);
    forall n | n in Desc(h, e) ensures RootsOf(h, n) * RootsOf(h, s) == {} {}
    assert RootsOf(g, s) == RootsOf(h, s);
    assert RootsOf(g, e) - RootsOf(g, s) == RootsOf(h, e) - {e};
    forall n | n in Desc(h, e) && IsRoot(h, e) ensures e in RootsOf(h, n) {}
    forall n | n in Desc(h, e) && !IsRoot(h, e) ensures e !in RootsOf(h, n) {}
  }

  /** The same, with the roots of the child already subtracted, as the source does it. */
  lemma WithoutEdgeRootMap(g: Graph, s: string, e: string)
    requires Closed(g) && Multitree(g) && s in g && e in g[s]
    ensures var h, above := WithoutEdge(g, s, e), RootsOf(g, s);
            && e in g && s != e && h.Keys == g.Keys && Closed(h) && Multitree(h) && Acyclic(h)
            && var left := RootsOf(g, e) - above;
               var add := if left == {} then {e} else {};
               && Roots(h) == Roots(g) + add
               && RootMap(h) == ShiftedAt(RootMap(g)[e := left], Desc(h, e), above, add)
  {
    hide Reaches, Closed, RootsOf, Shifted, Desc, Roots, Multitree, Acyclic;
    WithoutEdgeIndex(g, s, e);
    MultitreeIsAcyclic(WithoutEdge(g, s, e));
    var above := RootsOf(g, s);
    ShiftedTwice(RootsOf(g, e), above, if RootsOf(g, e) - above == {} then {e} else {});
  }

  /** What removing the edge from `s` to `e` makes of the root sets, whatever they are. */
  function AfterRemoval(roots: map<string, set<string>>, below: set<string>, s: string, e: string): map<string, set<string>>
    requires s in roots && e in roots
  {
    var left := roots[e] - roots[s];
    ShiftedAt(roots[e := left], below, roots[s], if left == {} then {e} else {})
  }

  /** Taking back an edge that closed no cycle restores all root sets if and only if no shared root was
      overlooked when it was added. */
  lemma RemovalUndoesIff(g: Graph, s: string, e: string)
    requires Closed(g) && Multitree(g) && s in g && e in g && e !in g[s] && !Reaches(g, e, s)
    ensures AfterRemoval(RootMap(WithEdge(g, s, e)), Desc(g, e), s, e) == RootMap(g) <==> !ShareRoot(g, s, e)
  {
    hide Reaches, Closed, RootsOf, Shifted, Desc, Roots, Multitree, ShiftedAt;
    var h := WithEdge(g, s, e);
    WithEdgeRootMap(g, s, e);
    if ShareRoot(g, s, e) {
      SharedRootIsLost(g, s, e);
    } else {
      RootTestIsExact(g, s, e);
      WithoutEdgeRootMap(h, s, e);
      assert g[s] + {e} - {e} == g[s];
      assert WithoutEdge(h, s, e) == g;
    }
  }

  lemma NoSelfEdge(g: Graph, s: string, e: string)
    requires Closed(g) && Acyclic(g) && s in g && e in g && e in g[s]
    ensures s != e && e in WithoutEdge(g, s, e) && Closed(WithoutEdge(g, s, e)) && Acyclic(WithoutEdge(g, s, e))
  {
    var h := WithoutEdge(g, s, e);
    assert Edge(g, s, e);
    forall a, b | Edge(h, a, b) ensures b in h {
      assert Edge(g, a, b);
    }
    forall p | Walk(h, p) && |p| > 1 ensures p[0] != p[|p| - 1] {
      WalkMonotone(h, g, p);
    }
    if s == e {
      assert Walk(g, [s, e]);
      assert false;
    }
  }

  /** In a valid state, what removing does to the root sets is what the definition asks for. */
  lemma RemovedRoots(g: Graph, s: string, e: string)
    requires Closed(g) && Multitree(g) && s in g && e in g[s]
    ensures var h := WithoutEdge(g, s, e);
            && s in RootMap(g) && e in RootMap(g)
            && RootMap(h) == AfterRemoval(RootMap(g), Desc(h, e), s, e)
            && Roots(h) == Roots(g) + if RootMap(g)[e] - RootMap(g)[s] == {} then {e} else {}
  {
    hide Reaches, Closed, RootsOf, Shifted, Desc, Roots, Multitree, ShiftedAt;
    WithoutEdgeRootMap(g, s, e);
    RootMapAt(g, s);
    RootMapAt(g, e);
  }

  lemma SharedRootIsLost(g: Graph, s: string, e: string)
    requires Closed(g) && s in g && e in g && e !in g[s] && !Reaches(g, e, s) && ShareRoot(g, s, e)
    ensures AfterRemoval(RootMap(WithEdge(g, s, e)), Desc(g, e), s, e) != RootMap(g)
  {
    hide Reaches, Closed;
    var h := WithEdge(g, s, e);
    WithEdgeIndex(g, s, e);
    var n :| n in Desc(g, e) && RootsOf(g, n) * RootsOf(g, s) != {};
    var r :| r in RootsOf(g, n) * RootsOf(g, s);
    assert r != e && s !in Desc(g, e) && r in RootMap(h)[s];
    assert r !in AfterRemoval(RootMap(h), Desc(g, e), s, e)[n];
    assert r in RootMap(g)[n];
  }

  lemma LeftoverIsRootless(h: Graph, s: string, e: string)
    requires Closed(h) && Acyclic(h) && e in h
    ensures IsRoot(h, e) <==> RootsOf(h, e) - {e} == {}
  {
    if IsRoot(h, e) {
      forall r | r in RootsOf(h, e) && r != e ensures false {
        var c := ReachesLastStep(h, r, e);
      }
    } else {
      var r := RootAbove(h, e);
      assert r in RootsOf(h, e) - {e};
    }
  }

  lemma WithoutSinkReaches(g: Graph, k: string, r: string, n: string)
    requires Closed(g) && k in g && g[k] == {} && n in g && n != k
    ensures Reaches(g, r, n) <==> Reaches(WithoutNode(g, k), r, n)
    ensures !Reaches(g, k, n)
  {
    var h := WithoutNode(g, k);
    if Reaches(g, k, n) {
      var c := ReachesFirstStep(g, k, n);
    }
    if Reaches(h, r, n) {
      assert Subgraph(h, g);
      ReachesMonotone(h, g, r, n);
    }
    if Reaches(g, r, n) {
      var p :| Connects(g, p, r, n);
      WalkInGraph(g, p);
      forall i | 0 <= i < |p| ensures p[i] != k {
        assert i < |p| - 1 ==> Edge(g, p[i], p[i + 1]);
      }
      forall i | 0 <= i < |p| - 1 ensures Edge(h, p[i], p[i + 1]) {
        assert Edge(g, p[i], p[i + 1]);
      }
      assert Connects(h, p, r, n);
    }
  }

  /** Deleting a node without children changes no other node's roots. */
  lemma WithoutSinkIndex(g: Graph, k: string)
    requires Closed(g) && Multitree(g) && k in g && g[k] == {}
    ensures var h := WithoutNode(g, k);
            && h.Keys == g.Keys - {k} && Closed(h) && Multitree(h) && Roots(h) == Roots(g) - {k}
            && forall n :: n in h ==> RootsOf(h, n) == RootsOf(g, n)
  {
    hide Reaches, Multitree;
    var h := WithoutNode(g, k);
    forall a, b | Edge(h, a, b) ensures b in h { assert Edge(g, a, b); }
    SubgraphOfMultitree(h, g);
    forall r | r in h ensures IsRoot(h, r) <==> IsRoot(g, r) {
      if IsRoot(h, r) {
        forall a | a in g ensures r !in g[a] { assert a != k ==> r !in h[a]; }
      }
    }
    forall n, r | n in h {
      WithoutSinkReaches(g, k, r, n);
    }
  }

  // ---------------------------------------------------------------- the heap of nodes

  /** The nodes form the graph `g`: every node knows its own name, its children are those of `g`,
      and the links lead to the registered nodes, all of which are in `repr`. */
  ghost predicate Linked(nodes: map<string, Node>, g: Graph, repr: set<Node>)
    reads repr`children
  {
    && nodes.Keys == g.Keys
    && (forall k :: k in nodes ==> nodes[k] in repr && nodes[k].value == k && nodes[k].children.Keys == g[k])
    && (forall k, c {:trigger nodes[k].children[c]} {:trigger c in nodes[k].children} :: k in nodes && c in nodes[k].children ==> c in nodes && nodes[k].children[c].node == nodes[c])
  }

  /** The root sets of the nodes, by name. */
  ghost function RootsIn(nodes: map<string, Node>, repr: set<Node>): map<string, set<string>>
    reads repr`roots
  {
    map k | k in nodes && nodes[k] in repr :: nodes[k].roots
  }

  /** Some name common to both sets, in whichever order the first set is traversed; the empty
      string stands for "no common name". */
  method Intersect(rs1: set<string>, rs2: set<string>) returns (r: string)
    ensures r != "" ==> r in rs1 * rs2
    ensures r == "" ==> rs1 * rs2 == {} || "" in rs1 * rs2
  {
    var todo := rs1;
    while todo != {}
      invariant todo <= rs1
      invariant (rs1 - todo) * rs2 == {}
    {
      var k :| k in todo;
      if k in rs2 {
        return k;
      }
      todo := todo - {k};
    }
    return "";
  }

  method Slice(ss: set<string>) returns (keys: seq<string>)
    ensures Elems(keys) == ss && |keys| == |ss|
  {
    keys := [];
    var todo := ss;
    while todo != {}
      invariant todo <= ss
      invariant Elems(keys) == ss - todo
      invariant |keys| == |ss| - |todo|
    {
      var k :| k in todo;
      keys := keys + [k];
      assert Elems(keys) == ss - todo + {k};
      todo := todo - {k};
    }
  }

  /** What the deep traversals need to know of the graph, node by node: all that lies at or below
      the node. */
  ghost predicate NodeLayout(g: Graph, desc: map<string, set<string>>, n: string) {
    && n in g && desc.Keys == g.Keys && g[n] <= g.Keys && desc[n] <= g.Keys
    && (forall c :: c in g[n] ==> desc[c] < desc[n] && n !in desc[c])
    && desc[n] == Below(desc, n, g[n])
  }

  ghost predicate Layout(g: Graph, desc: map<string, set<string>>) {
    && desc.Keys == g.Keys
    && (forall n :: n in desc ==> desc[n] <= g.Keys)
    && (forall n {:trigger NodeLayout(g, desc, n)} :: n in g ==> NodeLayout(g, desc, n))
  }

  /** Different children of a node have nothing below them in common. */
  ghost predicate Apart(g: Graph, desc: map<string, set<string>>) {
    forall n, c, d :: n in g && c in g[n] && d in g[n] && c != d && c in desc && d in desc ==> desc[c] !! desc[d]
  }

  /** The node `n` and everything at or below the children in `done`. */
  ghost function Below(desc: map<string, set<string>>, n: string, done: set<string>): set<string> {
    {n} + set c, x | c in done && c in desc && x in desc[c] :: x
  }

  ghost function DescMap(g: Graph): map<string, set<string>> {
    map n | n in g :: Desc(g, n)
  }

  lemma NodeLayoutHolds(g: Graph, n: string)
    requires Closed(g) && Acyclic(g) && n in g
    ensures NodeLayout(g, DescMap(g), n)
  {
    hide Reaches, Walk, Acyclic;
    forall c | c in g[n] ensures c in g && Desc(g, c) < Desc(g, n) && n !in Desc(g, c) {
      assert Edge(g, n, c);
      DescShrinks(g, n, c);
      NoReturn(g, n, c);
    }
    DescUnfold(g, n);
    assert forall c :: c in g[n] ==> c in DescMap(g) && DescMap(g)[c] == Desc(g, c);
    assert (set c, x | c in g[n] && x in Desc(g, c) :: x) ==
           (set c, x | c in g[n] && c in DescMap(g) && x in DescMap(g)[c] :: x);
  }

  lemma AcyclicLayout(g: Graph)
    requires Closed(g) && Acyclic(g)
    ensures Layout(g, DescMap(g)) && (Multitree(g) ==> Apart(g, DescMap(g)))
  {
    hide Acyclic, Multitree, Desc, Closed;
    forall n | n in g ensures NodeLayout(g, DescMap(g), n) {
      NodeLayoutHolds(g, n);
    }
    if Multitree(g) {
      forall n, c, d | n in g && c in g[n] && d in g[n] && c != d && c in g && d in g
        ensures Desc(g, c) !! Desc(g, d)
      {
        SiblingsDisjoint(g, n, c, d);
      }
    }
  }

  lemma LayoutWhole(g: Graph, desc: map<string, set<string>>, n: string)
    requires Layout(g, desc) && n in g
    ensures desc.Keys == g.Keys && desc[n] <= g.Keys && n in desc[n]
    ensures Below(desc, n, {}) == {n} && Below(desc, n, g[n]) == desc[n]
  {
    assert NodeLayout(g, desc, n);
  }

  lemma LayoutStep(g: Graph, desc: map<string, set<string>>, n: string, done: set<string>, c: string)
    requires Layout(g, desc) && n in g && done <= g[n] && c in g[n] - done
    ensures c in g && desc[c] < desc[n]
    ensures Below(desc, n, done + {c}) == Below(desc, n, done) + desc[c] <= desc[n]
  {
    assert NodeLayout(g, desc, n);
  }

  lemma ApartStep(g: Graph, desc: map<string, set<string>>, n: string, done: set<string>, c: string)
    requires Layout(g, desc) && Apart(g, desc) && n in g && done <= g[n] && c in g[n] - done
    ensures c in desc && Below(desc, n, done) !! desc[c]
  {
    hide Layout, NodeLayout;
    NotBelowItself(g, desc, n);
  }

  lemma NotBelowItself(g: Graph, desc: map<string, set<string>>, n: string)
    requires Layout(g, desc) && n in g
    ensures forall c :: c in g[n] ==> c in desc && n !in desc[c]
  {
    assert NodeLayout(g, desc, n);
  }

  lemma DisjointMultisets(a: set<string>, b: set<string>)
    requires a !! b
    ensures multiset(a + b) == multiset(a) + multiset(b)
  {
  }

  lemma ShiftedFurther(roots: map<string, set<string>>, a: set<string>, b: set<string>, del: set<string>, add: set<string>)
    ensures ShiftedAt(ShiftedAt(roots, a, del, add), b, del, add) == ShiftedAt(roots, a + b, del, add)
  {
    assert forall r :: Shifted(Shifted(r, del, add), del, add) == Shifted(r, del, add);
  }

  /** Rewrites the roots of a node and of everything below it, in any acyclic graph. `calls` records the
      node each (recursive) call was made for: in a multitree every one of them exactly once, because
      what hangs below a node of it is a tree. */
  method DeepUpdateRoots(rootsToDel: seq<string>, rootsToAdd: seq<string>, n: Node,
                         ghost nodes: map<string, Node>, ghost g: Graph, ghost repr: set<Node>, ghost desc: map<string, set<string>>)
    returns (ghost calls: multiset<string>)
    requires Linked(nodes, g, repr) && Layout(g, desc)
    requires n.value in nodes && nodes[n.value] == n
    modifies repr`roots
    ensures Apart(g, desc) ==> calls == multiset(desc[n.value])
    ensures RootsIn(nodes, repr) == ShiftedAt(old(RootsIn(nodes, repr)), desc[n.value], Elems(rootsToDel), Elems(rootsToAdd))
    decreases desc[n.value]
  {
    hide Layout, NodeLayout, Below, Apart, ShiftedAt, RootsIn, Elems, Linked;
    LinkedNode(nodes, g, repr, n);
    LayoutWhole(g, desc, n.value);
    ghost var del, add, was := Elems(rootsToDel), Elems(rootsToAdd), RootsIn(nodes, repr);
    UpdateRoots(rootsToDel, rootsToAdd, n, nodes, g, repr);
    calls := multiset{n.value};
    var todo := n.children.Keys;
    ghost var done, below := {}, {n.value};
    while todo != {}
      invariant todo !! done && todo + done == g[n.value]
      invariant below == Below(desc, n.value, done)
      invariant Apart(g, desc) ==> calls == multiset(below)
      invariant RootsIn(nodes, repr) == ShiftedAt(was, below, del, add)
      decreases todo
    {
      var c :| c in todo;
      LayoutStep(g, desc, n.value, done, c);
      ghost var more := DeepUpdateRoots(rootsToDel, rootsToAdd, n.children[c].node, nodes, g, repr, desc);
      ShiftedFurther(was, below, desc[c], del, add);
      if Apart(g, desc) {
        ApartStep(g, desc, n.value, done, c);
        DisjointMultisets(below, desc[c]);
      }
      calls, done, below := calls + more, done + {c}, below + desc[c];
      todo := todo - {c};
    }
  }

  /** The two loops over the node's own roots. */
  method UpdateRoots(rootsToDel: seq<string>, rootsToAdd: seq<string>, n: Node,
                     ghost nodes: map<string, Node>, ghost g: Graph, ghost repr: set<Node>)
    requires Linked(nodes, g, repr) && n.value in nodes && nodes[n.value] == n
    modifies n`roots
    ensures RootsIn(nodes, repr) == ShiftedAt(old(RootsIn(nodes, repr)), {n.value}, Elems(rootsToDel), Elems(rootsToAdd))
  {
    for i := 0 to |rootsToDel|
      invariant n.roots == old(n.roots) - Elems(rootsToDel[..i])
    {
      n.roots := n.roots - {rootsToDel[i]};
      assert Elems(rootsToDel[..i + 1]) == Elems(rootsToDel[..i]) + {rootsToDel[i]};
    }
    assert rootsToDel[..|rootsToDel|] == rootsToDel;
    for i := 0 to |rootsToAdd|
      invariant n.roots == old(n.roots) - Elems(rootsToDel) + Elems(rootsToAdd[..i])
    {
      n.roots := n.roots + {rootsToAdd[i]};
      assert Elems(rootsToAdd[..i + 1]) == Elems(rootsToAdd[..i]) + {rootsToAdd[i]};
    }
    assert rootsToAdd[..|rootsToAdd|] == rootsToAdd;
  }

  lemma LinkedNode(nodes: map<string, Node>, g: Graph, repr: set<Node>, n: Node)
    requires Linked(nodes, g, repr) && n.value in nodes && nodes[n.value] == n
    ensures nodes.Keys == g.Keys && n in repr && n.children.Keys == g[n.value]
    ensures forall c :: c in n.children ==> c in nodes && n.children[c].node == nodes[c] && nodes[c].value == c
  {
  }

  /** At none of these nodes does the comparison meet a root that it would report. */
  ghost predicate NothingShared(nodes: map<string, Node>, ks: set<string>, roots: set<string>)
    reads nodes.Values`roots
  {
    ks <= nodes.Keys && forall k :: k in ks ==> nodes[k].roots * roots == {} || "" in nodes[k].roots * roots
  }

  lemma NothingSharedJoins(nodes: map<string, Node>, a: set<string>, b: set<string>, roots: set<string>)
    requires NothingShared(nodes, a, roots) && NothingShared(nodes, b, roots)
    ensures NothingShared(nodes, a + b, roots)
  {
  }

  lemma NothingSharedAt(nodes: map<string, Node>, k: string, roots: set<string>)
    requires k in nodes && (nodes[k].roots * roots == {} || "" in nodes[k].roots * roots)
    ensures NothingShared(nodes, {k}, roots)
  {
  }

  /** Looks for a shared root at a node and at everything below it; children in any order. No node is
      looked at twice, and all are if no shared root is found. */
  method DeepCompareRoots(n: Node, roots: set<string>, ghost nodes: map<string, Node>,
                          ghost g: Graph, ghost repr: set<Node>, ghost desc: map<string, set<string>>)
    returns (err: Status, ghost calls: multiset<string>)
    requires Linked(nodes, g, repr) && Layout(g, desc) && Apart(g, desc)
    requires n.value in nodes && nodes[n.value] == n
    ensures err.Ok? || err.RootShared?
    ensures calls <= multiset(desc[n.value]) && (err.Ok? ==> calls == multiset(desc[n.value]))
    ensures err.Ok? ==> NothingShared(nodes, desc[n.value], roots)
    ensures err.RootShared? ==> err.node in desc[n.value] && err.root in nodes[err.node].roots * roots
    decreases desc[n.value]
  {
    hide Layout, NodeLayout, Below, Linked, NothingShared, Apart;
    LinkedNode(nodes, g, repr, n);
    LayoutWhole(g, desc, n.value);
    calls := multiset{n.value};
    var r := Intersect(n.roots, roots);
    if r != "" {
      return RootShared(n.value, r), calls;
    }
    NothingSharedAt(nodes, n.value, roots);
    var todo := n.children.Keys;
    ghost var done, below := {}, {n.value};
    while todo != {}
      invariant todo !! done && todo + done == g[n.value]
      invariant below == Below(desc, n.value, done)
      invariant calls == multiset(below) && NothingShared(nodes, below, roots)
      decreases todo
    {
      var c :| c in todo;
      LayoutStep(g, desc, n.value, done, c);
      ApartStep(g, desc, n.value, done, c);
      ghost var more;
      err, more := DeepCompareRoots(n.children[c].node, roots, nodes, g, repr, desc);
      if !err.Ok? {
        CallsSoFar(below, desc[c], desc[n.value], more);
        return err, calls + more;
      }
      DisjointMultisets(below, desc[c]);
      NothingSharedJoins(nodes, below, desc[c], roots);
      calls, done, below := calls + more, done + {c}, below + desc[c];
      todo := todo - {c};
    }
    err := Ok;
  }

  lemma CallsSoFar(below: set<string>, part: set<string>, whole: set<string>, more: multiset<string>)
    requires below !! part && below + part <= whole && more <= multiset(part)
    ensures multiset(below) + more <= multiset(whole)
  {
    DisjointMultisets(below, part);
  }

  class MultiTree {
    var nodes: map<string, Node>
    var trees: map<string, Tree>

    /** The graph that the nodes form. */
    ghost var graph: Graph
    ghost var repr: set<Node>

    ghost predicate Shape()
      reads this, repr`children
    {
      Linked(nodes, graph, repr) && forall k :: k in trees ==> k in nodes && trees[k].root == nodes[k]
    }

    /** The cached root sets and the cached set of trees are what the graph says. */
    ghost predicate Exact()
      reads this, repr`roots
    {
      && nodes.Keys == graph.Keys && trees.Keys == Roots(graph)
      && forall k :: k in nodes ==> nodes[k] in repr && nodes[k].value == k && nodes[k].roots == RootsOf(graph, k)
    }

    /** The cached root sets, by name. */
    ghost function Cache(): map<string, set<string>>
      reads this`nodes, this`repr, repr`roots
    {
      RootsIn(nodes, repr)
    }

    ghost predicate Registered()
      reads this`nodes, this`repr
    {
      forall k :: k in nodes ==> nodes[k] in repr && nodes[k].value == k
    }

    /** The heap forms an acyclic graph, whatever is cached about it. */
    ghost predicate Sound()
      reads this, repr`children
    {
      Shape() && Registered() && Closed(graph) && Acyclic(graph)
    }

    lemma ValidIsSound()
      requires Valid()
      ensures Sound()
    {
      hide Multitree, Acyclic, Closed, RootsOf, Roots, Linked;
      MultitreeIsAcyclic(graph);
    }

    lemma ExactMeansSame()
      ensures Exact() <==> Registered() && nodes.Keys == graph.Keys && trees.Keys == Roots(graph) && Cache() == RootMap(graph)
    {
      hide RootsOf, Roots;
      if Registered() && nodes.Keys == graph.Keys && Cache() == RootMap(graph) {
        forall k | k in nodes ensures nodes[k].roots == RootsOf(graph, k) {
          assert Cache()[k] == RootMap(graph)[k];
        }
      }
    }

    /** Everything cached about the graph equals its definition. */
    ghost predicate Indexed()
      reads this, repr
    {
      Shape() && Closed(graph) && Exact()
    }

    /** ... and the graph is a multitree. */
    ghost predicate Valid()
      reads this, repr
    {
      Indexed() && Multitree(graph)
    }

    constructor ()
      ensures Valid() && graph == map[] && repr == {}
    {
      nodes, trees, graph, repr := map[], map[], map[], {};
      new;
      assert forall p :: !Walk(graph, p);
    }

    method NodeExists(name: string) returns (ok: bool)
      requires Valid()
      ensures ok <==> name in graph
    {
      ok := name in nodes;
    }

    method EdgeExists(start: string, end: string) returns (ok: bool)
      requires Valid()
      ensures ok <==> Edge(graph, start, end)
    {
      if start !in nodes {
        return false;
      }
      return end in nodes[start].children;
    }

    // The three ways the source rewires the heap, apart from what they do to the index.

    method Register(n: string) returns (nn: Node)
      requires Shape() && n !in nodes
      modifies this
      ensures Shape() && fresh(nn) && repr == old(repr) + {nn}
      ensures nodes == old(nodes)[n := nn] && trees == old(trees)[n := Tree(nn)] && nn.roots == {n}
      ensures graph == WithNode(old(graph), n)
    {
      nn := new Node(n);
      nodes := nodes[n := nn];
      trees := trees[n := Tree(nn)];
      graph := WithNode(graph, n);
      repr := repr + {nn};
    }

    method Link(start: string, end: string, sn: Node)
      requires Shape() && start in nodes && end in nodes && nodes[start] == sn
      modifies this`graph, sn`children
      ensures Shape() && graph == WithEdge(old(graph), start, end)
    {
      sn.children := sn.children[end := Child(nodes[end], "")];
      graph := WithEdge(graph, start, end);
    }

    method Unlink(start: string, end: string, sn: Node)
      requires Shape() && start in nodes && nodes[start] == sn
      modifies this`graph, sn`children
      ensures Shape() && graph == WithoutEdge(old(graph), start, end)
    {
      sn.children := sn.children - {end};
      graph := WithoutEdge(graph, start, end);
    }

    method AddNode(n: string)
      requires Valid()
      modifies this
      ensures Valid() && fresh(repr - old(repr))
      ensures graph == WithNode(old(graph), n)
    {
      if n in nodes {
        return;
      }
      WithNodeIndex(graph, n);
      hide Multitree, RootsOf, Roots, WithNode;
      var nn := Register(n);
    }

    /** Accepts an absent edge between existing nodes if and only if the graph stays a multitree, unless
        the root comparison overlooks a shared root of the empty name. Then it may accept an edge that
        breaks the multitree; what is cached still equals its definition. The precondition excludes the
        states in which an edge so accepted closes a cycle, where the source recurses for ever
        (`ReturnIsCycle`). With no empty name among the roots of `start` there is nothing to exclude
        (`NamedRootsAreNotOverlooked`, `TestIsRightIffNamed`). */
    method AddEdge(start: string, end: string) returns (err: Status, ghost calls: multiset<string>)
      requires Valid()
      requires start in graph && end in graph && !Edge(graph, start, end) && Reaches(graph, end, start) ==>
                 !Overlooks(graph, start, end)
      modifies this`trees, this`graph, repr
      ensures Indexed() && Sound()
      ensures err == StartMissing <==> start !in old(graph)
      ensures err == EndMissing <==> start in old(graph) && end !in old(graph)
      ensures start in old(graph) && end in old(graph) ==> err.Ok? || err.RootShared?
      ensures err.Ok? ==> graph == WithEdge(old(graph), start, end)
      ensures err.RootShared? ==> !Multitree(WithEdge(old(graph), start, end))
      ensures !err.Ok? ==> Unchanged() && Valid()
      ensures Edge(old(graph), start, end) || !Overlooks(old(graph), start, end) ==>
                Valid() && (start in old(graph) && end in old(graph) ==> (err.Ok? <==> Multitree(WithEdge(old(graph), start, end))))
      ensures err.Ok? && !Edge(old(graph), start, end) ==> !Reaches(old(graph), end, start)
      ensures err.Ok? && !Edge(old(graph), start, end) && Multitree(graph) ==> calls == multiset(Desc(graph, end))
    {
      hide Reaches, IsRoot, Multitree, RootsOf, Roots, Desc, ShareRoot, Overlooks, Closed, MayPassTest, Acyclic, Sound;
      ValidIsSound();
      calls := multiset{};
      if start !in nodes {
        return StartMissing, calls;
      }
      var sn := nodes[start];
      if end !in nodes {
        return EndMissing, calls;
      }
      var en := nodes[end];
      if end in sn.children {
        ExistingEdge(graph, start, end);
        return Ok, calls;
      }
      ghost var compared;
      err, compared := TestEdge(start, end);
      if !err.Ok? {
        return;
      }
      PassedHasNoReturn(graph, start, end);
      calls := AcceptEdge(start, end);
    }

    /** The check of the tree memberships of `end` and of everything below it. It refuses only edges
        that break the multitree; what it lets pass is right too, unless it overlooks a shared root. */
    method TestEdge(start: string, end: string) returns (err: Status, ghost calls: multiset<string>)
      requires Valid() && start in graph && end in graph && !Edge(graph, start, end)
      ensures err.Ok? || err.RootShared?
      ensures err.Ok? ==> MayPassTest(graph, start, end) && calls == multiset(Desc(graph, end))
      ensures !err.Ok? ==> ShareRoot(graph, start, end) && !Multitree(WithEdge(graph, start, end))
      ensures !Overlooks(graph, start, end) ==> (err.Ok? <==> Multitree(WithEdge(graph, start, end)))
    {
      RootTestIsExact(graph, start, end);
      MultitreeIsAcyclic(graph);
      AcyclicLayout(graph);
      hide Multitree, Acyclic, RootsOf, Roots, Desc, Layout, Apart;
      err, calls := DeepCompareRoots(nodes[end], nodes[start].roots, nodes, graph, repr, DescMap(graph));
    }

    /** The deep update, seen from the graph. */
    method UpdateBelow(e: string, rootsToDel: seq<string>, rootsToAdd: seq<string>, ghost del: set<string>, ghost add: set<string>)
      returns (ghost calls: multiset<string>)
      requires Shape() && Closed(graph) && Acyclic(graph) && e in graph
      requires Elems(rootsToDel) == del && Elems(rootsToAdd) == add
      modifies repr`roots
      ensures Shape()
      ensures Multitree(graph) ==> calls == multiset(Desc(graph, e))
      ensures Registered() && Cache() == ShiftedAt(old(Cache()), Desc(graph, e), del, add)
    {
      AcyclicLayout(graph);
      hide Multitree, Acyclic, Layout, Desc, Apart, ShiftedAt, Elems, Closed, RootsIn;
      calls := DeepUpdateRoots(rootsToDel, rootsToAdd, nodes[e], nodes, graph, repr, DescMap(graph));
    }

    /** The heap updates for an edge that passed the test. */
    method AcceptEdge(start: string, end: string) returns (ghost calls: multiset<string>)
      requires Indexed() && Acyclic(graph) && start in graph && end in graph && end !in graph[start]
      requires !Reaches(graph, end, start)
      modifies this`trees, this`graph, repr
      ensures Indexed() && Sound() && graph == WithEdge(old(graph), start, end)
      ensures Multitree(graph) ==> calls == multiset(Desc(graph, end))
    {
      hide Reaches, Acyclic, Multitree, RootsOf, RootMap, Roots, Desc, Closed, Linked, WithEdge, ShiftedAt;
      hide Shape, Exact, Cache, Registered;
      WithEdgeRootMap(graph, start, end);
      WithEdgeIsAcyclic(graph, start, end);
      ExactMeansSame();
      ghost var above := RootsOf(graph, start);
      RootsAreCached(start);
      RootMapAt(graph, start);
      Link(start, end, nodes[start]);
      ForgetTree(end);
      var rootsToAdd := Slice(nodes[start].roots);
      assert Elems([end]) == {end};
      calls := UpdateBelow(end, [end], rootsToAdd, {end}, above);
      ExactMeansSame();
    }

    method ForgetTree(end: string)
      requires Shape()
      modifies this`trees
      ensures Shape() && trees.Keys == old(trees.Keys) - {end}
    {
      hide Linked;
      trees := trees - {end};
    }

    lemma RootsAreCached(k: string)
      requires Shape() && Registered() && k in graph
      ensures k in nodes && nodes[k] in repr && k in Cache() && Cache()[k] == nodes[k].roots
    {
    }

    /** Removes an edge and takes the roots of the parent from the child and from everything below it. In a
        valid state that keeps what is cached exact; what it does in any other is stated too. */
    method RemoveEdge(start: string, end: string) returns (err: Status)
      requires Sound()
      modifies this`trees, this`graph, repr`children, repr`roots
      ensures Sound() && (old(Valid()) ==> Valid())
      ensures err == StartMissing <==> start !in old(graph)
      ensures err == EndMissing <==> start in old(graph) && end !in old(graph)
      ensures start in old(graph) && end in old(graph) ==>
                err == if Edge(old(graph), start, end) then Ok else EdgeMissing
      ensures err.Ok? ==>
                && graph == WithoutEdge(old(graph), start, end)
                && start in old(Cache()) && end in old(Cache())
                && Cache() == AfterRemoval(old(Cache()), Desc(graph, end), start, end)
      ensures !err.Ok? ==> Unchanged()
    {
      hide Acyclic, Closed, Multitree, Desc, AfterRemoval, RootsOf, Roots;
      if start !in nodes {
        return StartMissing;
      }
      var sn := nodes[start];
      if end !in nodes {
        return EndMissing;
      }
      if end !in sn.children {
        return EdgeMissing;
      }
      DropEdge(start, end);
      err := Ok;
    }

    method DropEdge(start: string, end: string)
      requires Sound() && start in graph && end in graph && end in graph[start]
      modifies this`trees, this`graph, repr`children, repr`roots
      ensures Sound() && graph == WithoutEdge(old(graph), start, end)
      ensures start in old(Cache()) && end in old(Cache())
      ensures Cache() == AfterRemoval(old(Cache()), Desc(graph, end), start, end)
      ensures old(Valid()) ==> Valid()
    {
      hide Reaches, Acyclic, Multitree, RootsOf, RootMap, Roots, Desc, Closed, Linked, WithoutEdge, ShiftedAt;
      hide Shape, Exact;
      ghost var valid, g := Valid(), graph;
      if valid {
        WithoutEdgeRootMap(graph, start, end);
        ExactMeansSame();
      }
      CutEdge(start, end);
      if valid {
        RemovedRoots(g, start, end);
        ExactMeansSame();
      }
    }

    method CutEdge(start: string, end: string)
      requires Sound() && start in graph && end in graph && end in graph[start]
      modifies this`trees, this`graph, repr`children, repr`roots
      ensures Sound() && graph == WithoutEdge(old(graph), start, end)
      ensures start in old(Cache()) && end in old(Cache())
      ensures Cache() == AfterRemoval(old(Cache()), Desc(graph, end), start, end)
      ensures trees.Keys == old(trees.Keys) + if old(Cache())[end] - old(Cache())[start] == {} then {end} else {}
    {
      hide Reaches, Acyclic, Desc, Closed, Linked, WithoutEdge, ShiftedAt, Elems, Shape, Cache;
      NoSelfEdge(graph, start, end);
      RootsAreCached(start);
      RootsAreCached(end);
      ghost var above, left := nodes[start].roots, nodes[end].roots - nodes[start].roots;
      var newRoots := Detach(start, end, nodes[start], nodes[end], above);
      var rootsToDel := Slice(nodes[start].roots);
      var calls := UpdateBelow(end, rootsToDel, newRoots, above, if left == {} then {end} else {});
    }

    /** Cuts the link, subtracts the parent's roots from the child's, and makes the child a tree of
        its own if no root is left. Returns what has to enter the roots below. */
    method Detach(start: string, end: string, sn: Node, en: Node, ghost above: set<string>)
      returns (newRoots: seq<string>)
      requires Shape() && Registered() && start in nodes && end in nodes && start != end
      requires nodes[start] == sn && nodes[end] == en && sn.roots == above
      modifies this`trees, this`graph, sn`children, en`roots
      ensures Shape() && Registered() && graph == WithoutEdge(old(graph), start, end)
      ensures sn.roots == above && Cache() == old(Cache())[end := old(en.roots) - above]
      ensures var add := if old(en.roots) - above == {} then {end} else {};
              trees.Keys == old(trees.Keys) + add && Elems(newRoots) == add
    {
      hide WithoutEdge, Linked, Shape, Cache;
      assert sn != en && sn in repr && en in repr;
      Unlink(start, end, sn);
      SubtractRoots(end, en, sn.roots);
      newRoots := [];
      if en.roots == {} {
        AddTree(end);
        newRoots := [end];
      }
    }

    method AddTree(end: string)
      requires Shape() && end in nodes
      modifies this`trees
      ensures Shape() && trees.Keys == old(trees.Keys) + {end}
    {
      hide Linked;
      trees := trees[end := Tree(nodes[end])];
    }

    method SubtractRoots(end: string, en: Node, roots: set<string>)
      requires Registered() && end in nodes && nodes[end] == en
      modifies en`roots
      ensures en.roots == old(en.roots) - roots
      ensures Cache() == old(Cache())[end := old(en.roots) - roots]
    {
      var todo := roots;
      while todo != {}
        invariant todo <= roots
        invariant en.roots == old(en.roots) - (roots - todo)
      {
        var r :| r in todo;
        en.roots := en.roots - {r};
        todo := todo - {r};
      }
      assert forall k :: k in nodes && k != end ==> nodes[k] != en;
    }

    method RemoveNode(name: string) returns (err: Status)
      requires Valid()
      modifies this, repr
      ensures Valid() && repr == old(repr)
      ensures err == if name in old(graph) then Ok else NodeMissing
      ensures graph == WithoutNode(old(graph), name)
    {
      hide Reaches, IsRoot, Multitree, RootsOf, Roots, Desc, WithoutEdge, WithoutNode;
      if name !in nodes {
        MissingNodeIsNoChild(graph, name);
        return NodeMissing;
      }
      RemoveChildEdges(name);
      Forget(name);
      err := Ok;
    }

    method RemoveChildEdges(name: string)
      requires Valid() && name in graph
      modifies this`trees, this`graph, repr
      ensures Valid() && name in graph && graph[name] == {}
      ensures WithoutNode(graph, name) == WithoutNode(old(graph), name)
    {
      hide Reaches, IsRoot, Multitree, RootsOf, Roots, Desc, WithoutEdge, WithoutNode, Closed;
      ghost var g := graph;
      var n := nodes[name];
      var todo := n.children.Keys;
      while todo != {}
        invariant Valid() && name in graph && todo == graph[name]
        invariant WithoutNode(graph, name) == WithoutNode(g, name)
        decreases todo
      {
        var c :| c in todo;
        PeelEdge(graph, name, c);
        ValidIsSound();
        var err := RemoveEdge(n.value, n.children[c].node.value);
        todo := todo - {c};
      }
    }

    /** The last part of removing a node, when it has no children left. */
    method Forget(name: string)
      requires Valid() && name in graph && graph[name] == {}
      modifies this, repr
      ensures Valid() && repr == old(repr)
      ensures graph == WithoutNode(old(graph), name)
    {
      hide Reaches, IsRoot, Multitree, RootsOf, Roots, Desc, Closed, Linked, WithoutNode;
      WithoutSinkIndex(graph, name);
      Erase(name);
    }

    method Erase(name: string)
      requires Shape() && name in nodes
      modifies this, repr`children
      ensures Shape() && repr == old(repr)
      ensures nodes == old(nodes) - {name} && trees == old(trees) - {name}
      ensures graph == WithoutNode(old(graph), name)
    {
      assert Registered();
      DropFromParents(name);
      nodes := nodes - {name};
      trees := trees - {name};
      graph := WithoutNode(graph, name);
    }

    method DropFromParents(name: string)
      requires Registered()
      modifies repr`children
      ensures forall k :: k in nodes ==> nodes[k].children == old(nodes[k].children) - {name}
    {
      var rest := nodes.Keys;
      while rest != {}
        invariant rest <= nodes.Keys
        invariant forall k :: k in nodes ==>
                    nodes[k].children == if k in rest then old(nodes[k].children) else old(nodes[k].children) - {name}
      {
        var k :| k in rest;
        nodes[k].children := nodes[k].children - {name};
        rest := rest - {k};
      }
    }

    /** Nothing the structure holds has changed. */
    twostate predicate Unchanged()
      reads this, repr
    {
      unchanged(this) && forall n :: n in repr ==> unchanged(n)
    }
  }

  lemma ExistingEdge(g: Graph, s: string, e: string)
    requires Edge(g, s, e)
    ensures WithEdge(g, s, e) == g
  {
    assert g[s] + {e} == g[s];
  }

  lemma PeelEdge(g: Graph, n: string, c: string)
    requires Closed(g) && n in g && c in g[n]
    ensures c in g && WithoutEdge(g, n, c)[n] == g[n] - {c}
    ensures WithoutEdge(g, n, c).Keys == g.Keys
    ensures WithoutNode(WithoutEdge(g, n, c), n) == WithoutNode(g, n)
  {
    assert Edge(g, n, c);
  }

  lemma MissingNodeIsNoChild(g: Graph, n: string)
    requires Closed(g) && n !in g
    ensures WithoutNode(g, n) == g
  {
    forall a | a in g ensures a != n && g[a] - {n} == g[a] {
      assert !Edge(g, a, n);
    }
  }
}
