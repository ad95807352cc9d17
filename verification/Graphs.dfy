/** Finite directed graphs over names, as adjacency maps: walks, reachability, roots, and the
    theory of multitrees. The mount graph of the webhook and the dependency graph of the CRD
    patcher are both read as such a graph. */
module Graphs {

  /** Every node maps to the set of its children. */
  type Graph = map<string, set<string>>

  predicate Edge(g: Graph, a: string, b: string) {
    a in g && b in g[a]
  }

  /** Children are nodes. */
  ghost predicate Closed(g: Graph) {
    forall a, b :: Edge(g, a, b) ==> b in g
  }

  function WithNode(g: Graph, n: string): Graph {
    if n in g then g else g[n := {}]
  }

  function WithEdge(g: Graph, s: string, e: string): Graph
    requires s in g
  {
    g[s := g[s] + {e}]
  }

  function WithoutEdge(g: Graph, s: string, e: string): Graph
    requires s in g
  {
    g[s := g[s] - {e}]
  }

  function WithoutNode(g: Graph, n: string): Graph {
    map a | a in g && a != n :: g[a] - {n}
  }

  // ---------------------------------------------------------------- walks and reachability

  /** A nonempty sequence of nodes in which each step follows an edge. */
  ghost predicate Walk(g: Graph, p: seq<string>) {
    |p| > 0 && p[0] in g && forall i :: 0 <= i < |p| - 1 ==> Edge(g, p[i], p[i + 1])
  }

  ghost predicate Connects(g: Graph, p: seq<string>, a: string, b: string) {
    Walk(g, p) && p[0] == a && p[|p| - 1] == b
  }

  ghost predicate Reaches(g: Graph, a: string, b: string) {
    exists p :: Connects(g, p, a, b)
  }

  /** No walk of at least one step returns to its first node. */
  ghost predicate Acyclic(g: Graph) {
    forall p :: Walk(g, p) && |p| > 1 ==> p[0] != p[|p| - 1]
  }

  ghost predicate Simple(p: seq<string>) {
    forall i, j :: 0 <= i < j < |p| ==> p[i] != p[j]
  }

  /** Between any two nodes there is at most one walk. By `MultitreeMeaning` this is exactly:
      acyclic, and at most one simple path between any two nodes. */
  ghost predicate Multitree(g: Graph) {
    forall p, q, a, b :: Connects(g, p, a, b) && Connects(g, q, a, b) ==> p == q
  }

  /** The node itself and everything below it. */
  ghost function Desc(g: Graph, n: string): set<string> {
    set m | m in g && Reaches(g, n, m)
  }

  ghost function Ancestors(g: Graph, n: string): set<string> {
    set m | m in g && Reaches(g, m, n)
  }

  ghost predicate IsRoot(g: Graph, r: string) {
    r in g && forall a :: a in g ==> r !in g[a]
  }

  ghost function Roots(g: Graph): set<string> {
    set r | r in g && IsRoot(g, r)
  }

  /** The in-degree-0 nodes that reach `n`. */
  ghost function RootsOf(g: Graph, n: string): set<string> {
    set r | r in g && IsRoot(g, r) && Reaches(g, r, n)
  }

  lemma WalkInGraph(g: Graph, p: seq<string>)
    requires Closed(g) && Walk(g, p)
    ensures forall i :: 0 <= i < |p| ==> p[i] in g
  {
    forall i | 0 < i < |p| ensures p[i] in g {
      assert Edge(g, p[i - 1], p[i - 1 + 1]);
    }
  }

  lemma WalkFirstStep(g: Graph, p: seq<string>)
    requires Walk(g, p)
    ensures |p| == 1 || Edge(g, p[0], p[1])
  {
    assert |p| > 1 ==> Edge(g, p[0], p[0 + 1]);
  }

  lemma WalkSlice(g: Graph, p: seq<string>, i: nat, j: nat)
    requires Closed(g) && Walk(g, p) && i < j <= |p|
    ensures Walk(g, p[i..j])
  {
    WalkInGraph(g, p);
    forall k | 0 <= k < j - i - 1 ensures Edge(g, p[i..j][k], p[i..j][k + 1]) {
      assert Edge(g, p[i + k], p[i + k + 1]);
    }
  }

  lemma WalkJoin(g: Graph, p: seq<string>, q: seq<string>)
    requires Walk(g, p) && Walk(g, q) && Edge(g, p[|p| - 1], q[0])
    ensures Walk(g, p + q)
  {
    forall i | 0 <= i < |p + q| - 1 ensures Edge(g, (p + q)[i], (p + q)[i + 1]) {
      if i < |p| - 1 {
        assert Edge(g, p[i], p[i + 1]);
      } else if i >= |p| {
        assert Edge(g, q[i - |p|], q[i - |p| + 1]);
      }
    }
  }

  lemma ReachesSelf(g: Graph, a: string)
    requires a in g
    ensures Reaches(g, a, a)
  {
    assert Connects(g, [a], a, a);
  }

  lemma ReachesEdge(g: Graph, a: string, b: string)
    requires Closed(g) && Edge(g, a, b)
    ensures Reaches(g, a, b)
  {
    assert Connects(g, [a, b], a, b);
  }

  lemma ReachesIn(g: Graph, a: string, b: string)
    requires Closed(g) && Reaches(g, a, b)
    ensures a in g && b in g
  {
    var p :| Connects(g, p, a, b);
    WalkInGraph(g, p);
  }

  lemma ReachesTrans(g: Graph, a: string, b: string, c: string)
    requires Closed(g) && Reaches(g, a, b) && Reaches(g, b, c)
    ensures Reaches(g, a, c)
  {
    var p :| Connects(g, p, a, b);
    var q :| Connects(g, q, b, c);
    if |q| == 1 {
      assert Connects(g, p, a, c);
    } else {
      assert Edge(g, q[0], q[0 + 1]);
      WalkSlice(g, q, 1, |q|);
      WalkJoin(g, p, q[1..]);
      assert Connects(g, p + q[1..], a, c);
    }
  }

  /** A node other than the start is reached through one of the start's children. */
  lemma ReachesFirstStep(g: Graph, a: string, b: string) returns (c: string)
    requires Closed(g) && Reaches(g, a, b) && a != b
    ensures Edge(g, a, c) && Reaches(g, c, b)
  {
    var p :| Connects(g, p, a, b);
    c := p[1];
    assert Edge(g, p[0], p[0 + 1]);
    WalkSlice(g, p, 1, |p|);
    assert Connects(g, p[1..], c, b);
  }

  /** ... and through one of its own parents. */
  lemma ReachesLastStep(g: Graph, a: string, b: string) returns (c: string)
    requires Closed(g) && Reaches(g, a, b) && a != b
    ensures Reaches(g, a, c) && Edge(g, c, b)
  {
    var p :| Connects(g, p, a, b);
    var k := |p| - 2;
    c := p[k];
    assert Edge(g, p[k], p[k + 1]);
    WalkSlice(g, p, 0, k + 1);
    assert Connects(g, p[0..k + 1], a, c);
  }

  lemma NoReturn(g: Graph, a: string, b: string)
    requires Closed(g) && Acyclic(g) && Edge(g, a, b)
    ensures !Reaches(g, b, a)
  {
    if Reaches(g, b, a) {
      var p :| Connects(g, p, b, a);
      WalkJoin(g, [a], p);
      assert false;
    }
  }

  // ---------------------------------------------------------------- multitrees

  lemma MultitreeIsAcyclic(g: Graph)
    requires Multitree(g)
    ensures Acyclic(g)
  {
    forall p | Walk(g, p) && |p| > 1 ensures p[0] != p[|p| - 1] {
      if p[0] == p[|p| - 1] {
        assert Connects(g, p, p[0], p[0]) && Connects(g, [p[0]], p[0], p[0]);
        assert false;
      }
    }
  }

  lemma AcyclicWalksAreSimple(g: Graph, p: seq<string>)
    requires Closed(g) && Acyclic(g) && Walk(g, p)
    ensures Simple(p)
  {
    forall i, j | 0 <= i < j < |p| ensures p[i] != p[j] {
      WalkSlice(g, p, i, j + 1);
      assert p[i..j + 1][0] == p[i] && p[i..j + 1][j - i] == p[j];
    }
  }

  /** The definition agrees with the usual one: no cycle, at most one simple path. */
  lemma MultitreeMeaning(g: Graph)
    requires Closed(g)
    ensures Multitree(g) <==>
            Acyclic(g) &&
            forall p, q, a, b ::
              Connects(g, p, a, b) && Connects(g, q, a, b) && Simple(p) && Simple(q) ==> p == q
  {
    if Multitree(g) {
      MultitreeIsAcyclic(g);
    }
    if Acyclic(g) {
      forall p | Walk(g, p) ensures Simple(p) {
        AcyclicWalksAreSimple(g, p);
      }
      assert forall p, a, b :: Connects(g, p, a, b) ==> Simple(p);
    }
  }

  ghost predicate Subgraph(g: Graph, h: Graph) {
    forall a :: a in g ==> a in h && g[a] <= h[a]
  }

  lemma WalkMonotone(g: Graph, h: Graph, p: seq<string>)
    requires Subgraph(g, h) && Walk(g, p)
    ensures Walk(h, p)
  {
    forall i | 0 <= i < |p| - 1 ensures Edge(h, p[i], p[i + 1]) {
      assert Edge(g, p[i], p[i + 1]);
    }
  }

  lemma ReachesMonotone(g: Graph, h: Graph, a: string, b: string)
    requires Subgraph(g, h) && Reaches(g, a, b)
    ensures Reaches(h, a, b)
  {
    var p :| Connects(g, p, a, b);
    WalkMonotone(g, h, p);
    assert Connects(h, p, a, b);
  }

  lemma SubgraphOfMultitree(g: Graph, h: Graph)
    requires Subgraph(g, h) && Multitree(h)
    ensures Multitree(g)
  {
    forall p, q, a, b | Connects(g, p, a, b) && Connects(g, q, a, b) ensures p == q {
      WalkMonotone(g, h, p);
      WalkMonotone(g, h, q);
      assert Connects(h, p, a, b) && Connects(h, q, a, b);
    }
  }

  /** Below a node of a multitree hangs a tree: the parts below two of its children are disjoint. */
  lemma SiblingsDisjoint(g: Graph, n: string, c: string, d: string)
    requires Closed(g) && Multitree(g) && Edge(g, n, c) && Edge(g, n, d) && c != d
    ensures Desc(g, c) !! Desc(g, d)
  {
    forall x | x in Desc(g, c) ensures x !in Desc(g, d) {
      if x in Desc(g, d) {
        var p :| Connects(g, p, c, x);
        var q :| Connects(g, q, d, x);
        WalkJoin(g, [n], p);
        WalkJoin(g, [n], q);
        assert ([n] + p)[1] == c && ([n] + q)[1] == d;
        ghost var left, right := Connects(g, [n] + p, n, x), Connects(g, [n] + q, n, x);
        assert false;
      }
    }
  }

  lemma DescUnfold(g: Graph, n: string)
    requires Closed(g) && n in g
    ensures Desc(g, n) == {n} + (set c, x | c in g[n] && x in Desc(g, c) :: x)
  {
    ReachesSelf(g, n);
    forall x | x in Desc(g, n) && x != n ensures exists c :: c in g[n] && x in Desc(g, c) {
      var c := ReachesFirstStep(g, n, x);
      assert c in g[n] && x in Desc(g, c);
    }
    forall c, x | c in g[n] && x in Desc(g, c) ensures x in Desc(g, n) {
      ReachesEdge(g, n, c);
      ReachesTrans(g, n, c, x);
    }
  }

  /** Descending to a child leaves strictly less below, so a descent in an acyclic graph ends. */
  lemma DescShrinks(g: Graph, n: string, c: string)
    requires Closed(g) && Acyclic(g) && Edge(g, n, c)
    ensures Desc(g, c) < Desc(g, n)
  {
    DescUnfold(g, n);
    NoReturn(g, n, c);
    assert n in Desc(g, n) && n !in Desc(g, c);
  }

  lemma AncestorsShrink(g: Graph, a: string, n: string)
    requires Closed(g) && Acyclic(g) && Edge(g, a, n)
    ensures Ancestors(g, a) < Ancestors(g, n)
  {
    ReachesSelf(g, n);
    NoReturn(g, a, n);
    assert n in Ancestors(g, n) && n !in Ancestors(g, a);
    forall x | x in Ancestors(g, a) ensures x in Ancestors(g, n) {
      ReachesEdge(g, a, n);
      ReachesTrans(g, x, a, n);
    }
  }

  /** In a finite acyclic graph every node lies below some root. */
  lemma {:induction false} RootAbove(g: Graph, n: string) returns (r: string)
    requires Closed(g) && Acyclic(g) && n in g
    ensures r in RootsOf(g, n)
    decreases Ancestors(g, n)
  {
    if IsRoot(g, n) {
      ReachesSelf(g, n);
      r := n;
    } else {
      var a :| a in g && n in g[a];
      AncestorsShrink(g, a, n);
      r := RootAbove(g, a);
      ReachesEdge(g, a, n);
      ReachesTrans(g, r, a, n);
    }
  }

  /** In a finite acyclic graph every node lies above some node without children. */
  lemma {:induction false} SinkBelow(g: Graph, n: string) returns (k: string)
    requires Closed(g) && Acyclic(g) && n in g
    ensures k in g && g[k] == {}
    decreases Desc(g, n)
  {
    if g[n] == {} {
      k := n;
    } else {
      var c :| c in g[n];
      assert Edge(g, n, c);
      DescShrinks(g, n, c);
      k := SinkBelow(g, c);
    }
  }

  // ---------------------------------------------------------------- adding one edge

  lemma WithEdgeClosed(g: Graph, s: string, e: string)
    requires Closed(g) && s in g && e in g
    ensures Closed(WithEdge(g, s, e))
  {
    forall a, b | Edge(WithEdge(g, s, e), a, b) ensures b in g {
      assert Edge(g, a, b) || b == e;
    }
  }

  /** Cuts a walk of the extended graph at its only use of the new edge. */
  lemma {:induction false} SplitAtNewEdge(g: Graph, s: string, e: string, p: seq<string>) returns (k: nat)
    requires Closed(g) && s in g && e in g && e !in g[s] && !Reaches(g, e, s)
    requires Walk(WithEdge(g, s, e), p)
    ensures 0 < k <= |p| && Walk(g, p[..k])
    ensures k < |p| ==> p[k - 1] == s && p[k] == e && Walk(g, p[k..])
  {
    var h := WithEdge(g, s, e);
    if |p| == 1 {
      k := 1;
    } else {
      assert Edge(h, p[0], p[0 + 1]);
      WithEdgeClosed(g, s, e);
      WalkSlice(h, p, 1, |p|);
      var j := SplitAtNewEdge(g, s, e, p[1..]);
      assert p[1..][..j] == p[1..j + 1];
      assert j < |p| - 1 ==> p[1..][j..] == p[j + 1..];
      if Edge(g, p[0], p[1]) {
        k := j + 1;
        WalkJoin(g, [p[0]], p[1..k]);
        assert [p[0]] + p[1..k] == p[..k];
      } else {
        assert p[0] == s && p[1] == e;
        if j < |p| - 1 {
          assert Connects(g, p[1..j + 1], e, s);
          assert false;
        }
        k := 1;
        assert p[1..][..j] == p[1..];
      }
    }
  }

  lemma {:induction false} ReachesWithEdgeOnlyIf(g: Graph, s: string, e: string, p: seq<string>)
    requires Closed(g) && s in g && e in g && Walk(WithEdge(g, s, e), p)
    ensures var a, n := p[0], p[|p| - 1];
            Reaches(g, a, n) || (Reaches(g, a, s) && Reaches(g, e, n))
  {
    var h := WithEdge(g, s, e);
    var a, n := p[0], p[|p| - 1];
    if |p| == 1 {
      ReachesSelf(g, a);
    } else {
      assert Edge(h, p[0], p[0 + 1]);
      WithEdgeClosed(g, s, e);
      WalkSlice(h, p, 1, |p|);
      ReachesWithEdgeOnlyIf(g, s, e, p[1..]);
      ReachesSelf(g, a);
      if Edge(g, a, p[1]) {
        ReachesEdge(g, a, p[1]);
        if Reaches(g, p[1], n) {
          ReachesTrans(g, a, p[1], n);
        } else {
          ReachesTrans(g, a, p[1], s);
        }
      }
    }
  }

  /** What an added edge makes reachable. */
  lemma ReachesWithEdge(g: Graph, s: string, e: string, a: string, n: string)
    requires Closed(g) && s in g && e in g
    ensures Reaches(WithEdge(g, s, e), a, n) <==>
            Reaches(g, a, n) || (Reaches(g, a, s) && Reaches(g, e, n))
  {
    var h := WithEdge(g, s, e);
    WithEdgeClosed(g, s, e);
    if Reaches(h, a, n) {
      var p :| Connects(h, p, a, n);
      ReachesWithEdgeOnlyIf(g, s, e, p);
    }
    if Reaches(g, a, n) {
      ReachesMonotone(g, h, a, n);
    }
    if Reaches(g, a, s) && Reaches(g, e, n) {
      ReachesMonotone(g, h, a, s);
      ReachesMonotone(g, h, e, n);
      ReachesEdge(h, s, e);
      ReachesTrans(h, a, s, e);
      ReachesTrans(h, a, e, n);
    }
  }

  /** Some node at or below `e` lies under a root that `s` also lies under. */
  ghost predicate ShareRoot(g: Graph, s: string, e: string) {
    exists n :: n in Desc(g, e) && RootsOf(g, n) * RootsOf(g, s) != {}
  }

  /** A node above both `s` and something below `e` puts a shared root above them. */
  lemma CommonAncestorSharesRoot(g: Graph, s: string, e: string, a: string, n: string)
    requires Closed(g) && Acyclic(g)
    requires Reaches(g, a, s) && Reaches(g, a, n) && Reaches(g, e, n)
    ensures ShareRoot(g, s, e)
  {
    ReachesIn(g, a, n);
    var r := RootAbove(g, a);
    ReachesTrans(g, r, a, s);
    ReachesTrans(g, r, a, n);
    assert n in Desc(g, e) && r in RootsOf(g, n) * RootsOf(g, s);
  }

  lemma SameWalkWithEdge(g: Graph, s: string, e: string, p: seq<string>, q: seq<string>, a: string, b: string)
    requires Closed(g) && Multitree(g) && s in g && e in g && e !in g[s] && !ShareRoot(g, s, e)
    requires Connects(WithEdge(g, s, e), p, a, b) && Connects(WithEdge(g, s, e), q, a, b)
    ensures p == q
  {
    MultitreeIsAcyclic(g);
    if Reaches(g, e, s) {
      ReachesSelf(g, s);
      CommonAncestorSharesRoot(g, s, e, s, s);
    }
    var i := SplitAtNewEdge(g, s, e, p);
    var j := SplitAtNewEdge(g, s, e, q);
    assert i == |p| ==> p[..i] == p;
    assert j == |q| ==> q[..j] == q;
    if i == |p| && j == |q| {
      assert Connects(g, p, a, b) && Connects(g, q, a, b);
    } else if i == |p| {
      assert Connects(g, p, a, b) && Connects(g, q[..j], a, s) && Connects(g, q[j..], e, b);
      CommonAncestorSharesRoot(g, s, e, a, b);
    } else if j == |q| {
      assert Connects(g, q, a, b) && Connects(g, p[..i], a, s) && Connects(g, p[i..], e, b);
      CommonAncestorSharesRoot(g, s, e, a, b);
    } else {
      assert Connects(g, p[..i], a, s) && Connects(g, q[..j], a, s);
      assert Connects(g, p[i..], e, b) && Connects(g, q[j..], e, b);
      assert p == p[..i] + p[i..] && q == q[..j] + q[j..];
    }
  }

  /** A shared root turns the new edge into a second walk. */
  lemma SharedRootBreaks(g: Graph, s: string, e: string)
    requires Closed(g) && s in g && e in g && e !in g[s] && ShareRoot(g, s, e)
    ensures !Multitree(WithEdge(g, s, e))
  {
    var h := WithEdge(g, s, e);
    var n :| n in Desc(g, e) && RootsOf(g, n) * RootsOf(g, s) != {};
    var r :| r in RootsOf(g, n) * RootsOf(g, s);
    var direct :| Connects(g, direct, r, n);
    var up :| Connects(g, up, r, s);
    var down :| Connects(g, down, e, n);
    WalkMonotone(g, h, direct);
    WalkMonotone(g, h, up);
    WalkMonotone(g, h, down);
    WalkJoin(h, up, down);
    var detour := up + down;
    assert Connects(h, direct, r, n) && Connects(h, detour, r, n);
    assert detour[|up| - 1] == s && detour[|up| - 1 + 1] == e;
    if direct == detour {
      assert false;
    }
  }

  /** The root-intersection test is exact: for nodes without the edge, comparing root sets below
      `e` decides whether the extended graph is a multitree. */
  lemma RootTestIsExact(g: Graph, s: string, e: string)
    requires Closed(g) && Multitree(g) && s in g && e in g && e !in g[s]
    ensures Multitree(WithEdge(g, s, e)) <==> !ShareRoot(g, s, e)
  {
    if ShareRoot(g, s, e) {
      SharedRootBreaks(g, s, e);
    } else {
      forall p, q, a, b | Connects(WithEdge(g, s, e), p, a, b) && Connects(WithEdge(g, s, e), q, a, b)
        ensures p == q
      {
        SameWalkWithEdge(g, s, e, p, q, a, b);
      }
    }
  }

  /** How an accepted edge changes the set of roots above a node. */
  lemma RootsWithEdge(g: Graph, s: string, e: string, n: string)
    requires Closed(g) && s in g && e in g && n in g && !Reaches(g, e, s)
    ensures RootsOf(WithEdge(g, s, e), n) ==
            if n in Desc(g, e) then RootsOf(g, n) - {e} + RootsOf(g, s) else RootsOf(g, n)
  {
    var h := WithEdge(g, s, e);
    forall r | r in g
      ensures IsRoot(h, r) <==> IsRoot(g, r) && r != e
      ensures Reaches(h, r, n) <==> Reaches(g, r, n) || (Reaches(g, r, s) && Reaches(g, e, n))
    {
      ReachesWithEdge(g, s, e, r, n);
      assert e in h[s];
      if IsRoot(g, r) && r != e {
        forall a | a in h ensures r !in h[a] {
          assert r !in g[a];
        }
      } else if IsRoot(h, r) {
        forall a | a in g ensures r !in g[a] {
          assert r !in h[a];
        }
      }
    }
  }
}
