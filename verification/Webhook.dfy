/** The admission webhook's use of the mount graph: whole runs of graph operations, and the batch of
    mount edges that a created object brings along. */
module Webhook {
  import opened Graphs
  import opened MultiTrees

  // ---------------------------------------------------------------- whole runs

  datatype Op =
    | AddNode(n: string)
    | AddEdge(s: string, e: string)
    | RemoveEdge(s: string, e: string)
    | RemoveNode(n: string)

  /** What an operation should do to the graph: a mount that would break the multitree is refused,
      by looking at every path of the extended graph and at no cache. */
  ghost function Apply(g: Graph, op: Op): Graph {
    match op
    case AddNode(n) => WithNode(g, n)
    case AddEdge(s, e) => if s in g && e in g && Multitree(WithEdge(g, s, e)) then WithEdge(g, s, e) else g
    case RemoveEdge(s, e) => if Edge(g, s, e) then WithoutEdge(g, s, e) else g
    case RemoveNode(n) => WithoutNode(g, n)
  }

  ghost function ApplyAll(g: Graph, ops: seq<Op>): Graph {
    if ops == [] then g else Apply(ApplyAll(g, ops[..|ops| - 1]), ops[|ops| - 1])
  }

  /** The operation is no mount of which the root comparison may overlook a shared root of the empty
      name. */
  ghost predicate Clear(g: Graph, op: Op) {
    op.AddEdge? && op.s in g && op.e in g && !Edge(g, op.s, op.e) ==> !Overlooks(g, op.s, op.e)
  }

  /** Runs any sequence of operations from the empty graph, none of which meets a state in which it may
      overlook a shared root. The cached structure follows the graph that the cache-free rules give;
      being valid, it is a multitree, each node's `roots` are the in-degree-0 nodes that reach it, and
      `trees` are all in-degree-0 nodes. */
  method Replay(ops: seq<Op>) returns (mt: MultiTree)
    requires forall i :: 0 <= i < |ops| ==> Clear(ApplyAll(map[], ops[..i]), ops[i])
    ensures fresh(mt) && fresh(mt.repr) && mt.Valid() && mt.graph == ApplyAll(map[], ops)
  {
    hide Clear, Apply;
    mt := new MultiTree();
    for i := 0 to |ops|
      invariant fresh(mt) && fresh(mt.repr) && mt.Valid() && mt.graph == ApplyAll(map[], ops[..i])
    {
      assert ops[..i + 1][..i] == ops[..i];
      Perform(mt, ops[i]);
    }
    assert ops[..|ops|] == ops;
  }

  /** That is so of every run that adds no node of the empty name. */
  lemma NamedRunsAreClear(ops: seq<Op>, i: nat)
    requires i < |ops| && forall j :: 0 <= j < i && ops[j].AddNode? ==> ops[j].n != ""
    ensures Clear(ApplyAll(map[], ops[..i]), ops[i])
  {
    var g := ApplyAll(map[], ops[..i]);
    NamedRunHasNoBlank(ops, i);
    if ops[i].AddEdge? {
      NamedRootsAreNotOverlooked(g, ops[i].s, ops[i].e);
    }
  }

  lemma {:induction false} NamedRunHasNoBlank(ops: seq<Op>, i: nat)
    requires i <= |ops| && forall j :: 0 <= j < i && ops[j].AddNode? ==> ops[j].n != ""
    ensures "" !in ApplyAll(map[], ops[..i])
  {
    if i > 0 {
      NamedRunHasNoBlank(ops, i - 1);
      assert ops[..i][..i - 1] == ops[..i - 1];
    }
  }

  /** And of every mount by a named node, while no node of the empty name mounts anything. */
  lemma BlankLeavesAreClear(g: Graph, op: Op)
    requires Closed(g) && BlankIsLeaf(g) && (op.AddEdge? ==> op.s != "")
    ensures Clear(g, op)
  {
    if op.AddEdge? {
      BlankNotAbove(g, op.s);
      NamedRootsAreNotOverlooked(g, op.s, op.e);
    }
  }

  method Perform(mt: MultiTree, op: Op)
    requires mt.Valid() && Clear(mt.graph, op)
    modifies mt, mt.repr
    ensures mt.Valid() && fresh(mt.repr - old(mt.repr))
    ensures mt.graph == Apply(old(mt.graph), op)
  {
    hide Multitree, Desc, Roots, RootsOf, Closed, Overlooks;
    match op
    case AddNode(n) => mt.AddNode(n);
    case AddEdge(s, e) =>
      EdgesJoinNodes(mt.graph, s, e);
      var err, _ := mt.AddEdge(s, e);
    case RemoveEdge(s, e) =>
      EdgesJoinNodes(mt.graph, s, e);
      mt.ValidIsSound();
      var err := mt.RemoveEdge(s, e);
    case RemoveNode(n) =>
      var err := mt.RemoveNode(n);
  }

  lemma EdgesJoinNodes(g: Graph, s: string, e: string)
    requires Closed(g)
    ensures Edge(g, s, e) ==> s in g && e in g
  {
  }

  /** Taking a freshly accepted mount back restores the graph; it restores every cached root set if and
      only if no shared root was overlooked, and then the trees as well. */
  method MountAndUnmount(mt: MultiTree, s: string, e: string) returns (err: Status)
    requires mt.Valid() && s in mt.graph && e in mt.graph && e !in mt.graph[s]
    requires Reaches(mt.graph, e, s) ==> !Overlooks(mt.graph, s, e)
    modifies mt, mt.repr
    ensures mt.graph == old(mt.graph) && mt.nodes == old(mt.nodes)
    ensures mt.Cache() == old(mt.Cache()) <==> err.RootShared? || !ShareRoot(old(mt.graph), s, e)
    ensures !Overlooks(old(mt.graph), s, e) ==> mt.Valid() && mt.trees.Keys == old(mt.trees.Keys)
  {
    hide Multitree, Desc, Roots, RootsOf, Closed, Acyclic, Overlooks, ShareRoot, Reaches, RootMap;
    ghost var g := mt.graph;
    mt.ExactMeansSame();
    var accepted, _ := mt.AddEdge(s, e);
    err := accepted;
    if accepted.Ok? {
      RemovedAgain(g, s, e);
      mt.ExactMeansSame();
      RemovalUndoesIff(g, s, e);
      err := mt.RemoveEdge(s, e);
    }
    mt.ExactMeansSame();
  }

  lemma RemovedAgain(g: Graph, s: string, e: string)
    requires s in g && e !in g[s]
    ensures WithoutEdge(WithEdge(g, s, e), s, e) == g && Edge(WithEdge(g, s, e), s, e)
  {
    assert g[s] + {e} - {e} == g[s];
  }

  // ---------------------------------------------------------------- a batch of mounts

  datatype MountEdge = MountEdge(start: string, end: string, status: string)

  const ACTIVE_STATUS := "active"
  const INACTIVE_STATUS := "inactive"

  function Endpoints(g: Graph, m: MountEdge): Graph {
    WithNode(WithNode(g, m.start), m.end)
  }

  function WithMount(g: Graph, m: MountEdge): Graph {
    WithEdge(Endpoints(g, m), m.start, m.end)
  }

  /** The union of a graph and a batch, taken edge by edge. */
  function WithMounts(g: Graph, ms: seq<MountEdge>): Graph {
    if ms == [] then g else WithMount(WithMounts(g, ms[..|ms| - 1]), ms[|ms| - 1])
  }

  /** The union of a graph and a set of pairs, all at once. */
  ghost function Union(g: Graph, pairs: set<(string, string)>): Graph {
    map n | n in g.Keys + (set p | p in pairs :: p.0) + (set p | p in pairs :: p.1) :: Kids(g, pairs, n)
  }

  ghost function Kids(g: Graph, pairs: set<(string, string)>, n: string): set<string> {
    (if n in g then g[n] else {}) + set p | p in pairs && p.0 == n :: p.1
  }

  lemma KidsWithPair(g: Graph, pairs: set<(string, string)>, s: string, e: string, n: string)
    ensures Kids(g, pairs + {(s, e)}, n) == if n == s then Kids(g, pairs, n) + {e} else Kids(g, pairs, n)
  {
    if n == s {
      assert (s, e) in pairs + {(s, e)};
    }
  }

  function Pairs(ms: seq<MountEdge>): set<(string, string)> {
    set m | m in ms :: (m.start, m.end)
  }

  lemma {:induction false} MountsAreUnion(g: Graph, ms: seq<MountEdge>)
    ensures WithMounts(g, ms) == Union(g, Pairs(ms))
  {
    if ms == [] {
      assert Pairs(ms) == {};
      assert Union(g, {}).Keys == g.Keys;
      assert forall n :: n in g ==> Kids(g, {}, n) == g[n];
    } else {
      var front, m := ms[..|ms| - 1], ms[|ms| - 1];
      MountsAreUnion(g, front);
      assert ms == front + [m];
      assert Pairs(ms) == Pairs(front) + {(m.start, m.end)};
      UnionWithMount(g, Pairs(front), m);
    }
  }

  lemma UnionWithMount(g: Graph, pairs: set<(string, string)>, m: MountEdge)
    ensures WithMount(Union(g, pairs), m) == Union(g, pairs + {(m.start, m.end)})
  {
    hide Kids;
    var more := pairs + {(m.start, m.end)};
    assert (m.start, m.end) in more;
    assert WithMount(Union(g, pairs), m).Keys == Union(g, more).Keys;
    forall n | n in Union(g, more) ensures WithMount(Union(g, pairs), m)[n] == Union(g, more)[n] {
      KidsWithPair(g, pairs, m.start, m.end, n);
      if n !in Union(g, pairs) {
        NoKidsOutside(g, pairs, n);
      }
    }
  }

  lemma NoKidsOutside(g: Graph, pairs: set<(string, string)>, n: string)
    requires n !in Union(g, pairs)
    ensures Kids(g, pairs, n) == {}
  {
    assert forall p :: p in pairs ==> p.0 in Union(g, pairs);
  }

  /** The order of a batch, which comes from iterating over a map, does not matter: the union is the
      same graph, so by `AddMountNodeAndEdges` the verdict is the same. */
  lemma BatchOrderIsIrrelevant(g: Graph, ms: seq<MountEdge>, others: seq<MountEdge>)
    requires Pairs(ms) == Pairs(others)
    ensures WithMounts(g, ms) == WithMounts(g, others)
  {
    MountsAreUnion(g, ms);
    MountsAreUnion(g, others);
  }

  /** Unions add up. */
  lemma UnionOfUnion(g: Graph, pairs: set<(string, string)>, more: set<(string, string)>)
    ensures Union(Union(g, pairs), more) == Union(g, pairs + more)
  {
    forall n | n in Union(g, pairs + more) ensures Kids(Union(g, pairs), more, n) == Kids(g, pairs + more, n) {
      if n !in Union(g, pairs) {
        NoKidsOutside(g, pairs, n);
      }
      SplitKids(g, pairs, more, n);
    }
    assert Union(Union(g, pairs), more).Keys == Union(g, pairs + more).Keys;
  }

  lemma SplitKids(g: Graph, pairs: set<(string, string)>, more: set<(string, string)>, n: string)
    ensures Kids(g, pairs + more, n) == Kids(g, pairs, n) + Kids(map[], more, n)
    ensures n in Union(g, pairs) ==> Kids(Union(g, pairs), more, n) == Kids(g, pairs, n) + Kids(map[], more, n)
    ensures n !in Union(g, pairs) ==> Kids(Union(g, pairs), more, n) == Kids(map[], more, n)
  {
    assert forall p :: p in pairs + more <==> p in pairs || p in more;
  }

  lemma UnionGrows(g: Graph, h: Graph, pairs: set<(string, string)>, more: set<(string, string)>)
    requires Subgraph(g, h) && pairs <= more
    ensures Subgraph(Union(g, pairs), Union(h, more))
  {
  }

  /** Pairs whose nodes and edges a graph has already add nothing to it. */
  lemma UnionIsLeast(g: Graph, pairs: set<(string, string)>, h: Graph)
    requires Subgraph(g, h) && Closed(h) && forall p :: p in pairs ==> p.0 in h && p.1 in h && p.1 in h[p.0]
    ensures Subgraph(Union(g, pairs), h)
  {
  }

  lemma {:induction false} PrefixIsSubgraph(g: Graph, ms: seq<MountEdge>, i: nat)
    requires i <= |ms|
    ensures Subgraph(WithMounts(g, ms[..i]), WithMounts(g, ms))
    decreases |ms| - i
  {
    if i == |ms| {
      assert ms[..i] == ms;
    } else {
      PrefixIsSubgraph(g, ms, i + 1);
      assert ms[..i + 1][..i] == ms[..i];
    }
  }

  /** A node of the empty name never mounts anything. */
  ghost predicate BlankIsLeaf(g: Graph) {
    "" in g ==> g[""] == {}
  }

  lemma BlankNotAbove(g: Graph, s: string)
    requires Closed(g) && BlankIsLeaf(g) && s != ""
    ensures "" !in RootsOf(g, s)
  {
    if Reaches(g, "", s) {
      var c := ReachesFirstStep(g, "", s);
    }
  }

  lemma EndpointsOf(g: Graph, m: MountEdge)
    requires BlankIsLeaf(g) && m.start != ""
    ensures m.start in Endpoints(g, m) && m.end in Endpoints(g, m)
    ensures BlankIsLeaf(Endpoints(g, m)) && BlankIsLeaf(WithMount(g, m))
  {
  }

  /** The name under which an object enters the graph. */
  function ObjId(namespace: string, name: string): (id: string)
    ensures id != ""
  {
    namespace + "/" + name
  }

  /** No two objects have the same name, as a namespace holds no slash. */
  lemma ObjIdsDiffer(space: string, name: string, space': string, name': string)
    requires '/' !in space && '/' !in space'
    ensures ObjId(space, name) == ObjId(space', name') <==> space == space' && name == name'
  {
    var id, id' := ObjId(space, name), ObjId(space', name');
    assert id[|space|] == '/' && id'[|space'|] == '/';
    assert forall i :: 0 <= i < |space| ==> id[i] == space[i];
    assert forall i :: 0 <= i < |space'| ==> id'[i] == space'[i];
    if id == id' {
      assert |space| == |space'|;
      assert space == id[..|space|] && space' == id'[..|space|];
      assert name == id[|space| + 1..] && name' == id'[|space| + 1..];
    }
  }

  function Mounts(parent: string, names: set<string>): set<(string, string)> {
    set n | n in names :: (parent, n)
  }

  /** What a refused object leaves behind: some of its mounts, which still make a multitree, and the node of
      one that no longer does. All that was in the graph stays. */
  ghost predicate IsRefusal(g: Graph, h: Graph, parent: string, names: set<string>, kept: set<string>, culprit: string) {
    && kept < names && culprit in names - kept
    && Multitree(Union(g, Mounts(parent, kept)))
    && !Multitree(Union(g, Mounts(parent, kept + {culprit})))
    && h.Keys == g.Keys + {parent, culprit} + kept
    && (forall n :: n in h ==> h[n] == (if n in g then g[n] else {}) + if n == parent then kept else {})
  }

  /** The edges of one object, in any order; mounts that are yielded are inactive. */
  method MountEdges(parent: string, mounts: map<string, string>, yielded: map<string, string>)
    returns (edges: seq<MountEdge>)
    ensures Pairs(edges) == Mounts(parent, mounts.Keys)
    ensures |edges| == |mounts|
    ensures forall m :: m in edges ==>
              m.start == parent && m.status == if m.end in yielded then INACTIVE_STATUS else ACTIVE_STATUS
  {
    edges := [];
    var todo := mounts.Keys;
    while todo != {}
      invariant todo <= mounts.Keys
      invariant Pairs(edges) == set n | n in mounts && n !in todo :: (parent, n)
      invariant |edges| + |todo| == |mounts.Keys|
      invariant forall m :: m in edges ==>
                  m.start == parent && m.status == if m.end in yielded then INACTIVE_STATUS else ACTIVE_STATUS
    {
      var name :| name in todo;
      var status := ACTIVE_STATUS;
      if name in yielded {
        status := INACTIVE_STATUS;
      }
      ghost var before := edges;
      edges := edges + [MountEdge(parent, name, status)];
      assert Pairs(edges) == Pairs(before) + {(parent, name)};
      todo := todo - {name};
    }
  }

  function Ends(edges: seq<MountEdge>): set<string> {
    set m | m in edges :: m.end
  }

  /** Part of the edges of an object. */
  lemma PartOfBatch(parent: string, names: set<string>, edges: seq<MountEdge>, i: nat)
    requires Pairs(edges) == Mounts(parent, names) && i <= |edges|
    ensures Pairs(edges[..i]) == Mounts(parent, Ends(edges[..i])) && Ends(edges[..i]) <= names
  {
    forall m | m in edges[..i] ensures m.start == parent && m.end in names {
      assert (m.start, m.end) in Pairs(edges);
    }
  }

  lemma RefusalMeaning(g: Graph, h: Graph, parent: string, names: set<string>, edges: seq<MountEdge>, refused: nat)
    returns (kept: set<string>, culprit: string)
    requires Pairs(edges) == Mounts(parent, names) && refused < |edges|
    requires Multitree(WithMounts(g, edges[..refused])) && !Multitree(WithMounts(g, edges[..refused + 1]))
    requires h == Endpoints(WithMounts(g, edges[..refused]), edges[refused])
    ensures IsRefusal(g, h, parent, names, kept, culprit) && Subgraph(g, h)
  {
    hide Multitree, WithMounts, Mounts, Pairs, Ends, Kids, Union, Endpoints;
    var before, after := edges[..refused], edges[..refused + 1];
    kept, culprit := Ends(before), edges[refused].end;
    PartOfBatch(parent, names, edges, refused);
    PartOfBatch(parent, names, edges, refused + 1);
    MountsAreUnion(g, before);
    MountsAreUnion(g, after);
    EndsOfMore(edges, refused);
    assert (edges[refused]).start == parent by { StartOf(parent, names, edges, refused); }
    assert culprit in kept ==> kept + {culprit} == kept;
    KidsOfMounts(g, parent, kept);
    RefusedGraph(g, h, parent, kept, edges[refused]);
  }

  lemma EndsOfMore(edges: seq<MountEdge>, i: nat)
    requires i < |edges|
    ensures Ends(edges[..i + 1]) == Ends(edges[..i]) + {edges[i].end}
  {
    assert edges[..i + 1] == edges[..i] + [edges[i]];
  }

  lemma StartOf(parent: string, names: set<string>, edges: seq<MountEdge>, i: nat)
    requires Pairs(edges) == Mounts(parent, names) && i < |edges|
    ensures edges[i].start == parent
  {
    assert edges[i] in edges;
    assert (edges[i].start, edges[i].end) in Pairs(edges);
  }

  lemma RefusedGraph(g: Graph, h: Graph, parent: string, kept: set<string>, m: MountEdge)
    requires m.start == parent && h == Endpoints(Union(g, Mounts(parent, kept)), m)
    ensures h.Keys == g.Keys + {parent, m.end} + kept
    ensures forall n :: n in h ==> h[n] == (if n in g then g[n] else {}) + if n == parent then kept else {}
  {
    hide Kids, Mounts;
    KidsOfMounts(g, parent, kept);
    var u := Union(g, Mounts(parent, kept));
    assert forall n :: n in u ==> u[n] == Kids(g, Mounts(parent, kept), n);
    assert h.Keys == u.Keys + {parent, m.end};
    assert forall n :: n in h ==> h[n] == if n in u then u[n] else {};
  }

  lemma KidsOfMounts(g: Graph, parent: string, names: set<string>)
    ensures forall n :: Kids(g, Mounts(parent, names), n) ==
                        (if n in g then g[n] else {}) + if n == parent then names else {}
    ensures Union(g, Mounts(parent, names)).Keys == g.Keys + (if names == {} then {} else {parent}) + names
  {
    assert forall n :: n in names ==> (parent, n) in Mounts(parent, names);
  }

  class Validator {
    var mt: MultiTree

    ghost predicate Valid()
      reads this, mt, mt.repr
    {
      mt.Valid() && BlankIsLeaf(mt.graph)
    }

    constructor ()
      ensures Valid() && fresh(mt) && fresh(mt.repr) && mt.graph == map[]
    {
      mt := new MultiTree();
    }

    /** A batch is accepted if and only if the union of graph and batch is a multitree. Acceptance
        installs the union. A refusal is not rolled back: the graph keeps the mounts before the first
        offending one, and the nodes of that one. */
    method AddMountNodeAndEdges(edges: seq<MountEdge>) returns (err: Status, ghost refused: nat)
      requires Valid()
      requires forall m :: m in edges ==> m.start != ""
      modifies mt, mt.repr
      ensures Valid() && fresh(mt.repr - old(mt.repr))
      ensures err.Ok? <==> Multitree(WithMounts(old(mt.graph), edges))
      ensures err.Ok? ==> mt.graph == WithMounts(old(mt.graph), edges)
      ensures !err.Ok? ==>
                && refused < |edges|
                && Multitree(WithMounts(old(mt.graph), edges[..refused]))
                && !Multitree(WithMounts(old(mt.graph), edges[..refused + 1]))
                && mt.graph == Endpoints(WithMounts(old(mt.graph), edges[..refused]), edges[refused])
    {
      hide Multitree, Desc, Roots, RootsOf, Closed;
      ghost var g := mt.graph;
      refused := 0;
      for i := 0 to |edges|
        invariant Valid() && fresh(mt.repr - old(mt.repr))
        invariant mt.graph == WithMounts(g, edges[..i])
      {
        err := AddMount(edges[i]);
        assert edges[..i + 1][..i] == edges[..i];
        if !err.Ok? {
          PrefixIsSubgraph(g, edges, i + 1);
          if Multitree(WithMounts(g, edges)) {
            SubgraphOfMultitree(WithMounts(g, edges[..i + 1]), WithMounts(g, edges));
          }
          refused := i;
          return err, refused;
        }
      }
      assert edges[..|edges|] == edges;
      err := Ok;
    }

    method AddMount(m: MountEdge) returns (err: Status)
      requires mt.Valid() && BlankIsLeaf(mt.graph) && m.start != ""
      modifies mt, mt.repr
      ensures mt.Valid() && BlankIsLeaf(mt.graph) && fresh(mt.repr - old(mt.repr))
      ensures err.Ok? <==> Multitree(WithMount(old(mt.graph), m))
      ensures mt.graph == if err.Ok? then WithMount(old(mt.graph), m) else Endpoints(old(mt.graph), m)
    {
      hide Multitree, Desc, Roots, RootsOf, Closed, WithNode, WithEdge, BlankIsLeaf, Overlooks, Linked, Edge;
      EndpointsOf(mt.graph, m);
      mt.AddNode(m.start);
      mt.AddNode(m.end);
      BlankNotAbove(mt.graph, m.start);
      NamedRootsAreNotOverlooked(mt.graph, m.start, m.end);
      ghost var calls;
      err, calls := mt.AddEdge(m.start, m.end);
    }

    /** The graph part of admitting a new object: it is valid if and only if its mounts make a multitree
        together with the graph, and then they are in the graph; else some of them may be. */
    method DoCreate(namespace: string, name: string, mounts: map<string, string>)
      returns (valid: bool, ghost kept: set<string>, ghost culprit: string)
      requires Valid()
      modifies mt, mt.repr
      ensures Valid() && fresh(mt.repr - old(mt.repr))
      ensures var union := Union(old(mt.graph), Mounts(ObjId(namespace, name), mounts.Keys));
              && (valid <==> Multitree(union))
              && (valid ==> mt.graph == union)
      ensures !valid ==> IsRefusal(old(mt.graph), mt.graph, ObjId(namespace, name), mounts.Keys, kept, culprit)
      ensures Subgraph(old(mt.graph), mt.graph)
    {
      hide Multitree, Desc, Roots, RootsOf, Closed, Endpoints, WithMounts;
      kept, culprit := {}, "";
      ghost var g := mt.graph;
      var edges := MountEdges(ObjId(namespace, name), mounts, map[]);
      MountsAreUnion(g, edges);
      var err, refused := AddMountNodeAndEdges(edges);
      valid := err.Ok?;
      assert edges[..|edges|] == edges;
      PrefixIsSubgraph(g, edges, 0);
      if !valid {
        kept, culprit := RefusalMeaning(g, mt.graph, ObjId(namespace, name), mounts.Keys, edges, refused);
      }
    }
  }

  // ---------------------------------------------------------------- objects one after the other

  datatype Object = Object(namespace: string, name: string, mounts: map<string, string>)

  function MountsOf(o: Object): set<(string, string)> {
    Mounts(ObjId(o.namespace, o.name), o.mounts.Keys)
  }

  /** The mounts of the objects that were admitted. */
  function Admitted(objects: seq<Object>, verdicts: seq<bool>): set<(string, string)>
    requires |verdicts| == |objects|
  {
    set i, p | 0 <= i < |objects| && verdicts[i] && p in MountsOf(objects[i]) :: p
  }

  function AllMounts(objects: seq<Object>): set<(string, string)> {
    set o, p | o in objects && p in MountsOf(o) :: p
  }

  ghost predicate Holds(g: Graph, pairs: set<(string, string)>) {
    Subgraph(Union(map[], pairs), g)
  }

  /** One more object, whose mounts are in the graph if it is admitted. */
  lemma OneMore(g: Graph, h: Graph, objects: seq<Object>, verdicts: seq<bool>, i: nat, valid: bool)
    requires i < |objects| && i == |verdicts| && Holds(g, Admitted(objects[..i], verdicts)) && Subgraph(g, h)
    requires valid ==> h == Union(g, MountsOf(objects[i]))
    ensures Holds(h, Admitted(objects[..i + 1], verdicts + [valid]))
  {
    hide Union, Subgraph, MountsOf;
    var o, before := objects[i], Admitted(objects[..i], verdicts);
    assert Admitted(objects[..i + 1], verdicts + [valid]) == before + if valid then MountsOf(o) else {};
    if valid {
      UnionOfUnion(map[], before, MountsOf(o));
      UnionGrows(Union(map[], before), g, MountsOf(o), MountsOf(o));
    } else {
      assert before + {} == before;
      SubgraphsChain(Union(map[], before), g, h);
    }
  }

  lemma SubgraphsChain(f: Graph, g: Graph, h: Graph)
    requires Subgraph(f, g) && Subgraph(g, h)
    ensures Subgraph(f, h)
  {
  }

  lemma AllWithOneMore(objects: seq<Object>, i: nat)
    requires i < |objects|
    ensures var before, after := Union(map[], AllMounts(objects[..i])), Union(map[], AllMounts(objects[..i + 1]));
            after == Union(before, MountsOf(objects[i])) && (Multitree(after) ==> Multitree(before))
  {
    hide Union, Subgraph, MountsOf, Multitree;
    var o, before, after := objects[i], AllMounts(objects[..i]), AllMounts(objects[..i + 1]);
    assert objects[..i + 1] == objects[..i] + [o];
    assert after == before + MountsOf(o);
    UnionOfUnion(map[], before, MountsOf(o));
    assert Subgraph(map[], map[]) by { EmptyIsSubgraph(); }
    UnionGrows(map[], map[], before, after);
    if Multitree(Union(map[], after)) {
      SubgraphOfMultitree(Union(map[], before), Union(map[], after));
    }
  }

  lemma EmptyIsSubgraph()
    ensures Subgraph(map[], map[]) && Union(map[], {}) == map[] && Multitree(map[])
  {
    assert forall p :: !Walk(map[], p);
  }

  /** The graph that the creation of some objects has left, and which of them were admitted. */
  ghost predicate Created(g: Graph, objects: seq<Object>, verdicts: seq<bool>)
    requires |verdicts| == |objects|
  {
    && Holds(g, Admitted(objects, verdicts))
    && (false !in verdicts ==> g == Union(map[], AllMounts(objects)))
    && (false !in verdicts <==> Multitree(Union(map[], AllMounts(objects))))
  }

  lemma OneMoreCreated(g: Graph, h: Graph, objects: seq<Object>, verdicts: seq<bool>, i: nat, valid: bool)
    requires i < |objects| && i == |verdicts| && Created(g, objects[..i], verdicts) && Subgraph(g, h)
    requires valid <==> Multitree(Union(g, MountsOf(objects[i])))
    requires valid ==> h == Union(g, MountsOf(objects[i]))
    ensures Created(h, objects[..i + 1], verdicts + [valid])
  {
    hide Union, Subgraph, MountsOf, Multitree, Admitted, AllMounts;
    OneMore(g, h, objects, verdicts, i, valid);
    AllWithOneMore(objects, i);
  }

  /** Whatever is asked for, one object after the other: the mounts of all admitted objects together are a
      multitree, so a set of mounts that closes a cycle, or a second path, is never admitted one at a time.
      And all are admitted if and only if all their mounts together are a multitree, so their order does not
      matter. */
  method CreateAll(objects: seq<Object>) returns (v: Validator, verdicts: seq<bool>)
    ensures fresh(v) && fresh(v.mt) && fresh(v.mt.repr) && v.Valid() && |verdicts| == |objects|
    ensures Subgraph(Union(map[], Admitted(objects, verdicts)), v.mt.graph)
    ensures Multitree(Union(map[], Admitted(objects, verdicts)))
    ensures false !in verdicts <==> Multitree(Union(map[], AllMounts(objects)))
  {
    hide Multitree, Union, Subgraph, AllMounts, Admitted, IsRefusal, BlankIsLeaf, Created;
    v := new Validator();
    verdicts := [];
    NothingYet(objects);
    for i := 0 to |objects|
      invariant fresh(v) && fresh(v.mt) && fresh(v.mt.repr) && v.Valid()
      invariant |verdicts| == i && Created(v.mt.graph, objects[..i], verdicts)
    {
      var o := objects[i];
      ghost var g := v.mt.graph;
      var valid, _, _ := v.DoCreate(o.namespace, o.name, o.mounts);
      OneMoreCreated(g, v.mt.graph, objects, verdicts, i, valid);
      verdicts := verdicts + [valid];
    }
    assert objects[..|objects|] == objects;
    CreatedMeaning(v.mt.graph, objects, verdicts);
  }

  lemma CreatedMeaning(g: Graph, objects: seq<Object>, verdicts: seq<bool>)
    requires |verdicts| == |objects| && Created(g, objects, verdicts) && Multitree(g)
    ensures Subgraph(Union(map[], Admitted(objects, verdicts)), g)
    ensures Multitree(Union(map[], Admitted(objects, verdicts)))
    ensures false !in verdicts <==> Multitree(Union(map[], AllMounts(objects)))
  {
    hide Multitree, Union, Subgraph, AllMounts, Admitted;
    SubgraphOfMultitree(Union(map[], Admitted(objects, verdicts)), g);
  }

  lemma NothingYet(objects: seq<Object>)
    ensures Created(map[], objects[..0], [])
  {
    hide Multitree, Union;
    assert Admitted(objects[..0], []) == {} && AllMounts(objects[..0]) == {};
    EmptyIsSubgraph();
  }
}
