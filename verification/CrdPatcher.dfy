/** The CRD patcher: each mount of a CRD gets the full spec of the CRD that it mounts, dependency-free
    CRDs first. */
module CrdPatchers {
  import opened Basics
  import opened Graphs

  /** The spec schema of a CRD with one version: what is its own, and, for each CRD that it mounts, the
      spec held in that mount entry, if any. */
  datatype Spec = Spec(own: string, mounts: map<string, Option<Spec>>)

  type Crds = map<string, Spec>

  /** Who mounts whom. */
  function Dependencies(crds: Crds): Graph {
    map n | n in crds :: crds[n].mounts.Keys
  }

  /** No CRD is missing and none mounts itself, directly or through others. */
  ghost predicate Patchable(crds: Crds) {
    Closed(Dependencies(crds)) && Acyclic(Dependencies(crds))
  }

  /** The recursive expansion: every mount holds the expansion of the mounted CRD. */
  ghost function Expand(crds: Crds, n: string): Spec
    requires Patchable(crds) && n in crds
    decreases Desc(Dependencies(crds), n)
  {
    Spec(crds[n].own, map m | m in crds[n].mounts :: Some(ExpandMount(crds, n, m)))
  }

  ghost function ExpandMount(crds: Crds, n: string, m: string): Spec
    requires Patchable(crds) && n in crds && m in crds[n].mounts
    decreases Desc(Dependencies(crds), n), 0
  {
    var g := Dependencies(crds);
    assert Edge(g, n, m);
    DescShrinks(g, n, m);
    Expand(crds, m)
  }

  /** A spec in which every mount holds what `specs` has for the mounted CRD. */
  ghost predicate Filled(specs: Crds, n: string) {
    n in specs && forall m :: m in specs[n].mounts ==> m in specs && specs[n].mounts[m] == Some(specs[m])
  }

  /** Same CRDs, and in each of them everything but what the mounts hold. */
  ghost predicate SameShape(a: Crds, b: Crds) {
    a.Keys == b.Keys && forall n :: n in a ==> a[n].own == b[n].own && a[n].mounts.Keys == b[n].mounts.Keys
  }

  /** Once every mount is filled, each spec is its recursive expansion. */
  lemma {:induction false} FilledIsExpanded(crds: Crds, specs: Crds, n: string)
    requires Patchable(crds) && SameShape(crds, specs) && n in crds
    requires forall k :: k in specs ==> Filled(specs, k)
    ensures specs[n] == Expand(crds, n)
    decreases Desc(Dependencies(crds), n)
  {
    forall m | m in crds[n].mounts ensures specs[n].mounts[m] == Some(ExpandMount(crds, n, m)) {
      assert Filled(specs, n);
      assert Edge(Dependencies(crds), n, m);
      DescShrinks(Dependencies(crds), n, m);
      FilledIsExpanded(crds, specs, m);
    }
    assert specs[n].mounts == Expand(crds, n).mounts;
  }

  /** What the mounts hold beforehand does not matter. */
  lemma {:induction false} ExpandIgnoresSlots(a: Crds, b: Crds, n: string)
    requires SameShape(a, b) && Patchable(a) && Patchable(b) && n in a
    ensures Expand(a, n) == Expand(b, n)
    decreases Desc(Dependencies(a), n)
  {
    forall m | m in a[n].mounts ensures ExpandMount(a, n, m) == ExpandMount(b, n, m) {
      assert Edge(Dependencies(a), n, m);
      DescShrinks(Dependencies(a), n, m);
      ExpandIgnoresSlots(a, b, m);
    }
  }

  /** Patching what was patched changes nothing. */
  lemma PatchedIsStable(crds: Crds, specs: Crds)
    requires Patchable(crds) && SameShape(crds, specs) && forall n :: n in crds ==> specs[n] == Expand(crds, n)
    ensures Patchable(specs) && forall n :: n in specs ==> Expand(specs, n) == specs[n]
  {
    assert Dependencies(specs) == Dependencies(crds);
    forall n | n in specs ensures Expand(specs, n) == specs[n] {
      ExpandIgnoresSlots(crds, specs, n);
    }
  }

  // ---------------------------------------------------------------- order

  /** Every CRD comes once, after all that it mounts. */
  ghost predicate DependenciesFirst(g: Graph, order: seq<string>) {
    && Simple(order)
    && forall i :: 0 <= i < |order| ==> order[i] in g && forall m :: m in g[order[i]] ==> m in order[..i]
  }

  lemma {:induction false} WalksGoDown(g: Graph, order: seq<string>, p: seq<string>, i: nat)
    requires DependenciesFirst(g, order) && Walk(g, p) && |p| > 1 && i < |order| && order[i] == p[0]
    ensures p[|p| - 1] in order[..i]
    decreases |p|
  {
    WalkFirstStep(g, p);
    assert p[1] in order[..i];
    if |p| > 2 {
      var j :| 0 <= j < i && order[j] == p[1];
      var rest := p[1..];
      forall k | 0 <= k < |rest| - 1 ensures Edge(g, rest[k], rest[k + 1]) {
        assert Edge(g, p[k + 1], p[k + 1 + 1]);
      }
      WalksGoDown(g, order, rest, j);
    }
  }

  /** An order of all CRDs with dependencies first leaves no room for a cycle or a missing CRD. */
  lemma OrderedIsPatchable(crds: Crds, order: seq<string>)
    requires DependenciesFirst(Dependencies(crds), order) && forall n :: n in crds ==> n in order
    ensures Patchable(crds)
  {
    var g := Dependencies(crds);
    forall a, b | Edge(g, a, b) ensures b in g {
      var i :| 0 <= i < |order| && order[i] == a;
      assert b in order[..i];
    }
    forall p | Walk(g, p) && |p| > 1 ensures p[0] != p[|p| - 1] {
      var i :| 0 <= i < |order| && order[i] == p[0];
      WalksGoDown(g, order, p, i);
    }
  }

  /** If each of the remaining CRDs still waits for something, then something is missing or they wait
      for one another in a circle. */
  lemma StuckIsNotPatchable(crds: Crds, left: set<string>, done: set<string>)
    requires left != {} && left + done == crds.Keys
    requires forall n :: n in left ==> crds[n].mounts.Keys - done != {}
    ensures !Patchable(crds)
  {
    var g := Dependencies(crds);
    if Patchable(crds) {
      var h: Graph := map n | n in left :: g[n] - done;
      forall a, b | Edge(h, a, b) ensures b in h {
        assert Edge(g, a, b);
      }
      forall p | Walk(h, p) && |p| > 1 ensures p[0] != p[|p| - 1] {
        WalkMonotone(h, g, p);
      }
      var n :| n in left;
      var k := SinkBelow(h, n);
      assert false;
    }
  }

  // ---------------------------------------------------------------- the loop

  /** The parent's spec with the child's put into its mount entry. */
  function WithMountSpec(parent: Spec, n: string, child: Spec): Spec {
    parent.(mounts := parent.mounts[n := Some(child)])
  }

  function Waiting(deps: map<string, set<string>>, n: string): set<string> {
    if n in deps then deps[n] else {}
  }

  /** What is still waited for, once the CRDs in `done` are handled. */
  ghost predicate WaitsForRest(crds: Crds, left: set<string>, deps: map<string, set<string>>, done: set<string>) {
    && deps.Keys <= left
    && forall n :: n in crds ==> Waiting(deps, n) == if n in left then crds[n].mounts.Keys - done else {}
  }

  ghost predicate MountsFilled(crds: Crds, specs: Crds, done: set<string>)
    requires SameShape(crds, specs) && done <= crds.Keys
  {
    forall n, m :: n in crds && m in crds[n].mounts && m in done ==> specs[n].mounts[m] == Some(specs[m])
  }

  /** State of the worklist: finished CRDs are filled and in order; of the others, the mounts of
      finished CRDs are filled, and `deps` has the rest. */
  ghost predicate Progress(crds: Crds, specs: Crds, left: set<string>, deps: map<string, set<string>>, order: seq<string>) {
    && SameShape(crds, specs)
    && left + Elems(order) == crds.Keys && left !! Elems(order)
    && DependenciesFirst(Dependencies(crds), order)
    && WaitsForRest(crds, left, deps, Elems(order))
    && MountsFilled(crds, specs, Elems(order))
  }

  /** The dependencies found while loading; CRDs without mounts get no entry. */
  method FindDependencies(loaded: seq<string>, crds: Crds) returns (deps: map<string, set<string>>)
    requires Simple(loaded) && Elems(loaded) == crds.Keys
    ensures deps.Keys <= crds.Keys
    ensures forall n :: n in crds ==> Waiting(deps, n) == crds[n].mounts.Keys
  {
    deps := map[];
    for i := 0 to |loaded|
      invariant deps.Keys <= Elems(loaded[..i])
      invariant forall n :: n in loaded[..i] ==> n in crds && Waiting(deps, n) == crds[n].mounts.Keys
    {
      var n := loaded[i];
      assert n in Elems(loaded) && n !in loaded[..i];
      ghost var before := deps;
      var todo := crds[n].mounts.Keys;
      while todo != {}
        invariant todo <= crds[n].mounts.Keys && deps.Keys <= before.Keys + {n}
        invariant Waiting(deps, n) == crds[n].mounts.Keys - todo
        invariant forall k :: k != n ==> Waiting(deps, k) == Waiting(before, k)
      {
        var m :| m in todo;
        deps := deps[n := Waiting(deps, n) + {m}];
        todo := todo - {m};
      }
      assert loaded[..i + 1] == loaded[..i] + [n];
    }
    assert loaded[..|loaded|] == loaded;
  }

  /** The first CRD that waits for nothing. */
  method FirstReady(left: seq<string>, deps: map<string, set<string>>) returns (i: nat)
    ensures i <= |left| && (i < |left| ==> Waiting(deps, left[i]) == {})
    ensures forall j :: 0 <= j < i ==> Waiting(deps, left[j]) != {}
  {
    i := 0;
    while i < |left| && left[i] in deps && |deps[left[i]]| != 0
      invariant i <= |left| && forall j :: 0 <= j < i ==> Waiting(deps, left[j]) != {}
    {
      i := i + 1;
    }
  }

  /** The spec of `n` has gone to all that waited for it, and none of them waits for it any more. */
  ghost predicate HandedOut(n: string, specs: Crds, deps: map<string, set<string>>, specs': Crds, deps': map<string, set<string>>) {
    && n in specs && specs'.Keys == specs.Keys && deps'.Keys == deps.Keys - {n}
    && (forall p :: p in deps' ==> deps'[p] == deps[p] - {n})
    && (forall p :: p in specs ==>
          specs'[p] == if p in deps && n in deps[p] then WithMountSpec(specs[p], n, specs[n]) else specs[p])
  }

  method Release(n: string, specs: Crds, deps: map<string, set<string>>)
    returns (specs': Crds, deps': map<string, set<string>>)
    requires n in specs && deps.Keys <= specs.Keys && Waiting(deps, n) == {}
    ensures HandedOut(n, specs, deps, specs', deps')
  {
    hide WithMountSpec;
    specs', deps' := specs, deps;
    var todo := deps.Keys;
    while todo != {}
      invariant todo <= deps.Keys == deps'.Keys && specs'.Keys == specs.Keys
      invariant specs'[n] == specs[n]
      invariant forall p :: p in deps ==> deps'[p] == if p in todo then deps[p] else deps[p] - {n}
      invariant forall p :: p in specs ==>
                  specs'[p] == if p in deps && p !in todo && n in deps[p] then WithMountSpec(specs[p], n, specs[n]) else specs[p]
    {
      var p :| p in todo;
      if n in deps'[p] {
        specs' := specs'[p := WithMountSpec(specs'[p], n, specs'[n])];
        deps' := deps'[p := deps'[p] - {n}];
      }
      todo := todo - {p};
    }
    deps' := deps' - {n};
  }

  lemma RemovedAt(left: seq<string>, i: nat)
    requires Simple(left) && i < |left|
    ensures var rest := left[..i] + left[i + 1..];
            Simple(rest) && Elems(rest) == Elems(left) - {left[i]}
  {
    var rest := left[..i] + left[i + 1..];
    forall x | x in left && x != left[i] ensures x in rest {
      var j :| 0 <= j < |left| && left[j] == x;
      assert rest[if j < i then j else j - 1] == x;
    }
  }

  lemma OrderGrows(g: Graph, order: seq<string>, n: string)
    requires DependenciesFirst(g, order) && n in g && n !in order && forall m :: m in g[n] ==> m in order
    ensures DependenciesFirst(g, order + [n]) && Elems(order + [n]) == Elems(order) + {n}
  {
    forall i | 0 <= i < |order + [n]| ensures (order + [n])[..i] == order[..i] {
    }
    assert order[..|order|] == order;
  }

  lemma WaitsReleased(crds: Crds, left: set<string>, done: set<string>, n: string,
                      specs: Crds, deps: map<string, set<string>>, specs': Crds, deps': map<string, set<string>>)
    requires WaitsForRest(crds, left, deps, done) && HandedOut(n, specs, deps, specs', deps') && Waiting(deps, n) == {}
    ensures WaitsForRest(crds, left - {n}, deps', done + {n})
  {
    forall p | p in crds ensures Waiting(deps', p) == if p in left - {n} then crds[p].mounts.Keys - (done + {n}) else {} {
      assert Waiting(deps', p) == if p == n then {} else Waiting(deps, p) - {n};
    }
  }

  lemma ShapeReleased(crds: Crds, left: set<string>, done: set<string>, n: string,
                      specs: Crds, deps: map<string, set<string>>, specs': Crds, deps': map<string, set<string>>)
    requires SameShape(crds, specs) && WaitsForRest(crds, left, deps, done) && HandedOut(n, specs, deps, specs', deps')
    ensures SameShape(crds, specs')
  {
    hide WithMountSpec;
    forall p | p in crds ensures specs'[p].own == crds[p].own && specs'[p].mounts.Keys == crds[p].mounts.Keys {
      if p in deps && n in deps[p] {
        assert n in Waiting(deps, p);
        KeepsShape(specs[p], n, specs[n]);
      }
    }
  }

  lemma KeepsShape(parent: Spec, n: string, child: Spec)
    requires n in parent.mounts
    ensures var patched := WithMountSpec(parent, n, child);
            patched.own == parent.own && patched.mounts.Keys == parent.mounts.Keys
  {
  }

  lemma MountsReleased(crds: Crds, left: set<string>, done: set<string>, n: string,
                       specs: Crds, deps: map<string, set<string>>, specs': Crds, deps': map<string, set<string>>, p: string, m: string)
    requires SameShape(crds, specs) && SameShape(crds, specs') && left + done == crds.Keys && left !! done && n in left
    requires WaitsForRest(crds, left, deps, done) && HandedOut(n, specs, deps, specs', deps') && Waiting(deps, n) == {}
    requires MountsFilled(crds, specs, done)
    requires p in crds && m in crds[p].mounts && m in done + {n}
    requires p in done ==> m in done
    ensures specs'[p].mounts[m] == Some(specs'[m])
  {
    assert specs'[m] == specs[m];
    if m == n {
      assert n in Waiting(deps, p);
    } else {
      assert specs[p].mounts[m] == Some(specs[m]);
    }
  }

  lemma Released(crds: Crds, specs: Crds, left: set<string>, deps: map<string, set<string>>, order: seq<string>,
                 n: string, specs': Crds, deps': map<string, set<string>>)
    requires n in left && Progress(crds, specs, left, deps, order) && Waiting(deps, n) == {}
    requires HandedOut(n, specs, deps, specs', deps')
    ensures Progress(crds, specs', left - {n}, deps', order + [n])
  {
    hide SameShape, WithMountSpec, HandedOut, WaitsForRest;
    NothingLeftToMount(crds, left, deps, order, n);
    OrderGrows(Dependencies(crds), order, n);
    WaitsReleased(crds, left, Elems(order), n, specs, deps, specs', deps');
    ShapeReleased(crds, left, Elems(order), n, specs, deps, specs', deps');
    ShapeAt(crds, specs');
    assert MountsFilled(crds, specs', Elems(order + [n])) by {
      forall p, m | p in crds && m in crds[p].mounts && m in Elems(order + [n])
        ensures specs'[p].mounts[m] == Some(specs'[m])
      {
        if p in order {
          OnlyEarlier(Dependencies(crds), order, p, m);
        }
        MountsReleased(crds, left, Elems(order), n, specs, deps, specs', deps', p, m);
      }
    }
  }

  lemma ShapeAt(a: Crds, b: Crds)
    requires SameShape(a, b)
    ensures a.Keys == b.Keys && forall n :: n in a ==> a[n].mounts.Keys == b[n].mounts.Keys
  {
  }

  lemma NothingLeftToMount(crds: Crds, left: set<string>, deps: map<string, set<string>>, order: seq<string>, n: string)
    requires WaitsForRest(crds, left, deps, Elems(order)) && n in crds && n in left && Waiting(deps, n) == {}
    ensures forall m :: m in crds[n].mounts ==> m in order
  {
    forall m | m in crds[n].mounts ensures m in order {
      assert m !in crds[n].mounts.Keys - Elems(order);
    }
  }

  lemma OnlyEarlier(g: Graph, order: seq<string>, p: string, m: string)
    requires DependenciesFirst(g, order) && p in g && m in g[p] && p in order
    ensures m in order
  {
    var i :| 0 <= i < |order| && order[i] == p;
    assert m in order[..i];
  }

  /** The dependency loop of `patch`, with the CRDs in the order in which they were loaded. It ends
      without a failed assertion exactly when no CRD is missing and there is no cycle; then every
      spec is expanded, and each CRD was handled after all that it mounts. */
  method Patch(loaded: seq<string>, crds: Crds) returns (ok: bool, specs: Crds, ghost order: seq<string>)
    requires Simple(loaded) && Elems(loaded) == crds.Keys
    ensures ok <==> Patchable(crds)
    ensures ok ==> SameShape(crds, specs) && forall n :: n in crds ==> specs[n] == Expand(crds, n)
    ensures ok ==> DependenciesFirst(Dependencies(crds), order) && Elems(order) == crds.Keys
  {
    specs, order := crds, [];
    var deps := FindDependencies(loaded, crds);
    var left := loaded;
    while left != []
      invariant Simple(left) && Progress(crds, specs, Elems(left), deps, order)
      decreases |left|
    {
      var i := FirstReady(left, deps);
      if i == |left| {
        assert left[0] in Elems(left);
        StuckIsNotPatchable(crds, Elems(left), Elems(order));
        return false, specs, order;
      }
      var n := left[i];
      assert n in Elems(left);
      var specs', deps' := Release(n, specs, deps);
      Released(crds, specs, Elems(left), deps, order, n, specs', deps');
      RemovedAt(left, i);
      specs, deps := specs', deps';
      left := left[..i] + left[i + 1..];
      order := order + [n];
    }
    ok := true;
    assert Elems(order) == crds.Keys;
    OrderedIsPatchable(crds, order);
    forall n | n in crds ensures specs[n] == Expand(crds, n) {
      FilledIsExpanded(crds, specs, n);
    }
  }
}
