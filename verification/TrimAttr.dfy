/** Removing attributes at every depth of a nested dict, in place and breadth first, over a list that
    grows while it is walked. Dicts are heap objects and may be shared, as long as none contains itself. */
module TrimAttrs {
  import opened Basics

  /** Nested dicts as values; whatever is not a dict (a list too) is an atom. */
  datatype Tree = Atom(text: string) | Branch(fields: seq<Field>)

  datatype Field = Field(key: string, tree: Tree)

  // ---------------------------------------------------------------- recursive removal

  function Trim(t: Tree, attrs: set<string>): Tree
    decreases t
  {
    if t.Atom? then t else Branch(TrimFields(t, |t.fields|, attrs))
  }

  function TrimFields(whole: Tree, k: nat, attrs: set<string>): seq<Field>
    requires whole.Branch? && k <= |whole.fields|
    decreases whole, k
  {
    if k == 0 then []
    else
      var front, f := TrimFields(whole, k - 1, attrs), whole.fields[k - 1];
      if f.key in attrs then front else front + [Field(f.key, Trim(f.tree, attrs))]
  }

  /** The first of the first `k` fields under a key. */
  function Get(fields: seq<Field>, k: nat, key: string): Option<Tree>
    requires k <= |fields|
  {
    if k == 0 then None
    else
      var g := Get(fields, k - 1, key);
      if g.Some? then g else if fields[k - 1].key == key then Some(fields[k - 1].tree) else None
  }

  function Lookup(t: Tree, path: seq<string>): Option<Tree>
    decreases |path|
  {
    if path == [] then Some(t)
    else if t.Atom? then None
    else
      var g := Get(t.fields, |t.fields|, path[0]);
      if g.None? then None else Lookup(g.value, path[1..])
  }

  function Trimmed(o: Option<Tree>, attrs: set<string>): Option<Tree> {
    if o.None? then None else Some(Trim(o.value, attrs))
  }

  lemma {:induction false} GetOfPrefix(a: seq<Field>, b: seq<Field>, k: nat, key: string)
    requires k <= |a|
    ensures Get(a + b, k, key) == Get(a, k, key)
  {
    if k > 0 {
      GetOfPrefix(a, b, k - 1, key);
    }
  }

  lemma {:induction false} GetTrimmed(whole: Tree, k: nat, attrs: set<string>, key: string)
    requires whole.Branch? && k <= |whole.fields|
    ensures var out := TrimFields(whole, k, attrs);
            Get(out, |out|, key) == if key in attrs then None else Trimmed(Get(whole.fields, k, key), attrs)
  {
    if k > 0 {
      GetTrimmed(whole, k - 1, attrs, key);
      var front, f := TrimFields(whole, k - 1, attrs), whole.fields[k - 1];
      GetOfPrefix(front, [Field(f.key, Trim(f.tree, attrs))], |front|, key);
    }
  }

  /** Paths through a removed key are gone; every other path leads where it did, trimmed there. */
  lemma {:induction false} TrimKeepsOtherPaths(t: Tree, attrs: set<string>, path: seq<string>)
    ensures Lookup(Trim(t, attrs), path) ==
            if exists i :: 0 <= i < |path| && path[i] in attrs then None else Trimmed(Lookup(t, path), attrs)
    decreases |path|
  {
    if path != [] && t.Branch? {
      GetTrimmed(t, |t.fields|, attrs, path[0]);
      var g := Get(t.fields, |t.fields|, path[0]);
      if path[0] !in attrs && g.Some? {
        TrimKeepsOtherPaths(g.value, attrs, path[1..]);
        assert forall i :: 0 < i < |path| ==> path[i] == path[1..][i - 1];
      }
    }
  }

  /** Trimming twice is trimming the union; so trimming again changes nothing. */
  lemma {:induction false} TrimTwice(t: Tree, a: set<string>, b: set<string>)
    ensures Trim(Trim(t, a), b) == Trim(t, a + b)
    ensures Trim(Trim(t, a), a) == Trim(t, a)
    decreases t
  {
    if t.Branch? {
      TrimFieldsTwice(t, |t.fields|, a, b);
      TrimFieldsTwice(t, |t.fields|, a, a);
      assert a + a == a;
    }
  }

  lemma {:induction false} TrimFieldsTwice(whole: Tree, k: nat, a: set<string>, b: set<string>)
    requires whole.Branch? && k <= |whole.fields|
    ensures var once := TrimFields(whole, k, a);
            TrimFields(Branch(once), |once|, b) == TrimFields(whole, k, a + b)
    decreases whole, k
  {
    if k > 0 {
      TrimFieldsTwice(whole, k - 1, a, b);
      var front, f := TrimFields(whole, k - 1, a), whole.fields[k - 1];
      if f.key !in a {
        TrimTwice(f.tree, a, b);
        TrimOfPrefix(front, [Field(f.key, Trim(f.tree, a))], |front|, b);
      }
    }
  }

  lemma {:induction false} TrimOfPrefix(x: seq<Field>, y: seq<Field>, k: nat, attrs: set<string>)
    requires k <= |x|
    ensures TrimFields(Branch(x + y), k, attrs) == TrimFields(Branch(x), k, attrs)
    decreases k
  {
    if k > 0 {
      TrimOfPrefix(x, y, k - 1, attrs);
    }
  }

  // ---------------------------------------------------------------- dicts on the heap

  datatype Value = Leaf(text: string) | Node(dict: Dict)

  datatype Item = Item(key: string, value: Value)

  /** The items of `items` whose key stays, in order. */
  function Kept(items: seq<Item>, attrs: set<string>): (r: seq<Item>)
    ensures forall i :: 0 <= i < |r| ==> r[i] in items && r[i].key !in attrs
    ensures forall i :: 0 <= i < |items| && items[i].key !in attrs ==> items[i] in r
  {
    if items == [] then []
    else
      var front, last := Kept(items[..|items| - 1], attrs), items[|items| - 1];
      if last.key in attrs then front else front + [last]
  }

  function Values(items: seq<Item>): seq<Value> {
    seq(|items|, i requires 0 <= i < |items| => items[i].value)
  }

  lemma {:induction false} KeptTwice(items: seq<Item>, a: set<string>, b: set<string>)
    ensures Kept(Kept(items, a), b) == Kept(items, a + b)
  {
    if items != [] {
      var init, last := items[..|items| - 1], items[|items| - 1];
      KeptTwice(init, a, b);
      if last.key !in a {
        var k := Kept(init, a) + [last];
        assert k[..|k| - 1] == Kept(init, a);
      }
    }
  }

  lemma {:induction false} KeptOnlyNeedsItsKeys(items: seq<Item>, a: set<string>, b: set<string>)
    requires forall item :: item in items ==> (item.key in a <==> item.key in b)
    ensures Kept(items, a) == Kept(items, b)
  {
    if items != [] {
      assert items[|items| - 1] in items;
      KeptOnlyNeedsItsKeys(items[..|items| - 1], a, b);
    }
  }

  class Dict {
    /** In insertion order. */
    var items: seq<Item>

    method Pop(key: string)
      modifies this
      ensures items == Kept(old(items), {key})
    {
      var left: seq<Item> := [];
      for j := 0 to |items|
        invariant items == old(items)
        invariant left == Kept(items[..j], {key})
      {
        assert items[..j + 1][..j] == items[..j];
        if items[j].key != key {
          left := left + [items[j]];
        }
      }
      assert items[..|items|] == items;
      items := left;
    }
  }

  /** What the dicts hold at one moment. */
  type Heap = map<Dict, seq<Item>>

  ghost function Snapshot(dicts: set<Dict>): Heap
    reads dicts
  {
    map d | d in dicts :: d.items
  }

  ghost predicate Within(v: Value, rank: map<Dict, nat>) {
    v.Node? ==> v.dict in rank
  }

  /** No dict contains itself: what a dict holds ranks below it. */
  ghost predicate Acyclic(h: Heap, rank: map<Dict, nat>) {
    h.Keys == rank.Keys && forall d :: d in h ==> Below(h[d], rank, rank[d])
  }

  ghost predicate Below(items: seq<Item>, rank: map<Dict, nat>, bound: nat) {
    forall i :: 0 <= i < |items| && items[i].value.Node? ==>
      items[i].value.dict in rank && rank[items[i].value.dict] < bound
  }

  ghost function Height(v: Value, rank: map<Dict, nat>): nat
    requires Within(v, rank)
  {
    if v.Leaf? then 0 else rank[v.dict] + 1
  }

  /** The nested value that a reference stands for. */
  ghost function View(v: Value, h: Heap, rank: map<Dict, nat>): Tree
    requires Acyclic(h, rank) && Within(v, rank)
    decreases Height(v, rank), 0, 0
  {
    match v
    case Leaf(text) => Atom(text)
    case Node(d) => Branch(ViewItems(h[d], rank[d], h, rank))
  }

  ghost function ViewItems(items: seq<Item>, bound: nat, h: Heap, rank: map<Dict, nat>): (r: seq<Field>)
    requires Acyclic(h, rank) && Below(items, rank, bound)
    ensures |r| == |items|
    decreases bound, 1, |items|
  {
    if items == [] then []
    else
      var last := items[|items| - 1];
      ViewItems(items[..|items| - 1], bound, h, rank) + [Field(last.key, View(last.value, h, rank))]
  }

  // ---------------------------------------------------------------- one dict

  /** The values that stay and the keys that go. */
  method Scan(n: Dict, attrs: set<string>) returns (next: seq<Value>, toTrim: seq<string>)
    ensures next == Values(Kept(n.items, attrs))
    ensures forall i :: 0 <= i < |toTrim| ==> toTrim[i] in attrs
    ensures forall i :: 0 <= i < |n.items| && n.items[i].key in attrs ==> n.items[i].key in toTrim
  {
    next, toTrim := [], [];
    for j := 0 to |n.items|
      invariant next == Values(Kept(n.items[..j], attrs))
      invariant forall i :: 0 <= i < |toTrim| ==> toTrim[i] in attrs
      invariant forall i :: 0 <= i < j && n.items[i].key in attrs ==> n.items[i].key in toTrim
    {
      assert n.items[..j + 1][..j] == n.items[..j];
      if n.items[j].key !in attrs {
        next := next + [n.items[j].value];
      } else {
        toTrim := toTrim + [n.items[j].key];
      }
    }
    assert n.items[..|n.items|] == n.items;
  }

  method PopAll(n: Dict, toTrim: seq<string>)
    modifies n
    ensures n.items == Kept(old(n.items), set i | 0 <= i < |toTrim| :: toTrim[i])
  {
    ghost var gone: set<string> := {};
    KeptNone(n.items);
    for j := 0 to |toTrim|
      invariant gone == set i | 0 <= i < j :: toTrim[i]
      invariant n.items == Kept(old(n.items), gone)
    {
      KeptTwice(old(n.items), gone, {toTrim[j]});
      n.Pop(toTrim[j]);
      gone := gone + {toTrim[j]};
    }
  }

  lemma {:induction false} KeptNone(items: seq<Item>)
    ensures Kept(items, {}) == items
  {
    if items != [] {
      var init, last := items[..|items| - 1], items[|items| - 1];
      KeptNone(init);
      assert items == init + [last];
    }
  }

  /** One turn of the outer loop: drops the attributes from one dict and yields the values that stay. */
  method TrimOne(n: Dict, attrs: set<string>) returns (next: seq<Value>)
    modifies n
    ensures n.items == Kept(old(n.items), attrs)
    ensures next == Values(n.items)
  {
    var toTrim: seq<string>;
    next, toTrim := Scan(n, attrs);
    ghost var gone := set i | 0 <= i < |toTrim| :: toTrim[i];
    KeptOnlyNeedsItsKeys(n.items, gone, attrs);
    PopAll(n, toTrim);
  }

  // ---------------------------------------------------------------- what one pass does to the heap

  ghost predicate Holds(items: seq<Item>, attrs: set<string>, d: Dict) {
    exists i :: 0 <= i < |items| && items[i].key !in attrs && items[i].value == Node(d)
  }

  ghost predicate ReachedIn(h: Heap, attrs: set<string>, from: Dict, to: Dict, n: nat) {
    if n == 0 then from == to
    else exists mid :: mid in h && Holds(h[mid], attrs, to) && ReachedIn(h, attrs, from, mid, n - 1)
  }

  /** Some way from one dict to the other goes through kept keys only. */
  ghost predicate Reached(h: Heap, attrs: set<string>, from: Dict, to: Dict) {
    exists n: nat :: ReachedIn(h, attrs, from, to, n)
  }

  /** Every dict reached through kept keys loses its own attributes; no other dict changes. */
  ghost function After(h: Heap, attrs: set<string>, from: Dict): Heap {
    map d | d in h :: if Reached(h, attrs, from, d) then Kept(h[d], attrs) else h[d]
  }

  lemma ReachedStep(h: Heap, attrs: set<string>, from: Dict, mid: Dict, to: Dict)
    requires Reached(h, attrs, from, mid) && mid in h && Holds(h[mid], attrs, to)
    ensures Reached(h, attrs, from, to)
  {
    var n: nat :| ReachedIn(h, attrs, from, mid, n);
    assert ReachedIn(h, attrs, from, to, n + 1);
  }

  lemma KeptBelow(items: seq<Item>, attrs: set<string>, rank: map<Dict, nat>, bound: nat)
    requires Below(items, rank, bound)
    ensures Below(Kept(items, attrs), rank, bound)
  {
  }

  lemma AfterIsAcyclic(h: Heap, rank: map<Dict, nat>, attrs: set<string>, from: Dict)
    requires Acyclic(h, rank)
    ensures Acyclic(After(h, attrs, from), rank)
  {
    forall d | d in h
      ensures Below(Kept(h[d], attrs), rank, rank[d])
    {
      KeptBelow(h[d], attrs, rank, rank[d]);
    }
  }

  lemma ViewLast(items: seq<Item>, bound: nat, h: Heap, rank: map<Dict, nat>)
    requires Acyclic(h, rank) && Below(items, rank, bound) && items != []
    ensures var init, last := items[..|items| - 1], items[|items| - 1];
            && Below(init, rank, bound) && Within(last.value, rank) && Height(last.value, rank) <= bound
            && ViewItems(items, bound, h, rank) == ViewItems(init, bound, h, rank) + [Field(last.key, View(last.value, h, rank))]
  {
    hide Acyclic, View;
  }

  lemma NothingToKeep(attrs: set<string>)
    ensures Kept([], attrs) == []
  {
  }

  lemma KeptLast(items: seq<Item>, last: Item, attrs: set<string>)
    ensures Kept(items + [last], attrs) == Kept(items, attrs) + if last.key in attrs then [] else [last]
  {
    assert (items + [last])[..|items|] == items;
  }

  lemma TrimFieldsLast(front: seq<Field>, f: Field, attrs: set<string>)
    ensures TrimFields(Branch(front + [f]), |front| + 1, attrs)
            == TrimFields(Branch(front), |front|, attrs) + if f.key in attrs then [] else [Field(f.key, Trim(f.tree, attrs))]
  {
    TrimOfPrefix(front, [f], |front|, attrs);
  }

  lemma {:induction false} ViewAfter(v: Value, h: Heap, rank: map<Dict, nat>, attrs: set<string>, from: Dict)
    requires Acyclic(h, rank) && Acyclic(After(h, attrs, from), rank) && Within(v, rank)
    requires v.Node? ==> Reached(h, attrs, from, v.dict)
    ensures View(v, After(h, attrs, from), rank) == Trim(View(v, h, rank), attrs)
    decreases Height(v, rank), 0, 0
  {
    if v.Node? {
      var items := h[v.dict];
      forall i | 0 <= i < |items| && items[i].key !in attrs && items[i].value.Node?
        ensures Reached(h, attrs, from, items[i].value.dict)
      {
        ReachedStep(h, attrs, from, v.dict, items[i].value.dict);
      }
      ViewItemsAfter(items, rank[v.dict], h, rank, attrs, from);
    }
  }

  lemma {:induction false} ViewItemsAfter(items: seq<Item>, bound: nat, h: Heap, rank: map<Dict, nat>, attrs: set<string>, from: Dict)
    requires Acyclic(h, rank) && Acyclic(After(h, attrs, from), rank) && Below(items, rank, bound)
    requires forall i :: 0 <= i < |items| && items[i].key !in attrs && items[i].value.Node? ==>
               Reached(h, attrs, from, items[i].value.dict)
    ensures Below(Kept(items, attrs), rank, bound)
    ensures ViewItems(Kept(items, attrs), bound, After(h, attrs, from), rank)
            == TrimFields(Branch(ViewItems(items, bound, h, rank)), |items|, attrs)
    decreases bound, 1, |items|
  {
    hide After, Reached, Acyclic, View, ViewItems, Trim, TrimFields, Kept;
    KeptBelow(items, attrs, rank, bound);
    if items == [] {
      NothingToView(bound, h, rank, attrs, from);
    } else {
      var init, last := items[..|items| - 1], items[|items| - 1];
      assert items == init + [last];
      ViewLast(items, bound, h, rank);
      ViewItemsAfter(init, bound, h, rank, attrs, from);
      TrimFieldsLast(ViewItems(init, bound, h, rank), Field(last.key, View(last.value, h, rank)), attrs);
      KeptLast(init, last, attrs);
      if last.key in attrs {
        assert Kept(items, attrs) == Kept(init, attrs);
      } else {
        var kept := Kept(items, attrs);
        assert kept[..|kept| - 1] == Kept(init, attrs) && kept[|kept| - 1] == last;
        ViewAfter(last.value, h, rank, attrs, from);
        ViewLast(kept, bound, After(h, attrs, from), rank);
      }
    }
  }

  lemma NothingToView(bound: nat, h: Heap, rank: map<Dict, nat>, attrs: set<string>, from: Dict)
    requires Acyclic(h, rank) && Acyclic(After(h, attrs, from), rank)
    ensures Kept([], attrs) == [] && Below([], rank, bound)
    ensures ViewItems([], bound, h, rank) == [] == ViewItems([], bound, After(h, attrs, from), rank)
    ensures TrimFields(Branch([]), 0, attrs) == []
  {
    hide Acyclic, After, Reached;
  }

  /** One pass over the heap is the recursive removal on the nested value. */
  lemma AfterIsTrim(h: Heap, rank: map<Dict, nat>, attrs: set<string>, spec: Dict)
    requires Acyclic(h, rank) && spec in rank
    ensures Acyclic(After(h, attrs, spec), rank)
    ensures View(Node(spec), After(h, attrs, spec), rank) == Trim(View(Node(spec), h, rank), attrs)
  {
    AfterIsAcyclic(h, rank, attrs, spec);
    assert ReachedIn(h, attrs, spec, spec, 0);
    ViewAfter(Node(spec), h, rank, attrs, spec);
  }

  // ---------------------------------------------------------------- why the walk ends

  function Size(t: Tree): nat
    decreases t
  {
    if t.Atom? then 1 else 1 + SizeOfFields(t, |t.fields|)
  }

  function SizeOfFields(whole: Tree, k: nat): nat
    requires whole.Branch? && k <= |whole.fields|
    decreases whole, k
  {
    if k == 0 then 0 else SizeOfFields(whole, k - 1) + Size(whole.fields[k - 1].tree)
  }

  lemma {:induction false} SizeOfPrefix(x: seq<Field>, y: seq<Field>, k: nat)
    requires k <= |x|
    ensures SizeOfFields(Branch(x + y), k) == SizeOfFields(Branch(x), k)
  {
    if k > 0 {
      SizeOfPrefix(x, y, k - 1);
    }
  }

  ghost predicate AllWithin(vs: seq<Value>, rank: map<Dict, nat>) {
    forall i :: 0 <= i < |vs| ==> Within(vs[i], rank)
  }

  /** The work left for a list of values: the sizes of the nested values they stand for. */
  ghost function Weight(vs: seq<Value>, h: Heap, rank: map<Dict, nat>): nat
    requires Acyclic(h, rank) && AllWithin(vs, rank)
  {
    if vs == [] then 0 else Weight(vs[..|vs| - 1], h, rank) + Size(View(vs[|vs| - 1], h, rank))
  }

  lemma {:induction false} WeightJoins(a: seq<Value>, b: seq<Value>, h: Heap, rank: map<Dict, nat>)
    requires Acyclic(h, rank) && AllWithin(a, rank) && AllWithin(b, rank)
    ensures Weight(a + b, h, rank) == Weight(a, h, rank) + Weight(b, h, rank)
  {
    hide Acyclic, View, Size;
    if b == [] {
      assert a + b == a;
    } else {
      WeightJoins(a, b[..|b| - 1], h, rank);
      assert (a + b)[..|a + b| - 1] == a + b[..|b| - 1];
    }
  }

  lemma {:induction false} KeptWeighsLess(items: seq<Item>, bound: nat, h: Heap, rank: map<Dict, nat>, attrs: set<string>)
    requires Acyclic(h, rank) && Below(items, rank, bound)
    ensures AllWithin(Values(Kept(items, attrs)), rank)
    ensures Weight(Values(Kept(items, attrs)), h, rank)
            <= SizeOfFields(Branch(ViewItems(items, bound, h, rank)), |items|)
  {
    hide Acyclic, View, ViewItems, Size, Kept, Values, Weight, AllWithin, Within, Below;
    KeptWithin(items, attrs, rank, bound);
    if items == [] {
      NothingToKeep(attrs);
      assert Weight(Values([]), h, rank) == 0 by {
        NothingWeighs(h, rank);
      }
    } else {
      var init, last := items[..|items| - 1], items[|items| - 1];
      assert items == init + [last];
      ViewLast(items, bound, h, rank);
      KeptWeighsLess(init, bound, h, rank, attrs);
      SizeOfPrefix(ViewItems(init, bound, h, rank), [Field(last.key, View(last.value, h, rank))], |init|);
      KeptLast(init, last, attrs);
      if last.key in attrs {
        assert Kept(items, attrs) == Kept(init, attrs);
      } else {
        ValuesLast(Kept(init, attrs), last, rank);
        WeighsOne(last.value, h, rank);
        WeightJoins(Values(Kept(init, attrs)), [last.value], h, rank);
      }
    }
  }

  lemma KeptWithin(items: seq<Item>, attrs: set<string>, rank: map<Dict, nat>, bound: nat)
    requires Below(items, rank, bound)
    ensures AllWithin(Values(Kept(items, attrs)), rank)
  {
    KeptBelow(items, attrs, rank, bound);
  }

  lemma NothingWeighs(h: Heap, rank: map<Dict, nat>)
    requires Acyclic(h, rank)
    ensures AllWithin(Values([]), rank) && Weight(Values([]), h, rank) == 0
  {
    hide Acyclic;
  }

  lemma ValuesLast(items: seq<Item>, last: Item, rank: map<Dict, nat>)
    ensures Values(items + [last]) == Values(items) + [last.value]
    ensures Within(last.value, rank) ==> AllWithin([last.value], rank)
  {
  }

  lemma WeighsOne(v: Value, h: Heap, rank: map<Dict, nat>)
    requires Acyclic(h, rank) && Within(v, rank)
    ensures Weight([v], h, rank) == Size(View(v, h, rank)) > 0
  {
    hide Acyclic, View;
    assert [v][..0] == [];
  }

  lemma DictWeighsMore(d: Dict, h: Heap, rank: map<Dict, nat>, attrs: set<string>)
    requires Acyclic(h, rank) && d in rank
    ensures AllWithin(Values(Kept(h[d], attrs)), rank)
    ensures Weight(Values(Kept(h[d], attrs)), h, rank) < Weight([Node(d)], h, rank)
  {
    hide Kept;
    KeptWeighsLess(h[d], rank[d], h, rank, attrs);
    WeighsOne(Node(d), h, rank);
  }

  // ---------------------------------------------------------------- the walk

  /** What the dicts of `done` still hold is queued. */
  ghost predicate Queued(done: set<Dict>, queue: seq<Value>, h: Heap, attrs: set<string>)
    requires done <= h.Keys
  {
    forall d, i :: d in done && 0 <= i < |h[d]| && h[d][i].key !in attrs && h[d][i].value.Node? ==> h[d][i].value in queue
  }

  ghost predicate AllReached(queue: seq<Value>, h: Heap, attrs: set<string>, spec: Dict) {
    forall i :: 0 <= i < |queue| && queue[i].Node? ==> Reached(h, attrs, spec, queue[i].dict)
  }

  lemma {:induction false} ClosedCovers(done: set<Dict>, queue: seq<Value>, h: Heap, attrs: set<string>, spec: Dict, to: Dict, n: nat)
    requires done <= h.Keys && Queued(done, queue, h, attrs) && spec in done
    requires forall i :: 0 <= i < |queue| && queue[i].Node? ==> queue[i].dict in done
    requires ReachedIn(h, attrs, spec, to, n)
    ensures to in done
  {
    if n > 0 {
      var mid :| mid in h && Holds(h[mid], attrs, to) && ReachedIn(h, attrs, spec, mid, n - 1);
      ClosedCovers(done, queue, h, attrs, spec, mid, n - 1);
    }
  }

  lemma QueueGrows(d: Dict, queue: seq<Value>, next: seq<Value>, done: set<Dict>, h: Heap, attrs: set<string>, spec: Dict, rank: map<Dict, nat>)
    requires Acyclic(h, rank) && done <= h.Keys && d in rank && Reached(h, attrs, spec, d)
    requires Queued(done, queue, h, attrs) && AllReached(queue, h, attrs, spec) && AllWithin(queue, rank)
    requires next == Values(Kept(h[d], attrs))
    ensures Queued(done + {d}, queue + next, h, attrs) && AllReached(queue + next, h, attrs, spec)
    ensures AllWithin(queue + next, rank)
  {
    hide ReachedIn, Reached;
    KeptWeighsLess(h[d], rank[d], h, rank, attrs);
    var kept := Kept(h[d], attrs);
    forall i | 0 <= i < |h[d]| && h[d][i].key !in attrs
      ensures h[d][i].value in next
    {
      var j :| 0 <= j < |kept| && kept[j] == h[d][i];
      assert next[j] == h[d][i].value;
    }
    forall i | 0 <= i < |next| && next[i].Node?
      ensures Reached(h, attrs, spec, next[i].dict)
    {
      assert kept[i] in h[d];
      ReachedStep(h, attrs, spec, d, next[i].dict);
    }
  }

  /** Half-way through: the first `i` of the queue are done, and the queue has what they still hold. */
  ghost predicate Walked(done: set<Dict>, queue: seq<Value>, i: nat, h: Heap, attrs: set<string>, spec: Dict, rank: map<Dict, nat>) {
    && h.Keys == rank.Keys && i <= |queue| && Node(spec) in queue
    && AllWithin(queue, rank) && AllReached(queue, h, attrs, spec)
    && done <= h.Keys && Queued(done, queue, h, attrs)
    && (forall j :: 0 <= j < i && queue[j].Node? ==> queue[j].dict in done)
    && (forall d :: d in done ==> Reached(h, attrs, spec, d))
  }

  /** What is left of the queue. */
  ghost function Left(queue: seq<Value>, i: nat, h: Heap, rank: map<Dict, nat>): nat
    requires Acyclic(h, rank)
  {
    if i <= |queue| && AllWithin(queue[i..], rank) then Weight(queue[i..], h, rank) else 0
  }

  lemma WalkStarts(h: Heap, attrs: set<string>, spec: Dict, rank: map<Dict, nat>)
    requires Acyclic(h, rank) && spec in rank
    ensures Walked({}, [Node(spec)], 0, h, attrs, spec, rank)
  {
    assert ReachedIn(h, attrs, spec, spec, 0);
  }

  lemma WalkPastLeaf(done: set<Dict>, queue: seq<Value>, i: nat, h: Heap, attrs: set<string>, spec: Dict, rank: map<Dict, nat>)
    requires Acyclic(h, rank) && Walked(done, queue, i, h, attrs, spec, rank)
    requires i < |queue| && queue[i].Leaf?
    ensures Walked(done, queue, i + 1, h, attrs, spec, rank)
    ensures Left(queue, i + 1, h, rank) < Left(queue, i, h, rank)
  {
    hide Acyclic, View, Reached, Queued, Weight;
    var rest := queue[i + 1..];
    assert queue[i..] == [queue[i]] + rest;
    WeightJoins([queue[i]], rest, h, rank);
    WeighsOne(queue[i], h, rank);
  }

  lemma WalkPastDict(done: set<Dict>, queue: seq<Value>, i: nat, next: seq<Value>, h: Heap, attrs: set<string>, spec: Dict, rank: map<Dict, nat>)
    requires Acyclic(h, rank) && Walked(done, queue, i, h, attrs, spec, rank)
    requires i < |queue| && queue[i].Node? && queue[i].dict in rank
    requires next == Values(Kept(h[queue[i].dict], attrs))
    ensures Walked(done + {queue[i].dict}, queue + next, i + 1, h, attrs, spec, rank)
    ensures Left(queue + next, i + 1, h, rank) < Left(queue, i, h, rank)
  {
    hide Acyclic, View, Reached, Queued, Weight, Kept, Values;
    var d, rest := queue[i].dict, queue[i + 1..];
    QueueGrows(d, queue, next, done, h, attrs, spec, rank);
    DictWeighsMore(d, h, rank, attrs);
    assert queue[i..] == [queue[i]] + rest;
    assert (queue + next)[i + 1..] == rest + next;
    WeightJoins([queue[i]], rest, h, rank);
    WeightJoins(rest, next, h, rank);
  }

  /** The dicts without their attributes. */
  ghost function Pruned(h: Heap, attrs: set<string>): Heap {
    map d | d in h :: Kept(h[d], attrs)
  }

  /** Ways through kept keys are the same with the attributes there and without. */
  lemma {:induction false} PrunedReached(h: Heap, attrs: set<string>, from: Dict, to: Dict, n: nat)
    ensures ReachedIn(Pruned(h, attrs), attrs, from, to, n) <==> ReachedIn(h, attrs, from, to, n)
  {
    hide Kept, Holds;
    var p := Pruned(h, attrs);
    if n > 0 {
      if ReachedIn(h, attrs, from, to, n) {
        var mid :| mid in h && Holds(h[mid], attrs, to) && ReachedIn(h, attrs, from, mid, n - 1);
        PrunedHolds(h[mid], attrs, to);
        PrunedReached(h, attrs, from, mid, n - 1);
        assert mid in p && Holds(p[mid], attrs, to) && ReachedIn(p, attrs, from, mid, n - 1);
      }
      if ReachedIn(p, attrs, from, to, n) {
        var mid :| mid in p && Holds(p[mid], attrs, to) && ReachedIn(p, attrs, from, mid, n - 1);
        PrunedHolds(h[mid], attrs, to);
        PrunedReached(h, attrs, from, mid, n - 1);
        assert mid in h && Holds(h[mid], attrs, to) && ReachedIn(h, attrs, from, mid, n - 1);
      }
    }
  }

  lemma PrunedHolds(items: seq<Item>, attrs: set<string>, d: Dict)
    ensures Holds(Kept(items, attrs), attrs, d) <==> Holds(items, attrs, d)
  {
    var kept := Kept(items, attrs);
    if Holds(items, attrs, d) {
      var i :| 0 <= i < |items| && items[i].key !in attrs && items[i].value == Node(d);
      var j :| 0 <= j < |kept| && kept[j] == items[i];
      assert kept[j].key !in attrs && kept[j].value == Node(d);
    }
    if Holds(kept, attrs, d) {
      var j :| 0 <= j < |kept| && kept[j].key !in attrs && kept[j].value == Node(d);
      assert kept[j] in items;
      var i :| 0 <= i < |items| && items[i] == kept[j];
    }
  }

  lemma AfterIsPruned(h: Heap, attrs: set<string>, from: Dict)
    ensures After(h, attrs, from) == map d | d in h :: if Reached(Pruned(h, attrs), attrs, from, d) then Pruned(h, attrs)[d] else h[d]
  {
    forall d | d in h
      ensures Reached(Pruned(h, attrs), attrs, from, d) <==> Reached(h, attrs, from, d)
    {
      forall n: nat
        ensures ReachedIn(Pruned(h, attrs), attrs, from, d, n) <==> ReachedIn(h, attrs, from, d, n)
      {
        PrunedReached(h, attrs, from, d, n);
      }
    }
  }

  /** The dicts of `rank` may be any that hold what they keep: at least those reached from `spec` through
      kept keys. None of them may contain itself through kept keys, where the source would not end. All
      that are reached, and no others, lose their attributes; so the nested value of `spec` becomes the
      one without them, which is the recursive removal if it was a nested value in the first place. */
  method TrimAttr(spec: Dict, attrs: set<string>, ghost rank: map<Dict, nat>)
    requires Acyclic(Pruned(Snapshot(rank.Keys), attrs), rank) && spec in rank
    modifies rank.Keys
    ensures Snapshot(rank.Keys) == After(old(Snapshot(rank.Keys)), attrs, spec)
    ensures (forall d :: d in rank ==> Reached(old(Snapshot(rank.Keys)), attrs, spec, d)) ==>
              && Acyclic(Snapshot(rank.Keys), rank)
              && View(Node(spec), Snapshot(rank.Keys), rank) == View(Node(spec), Pruned(old(Snapshot(rank.Keys)), attrs), rank)
    ensures old(Acyclic(Snapshot(rank.Keys), rank)) ==>
              && Acyclic(Snapshot(rank.Keys), rank)
              && View(Node(spec), Snapshot(rank.Keys), rank) == Trim(old(View(Node(spec), Snapshot(rank.Keys), rank)), attrs)
  {
    hide View, Reached, Acyclic, Kept, Trim, Pruned, After;
    ghost var h := Snapshot(rank.Keys);
    Walk(spec, attrs, rank, Pruned(h, attrs));
    WhatChanged(h, attrs, spec, Snapshot(rank.Keys));
    if Acyclic(h, rank) {
      AfterIsTrim(h, rank, attrs, spec);
    }
  }

  ghost predicate Mixed(h: Heap, p: Heap, attrs: set<string>, spec: Dict, now: Heap) {
    && now.Keys == h.Keys == p.Keys
    && forall d :: d in h ==> now[d] == if Reached(p, attrs, spec, d) then p[d] else h[d]
  }

  lemma WhatChanged(h: Heap, attrs: set<string>, spec: Dict, now: Heap)
    requires Mixed(h, Pruned(h, attrs), attrs, spec, now)
    ensures now == After(h, attrs, spec)
    ensures (forall d :: d in h ==> Reached(h, attrs, spec, d)) ==> now == Pruned(h, attrs)
  {
    hide Reached, Kept;
    AfterIsPruned(h, attrs, spec);
    assert After(h, attrs, spec).Keys == h.Keys;
    forall d | d in h && Reached(h, attrs, spec, d) ensures After(h, attrs, spec)[d] == Pruned(h, attrs)[d] {
    }
  }

  method Walk(spec: Dict, attrs: set<string>, ghost rank: map<Dict, nat>, ghost p: Heap)
    requires p == Pruned(Snapshot(rank.Keys), attrs) && Acyclic(p, rank) && spec in rank
    modifies rank.Keys
    ensures Mixed(old(Snapshot(rank.Keys)), p, attrs, spec, Snapshot(rank.Keys))
  {
    hide View, Reached, Walked, Left, Acyclic, Kept, Trim;
    ghost var h := Snapshot(rank.Keys);
    ghost var done: set<Dict> := {};
    var toVisit := [Node(spec)];
    WalkStarts(p, attrs, spec, rank);
    assert attrs + attrs == attrs;
    var i := 0;
    while i < |toVisit|
      invariant Walked(done, toVisit, i, p, attrs, spec, rank)
      invariant forall d :: d in rank ==> d.items == if d in done then p[d] else h[d]
      decreases Left(toVisit, i, p, rank)
    {
      var n := toVisit[i];
      if n.Node? {
        assert n.dict in rank by {
          WalkIsInside(done, toVisit, i, p, attrs, spec, rank);
        }
        KeptTwice(h[n.dict], attrs, attrs);
        var next := TrimOne(n.dict, attrs);
        WalkPastDict(done, toVisit, i, next, p, attrs, spec, rank);
        done := done + {n.dict};
        toVisit := toVisit + next;
      } else {
        WalkPastLeaf(done, toVisit, i, p, attrs, spec, rank);
      }
      i := i + 1;
    }
    WalkEnds(done, toVisit, i, p, attrs, spec, rank);
  }

  lemma WalkIsInside(done: set<Dict>, queue: seq<Value>, i: nat, h: Heap, attrs: set<string>, spec: Dict, rank: map<Dict, nat>)
    requires Walked(done, queue, i, h, attrs, spec, rank) && i < |queue| && queue[i].Node?
    ensures queue[i].dict in rank
  {
  }

  /** Once the queue is used up, its dicts are exactly those that are reached. */
  lemma WalkEnds(done: set<Dict>, queue: seq<Value>, i: nat, h: Heap, attrs: set<string>, spec: Dict, rank: map<Dict, nat>)
    requires Walked(done, queue, i, h, attrs, spec, rank) && i >= |queue|
    ensures forall d :: d in h ==> (d in done <==> Reached(h, attrs, spec, d))
  {
    forall d | d in h && Reached(h, attrs, spec, d)
      ensures d in done
    {
      var n: nat :| ReachedIn(h, attrs, spec, d, n);
      ClosedCovers(done, queue, h, attrs, spec, d, n);
    }
  }
}
