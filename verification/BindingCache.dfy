/** The sync controller's cache of bindings, with its reverse index from models to bindings. */
module BindingCaches {

  datatype Mode = Sync | Match | Unknown

  datatype Auri = Auri(kind: string, model: string, path: string)

  datatype Binding = Binding(name: string, source: Auri, target: Auri, mode: Mode)

  type Bindings = map<string, Binding>

  /** How an addition ends: done, refused for its mode, or stopped where a watch could not be set up. */
  datatype Added = Ok | BadMode | WatchFailed

  ghost predicate Touches(b: Binding, model: string) {
    b.source.model == model || b.target.model == model
  }

  /** The bindings that a model's entry of the index holds; no entry is an empty one. */
  function Under(index: map<string, Bindings>, model: string): Bindings {
    if model in index then index[model] else map[]
  }

  /** Every model's entry holds exactly the cached bindings with that model as source or target. */
  ghost predicate Consistent(bindings: Bindings, index: map<string, Bindings>) {
    forall m, n ::
      (n in Under(index, m) <==> n in bindings && Touches(bindings[n], m))
      && (n in Under(index, m) ==> Under(index, m)[n] == bindings[n])
  }

  function Put(index: map<string, Bindings>, model: string, b: Binding): map<string, Bindings> {
    index[model := Under(index, model)[b.name := b]]
  }

  function Drop(index: map<string, Bindings>, model: string, name: string): map<string, Bindings> {
    if model in index then index[model := index[model] - {name}] else index
  }

  ghost function Indexed(index: map<string, Bindings>, b: Binding): map<string, Bindings> {
    Put(Put(index, b.source.model, b), b.target.model, b)
  }

  /** An old binding of the same name has no endpoint that the new one lacks. */
  ghost predicate KeepsEndpoints(bindings: Bindings, b: Binding) {
    b.name in bindings ==> Touches(b, bindings[b.name].source.model) && Touches(b, bindings[b.name].target.model)
  }

  lemma UnderIndexed(index: map<string, Bindings>, b: Binding, m: string)
    ensures Under(Indexed(index, b), m) == if Touches(b, m) then Under(index, m)[b.name := b] else Under(index, m)
  {
  }

  /** An addition that goes through keeps the index right exactly when the name is new or keeps its
      endpoints; otherwise the old endpoint's entry still holds the old binding. */
  lemma AddKeepsIndexIff(bindings: Bindings, index: map<string, Bindings>, b: Binding)
    requires Consistent(bindings, index) && forall n :: n in bindings ==> bindings[n].name == n
    ensures Consistent(bindings[b.name := b], Indexed(index, b)) <==> KeepsEndpoints(bindings, b)
  {
    var after, index' := bindings[b.name := b], Indexed(index, b);
    forall m { UnderIndexed(index, b, m); }
    if !KeepsEndpoints(bindings, b) {
      var was := bindings[b.name];
      var m := if !Touches(b, was.source.model) then was.source.model else was.target.model;
      assert Touches(was, m) && b.name in Under(index, m);
      assert b.name in Under(index', m) && !Touches(after[b.name], m);
    } else {
      forall m, n
        ensures n in Under(index', m) <==> n in after && Touches(after[n], m)
        ensures n in Under(index', m) ==> Under(index', m)[n] == after[n]
      {
        assert n in Under(index, m) <==> n in bindings && Touches(bindings[n], m);
      }
    }
  }

  /** An addition stopped at a watch has cached the binding and not indexed it: the index is right only
      if that very binding was cached before. */
  lemma FailedWatchKeepsIndexIff(bindings: Bindings, index: map<string, Bindings>, b: Binding)
    requires Consistent(bindings, index)
    ensures Consistent(bindings[b.name := b], index) <==> b.name in bindings && bindings[b.name] == b
  {
    var after := bindings[b.name := b];
    if b.name in bindings && bindings[b.name] == b {
      assert after == bindings;
    }
    if Consistent(after, index) {
      HeldUnderSource(after, index, b.name);
      HeldIsCached(bindings, index, b.source.model, b.name);
    }
  }

  lemma HeldUnderSource(bindings: Bindings, index: map<string, Bindings>, name: string)
    requires Consistent(bindings, index) && name in bindings
    ensures var held := Under(index, bindings[name].source.model); name in held && held[name] == bindings[name]
  {
    assert Touches(bindings[name], bindings[name].source.model);
  }

  lemma HeldIsCached(bindings: Bindings, index: map<string, Bindings>, model: string, name: string)
    requires Consistent(bindings, index) && name in Under(index, model)
    ensures name in bindings && Under(index, model)[name] == bindings[name]
  {
  }

  ghost function Removed(index: map<string, Bindings>, b: Binding): map<string, Bindings> {
    Drop(Drop(index, b.source.model, b.name), b.target.model, b.name)
  }

  lemma RemoveKeepsIndex(bindings: Bindings, index: map<string, Bindings>, name: string)
    requires Consistent(bindings, index) && name in bindings && bindings[name].name == name
    ensures Consistent(bindings - {name}, Removed(index, bindings[name]))
  {
    var b := bindings[name];
    var after, index' := bindings - {name}, Removed(index, b);
    forall m ensures Under(index', m) == Under(index, m) - {name} {
      if !Touches(b, m) {
        assert name !in Under(index, m);
      }
    }
    forall m, n
      ensures n in Under(index', m) <==> n in after && Touches(after[n], m)
      ensures n in Under(index', m) ==> Under(index', m)[n] == after[n]
    {
      assert n in Under(index, m) <==> n in bindings && Touches(bindings[n], m);
    }
  }

  /** The kinds that are watched when an addition ends, given those that are or can be: none for an unknown
      mode, and the target's only once the source's is. */
  function NewWatches(b: Binding, possible: set<string>): set<string> {
    if b.mode.Unknown? || b.source.kind !in possible then {} else {b.source.kind, b.target.kind} * possible
  }

  class BindingCache {
    var bindings: Bindings
    var modelToBindings: map<string, Bindings>
    var watched: set<string>

    ghost predicate Named()
      reads this
    {
      forall n :: n in bindings ==> bindings[n].name == n
    }

    ghost predicate Valid()
      reads this
    {
      Named() && Consistent(bindings, modelToBindings)
    }

    constructor ()
      ensures Valid() && bindings == map[] && watched == {}
    {
      bindings, modelToBindings, watched := map[], map[], {};
    }

    /** Adds a watch for a kind that has none; `works` tells for which kinds that succeeds. */
    method Watch(kind: string, works: set<string>) returns (ok: bool)
      modifies this`watched
      ensures ok <==> kind in old(watched) || kind in works
      ensures watched == if ok then old(watched) + {kind} else old(watched)
    {
      ok := true;
      if kind !in watched {
        if kind !in works {
          return false;
        }
        watched := watched + {kind};
      }
    }

    /** The three ways in which an addition ends, and whether the index is right after each. */
    method Add(b: Binding, works: set<string>) returns (r: Added)
      requires Valid()
      modifies this
      ensures Named()
      ensures r == BadMode <==> b.mode.Unknown?
      ensures r == Ok <==> !b.mode.Unknown? && {b.source.kind, b.target.kind} <= old(watched) + works
      ensures watched == old(watched) + NewWatches(b, old(watched) + works)
      ensures r == BadMode ==> Valid() && bindings == old(bindings) && modelToBindings == old(modelToBindings)
      ensures r == Ok ==> bindings == old(bindings)[b.name := b] && (Valid() <==> KeepsEndpoints(old(bindings), b))
      ensures r == WatchFailed ==>
                && bindings == old(bindings)[b.name := b] && modelToBindings == old(modelToBindings)
                && (Valid() <==> b.name in old(bindings) && old(bindings)[b.name] == b)
    {
      if b.mode != Match && b.mode != Sync {
        return BadMode;
      }
      AddKeepsIndexIff(bindings, modelToBindings, b);
      FailedWatchKeepsIndexIff(bindings, modelToBindings, b);
      bindings := bindings[b.name := b];
      var ok := Watch(b.source.kind, works);
      if !ok {
        return WatchFailed;
      }
      ok := Watch(b.target.kind, works);
      if !ok {
        return WatchFailed;
      }
      SetIndex(b.source.model, b);
      SetIndex(b.target.model, b);
      r := Ok;
    }

    method SetIndex(model: string, b: Binding)
      modifies this`modelToBindings
      ensures modelToBindings == Put(old(modelToBindings), model, b)
    {
      if model !in modelToBindings {
        modelToBindings := modelToBindings[model := map[]];
      }
      modelToBindings := modelToBindings[model := modelToBindings[model][b.name := b]];
    }

    method Remove(name: string)
      requires Valid()
      modifies this
      ensures Valid() && bindings == old(bindings) - {name} && watched == old(watched)
    {
      if name !in bindings {
        assert bindings - {name} == bindings;
        return;
      }
      RemoveKeepsIndex(bindings, modelToBindings, name);
      var bd := bindings[name];
      bindings := bindings - {name};
      var src, target := bd.source.model, bd.target.model;
      if src in modelToBindings {
        modelToBindings := modelToBindings[src := modelToBindings[src] - {name}];
      }
      if target in modelToBindings {
        modelToBindings := modelToBindings[target := modelToBindings[target] - {name}];
      }
    }

    /** The bindings to enforce when a model changes. */
    method Lookup(model: string) returns (found: Bindings)
      requires Valid()
      ensures found == map n | n in bindings && Touches(bindings[n], model) :: bindings[n]
    {
      found := Under(modelToBindings, model);
      forall n
        ensures n in found <==> n in bindings && Touches(bindings[n], model)
        ensures n in found ==> found[n] == bindings[n]
      {
        assert n in Under(modelToBindings, model) <==> n in bindings && Touches(bindings[n], model);
      }
    }
  }

  // ---------------------------------------------------------------- whole runs

  datatype Op =
    | Add(b: Binding, works: set<string>)
    | Remove(name: string)

  /** The bindings after some operations, if all of them go through. */
  function Cached(ops: seq<Op>): Bindings {
    if ops == [] then map[]
    else
      var before := Cached(ops[..|ops| - 1]);
      match ops[|ops| - 1]
      case Add(b, _) => before[b.name := b]
      case Remove(name) => before - {name}
  }

  /** Modes are valid, watches succeed, and a name changes its endpoints only after a removal. */
  ghost predicate Smooth(ops: seq<Op>) {
    forall i :: 0 <= i < |ops| && ops[i].Add? ==>
      && !ops[i].b.mode.Unknown? && {ops[i].b.source.kind, ops[i].b.target.kind} <= ops[i].works
      && KeepsEndpoints(Cached(ops[..i]), ops[i].b)
  }

  /** Over every such run the index holds, for each model, exactly the cached bindings with that model
      as source or target, also where both are the same. */
  method Replay(ops: seq<Op>) returns (cache: BindingCache)
    requires Smooth(ops)
    ensures fresh(cache) && cache.Valid() && cache.bindings == Cached(ops)
  {
    hide Consistent, KeepsEndpoints;
    cache := new BindingCache();
    for i := 0 to |ops|
      invariant fresh(cache) && cache.Valid() && cache.bindings == Cached(ops[..i])
    {
      assert ops[..i + 1][..i] == ops[..i];
      match ops[i]
      case Add(b, works) => var r := cache.Add(b, works);
      case Remove(name) => cache.Remove(name);
    }
    assert ops[..|ops|] == ops;
  }

  /** The first addition of a run that breaks the rule breaks the index. */
  method FirstMoveBreaksTheIndex(ops: seq<Op>, b: Binding, works: set<string>) returns (cache: BindingCache)
    requires Smooth(ops) && !b.mode.Unknown? && {b.source.kind, b.target.kind} <= works
    requires !KeepsEndpoints(Cached(ops), b)
    ensures fresh(cache) && !cache.Valid() && cache.bindings == Cached(ops)[b.name := b]
  {
    cache := Replay(ops);
    var r := cache.Add(b, works);
  }
}
