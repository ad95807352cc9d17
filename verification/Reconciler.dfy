/** The reconciler of a digi: handlers with priorities, the set of handlers whose edits are not yet on
    the model, and the step that runs them on an event and patches the model. */
module Reconcilers {
  import opened ApiServers
  import opened Basics
  import opened MergePatches

  /** Identity of a handler function. */
  type Fn = nat

  const DO_NOTHING: Fn := 0

  datatype Kind = Builtin | Reflex

  /** `always` stands for the condition of a reflex; other conditions depend on the event. */
  datatype Info = Info(fn: Fn, always: bool, priority: int, kind: Kind)

  datatype Named = Named(name: string, info: Info)

  /** The part of a reflex that the model's spec may set: a new policy, compiled to a function. */
  datatype ReflexSpec = ReflexSpec(name: string, policy: Option<Fn>, priority: Option<int>)

  /** What a handler does to the spec, and whether it raises. */
  datatype Acted = Acted(spec: Json, raised: bool)

  /** A delivered version of the model. `reflexes` is there when the diff touches them; `holds` are
      the functions whose condition the event meets. */
  datatype Event = Event(gen: int, spec: Json, reflexes: Option<seq<ReflexSpec>>, holds: set<Fn>)

  // ---------------------------------------------------------------- handlers in force

  predicate Mentioned(reflexes: seq<ReflexSpec>, name: string) {
    exists i :: 0 <= i < |reflexes| && reflexes[i].name == name
  }

  function Trim(infos: seq<Named>, reflexes: seq<ReflexSpec>): seq<Named> {
    if infos == [] then []
    else
      var front, last := Trim(infos[..|infos| - 1], reflexes), infos[|infos| - 1];
      if last.info.kind.Builtin? || Mentioned(reflexes, last.name) then front + [last] else front
  }

  function Revised(info: Info, r: ReflexSpec): Info {
    info.(fn := if r.policy.Some? then r.policy.value else info.fn,
          priority := if r.priority.Some? then r.priority.value else info.priority)
  }

  /** A reflex revises the entry of its name, or adds one at the end. */
  function Upsert(infos: seq<Named>, r: ReflexSpec): seq<Named> {
    if infos == [] then [Named(r.name, Revised(Info(DO_NOTHING, true, 0, Reflex), r))]
    else if infos[0].name == r.name then [infos[0].(info := Revised(infos[0].info, r))] + infos[1..]
    else [infos[0]] + Upsert(infos[1..], r)
  }

  function UpsertAll(infos: seq<Named>, reflexes: seq<ReflexSpec>): seq<Named> {
    if reflexes == [] then infos
    else Upsert(UpsertAll(infos, reflexes[..|reflexes| - 1]), reflexes[|reflexes| - 1])
  }

  /** The handler known under a name. */
  function Find(infos: seq<Named>, name: string): Option<Info> {
    if infos == [] then None else if infos[0].name == name then Some(infos[0].info) else Find(infos[1..], name)
  }

  ghost predicate DistinctNames(infos: seq<Named>) {
    forall i, j :: 0 <= i < j < |infos| ==> infos[i].name != infos[j].name
  }

  function Known(o: Option<Info>): Info {
    if o.Some? then o.value else Info(DO_NOTHING, true, 0, Reflex)
  }

  lemma {:induction false} UpsertFind(infos: seq<Named>, r: ReflexSpec, name: string)
    ensures Find(Upsert(infos, r), name) ==
            if name == r.name then Some(Revised(Known(Find(infos, name)), r)) else Find(infos, name)
  {
    if infos != [] && infos[0].name != r.name {
      UpsertFind(infos[1..], r, name);
    }
  }

  /** What the spec says about a name, if anything. */
  function Asked(reflexes: seq<ReflexSpec>, name: string): Option<ReflexSpec> {
    if reflexes == [] then None
    else if reflexes[|reflexes| - 1].name == name then Some(reflexes[|reflexes| - 1])
    else Asked(reflexes[..|reflexes| - 1], name)
  }

  lemma {:induction false} UpsertAllFind(infos: seq<Named>, reflexes: seq<ReflexSpec>, name: string)
    requires forall i, j :: 0 <= i < j < |reflexes| ==> reflexes[i].name != reflexes[j].name
    ensures Find(UpsertAll(infos, reflexes), name) ==
            if Asked(reflexes, name).Some? then Some(Revised(Known(Find(infos, name)), Asked(reflexes, name).value))
            else Find(infos, name)
  {
    if reflexes != [] {
      var front, last := reflexes[..|reflexes| - 1], reflexes[|reflexes| - 1];
      UpsertAllFind(infos, front, name);
      UpsertFind(UpsertAll(infos, front), last, name);
      if last.name == name {
        NotAsked(front, name);
      }
    }
  }

  lemma {:induction false} NotAsked(reflexes: seq<ReflexSpec>, name: string)
    ensures Asked(reflexes, name).Some? <==> Mentioned(reflexes, name)
  {
    if reflexes != [] {
      var front, last := reflexes[..|reflexes| - 1], reflexes[|reflexes| - 1];
      NotAsked(front, name);
      assert reflexes == front + [last];
      if Mentioned(front, name) {
        var i :| 0 <= i < |front| && front[i].name == name;
        assert reflexes[i].name == name;
      }
    }
  }

  lemma {:induction false} FindLast(infos: seq<Named>, last: Named, name: string)
    ensures Find(infos + [last], name) ==
            if Find(infos, name).Some? then Find(infos, name) else if last.name == name then Some(last.info) else None
  {
    if infos == [] {
      assert infos + [last] == [last];
    } else {
      assert (infos + [last])[1..] == infos[1..] + [last];
      FindLast(infos[1..], last, name);
    }
  }

  lemma {:induction false} FindIsThere(infos: seq<Named>, name: string)
    ensures Find(infos, name).Some? ==> exists i :: 0 <= i < |infos| && infos[i] == Named(name, Find(infos, name).value)
  {
    if infos != [] && infos[0].name != name {
      FindIsThere(infos[1..], name);
      if Find(infos, name).Some? {
        var i :| 0 <= i < |infos[1..]| && infos[1..][i] == Named(name, Find(infos, name).value);
        assert infos[i + 1] == infos[1..][i];
      }
    }
  }

  lemma {:induction false} TrimFind(infos: seq<Named>, reflexes: seq<ReflexSpec>, name: string)
    requires DistinctNames(infos)
    ensures var was := Find(infos, name);
            Find(Trim(infos, reflexes), name) ==
            if was.Some? && (was.value.kind.Builtin? || Mentioned(reflexes, name)) then was else None
  {
    hide Mentioned;
    if infos != [] {
      var front, last := infos[..|infos| - 1], infos[|infos| - 1];
      TrimFind(front, reflexes, name);
      FindLast(front, last, name);
      FindLast(Trim(front, reflexes), last, name);
      assert infos == front + [last];
      FindIsThere(front, name);
    }
  }

  function Names(infos: seq<Named>): seq<string> {
    seq(|infos|, i requires 0 <= i < |infos| => infos[i].name)
  }

  /** The names that stay: those of builtin handlers and those that the spec mentions. */
  function KeptNames(infos: seq<Named>, reflexes: seq<ReflexSpec>): seq<string> {
    if infos == [] then []
    else
      var first := infos[0];
      (if first.info.kind.Builtin? || Mentioned(reflexes, first.name) then [first.name] else []) + KeptNames(infos[1..], reflexes)
  }

  /** The names that are new. */
  function NewNames(known: seq<string>, reflexes: seq<ReflexSpec>): seq<string> {
    if reflexes == [] then []
    else (if reflexes[0].name in known then [] else [reflexes[0].name]) + NewNames(known, reflexes[1..])
  }

  lemma {:induction false} KeptJoin(infos: seq<Named>, last: Named, reflexes: seq<ReflexSpec>)
    ensures KeptNames(infos + [last], reflexes) == KeptNames(infos, reflexes) + KeptNames([last], reflexes)
  {
    if infos == [] {
      assert infos + [last] == [last];
    } else {
      assert (infos + [last])[1..] == infos[1..] + [last];
      KeptJoin(infos[1..], last, reflexes);
    }
  }

  lemma {:induction false} NewJoin(known: seq<string>, reflexes: seq<ReflexSpec>, last: ReflexSpec)
    ensures NewNames(known, reflexes + [last]) == NewNames(known, reflexes) + NewNames(known, [last])
  {
    if reflexes == [] {
      assert reflexes + [last] == [last];
    } else {
      assert (reflexes + [last])[1..] == reflexes[1..] + [last];
      NewJoin(known, reflexes[1..], last);
    }
  }

  lemma {:induction false} NewAreMentioned(known: seq<string>, reflexes: seq<ReflexSpec>, name: string)
    requires name in NewNames(known, reflexes)
    ensures Mentioned(reflexes, name)
  {
    if name != reflexes[0].name {
      NewAreMentioned(known, reflexes[1..], name);
      var i :| 0 <= i < |reflexes[1..]| && reflexes[1..][i].name == name;
      assert reflexes[i + 1].name == name;
    }
  }

  lemma {:induction false} TrimNames(infos: seq<Named>, reflexes: seq<ReflexSpec>)
    ensures Names(Trim(infos, reflexes)) == KeptNames(infos, reflexes)
  {
    if infos != [] {
      var front, last := infos[..|infos| - 1], infos[|infos| - 1];
      TrimNames(front, reflexes);
      KeptJoin(front, last, reflexes);
      assert infos == front + [last];
      assert KeptNames([last], reflexes) == if last.info.kind.Builtin? || Mentioned(reflexes, last.name) then [last.name] else [];
    }
  }

  lemma {:induction false} UpsertNames(infos: seq<Named>, r: ReflexSpec)
    ensures Names(Upsert(infos, r)) == Names(infos) + if r.name in Names(infos) then [] else [r.name]
  {
    if infos != [] {
      assert Names(infos) == [infos[0].name] + Names(infos[1..]);
      if infos[0].name != r.name {
        UpsertNames(infos[1..], r);
        var more := Upsert(infos[1..], r);
        assert Names([infos[0]] + more) == [infos[0].name] + Names(more);
      }
    }
  }

  /** The order after a change of reflexes, by which handlers of one priority run: the kept ones stay in
      their order, the new ones follow in the order of the spec. */
  lemma {:induction false} UpdateOrder(infos: seq<Named>, reflexes: seq<ReflexSpec>, k: nat)
    requires forall i, j :: 0 <= i < j < |reflexes| ==> reflexes[i].name != reflexes[j].name
    requires k <= |reflexes|
    ensures var kept := KeptNames(infos, reflexes);
            Names(UpsertAll(Trim(infos, reflexes), reflexes[..k])) == kept + NewNames(kept, reflexes[..k])
  {
    hide Trim, KeptNames, Names, Upsert;
    var kept := KeptNames(infos, reflexes);
    TrimNames(infos, reflexes);
    if k == 0 {
      assert reflexes[..0] == [];
    } else {
      UpdateOrder(infos, reflexes, k - 1);
      var front, last := reflexes[..k - 1], reflexes[k - 1];
      assert reflexes[..k] == front + [last] && reflexes[..k][..k - 1] == front;
      UpsertNames(UpsertAll(Trim(infos, reflexes), front), last);
      NewJoin(kept, front, last);
      assert NewNames(kept, [last]) == if last.name in kept then [] else [last.name];
      if last.name in NewNames(kept, front) {
        NewAreMentioned(kept, front, last.name);
      }
    }
  }

  /** After a change of reflexes: each name in the spec has its handler, with the policy and priority
      that the spec gives and the rest as before; other reflexes are gone, other built-in handlers stay. */
  lemma UpdateMeaning(infos: seq<Named>, reflexes: seq<ReflexSpec>, name: string)
    requires DistinctNames(infos)
    requires forall i, j :: 0 <= i < j < |reflexes| ==> reflexes[i].name != reflexes[j].name
    ensures var was, asked := Find(infos, name), Asked(reflexes, name);
            Find(UpsertAll(Trim(infos, reflexes), reflexes), name) ==
            if asked.Some? then
              var base := if was.Some? then was.value else Info(DO_NOTHING, true, 0, Reflex);
              Some(Info(if asked.value.policy.Some? then asked.value.policy.value else base.fn, base.always,
                        if asked.value.priority.Some? then asked.value.priority.value else base.priority, base.kind))
            else if was.Some? && was.value.kind.Builtin? then was else None
  {
    TrimFind(infos, reflexes, name);
    UpsertAllFind(Trim(infos, reflexes), reflexes, name);
    NotAsked(reflexes, name);
  }

  // ---------------------------------------------------------------- names stay distinct

  ghost predicate Has(infos: seq<Named>, name: string) {
    exists i :: 0 <= i < |infos| && infos[i].name == name
  }

  lemma {:induction false} FindIffHas(infos: seq<Named>, name: string)
    ensures Find(infos, name).Some? <==> Has(infos, name)
  {
    FindIsThere(infos, name);
    if infos != [] && infos[0].name != name {
      FindIffHas(infos[1..], name);
      if Has(infos, name) {
        var i :| 0 <= i < |infos| && infos[i].name == name;
        assert infos[1..][i - 1].name == name;
      }
    }
  }

  lemma {:induction false} TrimKeepsDistinct(infos: seq<Named>, reflexes: seq<ReflexSpec>)
    requires DistinctNames(infos)
    ensures DistinctNames(Trim(infos, reflexes))
    ensures forall name :: Has(Trim(infos, reflexes), name) ==> Has(infos, name)
  {
    hide Mentioned;
    if infos != [] {
      var front, last := infos[..|infos| - 1], infos[|infos| - 1];
      TrimKeepsDistinct(front, reflexes);
      forall name | Has(Trim(infos, reflexes), name) ensures Has(infos, name) {
        if Has(Trim(front, reflexes), name) {
          var i :| 0 <= i < |front| && front[i].name == name;
          assert infos[i].name == name;
        }
      }
      forall i | 0 <= i < |Trim(front, reflexes)| ensures Trim(front, reflexes)[i].name != last.name {
        assert Has(Trim(front, reflexes), Trim(front, reflexes)[i].name);
      }
    }
  }

  lemma {:induction false} UpsertKeepsDistinct(infos: seq<Named>, r: ReflexSpec)
    requires DistinctNames(infos)
    ensures DistinctNames(Upsert(infos, r))
    ensures forall name :: Has(Upsert(infos, r), name) ==> Has(infos, name) || name == r.name
  {
    if infos != [] && infos[0].name != r.name {
      var rest := Upsert(infos[1..], r);
      UpsertKeepsDistinct(infos[1..], r);
      forall i | 0 <= i < |rest| ensures rest[i].name != infos[0].name && (Has(infos, rest[i].name) || rest[i].name == r.name) {
        assert Has(rest, rest[i].name);
        if rest[i].name != r.name {
          var j :| 0 <= j < |infos[1..]| && infos[1..][j].name == rest[i].name;
          assert infos[j + 1].name == rest[i].name;
        }
      }
    }
  }

  lemma {:induction false} UpsertAllKeepsDistinct(infos: seq<Named>, reflexes: seq<ReflexSpec>)
    requires DistinctNames(infos)
    ensures DistinctNames(UpsertAll(infos, reflexes))
  {
    if reflexes != [] {
      UpsertAllKeepsDistinct(infos, reflexes[..|reflexes| - 1]);
      UpsertKeepsDistinct(UpsertAll(infos, reflexes[..|reflexes| - 1]), reflexes[|reflexes| - 1]);
    }
  }

  // ---------------------------------------------------------------- compiling

  /** Stable: an entry goes after those of the same priority. */
  function Insert(sorted: seq<Info>, info: Info): seq<Info> {
    if sorted == [] || sorted[|sorted| - 1].priority <= info.priority then sorted + [info]
    else Insert(sorted[..|sorted| - 1], info) + [sorted[|sorted| - 1]]
  }

  /** The enabled handlers, low priority first. */
  function Compile(infos: seq<Named>): seq<Info> {
    if infos == [] then []
    else
      var sorted, last := Compile(infos[..|infos| - 1]), infos[|infos| - 1].info;
      if last.priority < 0 then sorted else Insert(sorted, last)
  }

  ghost predicate Ascending(handlers: seq<Info>) {
    forall i, j :: 0 <= i < j < |handlers| ==> handlers[i].priority <= handlers[j].priority
  }

  lemma {:induction false} InsertKeepsElements(sorted: seq<Info>, info: Info)
    ensures multiset(Insert(sorted, info)) == multiset(sorted) + multiset{info}
  {
    if !(sorted == [] || sorted[|sorted| - 1].priority <= info.priority) {
      var front, last := sorted[..|sorted| - 1], sorted[|sorted| - 1];
      InsertKeepsElements(front, info);
      assert sorted == front + [last];
    }
  }

  lemma {:induction false} InsertKeepsOrder(sorted: seq<Info>, info: Info)
    requires Ascending(sorted)
    ensures Ascending(Insert(sorted, info))
  {
    if !(sorted == [] || sorted[|sorted| - 1].priority <= info.priority) {
      var front, last := sorted[..|sorted| - 1], sorted[|sorted| - 1];
      InsertKeepsOrder(front, info);
      InsertKeepsElements(front, info);
      forall i | 0 <= i < |Insert(front, info)| ensures Insert(front, info)[i].priority <= last.priority {
        var h := Insert(front, info)[i];
        assert h in multiset(Insert(front, info));
        assert h == info || h in front;
      }
    }
  }

  ghost predicate IsEnabled(infos: seq<Named>, h: Info) {
    h.priority >= 0 && exists i :: 0 <= i < |infos| && infos[i].info == h
  }

  /** Compiling keeps exactly the entries of nonnegative priority, in ascending order. */
  lemma {:induction false} CompileMeaning(infos: seq<Named>)
    ensures Ascending(Compile(infos))
    ensures forall h :: h in Compile(infos) <==> IsEnabled(infos, h)
  {
    if infos != [] {
      var front, last := infos[..|infos| - 1], infos[|infos| - 1].info;
      CompileMeaning(front);
      InsertKeepsOrder(Compile(front), last);
      InsertKeepsElements(Compile(front), last);
      forall h ensures IsEnabled(infos, h) <==> IsEnabled(front, h) || (h == last && last.priority >= 0) {
        if IsEnabled(front, h) {
          var i :| 0 <= i < |front| && front[i].info == h;
          assert infos[i].info == h;
        }
      }
      forall h ensures h in Insert(Compile(front), last) <==> h in Compile(front) || h == last {
        assert h in Insert(Compile(front), last) <==> h in multiset(Insert(Compile(front), last));
      }
    }
  }

  function OfPriority(handlers: seq<Info>, p: int): seq<Info> {
    if handlers == [] then []
    else
      var front, last := OfPriority(handlers[..|handlers| - 1], p), handlers[|handlers| - 1];
      if last.priority == p then front + [last] else front
  }

  function Infos(infos: seq<Named>): seq<Info> {
    seq(|infos|, i requires 0 <= i < |infos| => infos[i].info)
  }

  lemma {:induction false} InsertIsStable(sorted: seq<Info>, info: Info, p: int)
    ensures OfPriority(Insert(sorted, info), p) == OfPriority(sorted, p) + if info.priority == p then [info] else []
  {
    var out := Insert(sorted, info);
    if sorted == [] || sorted[|sorted| - 1].priority <= info.priority {
      assert out[..|out| - 1] == sorted;
    } else {
      InsertIsStable(sorted[..|sorted| - 1], info, p);
      assert out[..|out| - 1] == Insert(sorted[..|sorted| - 1], info);
    }
  }

  /** Handlers of the same priority, each as often as it is there, run in the order in which they were
      added. */
  lemma {:induction false} CompileIsStable(infos: seq<Named>, p: int)
    ensures OfPriority(Compile(infos), p) == if p < 0 then [] else OfPriority(Infos(infos), p)
  {
    if infos != [] {
      var front, last := infos[..|infos| - 1], infos[|infos| - 1].info;
      CompileIsStable(front, p);
      InsertIsStable(Compile(front), last, p);
      assert Infos(infos)[..|infos| - 1] == Infos(front);
    }
  }

  // ---------------------------------------------------------------- one run of the handlers

  datatype RunState = RunState(spec: Json, pending: set<Fn>, ran: seq<Fn>, raised: bool)

  function RunOne(act: (Fn, Json) -> Acted, st: RunState, h: Info, holds: set<Fn>): RunState {
    if st.raised || !(h.always || h.fn in holds || h.fn in st.pending) then st
    else
      var acted := act(h.fn, st.spec);
      RunState(acted.spec, if acted.raised then st.pending else st.pending + {h.fn}, st.ran + [h.fn], acted.raised)
  }

  /** Handlers run in order on the evolving spec, each when its condition holds or when it is pending;
      the first that raises ends the run. */
  function RunAll(act: (Fn, Json) -> Acted, st: RunState, handlers: seq<Info>, holds: set<Fn>): RunState {
    if handlers == [] then st
    else RunOne(act, RunAll(act, st, handlers[..|handlers| - 1], holds), handlers[|handlers| - 1], holds)
  }

  lemma {:induction false} RunOnlyAdds(act: (Fn, Json) -> Acted, st: RunState, handlers: seq<Info>, holds: set<Fn>)
    ensures st.pending <= RunAll(act, st, handlers, holds).pending
    ensures st.ran <= RunAll(act, st, handlers, holds).ran
  {
    if handlers != [] {
      RunOnlyAdds(act, st, handlers[..|handlers| - 1], holds);
    }
  }

  /** Unless a handler raises, every pending handler in the list runs, and whatever runs is pending. */
  lemma {:induction false} PendingRun(act: (Fn, Json) -> Acted, st: RunState, handlers: seq<Info>, holds: set<Fn>, h: Info)
    requires !RunAll(act, st, handlers, holds).raised
    requires h in handlers && h.fn in st.pending
    ensures h.fn in RunAll(act, st, handlers, holds).ran
  {
    var front, last := handlers[..|handlers| - 1], handlers[|handlers| - 1];
    RunOnlyAdds(act, st, front, holds);
    if h != last {
      assert handlers == front + [last];
      PendingRun(act, st, front, holds, h);
    }
  }

  lemma {:induction false} RanIsPending(act: (Fn, Json) -> Acted, st: RunState, handlers: seq<Info>, holds: set<Fn>, f: Fn)
    requires !RunAll(act, st, handlers, holds).raised
    requires f in RunAll(act, st, handlers, holds).ran && f !in st.ran
    ensures f in RunAll(act, st, handlers, holds).pending
  {
    if handlers != [] {
      var front := RunAll(act, st, handlers[..|handlers| - 1], holds);
      if f in front.ran {
        RanIsPending(act, st, handlers[..|handlers| - 1], holds, f);
      }
    }
  }

  // ---------------------------------------------------------------- what comes out of a run

  /** The handlers' edits, one after the other. */
  function Composed(act: (Fn, Json) -> Acted, ran: seq<Fn>, spec: Json): Json {
    if ran == [] then spec else act(ran[|ran| - 1], Composed(act, ran[..|ran| - 1], spec)).spec
  }

  /** Whether the `j`-th handler that ran raised. */
  predicate RaisedAt(act: (Fn, Json) -> Acted, ran: seq<Fn>, spec: Json, j: nat)
    requires j < |ran|
  {
    act(ran[j], Composed(act, ran[..j], spec)).raised
  }

  /** The outcome of a run on `spec` that started with `pending`: the edits of all that ran are in the
      result, those of one that raised included; only the last may have raised; all others are pending. */
  ghost predicate Outcomes(act: (Fn, Json) -> Acted, spec: Json, pending: set<Fn>, end: RunState) {
    && end.spec == Composed(act, end.ran, spec)
    && (end.raised ==> end.ran != [])
    && (forall j :: 0 <= j < |end.ran| ==> (RaisedAt(act, end.ran, spec, j) <==> end.raised && j == |end.ran| - 1))
    && end.pending == pending + set j | 0 <= j < |end.ran| && !(end.raised && j == |end.ran| - 1) :: end.ran[j]
  }

  lemma {:induction false} RunComposes(act: (Fn, Json) -> Acted, spec: Json, pending: set<Fn>, handlers: seq<Info>, holds: set<Fn>)
    ensures Outcomes(act, spec, pending, RunAll(act, RunState(spec, pending, [], false), handlers, holds))
  {
    hide Outcomes;
    var st := RunState(spec, pending, [], false);
    if handlers == [] {
      NothingComposed(act, spec, pending);
    } else {
      var front, h := RunAll(act, st, handlers[..|handlers| - 1], holds), handlers[|handlers| - 1];
      RunComposes(act, spec, pending, handlers[..|handlers| - 1], holds);
      if !front.raised && (h.always || h.fn in holds || h.fn in front.pending) {
        OneComposed(act, spec, pending, front, h.fn);
      }
    }
  }

  lemma NothingComposed(act: (Fn, Json) -> Acted, spec: Json, pending: set<Fn>)
    ensures Outcomes(act, spec, pending, RunState(spec, pending, [], false))
  {
  }

  lemma OneComposed(act: (Fn, Json) -> Acted, spec: Json, pending: set<Fn>, front: RunState, f: Fn)
    requires Outcomes(act, spec, pending, front) && !front.raised
    ensures var acted := act(f, front.spec);
            Outcomes(act, spec, pending, RunState(acted.spec, if acted.raised then front.pending else front.pending + {f}, front.ran + [f], acted.raised))
  {
    var acted := act(f, front.spec);
    var ran := front.ran + [f];
    forall j | 0 <= j < |ran| ensures RaisedAt(act, ran, spec, j) <==> acted.raised && j == |ran| - 1 {
      assert j < |front.ran| ==> ran[..j] == front.ran[..j] && (RaisedAt(act, ran, spec, j) <==> RaisedAt(act, front.ran, spec, j));
      assert ran[..|front.ran|] == front.ran;
    }
    assert ran[..|ran| - 1] == front.ran;
    var before := set j | 0 <= j < |front.ran| :: front.ran[j];
    assert before == set j | 0 <= j < |front.ran| :: ran[j];
    if acted.raised {
      assert (set j | 0 <= j < |ran| && !(j == |ran| - 1) :: ran[j]) == before;
    } else {
      assert ran[|front.ran|] == f;
      forall x | x in before + {f} ensures x in set j | 0 <= j < |ran| :: ran[j] {
        if x in before {
          var j :| 0 <= j < |front.ran| && ran[j] == x;
        }
      }
    }
  }

  /** Who runs: unless one ahead of it raised, a handler runs, as the next one, if and only if its condition
      is met, or it was pending from before, or the same function ran ahead of it. */
  lemma RunsIff(act: (Fn, Json) -> Acted, spec: Json, pending: set<Fn>, handlers: seq<Info>, holds: set<Fn>, i: nat)
    requires i < |handlers|
    ensures var st := RunState(spec, pending, [], false);
            var ahead, upto := RunAll(act, st, handlers[..i], holds), RunAll(act, st, handlers[..i + 1], holds);
            var h := handlers[i];
            upto.ran == if !ahead.raised && (h.always || h.fn in holds || h.fn in pending || h.fn in ahead.ran)
                        then ahead.ran + [h.fn] else ahead.ran
    ensures RunAll(act, RunState(spec, pending, [], false), handlers[..i + 1], holds).ran
            <= RunAll(act, RunState(spec, pending, [], false), handlers, holds).ran
  {
    var st := RunState(spec, pending, [], false);
    assert handlers[..i + 1][..i] == handlers[..i];
    RunComposes(act, spec, pending, handlers[..i], holds);
    RunsFurther(act, st, handlers, holds, i + 1);
    var ahead := RunAll(act, st, handlers[..i], holds);
    assert !ahead.raised ==> forall f :: f in ahead.pending <==> f in pending || f in ahead.ran;
  }

  // ---------------------------------------------------------------- the reconciler's state

  datatype Rc = Rc(infos: seq<Named>, dirty: bool, handlers: seq<Info>, pending: set<Fn>,
                   skipGen: int, skip: bool, lastSeen: int, count: nat)

  datatype Verdict = SeenBefore | SelfWrite | Ran(ran: seq<Fn>, raised: bool, sent: Json)

  /** The infos and handlers with which an event is run. */
  function Prepared(rc: Rc, ev: Event): Rc {
    var infos := if ev.reflexes.Some? then UpsertAll(Trim(rc.infos, ev.reflexes.value), ev.reflexes.value) else rc.infos;
    var dirty := rc.dirty || ev.reflexes.Some?;
    rc.(infos := infos, dirty := false, handlers := if dirty then Compile(infos) else rc.handlers)
  }

  /** One event, given how the patch at its end comes out. */
  function Reconciled(act: (Fn, Json) -> Acted, rc: Rc, ev: Event, outcome: Outcome): (Rc, Verdict) {
    if ev.gen == rc.lastSeen then (rc, SeenBefore)
    else
      var seen := rc.(lastSeen := ev.gen, count := rc.count + 1);
      if ev.gen == rc.skipGen && rc.skip then (seen, SelfWrite)
      else Attempted(act, if ev.gen == rc.skipGen then seen.(skip := true) else seen, ev, outcome)
  }

  function Attempted(act: (Fn, Json) -> Acted, rc: Rc, ev: Event, outcome: Outcome): (Rc, Verdict) {
    var ready := Prepared(rc, ev);
    var st := RunAll(act, RunState(ev.spec, ready.pending, [], false), ready.handlers, ev.holds);
    var verdict := Ran(st.ran, st.raised, st.spec);
    if outcome.Success?
    then (ready.(pending := {}, skipGen := if ev.gen + 1 == outcome.v.gen then outcome.v.gen else ready.skipGen), verdict)
    else (ready.(pending := st.pending), verdict)
  }

  /** Nothing that is pending can be hidden behind the skip marker. */
  ghost predicate NothingHidden(rc: Rc) {
    rc.skipGen <= rc.lastSeen + 1 && (rc.pending != {} ==> rc.skipGen <= rc.lastSeen)
  }

  datatype Step =
    | Deliver(ev: Event, outcome: Outcome)
    | DoNotSkip
    | Add(named: Named)

  /** Events arrive one at a time, never with an older generation than the last; a handler is added under
      a name of its own. */
  ghost predicate InOrder(rc: Rc, step: Step) {
    && (step.Deliver? ==> step.ev.gen >= rc.lastSeen)
    && (step.Add? ==> Find(rc.infos, step.named.name).None?)
  }

  function Stepped(act: (Fn, Json) -> Acted, rc: Rc, step: Step): Rc {
    match step
    case Deliver(ev, outcome) => Reconciled(act, rc, ev, outcome).0
    case DoNotSkip => rc.(skip := false)
    case Add(named) => rc.(infos := rc.infos + [named])
  }

  function After(act: (Fn, Json) -> Acted, rc: Rc, steps: seq<Step>): Rc {
    if steps == [] then rc
    else Stepped(act, After(act, rc, steps[..|steps| - 1]), steps[|steps| - 1])
  }

  ghost predicate Serial(act: (Fn, Json) -> Acted, rc: Rc, steps: seq<Step>) {
    steps == [] ||
    (Serial(act, rc, steps[..|steps| - 1]) && InOrder(After(act, rc, steps[..|steps| - 1]), steps[|steps| - 1]))
  }

  const INITIAL := Rc([], true, [], {}, -1, true, -1, 0)

  lemma {:induction false} NothingHiddenEver(act: (Fn, Json) -> Acted, steps: seq<Step>)
    requires Serial(act, INITIAL, steps)
    ensures NothingHidden(After(act, INITIAL, steps))
  {
    if steps != [] {
      NothingHiddenEver(act, steps[..|steps| - 1]);
    }
  }

  /** In every run no two handlers share a name, as `UpdateMeaning` needs. */
  lemma {:induction false} NamesStayDistinct(act: (Fn, Json) -> Acted, steps: seq<Step>)
    requires Serial(act, INITIAL, steps)
    ensures DistinctNames(After(act, INITIAL, steps).infos)
  {
    hide RunAll, Find, DistinctNames;
    if steps == [] {
      NoNames();
    } else {
      var rc, last := After(act, INITIAL, steps[..|steps| - 1]), steps[|steps| - 1];
      NamesStayDistinct(act, steps[..|steps| - 1]);
      if last.Deliver? && last.ev.reflexes.Some? {
        TrimKeepsDistinct(rc.infos, last.ev.reflexes.value);
        UpsertAllKeepsDistinct(Trim(rc.infos, last.ev.reflexes.value), last.ev.reflexes.value);
      } else if last.Add? {
        NewName(rc.infos, last.named);
      }
    }
  }

  lemma NoNames()
    ensures DistinctNames([])
  {
  }

  lemma NewName(infos: seq<Named>, named: Named)
    requires DistinctNames(infos) && Find(infos, named.name).None?
    ensures DistinctNames(infos + [named])
  {
    FindIffHas(infos, named.name);
  }

  /** In every run with serial, nondecreasing delivery, an event that is dropped as a self-write finds
      no handler pending. */
  lemma SelfWriteFindsNothingPending(act: (Fn, Json) -> Acted, steps: seq<Step>, ev: Event, outcome: Outcome)
    requires Serial(act, INITIAL, steps + [Deliver(ev, outcome)])
    ensures var rc := After(act, INITIAL, steps);
            Reconciled(act, rc, ev, outcome).1.SelfWrite? ==> rc.pending == {}
  {
    assert (steps + [Deliver(ev, outcome)])[..|steps|] == steps;
    NothingHiddenEver(act, steps);
  }

  /** A landed write that made the next generation is dropped when it comes back, without a patch, unless
      the drop was forbidden; then it is handled, and the permission is back. */
  lemma OwnWriteComesBack(act: (Fn, Json) -> Acted, rc: Rc, ev: Event, outcome: Outcome, forced: bool, back: Event, later: Outcome)
    requires ev.gen != rc.lastSeen && !(ev.gen == rc.skipGen && rc.skip) && (ev.gen == rc.skipGen || rc.skip)
    requires outcome.Success? && outcome.v.gen == ev.gen + 1 == back.gen
    ensures var rc1 := Reconciled(act, rc, ev, outcome).0;
            var rc2 := if forced then Stepped(act, rc1, DoNotSkip) else rc1;
            var (after, verdict) := Reconciled(act, rc2, back, later);
            && rc1.skipGen == back.gen && rc1.pending == {}
            && (if forced then verdict.Ran? else verdict == SelfWrite && after.pending == {})
            && after.skip && after.lastSeen == back.gen && after.count == rc.count + 2
  {
    hide RunAll, UpsertAll, Trim, Compile;
  }

  /** No delivery in these steps gets its edits onto the model. */
  ghost predicate NoneLands(steps: seq<Step>) {
    forall i :: 0 <= i < |steps| && steps[i].Deliver? ==> !steps[i].outcome.Success?
  }

  lemma {:induction false} PendingUntilLanded(act: (Fn, Json) -> Acted, rc: Rc, steps: seq<Step>, f: Fn)
    requires f in rc.pending && NoneLands(steps)
    ensures f in After(act, rc, steps).pending
  {
    if steps != [] {
      var front, last := steps[..|steps| - 1], steps[|steps| - 1];
      PendingUntilLanded(act, rc, front, f);
      var before := After(act, rc, front);
      if last.Deliver? {
        assert !last.outcome.Success?;
        StaysPending(act, before, last.ev, last.outcome, f);
      }
    }
  }

  lemma StaysPending(act: (Fn, Json) -> Acted, rc: Rc, ev: Event, outcome: Outcome, f: Fn)
    requires f in rc.pending && !outcome.Success?
    ensures f in Reconciled(act, rc, ev, outcome).0.pending
  {
    var ready := Prepared(rc, ev);
    RunOnlyAdds(act, RunState(ev.spec, ready.pending, [], false), ready.handlers, ev.holds);
  }

  lemma {:induction false} RunsCompose(act: (Fn, Json) -> Acted, rc: Rc, a: seq<Step>, b: seq<Step>)
    ensures After(act, rc, a + b) == After(act, After(act, rc, a), b)
  {
    if b == [] {
      assert a + b == a;
    } else {
      assert (a + b)[..|a + b| - 1] == a + b[..|b| - 1];
      RunsCompose(act, rc, a, b[..|b| - 1]);
    }
  }

  /** A rejected edit is not forgotten: a handler that ran on an event whose patch did not land runs
      again on the next event of a newer generation, whatever came between without landing, provided
      that it is still enabled and no handler raises on either event. */
  lemma RejectedEditIsRetried(act: (Fn, Json) -> Acted, steps: seq<Step>, ev: Event, outcome: Outcome,
                              between: seq<Step>, next: Event, later: Outcome, h: Info)
    requires Serial(act, INITIAL, steps + [Deliver(ev, outcome)] + between + [Deliver(next, later)])
    requires !outcome.Success? && NoneLands(between)
    requires var verdict := Reconciled(act, After(act, INITIAL, steps), ev, outcome).1;
             verdict.Ran? && !verdict.raised && h.fn in verdict.ran
    requires var rc := After(act, INITIAL, steps + [Deliver(ev, outcome)] + between);
             next.gen > rc.lastSeen && h in Prepared(rc, next).handlers
    ensures var rc := After(act, INITIAL, steps + [Deliver(ev, outcome)] + between);
            var verdict := Reconciled(act, rc, next, later).1;
            verdict.Ran? && (verdict.raised || h.fn in verdict.ran)
  {
    var one := [Deliver(ev, outcome)];
    var upto := steps + one + between;
    var rc0 := After(act, INITIAL, steps);
    assert (upto + [Deliver(next, later)])[..|upto|] == upto;
    NothingHiddenEver(act, upto);
    RunsCompose(act, INITIAL, steps + one, between);
    assert (steps + one)[..|steps|] == steps;
    RanBecomesPending(act, rc0, ev, outcome, h.fn);
    PendingUntilLanded(act, After(act, INITIAL, steps + one), between, h.fn);
    RerunsPending(act, After(act, INITIAL, upto), next, later, h);
  }

  lemma RanBecomesPending(act: (Fn, Json) -> Acted, rc: Rc, ev: Event, outcome: Outcome, f: Fn)
    requires !outcome.Success?
    requires var verdict := Reconciled(act, rc, ev, outcome).1; verdict.Ran? && !verdict.raised && f in verdict.ran
    ensures f in Reconciled(act, rc, ev, outcome).0.pending
  {
    var seen := rc.(lastSeen := ev.gen, count := rc.count + 1);
    var ready := Prepared(if ev.gen == rc.skipGen then seen.(skip := true) else seen, ev);
    RanIsPending(act, RunState(ev.spec, ready.pending, [], false), ready.handlers, ev.holds, f);
  }

  lemma RerunsPending(act: (Fn, Json) -> Acted, rc: Rc, ev: Event, outcome: Outcome, h: Info)
    requires NothingHidden(rc) && ev.gen > rc.lastSeen && h.fn in rc.pending && h in Prepared(rc, ev).handlers
    ensures var verdict := Reconciled(act, rc, ev, outcome).1;
            verdict.Ran? && (verdict.raised || h.fn in verdict.ran)
  {
    var seen := rc.(lastSeen := ev.gen, count := rc.count + 1);
    var ready := Prepared(if ev.gen == rc.skipGen then seen.(skip := true) else seen, ev);
    assert ready.handlers == Prepared(rc, ev).handlers;
    var st := RunState(ev.spec, ready.pending, [], false);
    if !RunAll(act, st, ready.handlers, ev.holds).raised {
      PendingRun(act, st, ready.handlers, ev.holds, h);
    }
  }

  // ---------------------------------------------------------------- when a pending handler is forgotten

  /** Where a function is listed first. */
  ghost predicate FirstListed(handlers: seq<Info>, i: nat)
    requires i < |handlers|
  {
    forall j :: 0 <= j < i ==> handlers[j].fn != handlers[i].fn
  }

  lemma {:induction false} RaisedStays(act: (Fn, Json) -> Acted, st: RunState, handlers: seq<Info>, i: nat, holds: set<Fn>)
    requires i <= |handlers| && RunAll(act, st, handlers[..i], holds).raised
    ensures RunAll(act, st, handlers, holds) == RunAll(act, st, handlers[..i], holds)
    decreases |handlers|
  {
    if i == |handlers| {
      assert handlers[..i] == handlers;
    } else {
      assert handlers[..|handlers| - 1][..i] == handlers[..i];
      RaisedStays(act, st, handlers[..|handlers| - 1], i, holds);
    }
  }

  lemma {:induction false} OnlyListedRun(act: (Fn, Json) -> Acted, st: RunState, handlers: seq<Info>, holds: set<Fn>, f: Fn)
    requires f in RunAll(act, st, handlers, holds).ran
    ensures f in st.ran || exists j :: 0 <= j < |handlers| && handlers[j].fn == f
  {
    if handlers != [] {
      var front, last := handlers[..|handlers| - 1], handlers[|handlers| - 1];
      if f in RunAll(act, st, front, holds).ran {
        OnlyListedRun(act, st, front, holds, f);
        if j :| 0 <= j < |front| && front[j].fn == f {
          assert handlers[j].fn == f;
        }
      } else {
        assert handlers[|handlers| - 1].fn == f;
      }
    }
  }

  /** A pending handler runs if and only if none ahead of it raises. */
  lemma PendingRunsIff(act: (Fn, Json) -> Acted, st: RunState, handlers: seq<Info>, holds: set<Fn>, i: nat)
    requires i < |handlers| && FirstListed(handlers, i) && handlers[i].fn in st.pending && handlers[i].fn !in st.ran
    ensures handlers[i].fn in RunAll(act, st, handlers, holds).ran <==> !RunAll(act, st, handlers[..i], holds).raised
  {
    var ahead, upto, f := RunAll(act, st, handlers[..i], holds), handlers[..i + 1], handlers[i].fn;
    if ahead.raised {
      RaisedStays(act, st, handlers, i, holds);
      if f in ahead.ran {
        OnlyListedRun(act, st, handlers[..i], holds, f);
        assert false;
      }
    } else {
      RunOnlyAdds(act, st, handlers[..i], holds);
      assert upto[..i] == handlers[..i] && upto[i] == handlers[i];
      assert f in RunAll(act, st, upto, holds).ran;
      RunsFurther(act, st, handlers, holds, i + 1);
    }
  }

  lemma {:induction false} RunsFurther(act: (Fn, Json) -> Acted, st: RunState, handlers: seq<Info>, holds: set<Fn>, i: nat)
    requires i <= |handlers|
    ensures RunAll(act, st, handlers[..i], holds).ran <= RunAll(act, st, handlers, holds).ran
    decreases |handlers|
  {
    if i == |handlers| {
      assert handlers[..i] == handlers;
    } else {
      assert handlers[..|handlers| - 1][..i] == handlers[..i];
      RunsFurther(act, st, handlers[..|handlers| - 1], holds, i);
    }
  }

  /** Neither run for this event nor kept for a later one. */
  ghost predicate Forgotten(after: Rc, verdict: Verdict, f: Fn) {
    f !in after.pending && !(verdict.Ran? && f in verdict.ran)
  }

  /** The handlers listed before the i-th, run on the event, end with one that raises. */
  ghost predicate RaisesAhead(act: (Fn, Json) -> Acted, rc: Rc, ev: Event, i: nat)
    requires i < |Prepared(rc, ev).handlers|
  {
    RunAll(act, RunState(ev.spec, rc.pending, [], false), Prepared(rc, ev).handlers[..i], ev.holds).raised
  }

  /** Exactly when a pending handler that is still enabled is forgotten, in every run: a handler ahead of
      it raises, and the patch lands all the same and clears the pending set. */
  lemma ForgottenIff(act: (Fn, Json) -> Acted, steps: seq<Step>, rc: Rc, ev: Event, outcome: Outcome, i: nat, after: Rc, verdict: Verdict)
    requires Serial(act, INITIAL, steps) && rc == After(act, INITIAL, steps) && ev.gen > rc.lastSeen
    requires (after, verdict) == Reconciled(act, rc, ev, outcome)
    requires i < |Prepared(rc, ev).handlers| && FirstListed(Prepared(rc, ev).handlers, i)
    requires Prepared(rc, ev).handlers[i].fn in rc.pending
    ensures Forgotten(after, verdict, Prepared(rc, ev).handlers[i].fn) <==> outcome.Success? && RaisesAhead(act, rc, ev, i)
  {
    hide After, Serial, Reconciled, Prepared, FirstListed, RaisesAhead, Forgotten;
    NothingHiddenEver(act, steps);
    ForgottenNowIff(act, rc, ev, outcome, i);
  }

  lemma ForgottenNowIff(act: (Fn, Json) -> Acted, rc: Rc, ev: Event, outcome: Outcome, i: nat)
    requires NothingHidden(rc) && ev.gen > rc.lastSeen && i < |Prepared(rc, ev).handlers|
    requires FirstListed(Prepared(rc, ev).handlers, i) && Prepared(rc, ev).handlers[i].fn in rc.pending
    ensures var (after, verdict) := Reconciled(act, rc, ev, outcome);
            Forgotten(after, verdict, Prepared(rc, ev).handlers[i].fn) <==> outcome.Success? && RaisesAhead(act, rc, ev, i)
  {
    hide RunAll, FirstListed;
    var seen := rc.(lastSeen := ev.gen, count := rc.count + 1);
    var ready := Prepared(if ev.gen == rc.skipGen then seen.(skip := true) else seen, ev);
    assert ready.handlers == Prepared(rc, ev).handlers && ready.pending == rc.pending;
    var st := RunState(ev.spec, rc.pending, [], false);
    PendingRunsIff(act, st, ready.handlers, ev.holds, i);
    RunOnlyAdds(act, st, ready.handlers, ev.holds);
  }

  // The first of two handlers raises on an odd spec; the second has a condition.
  const FIRST := Named("first", Info(1, true, 0, Builtin))
  const SECOND := Named("second", Info(2, false, 1, Builtin))

  const PLAIN := Obj(map["mode" := Str("plain")])
  const ODD := Obj(map["mode" := Str("odd")])

  lemma OddIsNotPlain()
    ensures ODD != PLAIN
  {
    assert "odd" != "plain" by {
      assert |"odd"| != |"plain"|;
    }
    assert ODD.fields["mode"] != PLAIN.fields["mode"];
  }

  function Picky(f: Fn, spec: Json): Acted {
    Acted(spec, f == 1 && spec == ODD)
  }

  function TwoHandlers(pending: set<Fn>, lastSeen: int, count: nat): Rc {
    Rc([FIRST, SECOND], false, [FIRST.info, SECOND.info], pending, -1, true, lastSeen, count)
  }

  /** A run from the start in which that happens: both handlers run on the first event, whose patch is
      outdated; on the second the first raises, and the patch, which changes nothing, lands. */
  lemma RaisingForgets()
    ensures exists act: (Fn, Json) -> Acted, steps: seq<Step>, ev: Event, outcome: Outcome, f: Fn ::
              && Serial(act, INITIAL, steps + [Deliver(ev, outcome)])
              && f in After(act, INITIAL, steps).pending
              && var (after, verdict) := Reconciled(act, After(act, INITIAL, steps), ev, outcome);
                 verdict.Ran? && Forgotten(after, verdict, f) && exists h :: h in after.handlers && h.fn == f
  {
    hide After, Serial, RunAll, Compile;
    var first := Event(1, PLAIN, None, {2});
    var second, outcome := Event(2, ODD, None, {}), Success(2, Version(ODD, 2, 2));
    var steps := [Add(FIRST)] + [Add(SECOND)] + [Deliver(first, GenOutdated(2))];
    FirstEvent(first);
    var rc := TwoHandlers({1, 2}, 1, 1);
    OneMore(Picky, steps, Deliver(second, outcome), rc);
    TwoRun(ODD, {1, 2}, {});
    var (after, verdict) := Reconciled(Picky, rc, second, outcome);
    assert after.handlers[1].fn == 2;
  }

  lemma FirstEvent(first: Event)
    requires first == Event(1, PLAIN, None, {2})
    ensures var steps := [Add(FIRST)] + [Add(SECOND)] + [Deliver(first, GenOutdated(2))];
            Serial(Picky, INITIAL, steps) && After(Picky, INITIAL, steps) == TwoHandlers({1, 2}, 1, 1)
  {
    hide After, Serial, RunAll, Compile;
    var one := INITIAL.(infos := [FIRST]);
    var two := INITIAL.(infos := [FIRST, SECOND]);
    assert Serial(Picky, INITIAL, []) && After(Picky, INITIAL, []) == INITIAL by {
      NoStepsYet();
    }
    OneMore(Picky, [], Add(FIRST), INITIAL);
    assert [] + [Add(FIRST)] == [Add(FIRST)] && [] + [FIRST] == [FIRST] && [FIRST] + [SECOND] == [FIRST, SECOND];
    SecondIsNew([FIRST]);
    OneMore(Picky, [Add(FIRST)], Add(SECOND), one);
    OneMore(Picky, [Add(FIRST)] + [Add(SECOND)], Deliver(first, GenOutdated(2)), two);
    TwoCompiled();
    OddIsNotPlain();
    TwoRun(PLAIN, {}, {2});
  }

  lemma SecondIsNew(infos: seq<Named>)
    requires infos == [FIRST]
    ensures Find(infos, SECOND.name).None?
  {
    assert FIRST.name[0] == 'f' && SECOND.name[0] == 's';
    assert infos[1..] == [];
  }

  lemma NoStepsYet()
    ensures Serial(Picky, INITIAL, []) && After(Picky, INITIAL, []) == INITIAL
  {
  }

  lemma OneMore(act: (Fn, Json) -> Acted, steps: seq<Step>, step: Step, rc: Rc)
    requires Serial(act, INITIAL, steps) && After(act, INITIAL, steps) == rc && InOrder(rc, step)
    ensures Serial(act, INITIAL, steps + [step]) && After(act, INITIAL, steps + [step]) == Stepped(act, rc, step)
  {
    hide Stepped, InOrder;
    assert (steps + [step])[..|steps|] == steps;
  }

  lemma TwoCompiled()
    ensures Compile([FIRST, SECOND]) == [FIRST.info, SECOND.info]
  {
    assert [FIRST, SECOND][..1] == [FIRST] && [FIRST][..0] == [];
    assert Compile([FIRST]) == [FIRST.info];
  }

  lemma TwoRun(spec: Json, pending: set<Fn>, holds: set<Fn>)
    ensures RunAll(Picky, RunState(spec, pending, [], false), [FIRST.info, SECOND.info], holds) ==
            if spec == ODD then RunState(spec, pending, [1], true)
            else if 2 in holds + pending then RunState(spec, pending + {1, 2}, [1, 2], false)
            else RunState(spec, pending + {1}, [1], false)
  {
    var st := RunState(spec, pending, [], false);
    assert [FIRST.info, SECOND.info][..1] == [FIRST.info] && [FIRST.info][..0] == [];
    assert RunAll(Picky, st, [], holds) == st;
    assert RunAll(Picky, st, [FIRST.info], holds) ==
           if spec == ODD then RunState(spec, pending, [1], true) else RunState(spec, pending + {1}, [1], false);
    assert pending + {1} + {2} == pending + {1, 2};
  }

  // ---------------------------------------------------------------- the object

  /** Some version of this generation was written by the caller under study. */
  ghost predicate OwnGeneration(log: seq<Entry>, gen: int) {
    exists k :: 0 < k < |log| && log[k].mine && log[k].v.gen == gen && log[k - 1].v.gen + 1 == gen
  }

  ghost predicate WasDelivered(log: seq<Entry>, ev: Event) {
    exists k :: 0 <= k < |log| && log[k].v.gen == ev.gen && log[k].v.spec == ev.spec
  }

  class Reconciler {
    const act: (Fn, Json) -> Acted
    const server: ApiServer
    var infos: seq<Named>
    var dirty: bool
    var handlers: seq<Info>
    var pending: set<Fn>
    var skipGen: int
    var skip: bool
    var lastSeen: int
    var count: nat

    ghost function State(): Rc
      reads this
    {
      Rc(infos, dirty, handlers, pending, skipGen, skip, lastSeen, count)
    }

    /** The skip marker, once set, is a generation that this controller made. */
    ghost predicate Valid()
      reads this, server
    {
      server.Valid() && (skipGen != -1 ==> OwnGeneration(server.log, skipGen))
    }

    constructor (act: (Fn, Json) -> Acted, server: ApiServer)
      requires server.Valid()
      ensures Valid() && this.act == act && this.server == server && State() == INITIAL
    {
      this.act, this.server := act, server;
      infos, dirty, handlers, pending := [], true, [], {};
      skipGen, skip, lastSeen, count := -1, true, -1, 0;
    }

    method UpdateHandlerInfo(reflexes: seq<ReflexSpec>)
      modifies this`infos, this`dirty
      ensures infos == UpsertAll(Trim(old(infos), reflexes), reflexes) && dirty
    {
      var kept: seq<Named> := [];
      for i := 0 to |infos|
        invariant kept == Trim(infos[..i], reflexes)
      {
        assert infos[..i + 1][..i] == infos[..i];
        if infos[i].info.kind.Builtin? || Mentioned(reflexes, infos[i].name) {
          kept := kept + [infos[i]];
        }
      }
      assert infos[..|infos|] == infos;
      infos := kept;
      for i := 0 to |reflexes|
        invariant infos == UpsertAll(kept, reflexes[..i])
      {
        assert reflexes[..i + 1][..i] == reflexes[..i];
        infos := Upsert(infos, reflexes[i]);
      }
      assert reflexes[..|reflexes|] == reflexes;
      dirty := true;
    }

    method CompileHandler()
      modifies this`handlers, this`dirty
      ensures !dirty && handlers == if old(dirty) then Compile(infos) else old(handlers)
    {
      if !dirty {
        return;
      }
      handlers := [];
      for i := 0 to |infos|
        invariant handlers == Compile(infos[..i])
      {
        assert infos[..i + 1][..i] == infos[..i];
        if infos[i].info.priority >= 0 {
          handlers := Insert(handlers, infos[i].info);
        }
      }
      assert infos[..|infos|] == infos;
      dirty := false;
    }

    method Run(ev: Event) returns (spec: Json, ran: seq<Fn>, raised: bool)
      modifies this`infos, this`dirty, this`handlers, this`pending
      ensures var ready := Prepared(old(State()), ev);
              && RunState(spec, pending, ran, raised)
                 == RunAll(act, RunState(ev.spec, ready.pending, [], false), ready.handlers, ev.holds)
              && State() == ready.(pending := pending)
      ensures Outcomes(act, ev.spec, old(pending), RunState(spec, pending, ran, raised))
    {
      hide Trim, UpsertAll, Compile, RunAll, Outcomes;
      if ev.reflexes.Some? {
        UpdateHandlerInfo(ev.reflexes.value);
      }
      CompileHandler();
      spec, ran, raised := RunHandlers(ev);
    }

    /** The loop over the compiled handlers. */
    method RunHandlers(ev: Event) returns (spec: Json, ran: seq<Fn>, raised: bool)
      modifies this`pending
      ensures RunState(spec, pending, ran, raised)
              == RunAll(act, RunState(ev.spec, old(pending), [], false), handlers, ev.holds)
      ensures Outcomes(act, ev.spec, old(pending), RunState(spec, pending, ran, raised))
    {
      hide Outcomes;
      RunComposes(act, ev.spec, pending, handlers, ev.holds);
      spec, ran, raised := ev.spec, [], false;
      ghost var start := RunState(spec, pending, ran, raised);
      for i := 0 to |handlers|
        invariant RunState(spec, pending, ran, raised) == RunAll(act, start, handlers[..i], ev.holds)
        invariant !raised
      {
        assert handlers[..i + 1][..i] == handlers[..i];
        var h := handlers[i];
        if h.always || h.fn in ev.holds || h.fn in pending {
          var acted := act(h.fn, spec);
          spec, ran := acted.spec, ran + [h.fn];
          if acted.raised {
            raised := true;
            RaisedStays(act, start, handlers, i + 1, ev.holds);
            return;
          }
          pending := pending + {h.fn};
        }
      }
      assert handlers[..|handlers|] == handlers;
    }

    /** A name that is taken is made unique by a suffix that no other has. */
    method AddHandler(name: string, suffix: string, info: Info)
      requires Find(infos, name).Some? ==> Find(infos, name + suffix).None?
      modifies this`infos
      ensures var named := Named(if Find(old(infos), name).Some? then name + suffix else name, info);
              && InOrder(old(State()), Add(named)) && State() == Stepped(act, old(State()), Add(named))
    {
      var n := name;
      if Find(infos, name).Some? {
        n := name + suffix;
      }
      infos := infos + [Named(n, info)];
    }

    method DoNotSkipNext()
      modifies this`skip
      ensures State() == Stepped(act, old(State()), DoNotSkip)
    {
      skip := false;
    }

    method ShouldSkip() returns (s: bool)
      modifies this`skip
      ensures s == old(skip) && skip
    {
      s := skip;
      skip := true;
    }

    /** Handles one delivered event. An event dropped as a self-write carries a generation that this
        controller's own patch made, and hence the very spec that it wrote. */
    method Reconcile(ev: Event) returns (verdict: Verdict, ghost outcome: Outcome)
      requires Valid() && WasDelivered(server.log, ev) && ev.gen >= 0
      modifies this, server
      ensures Valid() && old(server.log) <= server.log
      ensures (State(), verdict) == Reconciled(act, old(State()), ev, outcome)
      ensures lastSeen == ev.gen && (verdict.SeenBefore? <==> ev.gen == old(lastSeen))
      ensures verdict.SelfWrite? <==> ev.gen != old(lastSeen) && ev.gen == old(skipGen) && old(skip)
      ensures verdict.SelfWrite? ==>
                && server.log == old(server.log)
                && exists k :: 0 <= k < |server.log| && server.log[k].mine
                            && server.log[k].v.gen == ev.gen && server.log[k].v.spec == ev.spec
      ensures outcome.Success? && verdict.Ran? ==>
                && Landed(old(server.log), server.log, verdict.sent)
                && BeforeMine(old(server.log), server.log).v.gen == ev.gen
      ensures AtMostOneMine(old(server.log), server.log)
      ensures verdict.Ran? ==> verdict.sent == Composed(act, verdict.ran, ev.spec)
      ensures verdict.Ran? && NoFaults(old(server.turns)) ==> outcome.Success? || outcome.GenOutdated?
      ensures verdict.Ran? && outcome.Success? ==>
                pending == {} && (outcome.v.gen == ev.gen + 1 ==> skipGen == outcome.v.gen)
    {
      hide Apply, Landed, BeforeMine, AtMostOneMine, Attempted, History, WasDelivered, OwnGeneration, NoFaults, Composed;
      outcome := Raised;
      if ev.gen == lastSeen {
        NoneMine(server.log);
        return SeenBefore, outcome;
      }
      lastSeen := ev.gen;
      count := count + 1;
      if ev.gen == skipGen {
        var drop := ShouldSkip();
        if drop {
          SameGenerationSameSpec(server.log, ev);
          NoneMine(server.log);
          return SelfWrite, outcome;
        }
      }
      verdict, outcome := RunAndPatch(ev);
    }

    /** Runs the handlers and tries to put their edits on the model. */
    method RunAndPatch(ev: Event) returns (verdict: Verdict, ghost outcome: Outcome)
      requires Valid() && WasDelivered(server.log, ev)
      modifies this, server
      ensures lastSeen == old(lastSeen)
      ensures Valid() && old(server.log) <= server.log
      ensures (State(), verdict) == Attempted(act, old(State()), ev, outcome) && verdict.Ran?
      ensures outcome.Success? ==>
                && Landed(old(server.log), server.log, verdict.sent)
                && BeforeMine(old(server.log), server.log).v.gen == ev.gen
      ensures AtMostOneMine(old(server.log), server.log)
      ensures verdict.sent == Composed(act, verdict.ran, ev.spec)
      ensures NoFaults(old(server.turns)) ==> outcome.Success? || outcome.GenOutdated?
      ensures outcome.Success? ==> pending == {} && (outcome.v.gen == ev.gen + 1 ==> skipGen == outcome.v.gen)
    {
      hide Apply, Landed, BeforeMine, AtMostOneMine, RunAll, Prepared, History, WasDelivered, OwnGeneration, NoFaults;
      var spec, ran, raised := Run(ev);
      verdict := Ran(ran, raised, spec);
      ghost var before := server.log;
      var result := CheckGenAndPatchSpec(server, spec, ev.gen);
      outcome := result;
      if result.Success? {
        PatchedAtDelivered(before, server.log, spec, ev, result);
        if ev.gen + 1 == result.v.gen {
          skipGen := result.v.gen;
        }
        pending := {};
      }
      StillOwn(before, server.log, skipGen);
    }
  }

  lemma NoneMine(log: seq<Entry>)
    ensures AtMostOneMine(log, log)
  {
  }

  lemma SameGenerationSameSpec(log: seq<Entry>, ev: Event)
    requires History(log) && WasDelivered(log, ev) && OwnGeneration(log, ev.gen)
    ensures exists k :: 0 <= k < |log| && log[k].mine && log[k].v.gen == ev.gen && log[k].v.spec == ev.spec
  {
    var d :| 0 <= d < |log| && log[d].v.gen == ev.gen && log[d].v.spec == ev.spec;
    var k :| 0 < k < |log| && log[k].mine && log[k].v.gen == ev.gen && log[k - 1].v.gen + 1 == ev.gen;
    if d <= k {
      HistoryOrder(log, d, k);
    } else {
      HistoryOrder(log, k, d);
    }
  }

  lemma StillOwn(before: seq<Entry>, after: seq<Entry>, gen: int)
    requires before <= after
    ensures OwnGeneration(before, gen) ==> OwnGeneration(after, gen)
  {
    if OwnGeneration(before, gen) {
      var k :| 0 < k < |before| && before[k].mine && before[k].v.gen == gen && before[k - 1].v.gen + 1 == gen;
      assert after[k] == before[k] && after[k - 1] == before[k - 1];
    }
  }

  /** The guard lets the patch through only at the delivered generation itself, so a rise by one is this
      patch's doing. */
  lemma PatchedAtDelivered(before: seq<Entry>, after: seq<Entry>, patch: Json, ev: Event, outcome: Outcome)
    requires before != [] && before <= after && History(after) && WasDelivered(before, ev)
    requires outcome.Success? && Landed(before, after, patch) && outcome.v == after[|after| - 1].v
    requires outcome.curGen == BeforeMine(before, after).v.gen <= ev.gen
    requires outcome.v.gen == outcome.curGen + 1 ==> after[|after| - 1].mine
    ensures outcome.curGen == ev.gen
    ensures ev.gen + 1 == outcome.v.gen ==> OwnGeneration(after, outcome.v.gen)
  {
    hide Apply;
    var d :| 0 <= d < |before| && before[d].v.gen == ev.gen && before[d].v.spec == ev.spec;
    assert after[d] == before[d];
    var k := if |after| > |before| && after[|after| - 1].mine then |after| - 2 else |after| - 1;
    HistoryOrder(after, d, k);
    if ev.gen + 1 == outcome.v.gen {
      assert after[|after| - 1].mine && after[|after| - 1].v.gen == outcome.v.gen;
    }
  }
}
