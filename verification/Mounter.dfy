/** The mounter of a parent model: its event handlers, which run concurrently, copy children into the
    parent and the parent's edits back to the children. Every request to the API server is one step of
    a state machine, interleaved with other writers and with the delivery of events. */
module Mounters {
  import opened ApiServers
  import opened Basics
  import opened MergePatches

  type Id = string

  /** The parent's copy of a child. */
  datatype Copy = Copy(spec: Option<Json>, gen: Option<int>, active: bool, hide: bool)

  /** A version of the parent, `own` if the mounter wrote it. */
  datatype ParentV = ParentV(mounts: map<Id, Copy>, rest: Json, rv: nat, gen: nat, own: bool)

  datatype ChildV = ChildV(spec: Json, rv: nat, gen: nat, own: bool)

  /** The bound that lets a patch through when the copy carries no generation. */
  const MAXSIZE := 0x7fff_ffff_ffff_ffff

  /** A handler under way, at the point between two of its requests. */
  datatype Task =
    /** `_sync_from_parent` for a child event of generation `gen`, before it has read the parent */
    | FromParent(child: Id, patch: Json, gen: int)
    /** `_sync_to_parent` for a child event of generation `gen` */
    | ToParent(child: Id, spec: Json, gen: int, base: Option<ParentV>, trim: bool)
    /** one child that `_sync_to_children` is still to patch */
    | Queued(child: Id, patch: Json, copyGen: Option<int>)
    /** `check_gen_and_patch_spec` on a child; `guarded` unless the copy had no generation */
    | Push(child: Id, patch: Json, bound: int, guarded: bool, target: Option<ChildV>)
    | Done

  /** `seen` collects, per child, the generations that events brought or own patches returned. */
  datatype State = State(parent: seq<ParentV>, children: map<Id, seq<ChildV>>,
                         childGen: map<Id, int>, childSkip: map<Id, int>, parentSkip: int,
                         tasks: seq<Task>, seen: set<(Id, int)>)

  datatype Step =
    | OtherParentWrite(mounts: map<Id, Copy>, rest: Json)
    | OtherChildWrite(c: Id, spec: Json)
    /** version `i` of a child is delivered; on creation the parent's copy is pushed first, and `mount` may
        be trimmed from the start, because an earlier creation has put it into the shared set */
    | ChildEvent(c: Id, i: nat, created: bool, pushed: Json, trim: bool)
    /** version `i` of the parent is delivered; `touched` are the children in its diff, or all */
    | ParentEvent(i: nat, created: bool, touched: seq<Id>)
    | Begin(t: nat)
    | Fetch(t: nat)
    | Commit(t: nat)
    | Abort(t: nat)
    /** the process ends, and a new one starts with nothing in memory */
    | Restart

  function Last<T>(s: seq<T>): T
    requires s != []
  {
    s[|s| - 1]
  }

  /** What `_gen_child_patch` sends for a copy, if anything. */
  function ChildPatch(copy: Copy): Option<Json> {
    if copy.active && copy.spec.Some?
    then Some(if copy.hide && copy.spec.value.Obj? then Obj(copy.spec.value.fields - {"mount"}) else copy.spec.value)
    else None
  }

  /** The pushes that a parent event gives rise to. */
  function PushesFor(mounts: map<Id, Copy>, touched: seq<Id>): seq<Task> {
    if touched == [] then []
    else
      var front, c := PushesFor(mounts, touched[..|touched| - 1]), touched[|touched| - 1];
      if c in mounts && ChildPatch(mounts[c]).Some?
      then front + [Queued(c, ChildPatch(mounts[c]).value, mounts[c].gen)] else front
  }

  function WithTask(s: State, t: nat, task: Task): State
    requires t < |s.tasks|
  {
    s.(tasks := s.tasks[t := task])
  }

  function WithParent(s: State, mounts: map<Id, Copy>, rest: Json, own: bool): State
    requires s.parent != []
  {
    var v := Last(s.parent);
    s.(parent := s.parent + [ParentV(mounts, rest, v.rv + 1, if mounts == v.mounts && rest == v.rest then v.gen else v.gen + 1, own)])
  }

  function NextChild(h: seq<ChildV>, spec: Json, own: bool): ChildV
    requires h != []
  {
    var v := Last(h);
    ChildV(spec, v.rv + 1, if spec == v.spec then v.gen else v.gen + 1, own)
  }

  function WithChild(s: State, c: Id, spec: Json, own: bool): State
    requires c in s.children && s.children[c] != []
  {
    s.(children := s.children[c := s.children[c] + [NextChild(s.children[c], spec, own)]])
  }

  ghost predicate Enabled(s: State, step: Step) {
    match step
    // others may set or keep generations in the copies only as the mounter has seen them
    case OtherParentWrite(mounts, rest) =>
      s.parent != [] && forall c :: c in mounts && mounts[c].gen.Some? ==> (c, mounts[c].gen.value) in s.seen
    case OtherChildWrite(c, spec) => c in s.children && s.children[c] != []
    case ChildEvent(c, i, created, pushed, trim) => c in s.children && i < |s.children[c]| && (trim ==> created)
    case ParentEvent(i, created, touched) => i < |s.parent|
    case Begin(t) => t < |s.tasks| && (s.tasks[t].Queued? || s.tasks[t].FromParent?) && s.parent != []
    case Fetch(t) =>
      && t < |s.tasks| && (s.tasks[t].ToParent? ==> s.tasks[t].base.None?)
      && (s.tasks[t].ToParent? || (s.tasks[t].Push? && s.tasks[t].target.None?))
      && s.parent != [] && (s.tasks[t].Push? ==> s.tasks[t].child in s.children && s.children[s.tasks[t].child] != [])
    case Commit(t) =>
      && t < |s.tasks| && (s.tasks[t].ToParent? || (s.tasks[t].Push? && s.tasks[t].target.Some?))
      && s.parent != []
      && (s.tasks[t].ToParent? ==> s.tasks[t].base.Some? && s.tasks[t].child in s.tasks[t].base.value.mounts)
      && (s.tasks[t].Push? ==> s.tasks[t].child in s.children && s.children[s.tasks[t].child] != [])
    case Abort(t) => t < |s.tasks|
    case Restart => true
  }

  /** A child update of the generation in the skip table is dropped. */
  predicate ChildDropped(s: State, c: Id, i: nat, created: bool)
    requires c in s.children && i < |s.children[c]|
  {
    !created && c in s.childSkip && s.children[c][i].gen == s.childSkip[c]
  }

  predicate ParentDropped(s: State, i: nat, created: bool)
    requires i < |s.parent|
  {
    !created && s.parent[i].gen == s.parentSkip
  }

  ghost function Next(s: State, step: Step): State
    requires Enabled(s, step)
  {
    match step
    case OtherParentWrite(mounts, rest) => WithParent(s, mounts, rest, false)
    case OtherChildWrite(c, spec) => WithChild(s, c, spec, false)
    case ChildEvent(c, i, created, pushed, trim) =>
      var gen := s.children[c][i].gen;
      var heard := s.(seen := s.seen + {(c, gen)});
      if ChildDropped(s, c, i, created) then heard
      else heard.(tasks := s.tasks + (if created then [FromParent(c, pushed, gen)] else []) + [ToParent(c, s.children[c][i].spec, gen, None, trim)])
    case ParentEvent(i, created, touched) =>
      if ParentDropped(s, i, created) then s
      else s.(tasks := s.tasks + PushesFor(s.parent[i].mounts, touched))
    case Begin(t) => WithTask(s, t, Begun(s, s.tasks[t]))
    case Fetch(t) =>
      var task := s.tasks[t];
      if task.ToParent? then
        WithTask(s, t, if task.child in Last(s.parent).mounts then Based(task, Last(s.parent)) else Done)
      else
        var v := Last(s.children[task.child]);
        WithTask(s, t, if task.bound < v.gen then Done else task.(target := Some(v)))
    case Commit(t) => if s.tasks[t].ToParent? then CommitToParent(s, t) else CommitPush(s, t)
    case Abort(t) => WithTask(s, t, Done)
    case Restart => s.(tasks := seq(|s.tasks|, _ => Done), childGen := map[], childSkip := map[], parentSkip := -1)
  }

  /** A push that starts: bounded by the event, if the parent still mounts the child, or by what the copy
      and the table know. */
  function Begun(s: State, task: Task): Task
    requires (task.Queued? || task.FromParent?) && s.parent != []
  {
    if task.FromParent? then
      if task.child in Last(s.parent).mounts then Push(task.child, task.patch, task.gen, true, None) else Done
    else
      var known := if task.child in s.childGen then s.childGen[task.child] else -1;
      var from := if task.copyGen.Some? then task.copyGen.value else MAXSIZE;
      Push(task.child, task.patch, Max(from, known), task.copyGen.Some?, None)
  }

  /** What has been read of the parent; a hidden child's mounts are not copied. */
  function Based(task: Task, v: ParentV): Task
    requires task.ToParent? && task.child in v.mounts
  {
    task.(base := Some(v), trim := task.trim || v.mounts[task.child].hide)
  }

  /** A spec without one key, at every depth of its objects. */
  function Without(j: Json, key: string): Json
    decreases j
  {
    if !j.Obj? then j else Obj(map k | k in j.fields && k != key :: Without(j.fields[k], key))
  }

  function Payload(task: Task): Json
    requires task.ToParent?
  {
    if task.trim then Without(task.spec, "mount") else task.spec
  }

  /** The copies with the child's spec merged into its copy, and the child's generation beside it. */
  function Merged(mounts: map<Id, Copy>, task: Task): map<Id, Copy>
    requires task.ToParent? && task.child in mounts
  {
    var prior := mounts[task.child];
    mounts[task.child := prior.(spec := Some(Apply(if prior.spec.Some? then prior.spec.value else Null, Payload(task))),
                                gen := Some(task.gen))]
  }

  /** The patch of `_sync_to_parent`: refused if the parent has a newer resource version, and then
      tried again from the start. */
  function CommitToParent(s: State, t: nat): State
    requires t < |s.tasks| && s.tasks[t].ToParent? && s.tasks[t].base.Some? && s.parent != []
    requires s.tasks[t].child in s.tasks[t].base.value.mounts
  {
    var task, now := s.tasks[t], Last(s.parent);
    var found := task.base.value;
    if found.rv != now.rv then WithTask(s, t, task.(base := None))
    else
      var mounts := Merged(found.mounts, task);
      var written := if mounts == found.mounts then s else WithParent(s, mounts, now.rest, true);
      var newGen := Last(written.parent).gen;
      WithTask(written.(parentSkip := if found.gen + 1 == newGen then newGen else s.parentSkip), t, Done)
  }

  /** The patch of `check_gen_and_patch_spec` on a child, and the bookkeeping after it. */
  function CommitPush(s: State, t: nat): State
    requires t < |s.tasks| && s.tasks[t].Push? && s.tasks[t].target.Some?
    requires s.tasks[t].child in s.children && s.children[s.tasks[t].child] != []
  {
    var task := s.tasks[t];
    var c, found := task.child, task.target.value;
    if found.rv != Last(s.children[c]).rv then WithTask(s, t, task.(target := None))
    else
      var spec := Apply(found.spec, task.patch);
      var written := if spec == found.spec then s else WithChild(s, c, spec, true);
      var newGen := Last(written.children[c]).gen;
      WithTask(written.(childGen := s.childGen[c := newGen],
                        childSkip := if found.gen + 1 == newGen then s.childSkip[c := newGen] else s.childSkip,
                        seen := s.seen + {(c, newGen)}), t, Done)
  }

  /** Any parent without generations in its copies, any children, a mounter that has just started. */
  ghost predicate Initial(s: State) {
    && |s.parent| == 1 && (forall c :: c in s.parent[0].mounts ==> s.parent[0].mounts[c].gen.None?)
    && (forall c :: c in s.children ==> |s.children[c]| == 1)
    && s.childGen == map[] && s.childSkip == map[] && s.parentSkip == -1 && s.tasks == [] && s.seen == {}
  }

  ghost function Run(s: State, steps: seq<Step>): Option<State> {
    if steps == [] then Some(s)
    else
      var before := Run(s, steps[..|steps| - 1]);
      if before.Some? && Enabled(before.value, steps[|steps| - 1])
      then Some(Next(before.value, steps[|steps| - 1])) else None
  }

  // ---------------------------------------------------------------- invariants

  ghost predicate ParentHistory(h: seq<ParentV>) {
    && h != []
    && forall i :: 0 < i < |h| ==>
         && h[i].rv == h[i - 1].rv + 1
         && h[i].gen == if h[i].mounts == h[i - 1].mounts && h[i].rest == h[i - 1].rest then h[i - 1].gen else h[i - 1].gen + 1
  }

  ghost predicate ChildHistory(h: seq<ChildV>) {
    && h != []
    && forall i :: 0 < i < |h| ==>
         h[i].rv == h[i - 1].rv + 1 && h[i].gen == if h[i].spec == h[i - 1].spec then h[i - 1].gen else h[i - 1].gen + 1
  }

  /** A later version has a larger resource version, no smaller a generation, and the same spec if the
      generation is the same. */
  lemma {:induction false} ParentOrder(h: seq<ParentV>, i: nat, j: nat)
    requires ParentHistory(h) && i <= j < |h|
    ensures h[j].rv == h[i].rv + (j - i) && h[i].gen <= h[j].gen
    ensures h[i].gen == h[j].gen ==> h[i].mounts == h[j].mounts && h[i].rest == h[j].rest
    decreases j
  {
    if i < j {
      ParentOrder(h, i, j - 1);
    }
  }

  lemma {:induction false} ChildOrder(h: seq<ChildV>, i: nat, j: nat)
    requires ChildHistory(h) && i <= j < |h|
    ensures h[j].rv == h[i].rv + (j - i) && h[i].gen <= h[j].gen
    ensures h[i].gen == h[j].gen ==> h[i].spec == h[j].spec
    decreases j
  {
    if i < j {
      ChildOrder(h, i, j - 1);
    }
  }

  ghost predicate OwnParentGen(h: seq<ParentV>, gen: int) {
    exists k :: 0 < k < |h| && h[k].own && h[k].gen == gen && h[k - 1].gen + 1 == gen
  }

  ghost predicate OwnChildGen(h: seq<ChildV>, gen: int) {
    exists k :: 0 < k < |h| && h[k].own && h[k].gen == gen && h[k - 1].gen + 1 == gen
  }

  ghost predicate TaskOk(s: State, task: Task) {
    match task
    case FromParent(child, patch, gen) => (child, gen) in s.seen
    case ToParent(child, spec, gen, base, _) => (child, gen) in s.seen && (base.Some? ==> base.value in s.parent)
    case Queued(child, patch, copyGen) => copyGen.Some? ==> (child, copyGen.value) in s.seen
    case Push(child, patch, bound, guarded, target) =>
      && (if guarded then (child, bound) in s.seen else bound >= MAXSIZE)
      && (target.Some? ==> child in s.children && target.value in s.children[child] && target.value.gen <= bound)
    case Done => true
  }

  ghost predicate CopiesSeen(s: State, mounts: map<Id, Copy>) {
    forall c :: c in mounts && mounts[c].gen.Some? ==> (c, mounts[c].gen.value) in s.seen
  }

  ghost predicate SeenExists(s: State, p: (Id, int)) {
    p.0 in s.children && s.children[p.0] != [] && 0 <= p.1 <= Last(s.children[p.0]).gen
  }

  ghost predicate Inv(s: State) {
    && ParentHistory(s.parent)
    && (forall c :: c in s.children ==> ChildHistory(s.children[c]))
    && (forall p :: p in s.seen ==> SeenExists(s, p))
    && (forall i :: 0 <= i < |s.parent| ==> CopiesSeen(s, s.parent[i].mounts))
    && (forall c :: c in s.childGen ==> (c, s.childGen[c]) in s.seen)
    && (forall c :: c in s.childSkip ==> c in s.children && OwnChildGen(s.children[c], s.childSkip[c]))
    && (s.parentSkip != -1 ==> OwnParentGen(s.parent, s.parentSkip))
    && (forall t :: 0 <= t < |s.tasks| ==> TaskOk(s, s.tasks[t]))
  }

  // ---------------------------------------------------------------- how a step changes the histories

  /** Nothing is forgotten: histories are extended and `seen` grows. */
  ghost predicate Grows(s: State, t: State) {
    && s.parent <= t.parent && s.seen <= t.seen && s.children.Keys == t.children.Keys
    && forall c :: c in s.children ==> s.children[c] <= t.children[c]
  }

  lemma TaskStaysOk(s: State, s': State, task: Task)
    requires Grows(s, s') && TaskOk(s, task)
    ensures TaskOk(s', task)
  {
  }

  lemma OwnStays(h: seq<ChildV>, h': seq<ChildV>, gen: int)
    requires h <= h' && OwnChildGen(h, gen)
    ensures OwnChildGen(h', gen)
  {
    var k :| 0 < k < |h| && h[k].own && h[k].gen == gen && h[k - 1].gen + 1 == gen;
    assert h'[k] == h[k] && h'[k - 1] == h[k - 1];
  }

  lemma OwnParentStays(h: seq<ParentV>, h': seq<ParentV>, gen: int)
    requires h <= h' && OwnParentGen(h, gen)
    ensures OwnParentGen(h', gen)
  {
    var k :| 0 < k < |h| && h[k].own && h[k].gen == gen && h[k - 1].gen + 1 == gen;
    assert h'[k] == h[k] && h'[k - 1] == h[k - 1];
  }

  /** A new version of the parent keeps the invariant if its copies carry only seen generations. */
  lemma ParentWrite(s: State, mounts: map<Id, Copy>, rest: Json, own: bool)
    requires Inv(s) && CopiesSeen(s, mounts)
    ensures Inv(WithParent(s, mounts, rest, own)) && Grows(s, WithParent(s, mounts, rest, own))
  {
    hide TaskOk, OwnChildGen, OwnParentGen, SeenExists, ChildHistory;
    var s' := WithParent(s, mounts, rest, own);
    forall t | 0 <= t < |s.tasks| ensures TaskOk(s', s'.tasks[t]) {
      TaskStaysOk(s, s', s.tasks[t]);
    }
    forall p | p in s.seen ensures SeenExists(s', p) {
      SameChildren(s, s', p);
    }
    if s.parentSkip != -1 {
      OwnParentStays(s.parent, s'.parent, s.parentSkip);
    }
  }

  lemma SameChildren(s: State, s': State, p: (Id, int))
    requires s.children == s'.children && SeenExists(s, p)
    ensures SeenExists(s', p)
  {
  }

  lemma SeenStillExists(s: State, s': State, p: (Id, int))
    requires Grows(s, s') && SeenExists(s, p) && forall c :: c in s'.children ==> ChildHistory(s'.children[c])
    ensures SeenExists(s', p)
  {
    ChildOrder(s'.children[p.0], |s.children[p.0]| - 1, |s'.children[p.0]| - 1);
  }

  lemma ChildWriteGrows(s: State, c: Id, spec: Json, own: bool)
    requires (forall d :: d in s.children ==> ChildHistory(s.children[d])) && c in s.children && s.children[c] != []
    ensures var s' := WithChild(s, c, spec, own);
            Grows(s, s') && forall d :: d in s'.children ==> ChildHistory(s'.children[d])
  {
    hide ChildHistory;
    HistoryGrows(s.children[c], spec, own);
  }

  lemma HistoryGrows(h: seq<ChildV>, spec: Json, own: bool)
    requires ChildHistory(h)
    ensures ChildHistory(h + [NextChild(h, spec, own)])
  {
  }

  lemma OwnWriteMakesGen(h: seq<ChildV>, spec: Json)
    requires h != [] && spec != Last(h).spec
    ensures var h' := h + [NextChild(h, spec, true)]; OwnChildGen(h', Last(h').gen)
  {
    var h' := h + [NextChild(h, spec, true)];
    assert h'[|h'| - 2] == Last(h);
  }

  lemma ChildWrite(s: State, c: Id, spec: Json, own: bool)
    requires Inv(s) && c in s.children && s.children[c] != []
    ensures Inv(WithChild(s, c, spec, own)) && Grows(s, WithChild(s, c, spec, own))
  {
    hide TaskOk, OwnChildGen, OwnParentGen, SeenExists, ParentHistory, ChildHistory;
    var s' := WithChild(s, c, spec, own);
    ChildWriteGrows(s, c, spec, own);
    forall t | 0 <= t < |s.tasks| ensures TaskOk(s', s'.tasks[t]) {
      TaskStaysOk(s, s', s.tasks[t]);
    }
    forall p | p in s.seen ensures SeenExists(s', p) {
      SeenStillExists(s, s', p);
    }
    forall d | d in s.childSkip ensures d in s'.children && OwnChildGen(s'.children[d], s.childSkip[d]) {
      OwnStays(s.children[d], s'.children[d], s.childSkip[d]);
    }
    forall i | 0 <= i < |s.parent| ensures CopiesSeen(s', s'.parent[i].mounts) {
      assert CopiesSeen(s, s.parent[i].mounts);
    }
  }

  lemma Heard(s: State, p: (Id, int))
    requires Inv(s) && SeenExists(s, p)
    ensures Inv(s.(seen := s.seen + {p})) && Grows(s, s.(seen := s.seen + {p}))
  {
    hide TaskOk, OwnChildGen, OwnParentGen, SeenExists, ParentHistory, ChildHistory;
    var s' := s.(seen := s.seen + {p});
    forall t | 0 <= t < |s.tasks| ensures TaskOk(s', s'.tasks[t]) {
      TaskStaysOk(s, s', s.tasks[t]);
    }
    forall q | q in s'.seen ensures SeenExists(s', q) {
      SameChildren(s, s', q);
    }
    forall i | 0 <= i < |s.parent| ensures CopiesSeen(s', s'.parent[i].mounts) {
      assert CopiesSeen(s, s.parent[i].mounts);
    }
  }

  /** New or changed tasks, each in order, and nothing else. */
  lemma TasksChanged(s: State, tasks: seq<Task>)
    requires Inv(s) && forall t :: 0 <= t < |tasks| ==> TaskOk(s, tasks[t])
    ensures Inv(s.(tasks := tasks))
  {
    hide OwnChildGen, OwnParentGen, ParentHistory, ChildHistory;
    var s' := s.(tasks := tasks);
    forall t | 0 <= t < |tasks| ensures TaskOk(s', tasks[t]) {
      TaskStaysOk(s, s', tasks[t]);
    }
    forall p | p in s.seen ensures SeenExists(s', p) {
      SameChildren(s, s', p);
    }
    forall i | 0 <= i < |s.parent| ensures CopiesSeen(s', s'.parent[i].mounts) {
      assert CopiesSeen(s, s.parent[i].mounts);
    }
  }

  lemma OneTask(s: State, t: nat, task: Task)
    requires Inv(s) && t < |s.tasks| && TaskOk(s, task)
    ensures Inv(WithTask(s, t, task))
  {
    TasksChanged(s, s.tasks[t := task]);
  }

  lemma {:induction false} PushesOk(s: State, mounts: map<Id, Copy>, touched: seq<Id>)
    requires CopiesSeen(s, mounts)
    ensures forall t :: 0 <= t < |PushesFor(mounts, touched)| ==> TaskOk(s, PushesFor(mounts, touched)[t])
  {
    if touched != [] {
      PushesOk(s, mounts, touched[..|touched| - 1]);
    }
  }

  lemma DeliveryKeepsInv(s: State, step: Step)
    requires Inv(s) && Enabled(s, step) && (step.ChildEvent? || step.ParentEvent?)
    ensures Inv(Next(s, step))
  {
    hide OwnChildGen, OwnParentGen, ParentHistory, Inv;
    InvParts(s);
    match step
    case ChildEvent(c, i, created, pushed, trim) =>
      var p: (Id, int) := (c, s.children[c][i].gen);
      ChildOrder(s.children[c], i, |s.children[c]| - 1);
      Heard(s, p);
      var heard := s.(seen := s.seen + {p});
      InvParts(heard);
      if !ChildDropped(s, c, i, created) {
        TasksChanged(heard, heard.tasks + (if created then [FromParent(c, pushed, p.1)] else []) + [ToParent(c, s.children[c][i].spec, p.1, None, trim)]);
      }
    case ParentEvent(i, created, touched) =>
      PushesOk(s, s.parent[i].mounts, touched);
      if !ParentDropped(s, i, created) {
        TasksChanged(s, s.tasks + PushesFor(s.parent[i].mounts, touched));
      }
  }

  lemma InvParts(s: State)
    requires Inv(s)
    ensures s.parent != [] && ParentHistory(s.parent) && (forall c :: c in s.children ==> ChildHistory(s.children[c]))
    ensures forall i :: 0 <= i < |s.parent| ==> CopiesSeen(s, s.parent[i].mounts)
    ensures forall t :: 0 <= t < |s.tasks| ==> TaskOk(s, s.tasks[t])
    ensures forall c :: c in s.childGen ==> (c, s.childGen[c]) in s.seen
    ensures forall p :: p in s.seen ==> SeenExists(s, p)
  {
  }

  lemma FetchKeepsInv(s: State, step: Step)
    requires Inv(s) && Enabled(s, step) && (step.Begin? || step.Fetch? || step.Abort?)
    ensures Inv(Next(s, step))
  {
    hide OwnChildGen, OwnParentGen, ParentHistory, ChildHistory, Inv;
    InvParts(s);
    var task := s.tasks[step.t];
    assert TaskOk(s, task);
    if step.Begin? && task.Queued? && task.copyGen.Some? {
      assert SeenExists(s, (task.child, task.copyGen.value));
    }
    OneTask(s, step.t, Next(s, step).tasks[step.t]);
  }

  /** The entries of the skip table and of the generation table are set to what the own patch made. */
  lemma CommitPushKeepsInv(s: State, t: nat)
    requires Inv(s) && Enabled(s, Commit(t)) && s.tasks[t].Push?
    ensures Inv(Next(s, Commit(t)))
  {
    hide Inv, OwnChildGen, OwnParentGen, ParentHistory, ChildHistory, SeenExists, CopiesSeen;
    var task := s.tasks[t];
    InvParts(s);
    assert TaskOk(s, task);
    if task.target.value.rv != Last(s.children[task.child]).rv {
      OneTask(s, t, task.(target := None));
    } else {
      TargetIsLast(s, task);
      var written, skip := PushWritten(s, task.child, Apply(task.target.value.spec, task.patch));
      var newGen := Last(written.children[task.child]).gen;
      Remembered(written, task.child, newGen, skip);
      var kept := written.(seen := written.seen + {(task.child, newGen)},
                           childGen := written.childGen[task.child := newGen],
                           childSkip := if skip then written.childSkip[task.child := newGen] else written.childSkip);
      InvParts(kept);
      OneTask(kept, t, Done);
    }
  }

  lemma PushWritten(s: State, c: Id, spec: Json) returns (written: State, skip: bool)
    requires Inv(s) && c in s.children && s.children[c] != []
    ensures written == if spec == Last(s.children[c]).spec then s else WithChild(s, c, spec, true)
    ensures Inv(written) && c in written.children && written.children[c] != []
    ensures skip <==> Last(s.children[c]).gen + 1 == Last(written.children[c]).gen
    ensures skip ==> OwnChildGen(written.children[c], Last(written.children[c]).gen)
  {
    hide OwnParentGen, ParentHistory, OwnChildGen, SeenExists, CopiesSeen, TaskOk;
    written := s;
    skip := false;
    if spec != Last(s.children[c]).spec {
      written := WithChild(s, c, spec, true);
      skip := true;
      OwnWriteMakesGen(s.children[c], spec);
      ChildWrite(s, c, spec, true);
    }
  }

  lemma Remembered(s: State, c: Id, gen: int, skip: bool)
    requires Inv(s) && c in s.children && s.children[c] != [] && gen == Last(s.children[c]).gen
    requires skip ==> OwnChildGen(s.children[c], gen)
    ensures Inv(s.(seen := s.seen + {(c, gen)}, childGen := s.childGen[c := gen],
                   childSkip := if skip then s.childSkip[c := gen] else s.childSkip))
  {
    hide OwnChildGen, OwnParentGen, ParentHistory, ChildHistory;
    var p: (Id, int) := (c, gen);
    Heard(s, p);
    var heard := s.(seen := s.seen + {p});
    var s' := heard.(childGen := s.childGen[c := gen], childSkip := if skip then s.childSkip[c := gen] else s.childSkip);
    forall t | 0 <= t < |s.tasks| ensures TaskOk(s', s'.tasks[t]) {
      TaskStaysOk(heard, s', s.tasks[t]);
    }
    forall q | q in heard.seen ensures SeenExists(s', q) {
      SameChildren(heard, s', q);
    }
    forall i | 0 <= i < |s.parent| ensures CopiesSeen(s', s'.parent[i].mounts) {
      assert CopiesSeen(heard, s.parent[i].mounts);
    }
  }

  /** An unchanged resource version means that the version read is still the last one. */
  lemma TargetIsLast(s: State, task: Task)
    requires task.Push? && TaskOk(s, task) && task.target.Some? && ChildHistory(s.children[task.child])
    requires task.target.value.rv == Last(s.children[task.child]).rv
    ensures task.target.value == Last(s.children[task.child])
  {
    var h := s.children[task.child];
    var i :| 0 <= i < |h| && h[i] == task.target.value;
    ChildOrder(h, i, |h| - 1);
  }

  lemma BaseIsLast(s: State, task: Task)
    requires task.ToParent? && TaskOk(s, task) && task.base.Some? && ParentHistory(s.parent)
    requires task.base.value.rv == Last(s.parent).rv
    ensures task.base.value == Last(s.parent)
  {
    var i :| 0 <= i < |s.parent| && s.parent[i] == task.base.value;
    ParentOrder(s.parent, i, |s.parent| - 1);
  }

  lemma CommitToParentKeepsInv(s: State, t: nat)
    requires Inv(s) && Enabled(s, Commit(t)) && s.tasks[t].ToParent?
    ensures Inv(Next(s, Commit(t)))
  {
    hide Inv, OwnChildGen, OwnParentGen, ParentHistory, ChildHistory, SeenExists, CopiesSeen;
    var task, now := s.tasks[t], Last(s.parent);
    InvParts(s);
    assert TaskOk(s, task);
    if task.base.value.rv != now.rv {
      OneTask(s, t, task.(base := None));
    } else {
      BaseIsLast(s, task);
      var mounts := Merged(now.mounts, task);
      CopiesStaySeen(s, now.mounts, task);
      var written, mark := ParentWritten(s, mounts);
      var newGen := Last(written.parent).gen;
      SkipMarked(written, mark, newGen);
      OneTask(written.(parentSkip := if mark then newGen else s.parentSkip), t, Done);
    }
  }

  lemma CopiesStaySeen(s: State, mounts: map<Id, Copy>, task: Task)
    requires task.ToParent? && TaskOk(s, task) && task.child in mounts && CopiesSeen(s, mounts)
    ensures CopiesSeen(s, Merged(mounts, task))
  {
  }

  lemma ParentWritten(s: State, mounts: map<Id, Copy>) returns (written: State, mark: bool)
    requires Inv(s) && s.parent != [] && CopiesSeen(s, mounts)
    ensures written == if mounts == Last(s.parent).mounts then s else WithParent(s, mounts, Last(s.parent).rest, true)
    ensures Inv(written) && written.parent != [] && (mark <==> Last(s.parent).gen + 1 == Last(written.parent).gen)
    ensures mark ==> OwnParentGen(written.parent, Last(written.parent).gen)
  {
    hide Inv, ParentHistory, SeenExists, CopiesSeen, TaskOk;
    written, mark := s, false;
    if mounts != Last(s.parent).mounts {
      written, mark := WithParent(s, mounts, Last(s.parent).rest, true), true;
      ParentWrite(s, mounts, Last(s.parent).rest, true);
      assert written.parent[|s.parent| - 1] == Last(s.parent);
    }
  }

  lemma SkipMarked(s: State, mark: bool, gen: int)
    requires Inv(s) && (mark ==> OwnParentGen(s.parent, gen))
    ensures Inv(s.(parentSkip := if mark then gen else s.parentSkip))
  {
    hide OwnChildGen, OwnParentGen, ParentHistory, ChildHistory;
    var s' := s.(parentSkip := if mark then gen else s.parentSkip);
    forall t | 0 <= t < |s.tasks| ensures TaskOk(s', s'.tasks[t]) {
      TaskStaysOk(s, s', s.tasks[t]);
    }
    forall p | p in s.seen ensures SeenExists(s', p) {
      SameChildren(s, s', p);
    }
    forall i | 0 <= i < |s.parent| ensures CopiesSeen(s', s'.parent[i].mounts) {
      assert CopiesSeen(s, s.parent[i].mounts);
    }
  }

  lemma StepKeepsInv(s: State, step: Step)
    requires Inv(s) && Enabled(s, step)
    ensures Inv(Next(s, step))
  {
    hide Inv, CommitPush, CommitToParent, WithParent, WithChild;
    match step
    case OtherParentWrite(mounts, rest) => ParentWrite(s, mounts, rest, false);
    case OtherChildWrite(c, spec) => ChildWrite(s, c, spec, false);
    case ChildEvent(_, _, _, _, _) => DeliveryKeepsInv(s, step);
    case ParentEvent(_, _, _) => DeliveryKeepsInv(s, step);
    case Commit(t) =>
      if s.tasks[t].ToParent? {
        CommitToParentKeepsInv(s, t);
      } else {
        CommitPushKeepsInv(s, t);
      }
    case Restart => RestartKeepsInv(s);
    case _ => FetchKeepsInv(s, step);
  }

  lemma RestartKeepsInv(s: State)
    requires Inv(s)
    ensures Inv(Next(s, Restart))
  {
    hide OwnChildGen, OwnParentGen, ParentHistory, ChildHistory;
    var s' := Next(s, Restart);
    forall p | p in s.seen ensures SeenExists(s', p) {
      SameChildren(s, s', p);
    }
    forall i | 0 <= i < |s.parent| ensures CopiesSeen(s', s'.parent[i].mounts) {
      assert CopiesSeen(s, s.parent[i].mounts);
    }
  }

  lemma {:induction false} InvRun(s: State, steps: seq<Step>)
    requires Inv(s) && Run(s, steps).Some?
    ensures Inv(Run(s, steps).value)
  {
    hide Inv, Enabled, Next;
    if steps != [] {
      InvRun(s, steps[..|steps| - 1]);
      StepKeepsInv(Run(s, steps[..|steps| - 1]).value, steps[|steps| - 1]);
    }
  }

  lemma InvAlways(start: State, steps: seq<Step>)
    requires Initial(start) && Run(start, steps).Some?
    ensures Inv(Run(start, steps).value)
  {
    hide Run;
    InvRun(start, steps);
  }

  // ---------------------------------------------------------------- what holds in every run

  /** The step patches a child, at the version that is then current. */
  ghost predicate Overwrites(s: State, t: nat) {
    && Enabled(s, Commit(t)) && s.tasks[t].Push?
    && s.tasks[t].target.value.rv == Last(s.children[s.tasks[t].child]).rv
  }

  /** In every run, a patch to a child that rests on a copy with a generation, or on an event, finds
      the child at a generation that the mounter has seen, and has seen nothing newer of: no edit by
      another writer is overwritten unseen. */
  lemma OnlySeenIsOverwritten(start: State, steps: seq<Step>, t: nat)
    requires Initial(start) && Run(start, steps).Some?
    requires Overwrites(Run(start, steps).value, t) && Run(start, steps).value.tasks[t].guarded
    ensures var s := Run(start, steps).value;
            var c := s.tasks[t].child;
            && (c, Last(s.children[c]).gen) in s.seen
            && forall p :: p in s.seen && p.0 == c ==> p.1 <= Last(s.children[c]).gen
  {
    hide Run, Inv, Initial;
    InvAlways(start, steps);
    OverwriteIsSeen(Run(start, steps).value, t);
  }

  lemma OverwriteIsSeen(s: State, t: nat)
    requires Inv(s) && Overwrites(s, t) && s.tasks[t].guarded
    ensures var c := s.tasks[t].child;
            && (c, Last(s.children[c]).gen) in s.seen
            && forall p :: p in s.seen && p.0 == c ==> p.1 <= Last(s.children[c]).gen
  {
    hide OwnChildGen, OwnParentGen, ParentHistory, ChildHistory, CopiesSeen, Inv;
    InvParts(s);
    var task := s.tasks[t];
    assert TaskOk(s, task);
    TargetIsLast(s, task);
    assert SeenExists(s, (task.child, task.bound));
  }

  /** In every run, an event that is dropped because of a skip marker carries a generation which the
      mounter's own patch made, and with it exactly what that patch wrote. */
  lemma DroppedChildEventIsOwn(start: State, steps: seq<Step>, c: Id, i: nat)
    requires Initial(start) && Run(start, steps).Some?
    requires var s := Run(start, steps).value; c in s.children && i < |s.children[c]| && ChildDropped(s, c, i, false)
    ensures var h := Run(start, steps).value.children[c];
            exists k :: 0 < k < |h| && h[k].own && h[k].gen == h[i].gen && h[k].spec == h[i].spec
  {
    hide Run, Initial, TaskOk, SeenExists, ParentHistory, CopiesSeen;
    InvAlways(start, steps);
    var h := Run(start, steps).value.children[c];
    var k :| 0 < k < |h| && h[k].own && h[k].gen == h[i].gen && h[k - 1].gen + 1 == h[i].gen;
    ChildOrder(h, if i < k then i else k, if i < k then k else i);
  }

  lemma DroppedParentEventIsOwn(start: State, steps: seq<Step>, i: nat)
    requires Initial(start) && Run(start, steps).Some?
    requires var s := Run(start, steps).value; i < |s.parent| && ParentDropped(s, i, false)
    ensures var h := Run(start, steps).value.parent;
            exists k :: 0 < k < |h| && h[k].own && h[k].gen == h[i].gen && h[k].mounts == h[i].mounts
  {
    hide Run, Initial, TaskOk, SeenExists, ChildHistory, CopiesSeen, OwnChildGen;
    InvAlways(start, steps);
    var h := Run(start, steps).value.parent;
    var k :| 0 < k < |h| && h[k].own && h[k].gen == h[i].gen && h[k - 1].gen + 1 == h[i].gen;
    ParentOrder(h, if i < k then i else k, if i < k then k else i);
  }

  lemma PushOne(mounts: map<Id, Copy>, c: Id)
    requires c in mounts && ChildPatch(mounts[c]).Some?
    ensures PushesFor(mounts, [c]) == [Queued(c, ChildPatch(mounts[c]).value, mounts[c].gen)]
  {
    assert [c][..0] == [];
  }

  lemma RunThree(s: State, steps: seq<Step>)
    requires |steps| == 3 && Enabled(s, steps[0])
    requires Enabled(Next(s, steps[0]), steps[1])
    requires Enabled(Next(Next(s, steps[0]), steps[1]), steps[2])
    ensures Run(s, steps) == Some(Next(Next(Next(s, steps[0]), steps[1]), steps[2]))
  {
    hide Enabled, Next;
    assert steps[..2][..1] == steps[..1] && steps[..1][..0] == [];
    assert Run(s, steps[..1]) == Some(Next(s, steps[0]));
    assert Run(s, steps[..2]) == Some(Next(Next(s, steps[0]), steps[1]));
  }

  // ---------------------------------------------------------------- everything below the overwritten one

  /** Whatever is at or below a seen generation of this child was seen. */
  ghost predicate SeenClosed(s: State, c: Id) {
    forall p, k :: p in s.seen && p.0 == c && c in s.children && 0 <= k < |s.children[c]| && s.children[c][k].gen <= p.1 ==>
      (c, s.children[c][k].gen) in s.seen
  }

  /** An event of the child passes over a generation that was never seen. */
  ghost predicate Skips(s: State, step: Step, c: Id) {
    && step.ChildEvent? && step.c == c && c in s.children && step.i < |s.children[c]|
    && exists k :: 0 <= k < step.i && Missing(s, c, k, step.i)
  }

  /** Version `k` of the child has an older generation than version `i`, and it was never seen. */
  ghost predicate Missing(s: State, c: Id, k: nat, i: nat) {
    && c in s.children && k < i < |s.children[c]| && s.children[c][k].gen < s.children[c][i].gen
    && (c, s.children[c][k].gen) !in s.seen
  }

  ghost predicate NoSkips(s: State, steps: seq<Step>, c: Id) {
    steps == [] ||
    (NoSkips(s, steps[..|steps| - 1], c)
     && var before := Run(s, steps[..|steps| - 1]); before.Some? ==> !Skips(before.value, steps[|steps| - 1], c))
  }

  /** The mounter patches the child only on the ground of a generation. */
  ghost predicate Guarded(s: State, step: Step, c: Id) {
    step.Commit? && step.t < |s.tasks| && s.tasks[step.t].Push? && s.tasks[step.t].child == c ==> s.tasks[step.t].guarded
  }

  ghost predicate GuardedPushes(s: State, steps: seq<Step>, c: Id) {
    steps == [] ||
    (GuardedPushes(s, steps[..|steps| - 1], c)
     && var before := Run(s, steps[..|steps| - 1]); before.Some? ==> Guarded(before.value, steps[|steps| - 1], c))
  }

  /** The events of the child do not go back. */
  ghost predicate InOrder(steps: seq<Step>, c: Id) {
    forall a, b :: 0 <= a < b < |steps| && EventOf(steps[a], c) && EventOf(steps[b], c) ==> steps[a].i <= steps[b].i
  }

  predicate EventOf(step: Step, c: Id) {
    step.ChildEvent? && step.c == c
  }

  lemma Unaffected(s: State, s': State, c: Id)
    requires SeenClosed(s, c) && (c in s.children <==> c in s'.children)
    requires c in s.children ==> s'.children[c] == s.children[c]
    requires forall p: (Id, int) :: p.0 == c ==> (p in s'.seen <==> p in s.seen)
    ensures SeenClosed(s', c)
  {
  }

  /** A new version of a child is above everything seen, or has the generation of the last. */
  lemma WriteKeepsClosed(s: State, c: Id, spec: Json, own: bool)
    requires Inv(s) && SeenClosed(s, c) && c in s.children && s.children[c] != []
    ensures SeenClosed(WithChild(s, c, spec, own), c)
  {
    hide Inv, TaskOk, CopiesSeen, ChildHistory;
    InvParts(s);
    var h, h' := s.children[c], WithChild(s, c, spec, own).children[c];
    forall p, k | p in s.seen && p.0 == c && 0 <= k < |h'| && h'[k].gen <= p.1
      ensures (c, h'[k].gen) in s.seen
    {
      assert SeenExists(s, p);
      if k == |h| {
        assert h'[k].gen == Last(h).gen == h[|h| - 1].gen;
      } else {
        assert h'[k] == h[k];
      }
    }
  }

  /** A delivered version that passes over nothing unseen adds no hole. */
  lemma HearingKeepsClosed(s: State, c: Id, i: nat)
    requires Inv(s) && SeenClosed(s, c) && c in s.children && i < |s.children[c]|
    requires forall k: nat :: !Missing(s, c, k, i)
    ensures SeenClosed(s.(seen := s.seen + {(c, s.children[c][i].gen)}), c)
  {
    hide Inv, TaskOk, CopiesSeen, SeenExists;
    InvParts(s);
    var h := s.children[c];
    forall k: nat | k < |h| && h[k].gen <= h[i].gen
      ensures (c, h[k].gen) in s.seen || h[k].gen == h[i].gen
    {
      ChildOrder(h, if k < i then k else i, if k < i then i else k);
      assert !Missing(s, c, k, i);
    }
  }

  lemma CommitKeepsClosed(s: State, t: nat)
    requires Inv(s) && Enabled(s, Commit(t)) && s.tasks[t].Push? && s.tasks[t].guarded && SeenClosed(s, s.tasks[t].child)
    ensures SeenClosed(Next(s, Commit(t)), s.tasks[t].child)
  {
    hide Inv, TaskOk, CopiesSeen, SeenExists, ChildHistory, Apply;
    var task := s.tasks[t];
    var c, found := task.child, task.target.value;
    if found.rv == Last(s.children[c]).rv {
      OverwriteIsSeen(s, t);
      InvParts(s);
      assert TaskOk(s, task);
      TargetIsLast(s, task);
      var written, skip := PushWritten(s, c, Apply(found.spec, task.patch));
      OwnWriteKeepsClosed(s, c, Apply(found.spec, task.patch), written);
    }
  }

  /** So does a write of the mounter's own on top of a seen generation, with what it returns. */
  lemma OwnWriteKeepsClosed(s: State, c: Id, spec: Json, written: State)
    requires Inv(s) && SeenClosed(s, c) && c in s.children && s.children[c] != [] && (c, Last(s.children[c]).gen) in s.seen
    requires written == if spec == Last(s.children[c]).spec then s else WithChild(s, c, spec, true)
    requires Inv(written)
    ensures SeenClosed(written.(seen := written.seen + {(c, Last(written.children[c]).gen)}), c)
  {
    hide Inv, SeenClosed, NextChild;
    var h := s.children[c];
    if spec == Last(h).spec {
      assert s.seen + {(c, Last(h).gen)} == s.seen;
    } else {
      WriteKeepsClosed(s, c, spec, true);
      AllUpToLast(s, c);
      var h' := written.children[c];
      forall k: nat ensures !Missing(written, c, k, |h|) {
        assert k < |h| ==> h'[k] == h[k];
      }
      HearingKeepsClosed(written, c, |h|);
    }
  }

  /** What happens to other children, or to none, does not matter. */
  lemma ElsewhereKeepsClosed(s: State, step: Step, c: Id)
    requires SeenClosed(s, c) && Enabled(s, step) && !EventOf(step, c)
    requires step.OtherChildWrite? ==> step.c != c
    requires step.Commit? && s.tasks[step.t].Push? ==> s.tasks[step.t].child != c
    ensures SeenClosed(Next(s, step), c)
  {
    hide SeenClosed, Apply, NextChild, Begun, Merged, PushesFor, ChildDropped, ParentDropped;
    Unaffected(s, Next(s, step), c);
  }

  lemma StepKeepsClosed(s: State, step: Step, c: Id)
    requires Inv(s) && SeenClosed(s, c) && Enabled(s, step) && !Skips(s, step, c) && Guarded(s, step, c)
    ensures SeenClosed(Next(s, step), c)
  {
    hide Inv, TaskOk, CopiesSeen, SeenExists, ChildHistory, CommitPush, CommitToParent, SeenClosed, WithChild, WithParent, Begun;
    if step.OtherChildWrite? && step.c == c {
      WriteKeepsClosed(s, c, step.spec, false);
    } else if EventOf(step, c) {
      forall k: nat ensures !Missing(s, c, k, step.i) {
      }
      HearingKeepsClosed(s, c, step.i);
      var heard := s.(seen := s.seen + {(c, s.children[c][step.i].gen)});
      Unaffected(heard, Next(s, step), c);
    } else if step.Commit? && s.tasks[step.t].Push? && s.tasks[step.t].child == c {
      CommitKeepsClosed(s, step.t);
    } else {
      ElsewhereKeepsClosed(s, step, c);
    }
  }

  lemma {:induction false} ClosedAlways(start: State, steps: seq<Step>, c: Id)
    requires Initial(start) && Run(start, steps).Some? && NoSkips(start, steps, c) && GuardedPushes(start, steps, c)
    ensures SeenClosed(Run(start, steps).value, c)
  {
    hide Inv, Enabled, Next, Skips, Guarded;
    if steps != [] {
      ClosedAlways(start, steps[..|steps| - 1], c);
      InvAlways(start, steps[..|steps| - 1]);
      StepKeepsClosed(Run(start, steps[..|steps| - 1]).value, steps[|steps| - 1], c);
    }
  }

  /** Every generation of the child so far, up to the last, was delivered to the mounter or written by it. */
  ghost predicate AllSeen(s: State, c: Id) {
    c in s.children && forall k :: 0 <= k < |s.children[c]| ==> (c, s.children[c][k].gen) in s.seen
  }

  lemma AllUpToLast(s: State, c: Id)
    requires Inv(s) && SeenClosed(s, c) && c in s.children && s.children[c] != [] && (c, Last(s.children[c]).gen) in s.seen
    ensures AllSeen(s, c) && forall k :: 0 <= k < |s.children[c]| ==> s.children[c][k].gen <= Last(s.children[c]).gen
  {
    hide Inv, TaskOk, CopiesSeen, SeenExists, ChildHistory;
    InvParts(s);
    var h := s.children[c];
    var p: (Id, int) := (c, Last(h).gen);
    forall k | 0 <= k < |h| ensures h[k].gen <= Last(h).gen && (c, h[k].gen) in s.seen {
      ChildOrder(h, k, |h| - 1);
      assert p in s.seen;
    }
  }

  /** In every run in which no event of the child passes over an unseen generation and the child is
      patched only on the ground of one, a guarded push finds all generations seen, up to the overwritten
      one. */
  lemma AllBelowOverwrittenSeen(start: State, steps: seq<Step>, s: State, t: nat, c: Id)
    requires Initial(start) && Run(start, steps) == Some(s) && Overwrites(s, t) && s.tasks[t].guarded && s.tasks[t].child == c
    requires NoSkips(start, steps, c) && GuardedPushes(start, steps, c)
    ensures AllSeen(s, c) && forall k :: 0 <= k < |s.children[c]| ==> s.children[c][k].gen <= Last(s.children[c]).gen
  {
    hide Run, Inv, Initial, NoSkips, GuardedPushes, SeenClosed;
    OnlySeenIsOverwritten(start, steps, t);
    ClosedAlways(start, steps, c);
    InvAlways(start, steps);
    AllUpToLast(s, c);
  }

  /** What an event passed over stays unseen: later events and own writes come with generations at or
      above that of the event. */
  lemma MissingStays(s: State, step: Step, c: Id, k: nat, i: nat)
    requires Inv(s) && Enabled(s, step) && Missing(s, c, k, i) && (EventOf(step, c) ==> i <= step.i)
    ensures Missing(Next(s, step), c, k, i)
  {
    hide Inv, TaskOk, CopiesSeen, SeenExists, ChildHistory, Apply, Begun, Merged, PushesFor, ChildDropped, ParentDropped, CommitPush, CommitToParent;
    InvParts(s);
    var h := s.children[c];
    ChildOrder(h, i, |h| - 1);
    if EventOf(step, c) {
      ChildOrder(h, i, step.i);
    } else if step.Commit? && s.tasks[step.t].Push? {
      PushAdds(s, step.t);
    } else if step.Commit? {
      ParentCommitAdds(s, step.t);
    }
  }

  /** What the commit of a push does to the child and to what is seen. */
  lemma PushAdds(s: State, t: nat)
    requires Enabled(s, Commit(t)) && s.tasks[t].Push?
    ensures var c, s' := s.tasks[t].child, CommitPush(s, t);
            && s'.children.Keys == s.children.Keys && s.children[c] <= s'.children[c]
            && (forall d :: d in s.children && d != c ==> s'.children[d] == s.children[d])
            && forall p :: p in s'.seen && p !in s.seen ==> p.0 == c && p.1 >= Last(s.children[c]).gen
  {
    hide Apply;
  }

  lemma ParentCommitAdds(s: State, t: nat)
    requires Enabled(s, Commit(t)) && s.tasks[t].ToParent?
    ensures CommitToParent(s, t).children == s.children && CommitToParent(s, t).seen == s.seen
  {
    hide Apply, Merged;
  }

  lemma {:induction false} SkippedIsMissing(start: State, steps: seq<Step>, c: Id) returns (k: nat, i: nat, m: nat)
    requires Initial(start) && Run(start, steps).Some? && InOrder(steps, c) && !NoSkips(start, steps, c)
    ensures Missing(Run(start, steps).value, c, k, i)
    ensures m < |steps| && EventOf(steps[m], c) && steps[m].i == i
  {
    hide Inv, Enabled, Next, Missing;
    var front, last := steps[..|steps| - 1], steps[|steps| - 1];
    var s := Run(start, front).value;
    InvAlways(start, front);
    if NoSkips(start, front, c) {
      i, m := last.i, |steps| - 1;
      k :| k < i && Missing(s, c, k, i);
    } else {
      assert InOrder(front, c) by {
        assert forall a :: 0 <= a < |front| ==> front[a] == steps[a];
      }
      k, i, m := SkippedIsMissing(start, front, c);
      assert front[m] == steps[m];
    }
    MissingStays(s, last, c, k, i);
  }

  /** Exactly when everything at or below an overwritten generation was seen: in every run whose events of
      the child do not go back and which patches it only on the ground of a generation, if and only if no
      event passed over a generation that was never seen. */
  lemma AllSeenIffNoSkips(start: State, steps: seq<Step>, s: State, t: nat, c: Id)
    requires Initial(start) && Run(start, steps) == Some(s) && Overwrites(s, t) && s.tasks[t].guarded && s.tasks[t].child == c
    requires InOrder(steps, c) && GuardedPushes(start, steps, c)
    ensures AllSeen(s, c) <==> NoSkips(start, steps, c)
  {
    hide Run, Inv, Initial, NoSkips, GuardedPushes, InOrder;
    if NoSkips(start, steps, c) {
      AllBelowOverwrittenSeen(start, steps, s, t, c);
    } else {
      var k, i, m := SkippedIsMissing(start, steps, c);
    }
  }

  const BLANK := Obj(map[])
  const EDITED := Obj(map["edited" := Bool(true)])

  lemma EditIsAnEdit()
    ensures BLANK != EDITED
  {
    assert "edited" in EDITED.fields;
  }

  /** A run in which an event does: a mounted child is edited before the mounter hears of it, its second
      generation is delivered, and the push that follows overwrites that with the first one unseen. */
  lemma GapLeavesUnseen(c: Id)
    ensures exists start: State, steps: seq<Step> ::
              && Initial(start) && c in start.parent[0].mounts && Run(start, steps).Some?
              && InOrder(steps, c) && GuardedPushes(start, steps, c) && !NoSkips(start, steps, c)
              && var s := Run(start, steps).value;
                 && Overwrites(s, 0) && s.tasks[0].guarded && s.tasks[0].child == c
                 && s.children[c][0].gen < Last(s.children[c]).gen && (c, s.children[c][0].gen) !in s.seen
  {
    hide Run, NoSkips, GuardedPushes, InOrder, Initial, Overwrites;
    var start, steps := GapRun(c);
    assert Run(start, steps).Some?;
  }

  lemma GapRun(c: Id) returns (start: State, steps: seq<Step>)
    ensures Initial(start) && c in start.parent[0].mounts && Run(start, steps).Some?
    ensures InOrder(steps, c) && GuardedPushes(start, steps, c) && !NoSkips(start, steps, c)
    ensures var s := Run(start, steps).value;
            && Overwrites(s, 0) && s.tasks[0].guarded && s.tasks[0].child == c
            && s.children[c][0].gen < Last(s.children[c]).gen && (c, s.children[c][0].gen) !in s.seen
  {
    hide Run, Next, Enabled, GuardedPushes, NoSkips;
    var first, second := ChildV(BLANK, 1, 1, false), ChildV(EDITED, 2, 2, false);
    start := State([ParentV(map[c := Copy(None, None, false, true)], BLANK, 1, 1, false)], map[c := [first]], map[], map[], -1, [], {});
    var s1 := start.(children := map[c := [first, second]]);
    steps := [OtherChildWrite(c, EDITED), ChildEvent(c, 1, true, BLANK, false), Begin(0), Fetch(0)];
    assert Enabled(start, steps[0]) && Next(start, steps[0]) == s1 by {
      GapEdit(start, c);
    }
    var s4 := GapPush(s1, c, second);
    RunFour(start, steps);
    assert Missing(s1, c, 0, 1);
    SkipsSecond(start, steps, c, s1);
    NoCommits(start, steps, c);
  }

  lemma GapEdit(start: State, c: Id)
    requires start.children == map[c := [ChildV(BLANK, 1, 1, false)]]
    ensures Enabled(start, OtherChildWrite(c, EDITED))
    ensures Next(start, OtherChildWrite(c, EDITED)) == start.(children := map[c := [ChildV(BLANK, 1, 1, false), ChildV(EDITED, 2, 2, false)]])
  {
    EditIsAnEdit();
    assert [ChildV(BLANK, 1, 1, false)] + [ChildV(EDITED, 2, 2, false)] == [ChildV(BLANK, 1, 1, false), ChildV(EDITED, 2, 2, false)];
  }

  /** The delivery of the second version and the push that it starts. */
  lemma GapPush(s1: State, c: Id, second: ChildV) returns (s4: State)
    requires |s1.parent| == 1 && c in s1.parent[0].mounts && c in s1.children && |s1.children[c]| == 2
    requires s1.children[c][1] == second && second.gen == 2 && s1.childSkip == map[] && s1.tasks == [] && s1.seen == {}
    ensures Enabled(s1, ChildEvent(c, 1, true, BLANK, false))
    ensures var s2 := Next(s1, ChildEvent(c, 1, true, BLANK, false));
            && Enabled(s2, Begin(0))
            && var s3 := Next(s2, Begin(0)); Enabled(s3, Fetch(0)) && s4 == Next(s3, Fetch(0))
    ensures s4 == s1.(seen := {(c, 2)}, tasks := [Push(c, BLANK, 2, true, Some(second)), ToParent(c, second.spec, 2, None, false)])
    ensures Overwrites(s4, 0)
  {
    hide CommitToParent, CommitPush, PushesFor, ParentDropped;
    var copy := ToParent(c, second.spec, 2, None, false);
    var s2 := s1.(seen := {(c, 2)}, tasks := [FromParent(c, BLANK, 2), copy]);
    var s3 := s2.(tasks := [Push(c, BLANK, 2, true, None), copy]);
    s4 := s2.(tasks := [Push(c, BLANK, 2, true, Some(second)), copy]);
    assert Next(s1, ChildEvent(c, 1, true, BLANK, false)) == s2;
    assert Next(s2, Begin(0)) == s3;
    assert Next(s3, Fetch(0)) == s4;
  }

  lemma RunFour(s: State, steps: seq<Step>)
    requires |steps| == 4 && Enabled(s, steps[0]) && Enabled(Next(s, steps[0]), steps[1])
    requires Enabled(Next(Next(s, steps[0]), steps[1]), steps[2])
    requires Enabled(Next(Next(Next(s, steps[0]), steps[1]), steps[2]), steps[3])
    ensures Run(s, steps) == Some(Next(Next(Next(Next(s, steps[0]), steps[1]), steps[2]), steps[3]))
  {
    hide Enabled, Next;
    RunThree(s, steps[..3]);
  }

  lemma SkipsSecond(start: State, steps: seq<Step>, c: Id, s1: State)
    requires |steps| == 4 && Enabled(start, steps[0]) && s1 == Next(start, steps[0]) && Skips(s1, steps[1], c)
    ensures !NoSkips(start, steps, c)
  {
    hide Enabled, Next, Skips;
    assert steps[..3][..2] == steps[..2] && steps[..2][..1] == steps[..1] && steps[..1][..0] == [];
    assert Run(start, steps[..1]) == Some(s1);
    assert !NoSkips(start, steps[..2], c);
    assert !NoSkips(start, steps[..3], c);
  }

  lemma {:induction false} NoCommits(start: State, steps: seq<Step>, c: Id)
    requires forall a :: 0 <= a < |steps| ==> !steps[a].Commit?
    ensures GuardedPushes(start, steps, c)
  {
    if steps != [] {
      NoCommits(start, steps[..|steps| - 1], c);
    }
  }

  // ---------------------------------------------------------------- pushes that rest on nothing

  /** In whatever follows, this push overwrites only what the mounter has seen. */
  ghost predicate SafeFromHere(s: State, t: nat)
    requires t < |s.tasks| && s.tasks[t].Push?
  {
    forall more :: Run(s, more).Some? && Overwrites(Run(s, more).value, t) ==>
      var after := Run(s, more).value;
      (after.tasks[t].child, Last(after.children[after.tasks[t].child]).gen) in after.seen
  }

  /** Exactly the guarded pushes are safe: a copy without a generation, as when a child is first mounted,
      lets the parent overwrite a version of the child that the mounter never saw. (Generations stay
      below the largest machine integer, which stands for "no bound".) */
  lemma SafeIffGuarded(start: State, steps: seq<Step>, t: nat)
    requires Initial(start) && Run(start, steps).Some?
    requires var s := Run(start, steps).value;
             && t < |s.tasks| && s.tasks[t].Push? && s.tasks[t].child in s.children
             && s.children[s.tasks[t].child] != [] && Last(s.children[s.tasks[t].child]).gen < MAXSIZE
    ensures SafeFromHere(Run(start, steps).value, t) <==> Run(start, steps).value.tasks[t].guarded
  {
    hide Run, Inv, Initial, Overwrites, SafeFromHere;
    InvAlways(start, steps);
    var s := Run(start, steps).value;
    if s.tasks[t].guarded {
      GuardedIsSafe(s, t);
    } else {
      UnguardedIsUnsafe(s, t);
    }
  }

  lemma GuardedIsSafe(s: State, t: nat)
    requires Inv(s) && t < |s.tasks| && s.tasks[t].Push? && s.tasks[t].guarded
    ensures SafeFromHere(s, t)
  {
    hide Run, Inv;
    forall more | Run(s, more).Some? && Overwrites(Run(s, more).value, t)
      ensures var after := Run(s, more).value;
              (after.tasks[t].child, Last(after.children[after.tasks[t].child]).gen) in after.seen
    {
      InvRun(s, more);
      PushStays(s, more, t);
      OverwriteIsSeen(Run(s, more).value, t);
    }
  }

  /** A push keeps its child and its guard until it is done. */
  lemma {:induction false} PushStays(s: State, steps: seq<Step>, t: nat)
    requires t < |s.tasks| && s.tasks[t].Push? && Run(s, steps).Some?
    ensures var after := Run(s, steps).value;
            && t < |after.tasks|
            && (after.tasks[t].Done? ||
                (after.tasks[t].Push? && after.tasks[t].child == s.tasks[t].child && after.tasks[t].guarded == s.tasks[t].guarded))
  {
    if steps != [] {
      PushStays(s, steps[..|steps| - 1], t);
      OnePushStays(Run(s, steps[..|steps| - 1]).value, steps[|steps| - 1], t);
    }
  }

  lemma OnePushStays(s: State, step: Step, t: nat)
    requires Enabled(s, step) && t < |s.tasks|
    ensures var after := Next(s, step);
            && t < |after.tasks|
            && (s.tasks[t].Done? ==> after.tasks[t].Done?)
            && (s.tasks[t].Push? ==>
                  after.tasks[t].Done? ||
                  (after.tasks[t].Push? && after.tasks[t].child == s.tasks[t].child && after.tasks[t].guarded == s.tasks[t].guarded))
  {
    hide Apply, PushesFor, ChildPatch, WithParent, WithChild, ChildDropped, ParentDropped, Merged;
    match step
    case OtherParentWrite(mounts, rest) => assert Next(s, step).tasks == s.tasks by { WritesKeepTasks(s, step); }
    case OtherChildWrite(c, spec) => assert Next(s, step).tasks == s.tasks by { WritesKeepTasks(s, step); }
    case ChildEvent(_, _, _, _, _) => assert s.tasks <= Next(s, step).tasks;
    case ParentEvent(_, _, _) => assert s.tasks <= Next(s, step).tasks;
    case Commit(u) => CommitKeepsPush(s, u, t);
    case Restart => assert Next(s, step).tasks[t].Done?;
    case _ =>
  }

  lemma WritesKeepTasks(s: State, step: Step)
    requires Enabled(s, step) && (step.OtherParentWrite? || step.OtherChildWrite?)
    ensures Next(s, step).tasks == s.tasks
  {
  }

  lemma CommitKeepsPush(s: State, u: nat, t: nat)
    requires Enabled(s, Commit(u)) && t < |s.tasks|
    ensures var after := Next(s, Commit(u));
            && |after.tasks| == |s.tasks| && (t != u ==> after.tasks[t] == s.tasks[t])
            && (s.tasks[u].Push? ==> after.tasks[u].Done? || after.tasks[u] == s.tasks[u].(target := None))
  {
    hide Apply, CommitToParent, CommitPush;
    if s.tasks[u].ToParent? {
      ParentCommitTasks(s, u);
    } else {
      PushCommitTasks(s, u);
    }
  }

  lemma ParentCommitTasks(s: State, u: nat)
    requires u < |s.tasks| && s.tasks[u].ToParent? && s.tasks[u].base.Some? && s.parent != []
    requires s.tasks[u].child in s.tasks[u].base.value.mounts
    ensures OthersStay(s.tasks, CommitToParent(s, u).tasks, u)
  {
    hide Apply, Merged;
  }

  lemma PushCommitTasks(s: State, u: nat)
    requires u < |s.tasks| && s.tasks[u].Push? && s.tasks[u].target.Some?
    requires s.tasks[u].child in s.children && s.children[s.tasks[u].child] != []
    ensures OthersStay(s.tasks, CommitPush(s, u).tasks, u)
    ensures var task := CommitPush(s, u).tasks[u]; task.Done? || task == s.tasks[u].(target := None)
  {
    hide Apply;
  }

  ghost predicate OthersStay(before: seq<Task>, after: seq<Task>, u: nat) {
    |after| == |before| && forall t :: 0 <= t < |before| && t != u ==> after[t] == before[t]
  }

  lemma UnguardedIsUnsafe(s: State, t: nat)
    requires Inv(s) && t < |s.tasks| && s.tasks[t].Push? && !s.tasks[t].guarded && s.tasks[t].child in s.children
    requires s.children[s.tasks[t].child] != [] && Last(s.children[s.tasks[t].child]).gen < MAXSIZE
    ensures !SafeFromHere(s, t)
  {
    hide Inv, Run;
    var more := UnseenOverwrite(s, t);
    var after := Run(s, more).value;
    assert Overwrites(after, t);
  }

  /** Another writer edits the child, and the push, after a conflict if it has read already, reads the new
      version and is about to overwrite it. */
  lemma UnseenOverwrite(s: State, t: nat) returns (more: seq<Step>)
    requires Inv(s) && t < |s.tasks| && s.tasks[t].Push? && !s.tasks[t].guarded && s.tasks[t].child in s.children
    requires s.children[s.tasks[t].child] != [] && Last(s.children[s.tasks[t].child]).gen < MAXSIZE
    ensures Run(s, more).Some?
    ensures var after := Run(s, more).value;
            && Overwrites(after, t) && after.tasks[t].child == s.tasks[t].child
            && (after.tasks[t].child, Last(after.children[after.tasks[t].child]).gen) !in after.seen
  {
    hide Inv, Run, TaskOk, CopiesSeen, ChildHistory, Next, Enabled;
    InvParts(s);
    assert TaskOk(s, s.tasks[t]);
    var c := s.tasks[t].child;
    EditIsAnEdit();
    var write := OtherChildWrite(c, if Last(s.children[c]).spec == BLANK then EDITED else BLANK);
    var edited, fetching := Edited(s, t, write);
    if s.tasks[t].target.None? {
      more := [write, Fetch(t)];
      RunTwo(s, more);
    } else {
      more := [write, Commit(t), Fetch(t)];
      RunThree(s, more);
    }
  }

  lemma RunTwo(s: State, steps: seq<Step>)
    requires |steps| == 2 && Enabled(s, steps[0]) && Enabled(Next(s, steps[0]), steps[1])
    ensures Run(s, steps) == Some(Next(Next(s, steps[0]), steps[1]))
  {
    hide Enabled, Next;
    assert steps[..1][..0] == [];
    assert Run(s, steps[..1]) == Some(Next(s, steps[0]));
  }

  /** The state after the edit, and the same with the push ready to read. */
  lemma Edited(s: State, t: nat, write: Step) returns (edited: State, fetching: State)
    requires t < |s.tasks| && s.tasks[t].Push? && TaskOk(s, s.tasks[t]) && !s.tasks[t].guarded && s.parent != []
    requires var c := s.tasks[t].child;
             && c in s.children && ChildHistory(s.children[c]) && Last(s.children[c]).gen < MAXSIZE
             && (forall p :: p in s.seen ==> SeenExists(s, p))
             && write.OtherChildWrite? && write.c == c && write.spec != Last(s.children[c]).spec
    ensures Enabled(s, write) && edited == Next(s, write)
    ensures s.tasks[t].target.None? ==> fetching == edited
    ensures s.tasks[t].target.Some? ==> Enabled(edited, Commit(t)) && fetching == Next(edited, Commit(t))
    ensures Enabled(fetching, Fetch(t))
    ensures var after := Next(fetching, Fetch(t));
            && Overwrites(after, t) && after.tasks[t].child == s.tasks[t].child
            && (after.tasks[t].child, Last(after.children[after.tasks[t].child]).gen) !in after.seen
  {
    hide Apply;
    var c := s.tasks[t].child;
    edited := Next(s, write);
    fetching := edited;
    assert edited.tasks == s.tasks && s.tasks[t].bound >= MAXSIZE;
    if s.tasks[t].target.Some? {
      TargetIsOlder(s, s.tasks[t]);
      fetching := Next(edited, Commit(t));
    }
    var p: (Id, int) := (c, Last(edited.children[c]).gen);
    assert p in s.seen ==> SeenExists(s, p);
  }

  lemma TargetIsOlder(s: State, task: Task)
    requires task.Push? && TaskOk(s, task) && task.target.Some? && ChildHistory(s.children[task.child])
    ensures task.target.value.rv <= Last(s.children[task.child]).rv
  {
    var h := s.children[task.child];
    var i :| 0 <= i < |h| && h[i] == task.target.value;
    ChildOrder(h, i, |h| - 1);
  }

  /** A run in which that happens: a child is mounted, and what the parent holds for it is pushed over a
      version that the mounter never saw. */
  lemma FirstMountOverwritesUnseen(c: Id, patch: Json)
    ensures exists start: State, steps: seq<Step> ::
              && Initial(start) && Run(start, steps).Some?
              && var s := Run(start, steps).value;
                 Overwrites(s, 0) && s.tasks[0].child == c && !s.tasks[0].guarded
                 && (c, Last(s.children[c]).gen) !in s.seen
  {
    hide Run, Initial, Overwrites;
    var start, steps := FirstMount(c, patch);
    assert Run(start, steps).Some?;
  }

  lemma FirstMount(c: Id, patch: Json) returns (start: State, steps: seq<Step>)
    ensures Initial(start) && Run(start, steps).Some?
    ensures var s := Run(start, steps).value;
            && Overwrites(s, 0) && s.tasks[0].child == c && !s.tasks[0].guarded
            && (c, Last(s.children[c]).gen) !in s.seen
  {
    hide Run, CommitToParent, CommitPush, ChildDropped, Inv, PushesFor, ChildPatch;
    var parent := ParentV(map[c := Copy(Some(patch), None, true, false)], BLANK, 1, 1, false);
    var child := ChildV(BLANK, 1, 1, false);
    start := State([parent], map[c := [child]], map[], map[], -1, [], {});
    steps := [ParentEvent(0, true, [c]), Begin(0), Fetch(0)];
    var s1 := start.(tasks := [Queued(c, patch, None)]);
    var s2 := start.(tasks := [Push(c, patch, MAXSIZE, false, None)]);
    var s3 := start.(tasks := [Push(c, patch, MAXSIZE, false, Some(child))]);
    FirstPush(parent.mounts, c, patch);
    assert Next(start, steps[0]) == s1;
    assert Next(s1, steps[1]) == s2;
    assert Next(s2, steps[2]) == s3;
    RunThree(start, steps);
  }

  lemma FirstPush(mounts: map<Id, Copy>, c: Id, patch: Json)
    requires c in mounts && mounts[c] == Copy(Some(patch), None, true, false)
    ensures PushesFor(mounts, [c]) == [Queued(c, patch, None)]
  {
    PushOne(mounts, c);
  }
}
