/** What the single steps of the mounter leave behind: what is copied and pushed, which marks are set; and
    that in every run its own versions of the parent are copies of delivered children. */
module MounterSteps {
  import opened ApiServers
  import opened Basics
  import opened MergePatches
  import opened Mounters

  // ---------------------------------------------------------------- copying to the parent

  /** Trimming removes the key at every depth and leaves all other paths where they led. */
  lemma {:induction false} WithoutMeaning(j: Json, key: string, path: seq<string>)
    ensures Get(Without(j, key), path) ==
            if key in path then None
            else match Get(j, path) case None => None case Some(v) => Some(Without(v, key))
    decreases |path|
  {
    if path != [] && j.Obj? && path[0] != key && path[0] in j.fields {
      WithoutMeaning(j.fields[path[0]], key, path[1..]);
      assert key in path <==> key in path[1..];
    }
  }

  /** The spec and the generation of a child, put into its copy. */
  ghost predicate IsCopied(before: map<Id, Copy>, after: map<Id, Copy>, c: Id, spec: Json, gen: int) {
    && after.Keys == before.Keys && c in before
    && (forall d :: d in before && d != c ==> after[d] == before[d])
    && after[c].spec == Some(Apply(match before[c].spec case Some(prior) => prior case None => Null, spec))
    && after[c].gen == Some(gen) && after[c].active == before[c].active && after[c].hide == before[c].hide
  }

  /** What the task copies: the delivered spec, without mounts if it trims, as it does for a hidden child. */
  ghost predicate Copies(task: Task, spec: Json)
    requires task.ToParent?
  {
    spec == if task.trim then Without(task.spec, "mount") else task.spec
  }

  /** The commit of a copy: on a parent that has moved it changes nothing and is tried again; on the one that
      was read it writes the spec together with the generation, and nothing else, as an own version exactly
      if something changes; a new generation is marked to be skipped. */
  lemma CopyCommitted(s: State, t: nat)
    requires Inv(s) && Enabled(s, Commit(t)) && s.tasks[t].ToParent?
    ensures var task, now, s' := s.tasks[t], Last(s.parent), Next(s, Commit(t));
            && s'.children == s.children && s'.seen == s.seen && s'.childGen == s.childGen && s'.childSkip == s.childSkip
            && |s'.tasks| == |s.tasks| && (forall u :: 0 <= u < |s.tasks| && u != t ==> s'.tasks[u] == s.tasks[u])
            && if task.base.value.rv != now.rv
               then s'.parent == s.parent && s'.parentSkip == s.parentSkip && s'.tasks[t] == task.(base := None)
               else
                 var v := Last(s'.parent);
                 && s'.tasks[t].Done? && v.rest == now.rest
                 && (exists spec :: Copies(task, spec) && IsCopied(now.mounts, v.mounts, task.child, spec, task.gen))
                 && (if v.mounts == now.mounts then s'.parent == s.parent && s'.parentSkip == s.parentSkip
                     else s'.parent == s.parent + [v] && v.own && v.gen == now.gen + 1 && s'.parentSkip == v.gen)
  {
    hide Inv, OwnChildGen, OwnParentGen, ParentHistory, ChildHistory, SeenExists, CopiesSeen, Apply;
    var task, now := s.tasks[t], Last(s.parent);
    InvParts(s);
    assert TaskOk(s, task);
    if task.base.value.rv == now.rv {
      BaseIsLast(s, task);
      var spec := if task.trim then Without(task.spec, "mount") else task.spec;
      assert Copies(task, spec) && IsCopied(now.mounts, Merged(now.mounts, task), task.child, spec, task.gen);
    }
  }

  // ---------------------------------------------------------------- pushing to a child

  /** The commit of a push: on a child that has moved it changes nothing and is tried again; on the one that
      was read it applies the patch, as an own version exactly if something changes; the generation is
      remembered, and marked to be skipped if it is new. */
  lemma PushCommitted(s: State, t: nat)
    requires Inv(s) && Enabled(s, Commit(t)) && s.tasks[t].Push?
    ensures var task, s' := s.tasks[t], Next(s, Commit(t));
            var c := task.child;
            var found := Last(s.children[c]);
            && s'.parent == s.parent && s'.parentSkip == s.parentSkip && s'.children.Keys == s.children.Keys
            && (forall d :: d in s.children && d != c ==> s'.children[d] == s.children[d])
            && |s'.tasks| == |s.tasks| && (forall u :: 0 <= u < |s.tasks| && u != t ==> s'.tasks[u] == s.tasks[u])
            && if task.target.value.rv != found.rv
               then && s'.children == s.children && s'.seen == s.seen && s'.childGen == s.childGen
                    && s'.childSkip == s.childSkip && s'.tasks[t] == task.(target := None)
               else
                 var v := Last(s'.children[c]);
                 && s'.tasks[t].Done? && v.spec == Apply(found.spec, task.patch)
                 && s'.childGen == s.childGen[c := v.gen] && s'.seen == s.seen + {(c, v.gen)}
                 && (if v.spec == found.spec then s'.children[c] == s.children[c] && s'.childSkip == s.childSkip
                     else s'.children[c] == s.children[c] + [v] && v.own && v.gen == found.gen + 1 && s'.childSkip == s.childSkip[c := v.gen])
  {
    hide Inv, OwnChildGen, OwnParentGen, ParentHistory, ChildHistory, SeenExists, CopiesSeen, Apply;
    InvParts(s);
    assert TaskOk(s, s.tasks[t]);
    if s.tasks[t].target.value.rv == Last(s.children[s.tasks[t].child]).rv {
      TargetIsLast(s, s.tasks[t]);
    }
  }

  /** What is pushed to a child: the copy's spec, without its mounts if the child is hidden. */
  function Pushed(copy: Copy): Json
    requires copy.spec.Some?
  {
    match copy.spec.value
    case Obj(fields) => Obj(if copy.hide then fields - {"mount"} else fields)
    case _ => copy.spec.value
  }

  /** A push for a touched and active child, bounded by the copy's generation. */
  ghost predicate IsPush(mounts: map<Id, Copy>, task: Task, touched: seq<Id>) {
    && task.Queued? && task.child in mounts && task.child in touched
    && var copy := mounts[task.child];
       copy.active && copy.spec.Some? && task.copyGen == copy.gen && task.patch == Pushed(copy)
  }

  ghost predicate IsPushed(tasks: seq<Task>, c: Id) {
    exists t :: 0 <= t < |tasks| && tasks[t].Queued? && tasks[t].child == c
  }

  /** A parent event pushes to exactly the touched children that are active and have a spec in their copy. */
  lemma {:induction false} PushesMeaning(mounts: map<Id, Copy>, touched: seq<Id>)
    ensures forall t :: 0 <= t < |PushesFor(mounts, touched)| ==>
              IsPush(mounts, PushesFor(mounts, touched)[t], touched)
    ensures forall c :: c in touched && c in mounts && mounts[c].active && mounts[c].spec.Some? ==>
              IsPushed(PushesFor(mounts, touched), c)
  {
    if touched != [] {
      var front, d := touched[..|touched| - 1], touched[|touched| - 1];
      PushesMeaning(mounts, front);
      assert touched == front + [d];
      var fewer, all := PushesFor(mounts, front), PushesFor(mounts, touched);
      assert fewer <= all;
      forall c | c in touched && c in mounts && mounts[c].active && mounts[c].spec.Some?
        ensures IsPushed(all, c)
      {
        if c in front {
          var t :| 0 <= t < |fewer| && fewer[t].Queued? && fewer[t].child == c;
          assert all[t].Queued? && all[t].child == c;
        } else {
          assert all[|all| - 1].Queued? && all[|all| - 1].child == c;
        }
      }
    }
  }

  /** What a delivery starts: nothing for an own generation; else, for a child, the copy of the delivered
      version, after a push on creation, and for the parent the pushes. */
  lemma DeliveryStarts(s: State, step: Step)
    requires Enabled(s, step) && (step.ChildEvent? || step.ParentEvent?)
    ensures var s' := Next(s, step);
            && s'.parent == s.parent && s'.children == s.children && s.tasks <= s'.tasks
            && s'.childGen == s.childGen && s'.childSkip == s.childSkip && s'.parentSkip == s.parentSkip
    ensures step.ChildEvent? ==>
              var v, s' := s.children[step.c][step.i], Next(s, step);
              && s'.seen == s.seen + {(step.c, v.gen)}
              && if !step.created && step.c in s.childSkip && v.gen == s.childSkip[step.c] then s'.tasks == s.tasks
                 else s'.tasks == s.tasks + (if step.created then [FromParent(step.c, step.pushed, v.gen)] else [])
                                  + [ToParent(step.c, v.spec, v.gen, None, step.trim)]
    ensures step.ParentEvent? ==>
              var v, s' := s.parent[step.i], Next(s, step);
              && s'.seen == s.seen
              && if !step.created && v.gen == s.parentSkip then s'.tasks == s.tasks
                 else s'.tasks == s.tasks + PushesFor(v.mounts, step.touched)
  {
  }

  // ---------------------------------------------------------------- a sync that nobody disturbs

  lemma RunMore(s: State, steps: seq<Step>, step: Step)
    requires Run(s, steps).Some? && Enabled(Run(s, steps).value, step)
    ensures Run(s, steps + [step]) == Some(Next(Run(s, steps).value, step))
  {
    hide Enabled, Next;
    assert (steps + [step])[..|steps|] == steps;
  }

  lemma {:induction false} RunTwo(s: State, a: Step, b: Step)
    requires Enabled(s, a) && Enabled(Next(s, a), b)
    ensures Run(s, [a, b]) == Some(Next(Next(s, a), b))
  {
    hide Enabled, Next;
    RunMore(s, [], a);
    RunMore(s, [a], b);
    assert [] + [a] == [a] && [a] + [b] == [a, b];
  }

  /** A new version of a mounted child, delivered, read and committed: its spec and its generation are in the
      parent's copy, and nothing else has changed there. */
  lemma CopyArrives(s: State, c: Id, i: nat)
    requires Inv(s) && c in s.children && i < |s.children[c]| && s.parent != [] && c in Last(s.parent).mounts
    requires c in s.childSkip ==> s.children[c][i].gen != s.childSkip[c]
    ensures var v, n, now := s.children[c][i], |s.tasks|, Last(s.parent);
            var end := Run(s, [ChildEvent(c, i, false, Null, false), Fetch(n), Commit(n)]);
            && end.Some? && end.value.parent != [] && Last(end.value.parent).rest == now.rest
            && IsCopied(now.mounts, Last(end.value.parent).mounts, c, if now.mounts[c].hide then Without(v.spec, "mount") else v.spec, v.gen)
            && end.value.children == s.children
  {
    hide Inv, Apply, CommitPush, CommitToParent, PushesFor, Run, Without;
    var n := |s.tasks|;
    var deliver, fetch, commit := ChildEvent(c, i, false, Null, false), Fetch(n), Commit(n);
    DeliveryStarts(s, deliver);
    var s1 := Next(s, deliver);
    var s2 := Next(s1, fetch);
    assert s2.tasks[n].ToParent? && s2.tasks[n].base == Some(Last(s.parent)) && s2.parent == s.parent;
    assert s2.tasks[n].trim == Last(s.parent).mounts[c].hide;
    StepKeepsInv(s, deliver);
    StepKeepsInv(s1, fetch);
    CopyCommitted(s2, n);
    RunTwo(s, deliver, fetch);
    RunMore(s, [deliver, fetch], commit);
    assert [deliver, fetch] + [commit] == [deliver, fetch, commit];
  }

  /** The generation up to which a push of this copy may overwrite the child. */
  function Known(s: State, c: Id, copy: Copy): int {
    Max(if copy.gen.Some? then copy.gen.value else MAXSIZE, if c in s.childGen then s.childGen[c] else -1)
  }

  /** A change of an active child's copy, delivered and read: it is dropped if the child is newer than the
      parent can know, and else a commit puts it into the child. */
  lemma PushArrives(s: State, i: nat, c: Id)
    requires Inv(s) && i < |s.parent| && s.parent[i].gen != s.parentSkip && c in s.parent[i].mounts
    requires c in s.children && s.children[c] != []
    requires var copy := s.parent[i].mounts[c]; copy.active && copy.spec.Some?
    ensures var copy, n, found := s.parent[i].mounts[c], |s.tasks|, Last(s.children[c]);
            var steps := [ParentEvent(i, false, [c]), Begin(n), Fetch(n)];
            if found.gen > Known(s, c, copy) then
              var end := Run(s, steps);
              end.Some? && |end.value.tasks| == n + 1 && end.value.tasks[n].Done? && end.value.children == s.children
            else
              var end := Run(s, steps + [Commit(n)]);
              && end.Some? && c in end.value.children && end.value.children[c] != []
              && Last(end.value.children[c]).spec == Apply(found.spec, Pushed(copy))
              && end.value.parent == s.parent
  {
    hide Inv, Apply, CommitPush, CommitToParent, Run;
    var n, copy, found := |s.tasks|, s.parent[i].mounts[c], Last(s.children[c]);
    var deliver, begin, fetch := ParentEvent(i, false, [c]), Begin(n), Fetch(n);
    DeliveryStarts(s, deliver);
    OnePush(s.parent[i].mounts, c);
    var s1 := Next(s, deliver);
    assert s1.tasks == s.tasks + [Queued(c, Pushed(copy), copy.gen)];
    var s2 := Next(s1, begin);
    assert s2.tasks[n] == Push(c, Pushed(copy), Known(s, c, copy), copy.gen.Some?, None) && s2.children == s.children;
    RunTwo(s, deliver, begin);
    RunMore(s, [deliver, begin], fetch);
    assert [deliver, begin] + [fetch] == [deliver, begin, fetch];
    if found.gen <= Known(s, c, copy) {
      var s3 := Next(s2, fetch);
      assert s3.tasks[n].Push? && s3.tasks[n].target == Some(found);
      StepKeepsInv(s, deliver);
      StepKeepsInv(s1, begin);
      StepKeepsInv(s2, fetch);
      PushCommitted(s3, n);
      RunMore(s, [deliver, begin, fetch], Commit(n));
    }
  }

  /** The push on creation: nothing if the parent does not mount the child; dropped if the child is newer than
      the event; else a commit puts it into the child. */
  lemma PushOnCreation(s: State, c: Id, i: nat, pushed: Json, trim: bool)
    requires Inv(s) && c in s.children && i < |s.children[c]| && s.parent != []
    ensures var v, n, found := s.children[c][i], |s.tasks|, Last(s.children[c]);
            var deliver := ChildEvent(c, i, true, pushed, trim);
            if c !in Last(s.parent).mounts then
              var end := Run(s, [deliver, Begin(n)]);
              end.Some? && |end.value.tasks| == n + 2 && end.value.tasks[n].Done? && end.value.children == s.children
            else if found.gen > v.gen then
              var end := Run(s, [deliver, Begin(n), Fetch(n)]);
              end.Some? && |end.value.tasks| == n + 2 && end.value.tasks[n].Done? && end.value.children == s.children
            else
              var end := Run(s, [deliver, Begin(n), Fetch(n)] + [Commit(n)]);
              && end.Some? && c in end.value.children && end.value.children[c] != []
              && Last(end.value.children[c]).spec == Apply(found.spec, pushed)
              && end.value.parent == s.parent
  {
    hide Inv, Apply, CommitPush, CommitToParent, Run, Without, PushesFor;
    var n, v, found := |s.tasks|, s.children[c][i], Last(s.children[c]);
    var deliver, begin, fetch := ChildEvent(c, i, true, pushed, trim), Begin(n), Fetch(n);
    DeliveryStarts(s, deliver);
    var s1 := Next(s, deliver);
    assert s1.tasks[n] == FromParent(c, pushed, v.gen) && |s1.tasks| == n + 2;
    var s2 := Next(s1, begin);
    RunTwo(s, deliver, begin);
    if c in Last(s.parent).mounts {
      assert s2.tasks[n] == Push(c, pushed, v.gen, true, None) && s2.children == s.children;
      RunMore(s, [deliver, begin], fetch);
      assert [deliver, begin] + [fetch] == [deliver, begin, fetch];
      if found.gen <= v.gen {
        var s3 := Next(s2, fetch);
        assert s3.tasks[n].Push? && s3.tasks[n].target == Some(found);
        StepKeepsInv(s, deliver);
        StepKeepsInv(s1, begin);
        StepKeepsInv(s2, fetch);
        PushCommitted(s3, n);
        RunMore(s, [deliver, begin, fetch], Commit(n));
      }
    }
  }

  lemma OnePush(mounts: map<Id, Copy>, c: Id)
    requires c in mounts && mounts[c].active && mounts[c].spec.Some?
    ensures PushesFor(mounts, [c]) == [Queued(c, Pushed(mounts[c]), mounts[c].gen)]
  {
    assert [c][..0] == [] && PushesFor(mounts, []) == [];
    var all := PushesFor(mounts, [c]);
    PushesMeaning(mounts, [c]);
    assert IsPush(mounts, all[0], [c]);
  }

  // ---------------------------------------------------------------- own versions of the parent, in every run

  /** Some version of the child has this spec and this generation. */
  ghost predicate IsVersion(s: State, c: Id, spec: Json, gen: int) {
    c in s.children && exists j :: 0 <= j < |s.children[c]| && s.children[c][j].spec == spec && s.children[c][j].gen == gen
  }

  /** This version of the parent is the one before it with one copy renewed from a version of that child;
      mounts are trimmed from it at least if the child is hidden. */
  ghost predicate IsRenewal(s: State, i: nat)
    requires 0 < i < |s.parent|
  {
    s.parent[i].rest == s.parent[i - 1].rest && IsRenewed(s, s.parent[i - 1].mounts, s.parent[i].mounts)
  }

  ghost predicate IsRenewed(s: State, before: map<Id, Copy>, after: map<Id, Copy>) {
    exists c, spec, gen, trim :: Renews(s, before, after, c, spec, gen, trim)
  }

  ghost predicate Renews(s: State, before: map<Id, Copy>, after: map<Id, Copy>, c: Id, spec: Json, gen: int, trim: bool) {
    && IsVersion(s, c, spec, gen) && c in before && (before[c].hide ==> trim)
    && IsCopied(before, after, c, if trim then Without(spec, "mount") else spec, gen)
  }

  ghost predicate CopyTaskOk(s: State, task: Task) {
    task.ToParent? ==>
      && IsVersion(s, task.child, task.spec, task.gen)
      && (task.base.Some? && task.child in task.base.value.mounts && task.base.value.mounts[task.child].hide ==> task.trim)
  }

  ghost predicate Renewals(s: State) {
    && (forall i :: 0 < i < |s.parent| && s.parent[i].own ==> IsRenewal(s, i))
    && (forall t :: 0 <= t < |s.tasks| ==> CopyTaskOk(s, s.tasks[t]))
  }

  lemma StepGrows(s: State, step: Step)
    requires Inv(s) && Enabled(s, step)
    ensures Grows(s, Next(s, step))
  {
    hide Inv, Apply, ChildHistory, OwnChildGen, OwnParentGen, CopiesSeen, SeenExists, TaskOk, Begun, Based, PushesFor, CommitPush, CommitToParent;
    InvParts(s);
    if step.Commit? && s.tasks[step.t].Push? {
      PushCommitted(s, step.t);
    } else if step.Commit? {
      CopyCommitted(s, step.t);
    }
  }

  lemma VersionStays(s: State, s': State, c: Id, spec: Json, gen: int)
    requires Grows(s, s') && IsVersion(s, c, spec, gen)
    ensures IsVersion(s', c, spec, gen)
  {
    var j :| 0 <= j < |s.children[c]| && s.children[c][j].spec == spec && s.children[c][j].gen == gen;
    assert s'.children[c][j] == s.children[c][j];
  }

  lemma RenewalStays(s: State, s': State, i: nat)
    requires Grows(s, s') && 0 < i < |s.parent| && IsRenewal(s, i)
    ensures IsRenewal(s', i)
  {
    hide IsVersion, IsCopied;
    assert s'.parent[i] == s.parent[i] && s'.parent[i - 1] == s.parent[i - 1];
    var c, spec, gen, trim :| Renews(s, s.parent[i - 1].mounts, s.parent[i].mounts, c, spec, gen, trim);
    VersionStays(s, s', c, spec, gen);
    assert Renews(s', s'.parent[i - 1].mounts, s'.parent[i].mounts, c, spec, gen, trim);
  }

  lemma CopyTaskStays(s: State, s': State, task: Task)
    requires Grows(s, s') && CopyTaskOk(s, task)
    ensures CopyTaskOk(s', task)
  {
    if task.ToParent? {
      VersionStays(s, s', task.child, task.spec, task.gen);
    }
  }

  /** Every task after a step was there before it, or begins or continues with what it needs. */
  lemma TasksStayOk(s: State, step: Step, t: nat)
    requires Inv(s) && Renewals(s) && Enabled(s, step) && t < |Next(s, step).tasks|
    ensures CopyTaskOk(Next(s, step), Next(s, step).tasks[t])
  {
    hide Inv, Renewals, IsRenewal, IsVersion, Apply, CommitPush, CommitToParent, WithParent, WithChild;
    var s' := Next(s, step);
    StepGrows(s, step);
    assert t < |s.tasks| ==> CopyTaskOk(s, s.tasks[t]) by {
      TasksOk(s);
    }
    if t < |s.tasks| {
      CopyTaskStays(s, s', s.tasks[t]);
    }
    match step
    case ChildEvent(c, i, _, _, _) =>
      DeliveryStarts(s, step);
      assert IsVersion(s', c, s.children[c][i].spec, s.children[c][i].gen) by {
        Delivered(s', c, i);
      }
    case ParentEvent(i, _, touched) =>
      DeliveryStarts(s, step);
      PushesMeaning(s.parent[i].mounts, touched);
    case Commit(u) =>
      if s.tasks[u].Push? {
        PushCommitted(s, u);
      } else {
        CopyCommitted(s, u);
      }
    case OtherParentWrite(mounts, rest) => WritesKeepTasks(s, step);
    case OtherChildWrite(c, spec) => WritesKeepTasks(s, step);
    case _ =>
  }

  lemma TasksOk(s: State)
    requires Renewals(s)
    ensures forall t :: 0 <= t < |s.tasks| ==> CopyTaskOk(s, s.tasks[t])
  {
  }

  lemma Delivered(s: State, c: Id, i: nat)
    requires c in s.children && i < |s.children[c]|
    ensures IsVersion(s, c, s.children[c][i].spec, s.children[c][i].gen)
  {
  }

  /** An own version of the parent comes from the commit of a copy only. */
  lemma NewVersion(s: State, step: Step)
    requires Inv(s) && Renewals(s) && Enabled(s, step)
    requires var s' := Next(s, step); |s'.parent| > |s.parent| && Last(s'.parent).own
    ensures var s' := Next(s, step); |s'.parent| == |s.parent| + 1 && s.parent != [] && IsRenewal(s', |s.parent|)
  {
    hide Inv, Renewals, IsRenewal, IsVersion, IsCopied, Apply, CommitPush, CommitToParent;
    InvParts(s);
    var s' := Next(s, step);
    if step.Commit? && s.tasks[step.t].ToParent? {
      var t := step.t;
      CopyCommitted(s, t);
      TasksOk(s);
      assert CopyTaskOk(s, s.tasks[t]) && TaskOk(s, s.tasks[t]);
      BaseIsLast(s, s.tasks[t]);
      StepGrows(s, step);
      RenewedBy(s, s', s.tasks[t]);
    } else if step.Commit? {
      PushCommitted(s, step.t);
    }
  }

  lemma RenewedBy(s: State, s': State, task: Task)
    requires Grows(s, s') && s.parent != [] && |s'.parent| == |s.parent| + 1 && task.ToParent? && CopyTaskOk(s, task)
    requires task.base == Some(Last(s.parent)) && task.child in Last(s.parent).mounts
    requires Last(s'.parent).rest == Last(s.parent).rest
    requires exists spec :: Copies(task, spec) && IsCopied(Last(s.parent).mounts, Last(s'.parent).mounts, task.child, spec, task.gen)
    ensures IsRenewal(s', |s.parent|)
  {
    hide IsVersion, IsCopied;
    VersionStays(s, s', task.child, task.spec, task.gen);
    var i := |s.parent|;
    assert s'.parent[i - 1] == Last(s.parent) && s'.parent[i] == Last(s'.parent);
    assert Renews(s', s'.parent[i - 1].mounts, s'.parent[i].mounts, task.child, task.spec, task.gen, task.trim);
  }

  lemma RenewalsStep(s: State, step: Step)
    requires Inv(s) && Renewals(s) && Enabled(s, step)
    ensures Renewals(Next(s, step))
  {
    hide Inv, Enabled, Next, CopyTaskOk, IsRenewal;
    var s' := Next(s, step);
    StepGrows(s, step);
    forall t | 0 <= t < |s'.tasks| ensures CopyTaskOk(s', s'.tasks[t]) {
      TasksStayOk(s, step, t);
    }
    forall i | 0 < i < |s'.parent| && s'.parent[i].own ensures IsRenewal(s', i) {
      if i < |s.parent| {
        assert s'.parent[i] == s.parent[i];
        RenewalStays(s, s', i);
      } else {
        OneVersionAtATime(s, step);
        NewVersion(s, step);
      }
    }
  }

  lemma OneVersionAtATime(s: State, step: Step)
    requires Inv(s) && Enabled(s, step)
    ensures |Next(s, step).parent| <= |s.parent| + 1
  {
    hide Inv, Apply, CommitPush, CommitToParent, Begun, Based, PushesFor;
    if step.Commit? && s.tasks[step.t].Push? {
      PushCommitted(s, step.t);
    } else if step.Commit? {
      CopyCommitted(s, step.t);
    }
  }

  /** In every run, each version of the parent that the mounter wrote is the one before it with exactly one
      copy renewed: the spec of some version of that child merged into it, and beside it that version's
      generation. */
  lemma {:induction false} OwnVersionsAreRenewals(start: State, steps: seq<Step>)
    requires Initial(start) && Run(start, steps).Some?
    ensures Renewals(Run(start, steps).value)
  {
    hide Inv, Enabled, Next, IsRenewal, CopyTaskOk;
    if steps != [] {
      OwnVersionsAreRenewals(start, steps[..|steps| - 1]);
      InvAlways(start, steps[..|steps| - 1]);
      RenewalsStep(Run(start, steps[..|steps| - 1]).value, steps[|steps| - 1]);
    }
  }
}
