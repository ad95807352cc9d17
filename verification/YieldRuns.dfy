/** Runs of yield enforcements against a store that others write too: one update is one step, updates
    conflict or fail, and what is read may be stale. */
module YieldRuns {
  import opened Basics
  import opened YieldPolicies

  datatype Digi = Digi(mounts: Mounts, rest: string, rv: nat)

  type Store = map<string, Digi>

  /** Where the enforcement of one policy stands: about to update the source, or the target. */
  datatype Phase =
    | Idle
    | Computed(src: string, target: string, newSrc: Digi, newTarget: Digi)
    | SourceUpdated(target: string, newTarget: Digi)

  datatype State = State(digis: Store, phase: Phase)

  datatype Step =
    /** reads both objects, evaluates the condition, and computes both new objects */
    | Start(src: string, target: string, srcRead: Digi, targetRead: Digi, fired: bool, src': Mounts, target': Mounts)
    | UpdateSource(reply: Reply)
    | UpdateTarget(reply: Reply)
    | OtherWrite(x: string, mounts: Mounts, rest: string)

  /** An object as it is or as it once was; a resource version names one content. */
  predicate MayRead(digis: Store, x: string, d: Digi) {
    x in digis && d.rv <= digis[x].rv && (d.rv == digis[x].rv ==> d == digis[x])
  }

  ghost predicate Enabled(st: State, step: Step) {
    match step
    case Start(src, target, srcRead, targetRead, fired, src', target') =>
      var s, t := GetMounts(srcRead.mounts), GetMounts(targetRead.mounts);
      && st.phase.Idle? && MayRead(st.digis, src, srcRead) && MayRead(st.digis, target, targetRead)
      && Flipped(s, src', s, t, INACTIVE) && Flipped(t, target', s, t, ACTIVE)
    case UpdateSource(_) => st.phase.Computed? && st.phase.src in st.digis && st.phase.target in st.digis
    case UpdateTarget(_) => st.phase.SourceUpdated? && st.phase.target in st.digis
    // other writers take mounts away or change anything else, but activate none
    case OtherWrite(x, mounts, rest) => x in st.digis && forall k, n :: Active(mounts, k, n) ==> Active(st.digis[x].mounts, k, n)
  }

  /** The content is unchanged, or replaced under the next resource version. */
  function Put(digis: Store, x: string, d: Digi): Store
    requires x in digis
  {
    if d.mounts == digis[x].mounts && d.rest == digis[x].rest then digis
    else digis[x := d.(rv := digis[x].rv + 1)]
  }

  ghost predicate Updated(src: Digi, target: Digi) {
    exists k, n :: Passes(GetMounts(src.mounts), GetMounts(target.mounts), k, n)
  }

  ghost function Next(st: State, step: Step): State
    requires Enabled(st, step)
  {
    match step
    case Start(src, target, srcRead, targetRead, fired, src', target') =>
      if !fired then st
      else if Updated(srcRead, targetRead)
      then st.(phase := Computed(src, target, srcRead.(mounts := src'), targetRead.(mounts := target')))
      else st.(phase := Computed(src, target, srcRead, targetRead))
    case UpdateSource(reply) =>
      var p := st.phase;
      if reply.Refused? || st.digis[p.src].rv != p.newSrc.rv then st.(phase := Idle)
      else State(Put(st.digis, p.src, p.newSrc), if reply.Committed? then SourceUpdated(p.target, p.newTarget) else Idle)
    case UpdateTarget(reply) =>
      var p := st.phase;
      if reply.Refused? || st.digis[p.target].rv != p.newTarget.rv then st.(phase := Idle)
      else State(Put(st.digis, p.target, p.newTarget), Idle)
    case OtherWrite(x, mounts, rest) => st.(digis := Put(st.digis, x, Digi(mounts, rest, 0)))
  }

  ghost function Run(st: State, steps: seq<Step>): Option<State> {
    if steps == [] then Some(st)
    else
      var before := Run(st, steps[..|steps| - 1]);
      if before.Some? && Enabled(before.value, steps[|steps| - 1])
      then Some(Next(before.value, steps[|steps| - 1])) else None
  }

  predicate ActiveAt(digis: Store, x: string, k: string, n: string) {
    x in digis && Active(digis[x].mounts, k, n)
  }

  /** No child has two active parents. */
  ghost predicate AtMostOne(digis: Store) {
    forall x, y, k, n :: ActiveAt(digis, x, k, n) && ActiveAt(digis, y, k, n) ==> x == y
  }

  predicate Current(digis: Store, x: string, d: Digi) {
    x in digis && digis[x].rv == d.rv
  }

  /** What makes the two pending updates safe for one child. */
  ghost predicate ComputedSafe(st: State, k: string, n: string)
    requires st.phase.Computed?
  {
    var p := st.phase;
    Current(st.digis, p.src, p.newSrc) ==>
      && (Active(p.newSrc.mounts, k, n) ==> ActiveAt(st.digis, p.src, k, n))
      && (Active(p.newTarget.mounts, k, n) && Current(st.digis, p.target, p.newTarget) ==>
            || ActiveAt(st.digis, p.target, k, n)
            || (ActiveAt(st.digis, p.src, k, n) && !Active(p.newSrc.mounts, k, n)))
  }

  ghost predicate UpdatedSafe(st: State, k: string, n: string)
    requires st.phase.SourceUpdated?
  {
    var p := st.phase;
    Current(st.digis, p.target, p.newTarget) && Active(p.newTarget.mounts, k, n) ==>
      forall x :: ActiveAt(st.digis, x, k, n) ==> x == p.target
  }

  ghost predicate Safe(st: State) {
    && AtMostOne(st.digis)
    && (st.phase.Computed? ==>
          && st.phase.src in st.digis && st.phase.newSrc.rv <= st.digis[st.phase.src].rv
          && st.phase.target in st.digis && st.phase.newTarget.rv <= st.digis[st.phase.target].rv
          && forall k, n :: ComputedSafe(st, k, n))
    && (st.phase.SourceUpdated? ==>
          && st.phase.target in st.digis && st.phase.newTarget.rv <= st.digis[st.phase.target].rv
          && forall k, n :: UpdatedSafe(st, k, n))
  }

  /** Reading into the controller's type keeps every status. */
  lemma SameStatus(m: Mounts, k: string, n: string)
    ensures Active(GetMounts(m), k, n) == Active(m, k, n) && Has(GetMounts(m), k, n) == Has(m, k, n)
  {
  }

  /** What the new objects have active. */
  lemma NewActives(src: Mounts, target: Mounts, src': Mounts, target': Mounts, k: string, n: string)
    requires Flipped(GetMounts(src), src', GetMounts(src), GetMounts(target), INACTIVE)
    requires Flipped(GetMounts(target), target', GetMounts(src), GetMounts(target), ACTIVE)
    ensures Active(src', k, n) <==> Active(src, k, n) && !Has(target, k, n)
    ensures Active(target', k, n) <==> Active(target, k, n) || (Active(src, k, n) && Has(target, k, n))
  {
    SameStatus(src, k, n);
    SameStatus(target, k, n);
  }

  lemma StartSafe(st: State, step: Step)
    requires Safe(st) && Enabled(st, step) && step.Start?
    ensures Safe(Next(st, step))
  {
    var next := Next(st, step);
    if next.phase.Computed? {
      forall k, n ensures ComputedSafe(next, k, n) {
        NewActives(step.srcRead.mounts, step.targetRead.mounts, step.src', step.target', k, n);
      }
    }
  }

  lemma SourceSafe(st: State, reply: Reply)
    requires Safe(st) && Enabled(st, UpdateSource(reply))
    ensures Safe(Next(st, UpdateSource(reply)))
  {
    var p, next := st.phase, Next(st, UpdateSource(reply));
    forall x, k, n | ActiveAt(next.digis, x, k, n) ensures ActiveAt(st.digis, x, k, n) {
      assert ComputedSafe(st, k, n);
    }
    if next.phase.SourceUpdated? {
      forall k, n ensures UpdatedSafe(next, k, n) {
        assert ComputedSafe(st, k, n);
        forall x | ActiveAt(next.digis, x, k, n) && Active(p.newTarget.mounts, k, n) && Current(next.digis, p.target, p.newTarget)
          ensures x == p.target
        {
          assert ActiveAt(st.digis, x, k, n);
        }
      }
    }
  }

  lemma TargetSafe(st: State, reply: Reply)
    requires Safe(st) && Enabled(st, UpdateTarget(reply))
    ensures Safe(Next(st, UpdateTarget(reply)))
  {
    var p, next := st.phase, Next(st, UpdateTarget(reply));
    forall x, y, k, n | ActiveAt(next.digis, x, k, n) && ActiveAt(next.digis, y, k, n) ensures x == y {
      assert UpdatedSafe(st, k, n);
      assert x != p.target ==> ActiveAt(st.digis, x, k, n);
      assert y != p.target ==> ActiveAt(st.digis, y, k, n);
    }
  }

  lemma OtherSafe(st: State, step: Step)
    requires Safe(st) && Enabled(st, step) && step.OtherWrite?
    ensures Safe(Next(st, step))
  {
    var next := Next(st, step);
    forall x, k, n | ActiveAt(next.digis, x, k, n) ensures ActiveAt(st.digis, x, k, n) {
    }
    if st.phase.Computed? {
      forall k, n ensures ComputedSafe(next, k, n) {
        assert ComputedSafe(st, k, n);
      }
    } else if st.phase.SourceUpdated? {
      forall k, n ensures UpdatedSafe(next, k, n) {
        assert UpdatedSafe(st, k, n);
      }
    }
  }

  lemma StepSafe(st: State, step: Step)
    requires Safe(st) && Enabled(st, step)
    ensures Safe(Next(st, step))
  {
    hide Safe, Enabled, Next;
    match step
    case Start(_, _, _, _, _, _, _) => StartSafe(st, step);
    case UpdateSource(reply) => SourceSafe(st, reply);
    case UpdateTarget(reply) => TargetSafe(st, reply);
    case OtherWrite(_, _, _) => OtherSafe(st, step);
  }

  /** If each child has at most one active parent to begin with, that is so after every single write of
      every sequence of enforcements, whichever updates fail or conflict and however stale the reads. */
  lemma {:induction false} OneActiveParentAlways(digis: Store, steps: seq<Step>)
    requires AtMostOne(digis) && Run(State(digis, Idle), steps).Some?
    ensures Safe(Run(State(digis, Idle), steps).value)
    ensures AtMostOne(Run(State(digis, Idle), steps).value.digis)
  {
    hide Enabled, Next;
    if steps != [] {
      OneActiveParentAlways(digis, steps[..|steps| - 1]);
      StepSafe(Run(State(digis, Idle), steps[..|steps| - 1]).value, steps[|steps| - 1]);
    }
  }

  // ---------------------------------------------------------------- a handover cut in the middle

  /** The child is active nowhere, and nothing under way will make it so. */
  ghost predicate Orphaned(st: State, k: string, n: string) {
    && (forall x :: !ActiveAt(st.digis, x, k, n))
    && (st.phase.Computed? ==>
          && st.phase.src in st.digis && st.phase.newSrc.rv <= st.digis[st.phase.src].rv
          && st.phase.target in st.digis && st.phase.newTarget.rv <= st.digis[st.phase.target].rv
          && (Current(st.digis, st.phase.src, st.phase.newSrc) ==>
                && !Active(st.phase.newSrc.mounts, k, n)
                && (Current(st.digis, st.phase.target, st.phase.newTarget) ==> !Active(st.phase.newTarget.mounts, k, n))))
    && (st.phase.SourceUpdated? ==>
          && st.phase.target in st.digis && st.phase.newTarget.rv <= st.digis[st.phase.target].rv
          && (Current(st.digis, st.phase.target, st.phase.newTarget) ==> !Active(st.phase.newTarget.mounts, k, n)))
  }

  /** The update of the target, once the source has given the child up and whoever wrote in between: the
      child has an active parent again exactly when the target is as it was read and the update is not
      refused. */
  lemma TargetUpdateIff(st: State, reply: Reply, k: string, n: string)
    requires Safe(st) && st.phase.SourceUpdated? && Active(st.phase.newTarget.mounts, k, n)
    requires forall x :: !ActiveAt(st.digis, x, k, n)
    ensures var next := Next(st, UpdateTarget(reply));
            var done := !reply.Refused? && Current(st.digis, st.phase.target, st.phase.newTarget);
            if done then ActiveAt(next.digis, st.phase.target, k, n) else Orphaned(next, k, n)
  {
    assert forall x :: !ActiveAt(st.digis, x, k, n);
  }

  /** The update of the source: refused, or in conflict, nothing has changed; done, the child is active
      nowhere, for good if the reply was lost. */
  lemma SourceUpdateIff(st: State, reply: Reply, k: string, n: string)
    requires Safe(st) && st.phase.Computed?
    requires ActiveAt(st.digis, st.phase.src, k, n) && !Active(st.phase.newSrc.mounts, k, n)
    ensures var next := Next(st, UpdateSource(reply));
            if reply.Refused? || !Current(st.digis, st.phase.src, st.phase.newSrc) then next == State(st.digis, Idle)
            else if reply.ReplyLost? then Orphaned(next, k, n)
            else next.phase.SourceUpdated? && forall x :: !ActiveAt(next.digis, x, k, n)
  {
    var p, next := st.phase, Next(st, UpdateSource(reply));
    if !reply.Refused? && Current(st.digis, p.src, p.newSrc) {
      forall x ensures !ActiveAt(next.digis, x, k, n) {
        assert x != p.src ==> (ActiveAt(next.digis, x, k, n) ==> ActiveAt(st.digis, x, k, n));
      }
    }
  }

  /** A handover as a whole, with nobody in between: the child keeps its active parent exactly when the
      source's update is refused or finds the source written since it was read; it gets the new one exactly
      when both updates are done and the first is acknowledged; in every other case, a conflict on the
      target among them, it is left without. */
  lemma HandoverIff(st: State, first: Reply, second: Reply, k: string, n: string, last: State)
    requires Safe(st) && st.phase.Computed?
    requires ActiveAt(st.digis, st.phase.src, k, n) && !Active(st.phase.newSrc.mounts, k, n) && Active(st.phase.newTarget.mounts, k, n)
    requires var mid := Next(st, UpdateSource(first));
             last == if mid.phase.SourceUpdated? then Next(mid, UpdateTarget(second)) else mid
    ensures var p := st.phase;
            var kept := first.Refused? || !Current(st.digis, p.src, p.newSrc);
            var handed := !kept && first.Committed? && !second.Refused? && p.src != p.target
                          && Current(st.digis, p.target, p.newTarget);
            && ((exists x :: ActiveAt(last.digis, x, k, n)) <==> kept || handed)
            && (kept ==> last.digis == st.digis)
            && (handed ==> ActiveAt(last.digis, p.target, k, n))
            && (!kept && !handed ==> Orphaned(last, k, n))
  {
    var p, mid := st.phase, Next(st, UpdateSource(first));
    SourceUpdateIff(st, first, k, n);
    SourceSafe(st, first);
    if mid.phase.SourceUpdated? {
      TargetUpdateIff(mid, second, k, n);
      MovedOn(st, k, n);
    } else if first.Refused? || !Current(st.digis, p.src, p.newSrc) {
      assert ActiveAt(last.digis, p.src, k, n);
    }
  }

  /** The source's own update makes a target that is the source itself outdated, and no other. */
  lemma MovedOn(st: State, k: string, n: string)
    requires st.phase.Computed? && Current(st.digis, st.phase.src, st.phase.newSrc)
    requires ActiveAt(st.digis, st.phase.src, k, n) && !Active(st.phase.newSrc.mounts, k, n)
    requires st.phase.target in st.digis && st.phase.newTarget.rv <= st.digis[st.phase.target].rv
    ensures var digis := Put(st.digis, st.phase.src, st.phase.newSrc);
            Current(digis, st.phase.target, st.phase.newTarget) <==>
            st.phase.src != st.phase.target && Current(st.digis, st.phase.target, st.phase.newTarget)
  {
  }

  lemma OrphanStep(st: State, step: Step, k: string, n: string)
    requires Orphaned(st, k, n) && Enabled(st, step)
    ensures Orphaned(Next(st, step), k, n)
  {
    var next := Next(st, step);
    if step.Start? {
      NewActives(step.srcRead.mounts, step.targetRead.mounts, step.src', step.target', k, n);
      assert !ActiveAt(st.digis, step.src, k, n) && !ActiveAt(st.digis, step.target, k, n);
    }
    forall x ensures !ActiveAt(next.digis, x, k, n) {
      assert !ActiveAt(st.digis, x, k, n);
    }
  }

  /** And no later enforcement, of this or of any other policy, gives it an active parent again. */
  lemma {:induction false} OrphanStaysOrphan(st: State, steps: seq<Step>, k: string, n: string)
    requires Orphaned(st, k, n) && Run(st, steps).Some?
    ensures Orphaned(Run(st, steps).value, k, n)
  {
    hide Enabled, Next, Orphaned;
    if steps != [] {
      OrphanStaysOrphan(st, steps[..|steps| - 1], k, n);
      OrphanStep(Run(st, steps[..|steps| - 1]).value, steps[|steps| - 1], k, n);
    }
  }

  /** One kind with one child, and a digi that has it mounted. */
  function OneMount(status: string): Mounts {
    map["lamps" := map["lamp" := Ref("expose", status, "")]]
  }

  /** No update is refused outright, and no reply is lost. */
  ghost predicate NoFault(steps: seq<Step>) {
    forall i :: 0 <= i < |steps| ==>
      (steps[i].UpdateSource? || steps[i].UpdateTarget? ==> steps[i].reply.Committed?)
  }

  ghost predicate IsOrphaning(digis: Store, steps: seq<Step>) {
    && AtMostOne(digis) && ActiveAt(digis, "a", "lamps", "lamp") && NoFault(steps)
    && Run(State(digis, Idle), steps).Some? && Orphaned(Run(State(digis, Idle), steps).value, "lamps", "lamp")
  }

  /** A run from two digis that share a child: between the two updates another writer edits the target,
      the second update conflicts, and the child, active in the source before, is active nowhere. */
  lemma ConflictOrphans()
    ensures exists digis: Store, steps: seq<Step> :: IsOrphaning(digis, steps)
  {
    hide Run, Flipped, Enabled, Next, AtMostOne, Orphaned, OneMount;
    var a, b := Digi(OneMount(ACTIVE), "", 1), Digi(OneMount(INACTIVE), "", 1);
    var newA, newB := a.(mounts := OneMount(INACTIVE)), b.(mounts := OneMount(ACTIVE));
    var digis := map["a" := a, "b" := b];
    var start := Start("a", "b", a, b, true, newA.mounts, newB.mounts);
    var s2 := ConflictStart(a, b, newA, newB, digis, start);
    var last := ConflictEnd(s2, newA, b, newB);
    var steps := [start, UpdateSource(Committed), OtherWrite("b", b.mounts, "edited"), UpdateTarget(Committed)];
    RunFour(State(digis, Idle), steps);
    assert IsOrphaning(digis, steps);
  }

  lemma ConflictStart(a: Digi, b: Digi, newA: Digi, newB: Digi, digis: Store, start: Step) returns (s2: State)
    requires a == newB == Digi(OneMount(ACTIVE), "", 1) && b == newA == Digi(OneMount(INACTIVE), "", 1)
    requires digis == map["a" := a, "b" := b] && start == Start("a", "b", a, b, true, newA.mounts, newB.mounts)
    ensures AtMostOne(digis) && ActiveAt(digis, "a", "lamps", "lamp")
    ensures Enabled(State(digis, Idle), start)
    ensures var s1 := Next(State(digis, Idle), start); Enabled(s1, UpdateSource(Committed)) && s2 == Next(s1, UpdateSource(Committed))
    ensures s2 == State(map["a" := newA.(rv := 2), "b" := b], SourceUpdated("b", newB))
  {
    hide Flipped;
    OneFlip();
    assert Next(State(digis, Idle), start) == State(digis, Computed("a", "b", newA, newB));
    assert digis["a" := newA.(rv := 2)] == map["a" := newA.(rv := 2), "b" := b];
    s2 := State(map["a" := newA.(rv := 2), "b" := b], SourceUpdated("b", newB));
  }

  lemma ConflictEnd(s2: State, newA: Digi, b: Digi, newB: Digi) returns (last: State)
    requires newA == Digi(OneMount(INACTIVE), "", 1) && b == Digi(OneMount(INACTIVE), "", 1) && newB == Digi(OneMount(ACTIVE), "", 1)
    requires s2 == State(map["a" := newA.(rv := 2), "b" := b], SourceUpdated("b", newB))
    ensures var edit := OtherWrite("b", b.mounts, "edited");
            Enabled(s2, edit) && Enabled(Next(s2, edit), UpdateTarget(Committed)) && last == Next(Next(s2, edit), UpdateTarget(Committed))
    ensures Orphaned(last, "lamps", "lamp")
  {
    var s3 := Next(s2, OtherWrite("b", b.mounts, "edited"));
    last := Next(s3, UpdateTarget(Committed));
  }

  lemma OneFlip()
    ensures var a, b := OneMount(ACTIVE), OneMount(INACTIVE);
            && GetMounts(a) == a && GetMounts(b) == b && Passes(a, b, "lamps", "lamp")
            && Flipped(a, b, a, b, INACTIVE) && Flipped(b, a, a, b, ACTIVE)
  {
    SameMounts(GetMounts(OneMount(ACTIVE)), OneMount(ACTIVE));
    SameMounts(GetMounts(OneMount(INACTIVE)), OneMount(INACTIVE));
  }

  lemma RunFour(st: State, steps: seq<Step>)
    requires |steps| == 4 && Enabled(st, steps[0]) && Enabled(Next(st, steps[0]), steps[1])
    requires Enabled(Next(Next(st, steps[0]), steps[1]), steps[2])
    requires Enabled(Next(Next(Next(st, steps[0]), steps[1]), steps[2]), steps[3])
    ensures Run(st, steps) == Some(Next(Next(Next(Next(st, steps[0]), steps[1]), steps[2]), steps[3]))
  {
    hide Enabled, Next;
    assert steps[..3][..2] == steps[..2] && steps[..2][..1] == steps[..1] && steps[..1][..0] == [];
    assert Run(st, steps[..1]) == Some(Next(st, steps[0]));
    assert Run(st, steps[..2]) == Some(Next(Next(st, steps[0]), steps[1]));
    assert Run(st, steps[..3]) == Some(Next(Next(Next(st, steps[0]), steps[1]), steps[2]));
  }
}
