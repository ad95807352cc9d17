/** One model in the API server, the writers that share it, and the guarded patch of the drivers.
    Every write raises the resource version; a write that changes the spec also raises the generation. */
module ApiServers {
  import opened Basics
  import opened MergePatches

  datatype Version = Version(spec: Json, rv: nat, gen: nat)

  /** A version of the model and whether the caller under study wrote it. */
  datatype Entry = Entry(v: Version, mine: bool)

  /** What other writers do: set the spec, or touch only metadata or status. */
  datatype Write = SpecWrite(spec: Json) | OtherWrite

  /** A request that fails on its own account; it may have taken effect unless it is a conflict. */
  datatype Fault = Fault(status: int, landed: bool)

  /** What happens between one request of the caller and the next. */
  datatype Turn = Turn(writes: seq<Write>, fault: Option<Fault>)

  datatype PatchResult = Patched(v: Version) | Failed(status: int)

  const CONFLICT := 409

  /** What is left after one request has let one turn pass. */
  function Rest(turns: seq<Turn>): seq<Turn> {
    if turns == [] then [] else turns[1..]
  }

  function FirstFault(turns: seq<Turn>): Option<Fault> {
    if turns == [] then None else turns[0].fault
  }

  function AfterWrite(v: Version, w: Write): Version {
    match w
    case SpecWrite(spec) => WithSpec(v, spec)
    case OtherWrite => v.(rv := v.rv + 1)
  }

  /** A write that changes nothing leaves the version alone. */
  function WithSpec(v: Version, spec: Json): Version {
    if spec == v.spec then v else Version(spec, v.rv + 1, v.gen + 1)
  }

  /** The history of a model: versions in order, none lost, generations counting the spec changes. */
  ghost predicate History(log: seq<Entry>) {
    && log != []
    && forall i :: 0 < i < |log| ==>
         && log[i].v.rv == log[i - 1].v.rv + 1
         && if log[i].v.spec == log[i - 1].v.spec then log[i].v.gen == log[i - 1].v.gen
            else log[i].v.gen == log[i - 1].v.gen + 1
  }

  /** Resource versions name versions, and a generation fixes the spec. */
  lemma {:induction false} HistoryOrder(log: seq<Entry>, i: nat, j: nat)
    requires History(log) && i <= j < |log|
    ensures log[j].v.rv == log[i].v.rv + (j - i)
    ensures log[i].v.gen <= log[j].v.gen
    ensures log[i].v.gen == log[j].v.gen ==> log[i].v.spec == log[j].v.spec
    decreases j
  {
    if i < j {
      HistoryOrder(log, i, j - 1);
    }
  }

  class ApiServer {
    var model: Version

    /** The interference still to come; finite, so that the caller's retries end. */
    var turns: seq<Turn>

    ghost var log: seq<Entry>

    ghost predicate Valid()
      reads this
    {
      log != [] && History(log) && log[|log| - 1].v == model
    }

    constructor (model: Version, turns: seq<Turn>)
      ensures Valid() && this.model == model && this.turns == turns && log == [Entry(model, false)]
    {
      this.model, this.turns, this.log := model, turns, [Entry(model, false)];
    }

    method Install(v: Version, ghost mine: bool)
      requires Valid() && (v == model || (v.rv == model.rv + 1 && v.gen == if v.spec == model.spec then model.gen else model.gen + 1))
      modifies this`model, this`log
      ensures Valid() && model == v
      ensures log == if v == old(model) then old(log) else old(log) + [Entry(v, mine)]
    {
      if v != model {
        log := log + [Entry(v, mine)];
      }
      model := v;
    }

    /** Lets the other writers go first. */
    method Interfere() returns (fault: Option<Fault>)
      requires Valid()
      modifies this
      ensures Valid() && |turns| <= |old(turns)|
      ensures old(log) <= log && forall i :: |old(log)| <= i < |log| ==> !log[i].mine
      ensures turns == Rest(old(turns)) && fault == FirstFault(old(turns))
      ensures log != old(log) ==> |turns| < |old(turns)|
    {
      fault := None;
      if turns != [] {
        var turn := turns[0];
        turns := turns[1..];
        for i := 0 to |turn.writes|
          invariant Valid() && turns == old(turns)[1..]
          invariant old(log) <= log && forall i :: |old(log)| <= i < |log| ==> !log[i].mine
        {
          Install(AfterWrite(model, turn.writes[i]), false);
        }
        fault := turn.fault;
      }
    }

    method GetSpec() returns (r: Option<Version>)
      requires Valid()
      modifies this
      ensures Valid() && |turns| <= |old(turns)|
      ensures old(log) <= log && forall i :: |old(log)| <= i < |log| ==> !log[i].mine
      ensures r.Some? ==> r.value == model
      ensures turns == Rest(old(turns)) && (r.None? <==> FirstFault(old(turns)).Some?)
      ensures log != old(log) ==> |turns| < |old(turns)|
    {
      var fault := Interfere();
      r := if fault.Some? then None else Some(model);
    }

    /** Applies the patch to the version named by `rv`, or to whatever is there when none is named. */
    method PatchSpec(patch: Json, rv: Option<nat>) returns (r: PatchResult)
      requires Valid()
      modifies this
      ensures Valid() && |turns| <= |old(turns)|
      ensures old(log) <= log
      ensures r.Patched? ==>
                && r.v == model
                && Landed(old(log), log, patch)
                && (rv.Some? ==> BeforeMine(old(log), log).v.rv == rv.value)
      ensures r.Failed? && r.status == CONFLICT ==>
                && (forall i :: |old(log)| <= i < |log| ==> !log[i].mine)
                && (rv == Some(old(model.rv)) ==> |turns| < |old(turns)|)
      ensures r.Failed? ==> AtMostOneMine(old(log), log)
      ensures turns == Rest(old(turns))
      ensures match FirstFault(old(turns))
              case Some(fault) => r == Failed(fault.status)
              case None =>
                if rv.Some? && rv.value != BeforeMine(old(log), log).v.rv then r == Failed(CONFLICT) && log[|log| - 1].v.rv != rv.value
                else r.Patched?
    {
      hide Apply, History, Landed, BeforeMine, AtMostOneMine, WithSpec;
      var fault := Interfere();
      ghost var seen := log;
      if fault.Some? {
        if fault.value.landed && fault.value.status != CONFLICT {
          Write(patch);
        }
        OwnWrite(old(log), seen, log, patch);
        return Failed(fault.value.status);
      }
      if rv.Some? && rv.value != model.rv {
        assert rv == Some(old(model.rv)) ==> log != old(log);
        OwnWrite(old(log), seen, log, patch);
        return Failed(CONFLICT);
      }
      Write(patch);
      OwnWrite(old(log), seen, log, patch);
      return Patched(model);
    }

    method Write(patch: Json)
      requires Valid()
      modifies this`model, this`log
      ensures Valid() && model == WithSpec(old(model), Apply(old(model.spec), patch))
      ensures log == if model == old(model) then old(log) else old(log) + [Entry(model, true)]
    {
      hide Apply, History;
      Install(WithSpec(model, Apply(model.spec, patch)), true);
    }
  }

  /** A write of the caller's, right after others wrote, or no write at all. */
  lemma OwnWrite(start: seq<Entry>, seen: seq<Entry>, now: seq<Entry>, patch: Json)
    requires start != [] && start <= seen && forall i :: |start| <= i < |seen| ==> !seen[i].mine
    requires var v := seen[|seen| - 1].v;
             var w := WithSpec(v, Apply(v.spec, patch));
             now == seen || now == if w == v then seen else seen + [Entry(w, true)]
    ensures AtMostOneMine(start, now) && (now == seen ==> BeforeMine(start, now) == seen[|seen| - 1])
    ensures var v := seen[|seen| - 1].v;
            var w := WithSpec(v, Apply(v.spec, patch));
            now == (if w == v then seen else seen + [Entry(w, true)]) ==>
              Landed(start, now, patch) && BeforeMine(start, now) == seen[|seen| - 1]
  {
    hide Apply;
    forall i | |start| <= i < |now| - 1 ensures !now[i].mine {
      assert now[i] == seen[i];
    }
  }

  ghost predicate AtMostOneMine(before: seq<Entry>, after: seq<Entry>) {
    forall i, j :: |before| <= i < |after| && |before| <= j < |after| && after[i].mine && after[j].mine ==> i == j
  }

  /** The last version that the caller's own write, if there is one, found in place. */
  ghost function BeforeMine(before: seq<Entry>, after: seq<Entry>): Entry
    requires before != [] && before <= after
  {
    if |after| > |before| && after[|after| - 1].mine then after[|after| - 2] else after[|after| - 1]
  }

  /** The caller's patch took effect in one step: all new versions are by others, except that the last
      one is the patch applied to the version just before it; or nothing of the caller's is there,
      because the patch changes nothing in the last version. */
  ghost predicate Landed(before: seq<Entry>, after: seq<Entry>, patch: Json)
    requires before != [] && before <= after
  {
    var found := BeforeMine(before, after);
    var last := after[|after| - 1];
    && (forall i :: |before| <= i < |after| - 1 ==> !after[i].mine)
    && last.v.spec == Apply(found.v.spec, patch)
    && if last == found then true else last.mine && last.v == WithSpec(found.v, last.v.spec)
  }

  /** A patch that named the resource version of the last version seen landed on exactly that version,
      also when seen from an earlier point. */
  lemma LandedOnSeen(start: seq<Entry>, seen: seq<Entry>, now: seq<Entry>, patch: Json)
    requires start != [] && start <= seen && seen <= now && History(now) && Landed(seen, now, patch)
    requires forall i :: |start| <= i < |seen| ==> !seen[i].mine
    requires BeforeMine(seen, now).v.rv == seen[|seen| - 1].v.rv
    ensures Landed(start, now, patch) && BeforeMine(start, now) == seen[|seen| - 1]
    ensures var cur, v := seen[|seen| - 1].v, now[|now| - 1].v;
            cur.gen <= v.gen <= cur.gen + 1 && (v.gen == cur.gen + 1 ==> now[|now| - 1].mine)
    ensures AtMostOneMine(start, now)
  {
    hide Apply;
    var k := if |now| > |seen| && now[|now| - 1].mine then |now| - 2 else |now| - 1;
    HistoryOrder(now, |seen| - 1, k);
    forall i | |start| <= i < |now| - 1 ensures !now[i].mine {
      assert i < |seen| ==> now[i] == seen[i];
    }
  }

  /** What `check_gen_and_patch_spec` returns or raises. */
  datatype Outcome =
    | Success(curGen: nat, v: Version)
    | GenOutdated(curGen: nat)
    | Error(curGen: nat, status: int)
    | Raised

  ghost predicate NoFaults(turns: seq<Turn>) {
    forall i :: 0 <= i < |turns| ==> turns[i].fault.None?
  }

  /** Patches the model in one atomic step at a generation not above `gen`, or reports that the model
      has moved on and then has written nothing. Retries while it conflicts with other writers; ends
      when they do. Anything else comes from a request that failed on its own account: it raises for the
      last read, and reports an error for the last patch. */
  method CheckGenAndPatchSpec(server: ApiServer, patch: Json, gen: int) returns (outcome: Outcome)
    requires server.Valid()
    modifies server
    ensures server.Valid() && old(server.log) <= server.log
    ensures outcome.Success? ==>
              && Landed(old(server.log), server.log, patch)
              && outcome.v == server.model
              && outcome.curGen == BeforeMine(old(server.log), server.log).v.gen <= gen
              && outcome.curGen <= outcome.v.gen <= outcome.curGen + 1
              && (outcome.v.gen == outcome.curGen + 1 ==> server.log[|server.log| - 1].mine)
    ensures outcome.GenOutdated? ==> gen < outcome.curGen == server.model.gen
    ensures outcome.GenOutdated? || outcome.Raised? ==>
              forall i :: |old(server.log)| <= i < |server.log| ==> !server.log[i].mine
    ensures AtMostOneMine(old(server.log), server.log)
    ensures |server.turns| <= |old(server.turns)|
    ensures var used := |old(server.turns)| - |server.turns|;
            && (outcome.Raised? ==> used % 2 == 1 && old(server.turns)[used - 1].fault.Some?)
            && (outcome.Error? ==>
                  && outcome.status != CONFLICT && used > 0 && used % 2 == 0 && old(server.turns)[used - 1].fault.Some?
                  && old(server.turns)[used - 1].fault.value.status == outcome.status)
    ensures NoFaults(old(server.turns)) ==> outcome.Success? || outcome.GenOutdated?
  {
    hide Apply, WithSpec, History, Landed, BeforeMine;
    ghost var turns, used := server.turns, 0;
    while true
      invariant server.Valid() && old(server.log) <= server.log
      invariant forall i :: |old(server.log)| <= i < |server.log| ==> !server.log[i].mine
      invariant used <= |turns| && used % 2 == 0 && server.turns == turns[used..]
      decreases |server.turns|
    {
      var got := server.GetSpec();
      if got == None {
        return Raised;
      }
      var curGen := got.value.gen;
      if gen < curGen {
        return GenOutdated(curGen);
      }
      ghost var seen := server.log;
      var result := server.PatchSpec(patch, Some(got.value.rv));
      match result
      case Patched(v) =>
        LandedOnSeen(old(server.log), seen, server.log, patch);
        return Success(curGen, v);
      case Failed(status) =>
        if status != CONFLICT {
          return Error(curGen, status);
        }
        assert turns[used..][1..] == turns[used + 1..] && turns[used + 1..][1..] == turns[used + 2..];
        used := used + 2;
    }
  }
}
