/** The lake poller's refresh of the pools attribute: it drops what is no longer in the spec, checks
    that the spec has not moved, and patches the version it checked. */
module LakePollers {
  import opened ApiServers
  import opened Basics
  import opened MergePatches

  function PoolsOf(spec: Json): map<string, Json> {
    if "pools" in FieldsOf(spec) then FieldsOf(FieldsOf(spec)["pools"]) else map[]
  }

  /** What the poller did: its patch, if one was sent, and the server's answer. */
  datatype Poll = Sent(patch: Json, result: PatchResult) | NotSent

  /** Removes from the pools that are to be written those that the current spec does not have. */
  method DropMissing(pools: map<string, Json>, current: map<string, Json>) returns (kept: map<string, Json>)
    ensures kept == map k | k in pools && k in current :: pools[k]
  {
    var keysToRemove: seq<string> := [];
    var todo := pools.Keys;
    while todo != {}
      invariant todo <= pools.Keys
      invariant forall k :: k in keysToRemove <==> k in pools && k !in todo && k !in current
    {
      var k :| k in todo;
      if k !in current {
        keysToRemove := keysToRemove + [k];
      }
      todo := todo - {k};
    }
    kept := pools;
    for i := 0 to |keysToRemove|
      invariant kept == map k | k in pools && k !in keysToRemove[..i] :: pools[k]
    {
      kept := kept - {keysToRemove[i]};
      assert forall k :: k in keysToRemove[..i + 1] <==> k in keysToRemove[..i] || k == keysToRemove[i];
    }
    assert keysToRemove[..|keysToRemove|] == keysToRemove;
  }

  /** A patch that writes only pools that are there brings no pool back. */
  lemma NoNewPools(spec: Json, fields: map<string, Json>)
    requires PoolsOf(Obj(fields)).Keys <= PoolsOf(spec).Keys
    requires "pools" in fields ==> fields["pools"].Obj?
    ensures PoolsOf(Apply(spec, Obj(fields))).Keys <= PoolsOf(spec).Keys
  {
    PatchedKeys(spec, Obj(fields));
    if "pools" in fields {
      var prior := if "pools" in FieldsOf(spec) then FieldsOf(spec)["pools"] else Null;
      PatchedKeys(prior, fields["pools"]);
      assert Apply(spec, Obj(fields)).fields["pools"] == Apply(prior, fields["pools"]);
    }
  }

  /** The pool is in every version from the last one before the call on. */
  ghost predicate AlwaysThere(before: seq<Entry>, after: seq<Entry>, k: string) {
    forall i :: |before| - 1 <= i < |after| && 0 <= i ==> k in PoolsOf(after[i].v.spec)
  }

  lemma ThereEarlier(before: seq<Entry>, mid: seq<Entry>, after: seq<Entry>)
    requires before <= mid <= after
    ensures forall k :: AlwaysThere(before, after, k) ==> AlwaysThere(before, mid, k)
  {
    assert forall i :: 0 <= i < |mid| ==> mid[i] == after[i];
  }

  lemma ThereNow(before: seq<Entry>, now: seq<Entry>)
    requires before != [] && before <= now
    ensures forall k :: AlwaysThere(before, now, k) ==> k in PoolsOf(now[|now| - 1].v.spec)
  {
  }

  /** The last request that was made failed on its own account. */
  ghost predicate LastFault(before: seq<Turn>, after: seq<Turn>) {
    |after| < |before| && before[|before| - |after| - 1].fault.Some?
  }

  /** Whenever the patch lands, under any creations and deletions of pools by others, every pool it
      writes is in the spec at that instant, so no deleted pool comes back. It leaves out only pools
      that were missing at some point of the call. A conflict drops the whole refresh, and so does
      a request that fails on its own account; nothing else does. */
  method PatchExistingPools(server: ApiServer, newSpec: map<string, Json>) returns (poll: Poll)
    requires server.Valid()
    requires "pools" in newSpec ==> newSpec["pools"].Obj?
    modifies server
    ensures server.Valid() && old(server.log) <= server.log
    ensures poll.Sent? ==> IsSelection(newSpec, poll.patch)
    ensures poll.Sent? ==> KeepsThere(old(server.log), server.log, PoolsOf(Obj(newSpec)), PoolsOf(poll.patch))
    ensures poll.Sent? && poll.result.Patched? ==>
              && Landed(old(server.log), server.log, poll.patch)
              && var found := BeforeMine(old(server.log), server.log).v;
                 && PoolsOf(poll.patch).Keys <= PoolsOf(found.spec).Keys
                 && PoolsOf(server.model.spec).Keys <= PoolsOf(found.spec).Keys
    ensures !(poll.Sent? && poll.result.Patched?) ==> AtMostOneMine(old(server.log), server.log)
    ensures |server.turns| <= |old(server.turns)|
    ensures poll.NotSent? || (poll.result.Failed? && poll.result.status != CONFLICT) ==> LastFault(old(server.turns), server.turns)
    ensures NoFaults(old(server.turns)) ==> poll.Sent? && (poll.result.Failed? ==> poll.result.status == CONFLICT)
  {
    hide Apply, Landed, BeforeMine, History, AtMostOneMine, PoolsOf, KeepsThere, IsPart, OthersOnly, Passed, NoFaults;
    var pools := NewPools(newSpec);
    ghost var all, turns := PoolsOf(Obj(newSpec)), server.turns;
    AllArePart(all, server.log);
    NonePassed(turns);
    while true
      invariant server.Valid() && old(server.log) <= server.log && OthersOnly(old(server.log), server.log)
      invariant IsPart(pools, all) && KeepsThere(old(server.log), server.log, all, pools)
      invariant Passed(turns, server.turns)
      decreases |server.turns|
    {
      ghost var before := server.turns;
      var start, again;
      pools, start, again := ReadTwice(server, old(server.log), all, pools);
      MorePassed(turns, before, server.turns);
      if start == None || again == None {
        NothingMine(old(server.log), server.log);
        return NotSent;
      }
      if start.value.gen >= again.value.gen {
        ghost var seen, left := server.log, server.turns;
        poll := Send(server, old(server.log), newSpec, pools, again.value);
        MorePassed(turns, left, server.turns);
        ThereLater(old(server.log), seen, server.log, all, pools);
        return;
      }
    }
  }

  ghost predicate OthersOnly(begin: seq<Entry>, now: seq<Entry>) {
    begin != [] && begin <= now && forall i :: |begin| <= i < |now| ==> !now[i].mine
  }

  /** `after` is what is left of `before`. */
  ghost predicate Passed(before: seq<Turn>, after: seq<Turn>) {
    |after| <= |before| && after == before[|before| - |after|..]
  }

  lemma NonePassed(turns: seq<Turn>)
    ensures Passed(turns, turns)
  {
  }

  lemma MorePassed(a: seq<Turn>, b: seq<Turn>, c: seq<Turn>)
    requires Passed(a, b) && Passed(b, c)
    ensures Passed(a, c) && (LastFault(b, c) ==> LastFault(a, c)) && (NoFaults(a) ==> !LastFault(b, c))
  {
    assert a[|a| - |b|..][|b| - |c|..] == a[|a| - |c|..];
    if LastFault(b, c) {
      assert b[|b| - |c| - 1] == a[|a| - |b|..][|b| - |c| - 1] == a[|a| - |c| - 1];
    }
  }

  lemma OnePassed(turns: seq<Turn>)
    ensures Passed(turns, Rest(turns)) && (FirstFault(turns).Some? ==> LastFault(turns, Rest(turns)))
  {
  }

  /** The two reads of one turn of the loop. */
  method ReadTwice(server: ApiServer, ghost begin: seq<Entry>, ghost all: map<string, Json>, pools: map<string, Json>)
    returns (kept: map<string, Json>, start: Option<Version>, again: Option<Version>)
    requires server.Valid() && OthersOnly(begin, server.log) && IsPart(pools, all) && KeepsThere(begin, server.log, all, pools)
    modifies server
    ensures server.Valid() && old(server.log) <= server.log && OthersOnly(begin, server.log)
    ensures Passed(old(server.turns), server.turns)
    ensures start.None? || again.None? ==> LastFault(old(server.turns), server.turns)
    ensures IsPart(kept, all) && (start.Some? && again.Some? ==> KeepsThere(begin, server.log, all, kept))
    ensures start.Some? && again.Some? ==>
              && again.value == server.model
              && if start.value.gen >= again.value.gen then kept.Keys <= PoolsOf(again.value.spec).Keys
                 else |server.turns| < |old(server.turns)|
  {
    hide History, PoolsOf, KeepsThere, IsPart, Passed, LastFault, OthersOnly;
    kept, again := pools, None;
    ghost var turns, before := server.turns, server.log;
    start := ReadOnce(server, begin);
    if start == None {
      return;
    }
    kept := DropMissing(pools, PoolsOf(start.value.spec));
    assert begin != [] && begin <= before by {
      OthersExtend(begin, before);
    }
    DropKeepsThere(begin, before, server.log, all, pools, kept);
    ghost var first, mid := server.log, server.turns;
    again := ReadOnce(server, begin);
    MorePassed(turns, mid, server.turns);
    ThereLater(begin, first, server.log, all, kept);
    if again.Some? {
      SameGeneration(first, server.log);
    }
  }

  /** A version of a generation not above that of an earlier one has the same spec. */
  lemma SameGeneration(first: seq<Entry>, now: seq<Entry>)
    requires first != [] && first <= now && History(now)
    ensures var a, b := first[|first| - 1].v, now[|now| - 1].v; a.gen <= b.gen && (a.gen == b.gen ==> a.spec == b.spec)
    ensures first[|first| - 1].v.gen < now[|now| - 1].v.gen ==> now != first
  {
    HistoryOrder(now, |first| - 1, |now| - 1);
  }

  lemma OthersExtend(begin: seq<Entry>, now: seq<Entry>)
    requires OthersOnly(begin, now)
    ensures begin != [] && begin <= now
  {
  }

  method ReadOnce(server: ApiServer, ghost begin: seq<Entry>) returns (r: Option<Version>)
    requires server.Valid() && OthersOnly(begin, server.log)
    modifies server
    ensures server.Valid() && old(server.log) <= server.log && OthersOnly(begin, server.log)
    ensures Passed(old(server.turns), server.turns) && (r.None? ==> LastFault(old(server.turns), server.turns))
    ensures r.Some? ==> r.value == server.model == server.log[|server.log| - 1].v
    ensures |server.turns| <= |old(server.turns)| && (server.log != old(server.log) ==> |server.turns| < |old(server.turns)|)
  {
    hide History;
    OnePassed(server.turns);
    r := server.GetSpec();
  }

  /** What is to be written has every pool that was there throughout. */
  ghost predicate KeepsThere(before: seq<Entry>, now: seq<Entry>, all: map<string, Json>, pools: map<string, Json>) {
    forall k :: k in all && AlwaysThere(before, now, k) ==> k in pools
  }

  lemma AllArePart(all: map<string, Json>, log: seq<Entry>)
    requires log != []
    ensures IsPart(all, all) && KeepsThere(log, log, all, all) && OthersOnly(log, log)
  {
  }

  lemma ThereLater(before: seq<Entry>, mid: seq<Entry>, now: seq<Entry>, all: map<string, Json>, pools: map<string, Json>)
    requires before <= mid <= now && KeepsThere(before, mid, all, pools)
    ensures KeepsThere(before, now, all, pools)
  {
    hide AlwaysThere;
    ThereEarlier(before, mid, now);
  }

  lemma DropKeepsThere(before: seq<Entry>, mid: seq<Entry>, now: seq<Entry>, all: map<string, Json>, pools: map<string, Json>, kept: map<string, Json>)
    requires before != [] && before <= mid <= now && KeepsThere(before, mid, all, pools) && IsPart(pools, all)
    requires kept == map k | k in pools && k in PoolsOf(now[|now| - 1].v.spec) :: pools[k]
    ensures KeepsThere(before, now, all, kept) && IsPart(kept, all)
  {
    hide AlwaysThere, PoolsOf;
    ThereEarlier(before, mid, now);
    ThereNow(before, now);
  }

  /** The new pools, if there are any. */
  method NewPools(newSpec: map<string, Json>) returns (pools: map<string, Json>)
    requires "pools" in newSpec ==> newSpec["pools"].Obj?
    ensures pools == PoolsOf(Obj(newSpec))
  {
    pools := if "pools" in newSpec then newSpec["pools"].fields else map[];
  }

  ghost predicate IsPart(pools: map<string, Json>, all: map<string, Json>) {
    forall k :: k in pools ==> k in all && pools[k] == all[k]
  }

  /** The new spec with some of its pools, and everything else as it is. */
  ghost predicate IsSelection(newSpec: map<string, Json>, patch: Json) {
    && patch.Obj? && patch.fields.Keys == newSpec.Keys
    && (forall k :: k in newSpec && k != "pools" ==> patch.fields[k] == newSpec[k])
    && IsPart(PoolsOf(patch), PoolsOf(Obj(newSpec)))
  }

  /** The patch at the end, to the version just read, whose pools include all that are written. */
  method Send(server: ApiServer, ghost begin: seq<Entry>, newSpec: map<string, Json>, pools: map<string, Json>, v: Version)
    returns (poll: Poll)
    requires server.Valid() && OthersOnly(begin, server.log) && v == server.model
    requires "pools" in newSpec ==> newSpec["pools"].Obj?
    requires IsPart(pools, PoolsOf(Obj(newSpec))) && pools.Keys <= PoolsOf(v.spec).Keys
    modifies server
    ensures server.Valid() && old(server.log) <= server.log
    ensures Passed(old(server.turns), server.turns)
    ensures poll.Sent? && IsSelection(newSpec, poll.patch) && PoolsOf(poll.patch) == pools
    ensures poll.result.Failed? && poll.result.status != CONFLICT ==> LastFault(old(server.turns), server.turns)
    ensures if poll.result.Patched?
            then && Landed(begin, server.log, poll.patch) && BeforeMine(begin, server.log).v == v
                 && PoolsOf(server.model.spec).Keys <= PoolsOf(v.spec).Keys
            else AtMostOneMine(begin, server.log)
  {
    hide Apply, Landed, BeforeMine, History, AtMostOneMine;
    var fields := if "pools" in newSpec then newSpec["pools" := Obj(pools)] else newSpec;
    var patch := Obj(fields);
    assert "pools" !in newSpec ==> pools == map[];
    NoNewPools(v.spec, fields);
    ghost var seen := server.log;
    OnePassed(server.turns);
    var result := server.PatchSpec(patch, Some(v.rv));
    if result.Patched? {
      LandedOnSeen(begin, seen, server.log, patch);
      LandedSpec(begin, server.log, patch);
    } else {
      MineStaysSingle(begin, seen, server.log);
    }
    poll := Sent(patch, result);
  }

  lemma NothingMine(start: seq<Entry>, now: seq<Entry>)
    requires OthersOnly(start, now)
    ensures AtMostOneMine(start, now)
  {
  }

  lemma MineStaysSingle(start: seq<Entry>, seen: seq<Entry>, now: seq<Entry>)
    requires start <= seen <= now && AtMostOneMine(seen, now)
    requires forall i :: |start| <= i < |seen| ==> !seen[i].mine
    ensures AtMostOneMine(start, now)
  {
    assert forall i :: |start| <= i < |seen| ==> now[i] == seen[i];
  }

  lemma LandedSpec(start: seq<Entry>, now: seq<Entry>, patch: Json)
    requires start != [] && start <= now && Landed(start, now, patch)
    ensures now[|now| - 1].v.spec == Apply(BeforeMine(start, now).v.spec, patch)
  {
  }
}
