/** Exactly-once replication: in every run in which source timestamps grow and an agent that was ended
    by an exception is replaced rather than resumed, the destination holds the flows' output for the
    records up to the saved watermarks, each once; and what resuming loses. */
module ExactlyOnce {
  import opened Basics
  import opened PoolSync
  import opened SyncRuns

  /** Commits of a source only add records above all earlier ones. */
  ghost predicate Increasing(pool: Pool) {
    forall i, j, r, q :: 0 <= i < j < |pool| && r in pool[i] && q in pool[j] && r.ts.Some? && q.ts.Some? ==>
      r.ts.value < q.ts.value
  }

  ghost predicate AllIncreasing(pools: Pools) {
    forall s :: s in pools ==> Increasing(pools[s])
  }

  ghost predicate Tame(st: State, step: Step) {
    match step
    case Append(s, records) => s in st.pools ==> Increasing(st.pools[s] + [records])
    case Resume => false
    case _ => true
  }

  ghost predicate TameRun(cfg: Config, st: State, steps: seq<Step>) {
    steps == [] ||
    (var before := Run(cfg, st, steps[..|steps| - 1]);
     TameRun(cfg, st, steps[..|steps| - 1]) && (before.Some? ==> Tame(before.value, steps[|steps| - 1])))
  }

  /** Everything the destination holds. */
  function Loaded(log: seq<Commit>): multiset<Out> {
    if log == [] then multiset{} else Loaded(log[..|log| - 1]) + multiset(log[|log| - 1].outs)
  }

  /** The flows' output for the records of the first `n` sources between two sets of watermarks. */
  function Total(cfg: Config, pools: Pools, lo: map<Source, int>, hi: map<Source, int>, n: nat): multiset<Out>
    requires n <= |cfg.sources|
  {
    if n == 0 then multiset{}
    else
      var s := cfg.sources[n - 1];
      Total(cfg, pools, lo, hi, n - 1)
      + Window(cfg, s, if s in pools then Flatten(pools[s]) else [], Level(cfg.minTs, lo, s), Level(cfg.minTs, hi, s))
  }

  /** The flows' output for all records with `minTs < ts` and `ts` at most the watermark: once for
      each record, if each source is configured once. */
  function UpTo(cfg: Config, pools: Pools, hi: map<Source, int>): multiset<Out> {
    Total(cfg, pools, map[], hi, |cfg.sources|)
  }

  /** What lies between the saved watermarks and those in an agent's memory. */
  function Gap(cfg: Config, st: State, ts: map<Source, int>): multiset<Out> {
    Total(cfg, st.pools, Recover(st.log), ts, |cfg.sources|)
  }

  /** Every watermark is the `ts` of some record of its source. */
  ghost predicate Grounded(cfg: Config, pools: Pools, ts: map<Source, int>) {
    forall s :: s in cfg.sources && s in ts && s in pools ==> exists r :: r in Flatten(pools[s]) && r.ts == Some(ts[s])
  }

  ghost predicate Healthy(cfg: Config, st: State) {
    && OrderInv(st)
    && Covers(cfg, st.pools)
    && AllIncreasing(st.pools)
    && Grounded(cfg, st.pools, Recover(st.log))
    && Loaded(st.log) == UpTo(cfg, st.pools, Recover(st.log))
    && (!st.agent.Down? ==> Grounded(cfg, st.pools, st.agent.ts))
    && (st.agent.Idle? ==> Gap(cfg, st, st.agent.ts) == multiset{})
    && (st.agent.Holding? ==> Gap(cfg, st, st.agent.ts) == multiset(st.agent.outs))
  }

  // ---------------------------------------------------------------- windows

  lemma {:induction false} WindowSplit(cfg: Config, s: Source, rs: seq<Record>, lo: int, mid: int, hi: int)
    requires lo <= mid <= hi
    ensures Window(cfg, s, rs, lo, hi) == Window(cfg, s, rs, lo, mid) + Window(cfg, s, rs, mid, hi)
  {
    if rs != [] {
      WindowSplit(cfg, s, rs[..|rs| - 1], lo, mid, hi);
    }
  }

  lemma {:induction false} WindowEmpty(cfg: Config, s: Source, rs: seq<Record>, lo: int, hi: int)
    requires forall r :: r in rs ==> !InWindow(r, lo, hi)
    ensures Window(cfg, s, rs, lo, hi) == multiset{}
  {
    if rs != [] {
      WindowEmpty(cfg, s, rs[..|rs| - 1], lo, hi);
    }
  }

  lemma {:induction false} WindowConcat(cfg: Config, s: Source, rs: seq<Record>, more: seq<Record>, lo: int, hi: int)
    ensures Window(cfg, s, rs + more, lo, hi) == Window(cfg, s, rs, lo, hi) + Window(cfg, s, more, lo, hi)
  {
    if more == [] {
      assert rs + more == rs;
    } else {
      var front := more[..|more| - 1];
      assert (rs + more)[..|rs + more| - 1] == rs + front;
      WindowConcat(cfg, s, rs, front, lo, hi);
    }
  }

  /** With `hi` at least the largest match, the window is everything that matches. */
  lemma {:induction false} WindowIsMatching(cfg: Config, s: Source, rs: seq<Record>, lo: int, hi: int)
    requires forall r :: r in rs && IsMatch(r, lo) ==> r.ts.value <= hi
    ensures Window(cfg, s, rs, lo, hi) == Matching(cfg, s, rs, lo)
  {
    if rs != [] {
      var front := rs[..|rs| - 1];
      assert forall r :: r in front ==> r in rs;
      assert rs[|rs| - 1] in rs;
      WindowIsMatching(cfg, s, front, lo, hi);
    }
  }

  lemma {:induction false} FlattenConcat(a: Pool, b: Pool)
    ensures Flatten(a + b) == Flatten(a) + Flatten(b)
  {
    if b == [] {
      assert a + b == a;
    } else {
      assert (a + b)[..|a + b| - 1] == a + b[..|b| - 1];
      FlattenConcat(a, b[..|b| - 1]);
    }
  }

  lemma {:induction false} FlattenMember(pool: Pool, r: Record) returns (i: nat)
    requires r in Flatten(pool)
    ensures i < |pool| && r in pool[i]
  {
    if r in pool[|pool| - 1] {
      i := |pool| - 1;
    } else {
      i := FlattenMember(pool[..|pool| - 1], r);
    }
  }

  lemma {:induction false} FlattenHas(pool: Pool, i: nat, r: Record)
    requires i < |pool| && r in pool[i]
    ensures r in Flatten(pool)
  {
    if i < |pool| - 1 {
      FlattenHas(pool[..|pool| - 1], i, r);
    }
  }

  lemma LaterCommitsAreAbove(pool: Pool, k: nat, r: Record, q: Record)
    requires Increasing(pool) && k <= |pool|
    requires r in Flatten(pool[..k]) && q in Flatten(pool[k..]) && r.ts.Some? && q.ts.Some?
    ensures r.ts.value < q.ts.value
  {
    var i := FlattenMember(pool[..k], r);
    var j := FlattenMember(pool[k..], q);
    assert r in pool[i] && q in pool[k + j];
  }

  // ---------------------------------------------------------------- sums over the sources

  lemma {:induction false} TotalSplit(cfg: Config, pools: Pools, lo: map<Source, int>, mid: map<Source, int>, hi: map<Source, int>, n: nat)
    requires n <= |cfg.sources| && AtMost(lo, mid) && AtMost(mid, hi)
    ensures Total(cfg, pools, lo, hi, n) == Total(cfg, pools, lo, mid, n) + Total(cfg, pools, mid, hi, n)
  {
    hide Window, Flatten;
    if n > 0 {
      var s := cfg.sources[n - 1];
      var rs := if s in pools then Flatten(pools[s]) else [];
      var l, m, h := Level(cfg.minTs, lo, s), Level(cfg.minTs, mid, s), Level(cfg.minTs, hi, s);
      TotalSplit(cfg, pools, lo, mid, hi, n - 1);
      WindowSplit(cfg, s, rs, l, m, h);
      Regroup(Total(cfg, pools, lo, mid, n - 1), Total(cfg, pools, mid, hi, n - 1),
              Window(cfg, s, rs, l, m), Window(cfg, s, rs, m, h));
    }
  }

  lemma Regroup(a: multiset<Out>, b: multiset<Out>, c: multiset<Out>, d: multiset<Out>)
    ensures (a + b) + (c + d) == (a + c) + (b + d)
  {
  }

  lemma {:induction false} TotalEmpty(cfg: Config, pools: Pools, ts: map<Source, int>, n: nat)
    requires n <= |cfg.sources|
    ensures Total(cfg, pools, ts, ts, n) == multiset{}
  {
    if n > 0 {
      var s := cfg.sources[n - 1];
      TotalEmpty(cfg, pools, ts, n - 1);
      WindowEmpty(cfg, s, if s in pools then Flatten(pools[s]) else [], Level(cfg.minTs, ts, s), Level(cfg.minTs, ts, s));
    }
  }

  /** New records lie above every grounded watermark. */
  lemma WindowAppend(cfg: Config, pools: Pools, s: Source, records: seq<Record>, lo: map<Source, int>, hi: map<Source, int>)
    requires s in cfg.sources && s in pools && Increasing(pools[s] + [records]) && Grounded(cfg, pools, hi)
    ensures Window(cfg, s, Flatten(pools[s] + [records]), Level(cfg.minTs, lo, s), Level(cfg.minTs, hi, s))
            == Window(cfg, s, Flatten(pools[s]), Level(cfg.minTs, lo, s), Level(cfg.minTs, hi, s))
  {
    hide Window, Flatten, Increasing;
    var pool := pools[s];
    AppendFlattens(pool, records);
    forall r | r in records ensures !InWindow(r, Level(cfg.minTs, lo, s), Level(cfg.minTs, hi, s)) {
      if s in hi && r.ts.Some? {
        var top :| top in Flatten(pool) && top.ts == Some(hi[s]);
        AppendedIsAbove(pool, records, top, r);
      }
    }
    WindowEmpty(cfg, s, records, Level(cfg.minTs, lo, s), Level(cfg.minTs, hi, s));
    WindowConcat(cfg, s, Flatten(pool), records, Level(cfg.minTs, lo, s), Level(cfg.minTs, hi, s));
  }

  lemma {:induction false} TotalAppend(cfg: Config, pools: Pools, s: Source, records: seq<Record>,
                                       lo: map<Source, int>, hi: map<Source, int>, n: nat)
    requires n <= |cfg.sources| && s in pools && Increasing(pools[s] + [records]) && Grounded(cfg, pools, hi)
    ensures Total(cfg, pools[s := pools[s] + [records]], lo, hi, n) == Total(cfg, pools, lo, hi, n)
  {
    hide Window, Flatten, Increasing, Level, Grounded;
    if n > 0 {
      TotalAppend(cfg, pools, s, records, lo, hi, n - 1);
      if cfg.sources[n - 1] == s {
        WindowAppend(cfg, pools, s, records, lo, hi);
      }
    }
  }

  lemma AppendFlattens(pool: Pool, records: seq<Record>)
    ensures Flatten(pool + [records]) == Flatten(pool) + records
  {
    assert (pool + [records])[..|pool|] == pool;
  }

  lemma AppendedIsAbove(pool: Pool, records: seq<Record>, top: Record, r: Record)
    requires Increasing(pool + [records]) && top in Flatten(pool) && r in records && top.ts.Some? && r.ts.Some?
    ensures top.ts.value < r.ts.value
  {
    var i := FlattenMember(pool, top);
    assert top in (pool + [records])[i] && r in (pool + [records])[|pool|];
  }

  /** One source: what the query matched in a prefix of the history is what lies between the old and
      the new watermark in all of it. */
  lemma WindowAfterRead(cfg: Config, pool: Pool, k: nat, ts: map<Source, int>, items: seq<Item>, s: Source)
    requires Increasing(pool) && k <= |pool|
    requires SummaryIsRight(Flatten(pool[..k]), Level(cfg.minTs, ts, s), items, s)
    requires !ReadAll(ts, items, true, cfg.minTs).raised
    ensures var after := ReadAll(ts, items, true, cfg.minTs).ts;
            Window(cfg, s, Flatten(pool), Level(cfg.minTs, ts, s), Level(cfg.minTs, after, s))
            == Matching(cfg, s, Flatten(pool[..k]), Level(cfg.minTs, ts, s))
  {
    hide Window, Flatten, Increasing, ReadAll, Matching, SummaryIsRight;
    var after := ReadAll(ts, items, true, cfg.minTs).ts;
    var lo, hi := Level(cfg.minTs, ts, s), Level(cfg.minTs, after, s);
    var rs, rest := Flatten(pool[..k]), Flatten(pool[k..]);
    SourceAfterRead(cfg, rs, ts, items, s);
    assert pool == pool[..k] + pool[k..];
    FlattenConcat(pool[..k], pool[k..]);
    WindowConcat(cfg, s, rs, rest, lo, hi);
    WindowIsMatching(cfg, s, rs, lo, hi);
    forall q | q in rest ensures !InWindow(q, lo, hi) {
      if q.ts.Some? && lo < hi {
        var r :| r in rs && IsMatch(r, lo) && r.ts.value == hi;
        LaterCommitsAreAbove(pool, k, r, q);
      }
    }
    WindowEmpty(cfg, s, rest, lo, hi);
  }

  lemma {:induction false} TotalAfterRead(cfg: Config, pools: Pools, snap: map<Source, nat>, ts: map<Source, int>, items: seq<Item>, n: nat)
    requires n <= |cfg.sources| && Answers(cfg, pools, snap, Asked(cfg, ts), items)
    requires AllIncreasing(pools)
    requires !ReadAll(ts, items, true, cfg.minTs).raised
    ensures Total(cfg, pools, ts, ReadAll(ts, items, true, cfg.minTs).ts, n) == AllMatching(cfg, pools, snap, Asked(cfg, ts), n)
  {
    hide SummaryIsRight, Window, Flatten, Matching, Increasing, ReadAll, DataOf;
    if n > 0 {
      var s := cfg.sources[n - 1];
      assert s == cfg.sources[n - 1] && s in pools && s in snap;
      TotalAfterRead(cfg, pools, snap, ts, items, n - 1);
      WindowAfterRead(cfg, pools[s], snap[s], ts, items, s);
    }
  }

  lemma GroundedAfterRead(cfg: Config, pools: Pools, snap: map<Source, nat>, ts: map<Source, int>, items: seq<Item>, s: Source)
    requires Answers(cfg, pools, snap, Asked(cfg, ts), items) && Grounded(cfg, pools, ts)
    requires s in cfg.sources && s in pools && s in ReadAll(ts, items, true, cfg.minTs).ts
    ensures exists r :: r in Flatten(pools[s]) && r.ts == Some(ReadAll(ts, items, true, cfg.minTs).ts[s])
  {
    var i :| 0 <= i < |cfg.sources| && cfg.sources[i] == s;
    var pool, k := pools[s], snap[s];
    var m := ReadAll(ts, items, true, cfg.minTs).ts[s];
    var item := WatermarkOrigin(ts, items, cfg.minTs, s);
    if item.Some? {
      var r :| r in Flatten(pool[..k]) && r.ts == Some(m);
      assert pool == pool[..k] + pool[k..];
      FlattenConcat(pool[..k], pool[k..]);
      assert r in Flatten(pool) && r.ts == Some(m);
    }
  }

  /** A watermark in memory was there before or came from a summary. */
  lemma {:induction false} WatermarkOrigin(ts: map<Source, int>, items: seq<Item>, minTs: int, s: Source) returns (item: Option<Item>)
    requires s in ReadAll(ts, items, true, minTs).ts
    ensures var m := ReadAll(ts, items, true, minTs).ts[s];
            match item
            case None => s in ts && ts[s] == m
            case Some(mark) => mark in items && IsMarkOf(mark, s) && mark.maxTs == Some(m)
  {
    if items == [] {
      item := None;
    } else {
      var front, last := items[..|items| - 1], items[|items| - 1];
      var before := ReadAll(ts, front, true, minTs);
      if !before.raised && IsMarkOf(last, s) && last.maxTs == Some(ReadAll(ts, items, true, minTs).ts[s]) {
        item := Some(last);
      } else {
        item := WatermarkOrigin(ts, front, minTs, s);
      }
    }
  }

  // ---------------------------------------------------------------- every step

  lemma AppendStep(cfg: Config, st: State, s: Source, records: seq<Record>)
    requires Healthy(cfg, st) && s in st.pools && Increasing(st.pools[s] + [records])
    ensures Healthy(cfg, Next(cfg, st, Append(s, records)))
  {
    hide Increasing, Total, Loaded, Recover, OrderInv;
    var pools := st.pools[s := st.pools[s] + [records]];
    AppendFlattens(st.pools[s], records);
    OrderStep(cfg, st, Append(s, records));
    TotalAppend(cfg, st.pools, s, records, map[], Recover(st.log), |cfg.sources|);
    GroundedAppend(cfg, st.pools, s, records, Recover(st.log));
    if !st.agent.Down? {
      TotalAppend(cfg, st.pools, s, records, Recover(st.log), st.agent.ts, |cfg.sources|);
      GroundedAppend(cfg, st.pools, s, records, st.agent.ts);
    }
  }

  lemma GroundedAppend(cfg: Config, pools: Pools, s: Source, records: seq<Record>, ts: map<Source, int>)
    requires s in pools && Grounded(cfg, pools, ts)
    ensures Grounded(cfg, pools[s := pools[s] + [records]], ts)
  {
    AppendFlattens(pools[s], records);
    forall x | x in cfg.sources && x in ts && x in pools
      ensures exists r :: r in Flatten(pools[s := pools[s] + [records]][x]) && r.ts == Some(ts[x])
    {
      var r :| r in Flatten(pools[x]) && r.ts == Some(ts[x]);
      assert r in Flatten(pools[s := pools[s] + [records]][x]);
    }
  }

  lemma ReadStep(cfg: Config, st: State, snap: map<Source, nat>, items: seq<Item>)
    requires Healthy(cfg, st) && Enabled(cfg, st, Read(snap, items))
    ensures Healthy(cfg, Next(cfg, st, Read(snap, items)))
  {
    hide Increasing, Total, Loaded, Recover, OrderInv, Answers, ReadAll, AtMost, DataOf, AllMatching;
    var ts, rd := st.agent.ts, ReadAll(st.agent.ts, items, true, cfg.minTs);
    OrderStep(cfg, st, Read(snap, items));
    assert Grounded(cfg, st.pools, rd.ts) by {
      forall s | s in cfg.sources && s in rd.ts && s in st.pools
        ensures exists r :: r in Flatten(st.pools[s]) && r.ts == Some(rd.ts[s])
      {
        GroundedAfterRead(cfg, st.pools, snap, ts, items, s);
      }
    }
    if !rd.raised {
      GapAfterRead(cfg, st, snap, items);
    }
  }

  /** A read moves the memory ahead of the log by exactly the records it returned. */
  lemma GapAfterRead(cfg: Config, st: State, snap: map<Source, nat>, items: seq<Item>)
    requires Covers(cfg, st.pools) && OrderInv(st) && AllIncreasing(st.pools)
    requires Enabled(cfg, st, Read(snap, items)) && !ReadAll(st.agent.ts, items, true, cfg.minTs).raised
    ensures var rd := ReadAll(st.agent.ts, items, true, cfg.minTs);
            Gap(cfg, st, rd.ts) == Gap(cfg, st, st.agent.ts) + multiset(rd.records)
  {
    hide Increasing, Total, Loaded, ReadAll, DataOf, AllMatching;
    var ts, rd := st.agent.ts, ReadAll(st.agent.ts, items, true, cfg.minTs);
    ReadRecords(ts, items, cfg.minTs);
    ReadOnlyRaises(ts, items, cfg.minTs);
    TotalAfterRead(cfg, st.pools, snap, ts, items, |cfg.sources|);
    TotalSplit(cfg, st.pools, Recover(st.log), ts, rd.ts, |cfg.sources|);
  }

  lemma LoadStep(cfg: Config, st: State, reply: Reply)
    requires Healthy(cfg, st) && st.agent.Holding?
    ensures Healthy(cfg, Next(cfg, st, Load(reply)))
  {
    hide Increasing, Total, OrderInv, Grounded;
    OrderStep(cfg, st, Load(reply));
    if !reply.Refused? {
      CommitCatchesUp(cfg, st);
      TotalEmpty(cfg, st.pools, st.agent.ts, |cfg.sources|);
    }
  }

  /** A commit adds its records to what was loaded, and its watermarks to the log: the distance that
      the memory was ahead, and by which the destination was behind, is gone. */
  lemma CommitCatchesUp(cfg: Config, st: State)
    requires OrderInv(st) && st.agent.Holding?
    ensures var log := st.log + [Commit(st.agent.outs, st.agent.ts)];
            && Recover(log) == st.agent.ts
            && Loaded(log) == Loaded(st.log) + multiset(st.agent.outs)
            && UpTo(cfg, st.pools, st.agent.ts) == UpTo(cfg, st.pools, Recover(st.log)) + Gap(cfg, st, st.agent.ts)
  {
    hide Total;
    var c := Commit(st.agent.outs, st.agent.ts);
    RecoverStep(st.log, c);
    assert (st.log + [c])[..|st.log|] == st.log;
    TotalSplit(cfg, st.pools, map[], Recover(st.log), st.agent.ts, |cfg.sources|);
  }

  lemma HealthyStep(cfg: Config, st: State, step: Step)
    requires Healthy(cfg, st) && Enabled(cfg, st, step) && Tame(st, step)
    ensures Healthy(cfg, Next(cfg, st, step))
  {
    hide Increasing, Total, Loaded, Grounded, Recover, OrderInv;
    match step
    case Append(s, records) => AppendStep(cfg, st, s, records);
    case Read(snap, items) => ReadStep(cfg, st, snap, items);
    case Load(reply) => LoadStep(cfg, st, reply);
    case Crash => OrderStep(cfg, st, step);
    case Restart =>
      OrderStep(cfg, st, step);
      TotalEmpty(cfg, st.pools, Recover(st.log), |cfg.sources|);
  }

  lemma InitiallyHealthy(cfg: Config, pools: Pools)
    requires Covers(cfg, pools) && AllIncreasing(pools)
    ensures Healthy(cfg, Initial(pools))
  {
    TotalEmpty(cfg, pools, map[], |cfg.sources|);
  }

  lemma {:induction false} HealthyAlways(cfg: Config, pools: Pools, steps: seq<Step>)
    requires Covers(cfg, pools) && AllIncreasing(pools)
    requires Run(cfg, Initial(pools), steps).Some? && TameRun(cfg, Initial(pools), steps)
    ensures Healthy(cfg, Run(cfg, Initial(pools), steps).value)
  {
    hide Healthy, Enabled, Next, Tame, Increasing;
    if steps == [] {
      InitiallyHealthy(cfg, pools);
    } else {
      HealthyAlways(cfg, pools, steps[..|steps| - 1]);
      HealthyStep(cfg, Run(cfg, Initial(pools), steps[..|steps| - 1]).value, steps[|steps| - 1]);
    }
  }

  /** Exactly once: over every interleaving of appends, reads, loads that succeed, fail or lose their
      reply, crashes and restarts, the destination holds the flows' output for precisely the records
      with `minTs < ts <=` saved watermark, each as often as the sources hold it. */
  lemma ExactlyOnceAlways(cfg: Config, pools: Pools, steps: seq<Step>, st: State)
    requires Covers(cfg, pools) && AllIncreasing(pools)
    requires Run(cfg, Initial(pools), steps) == Some(st) && TameRun(cfg, Initial(pools), steps)
    ensures Loaded(st.log) == UpTo(cfg, st.pools, Recover(st.log))
  {
    hide Run, Total, Loaded, TameRun, Increasing;
    HealthyAlways(cfg, pools, steps);
  }

  // ---------------------------------------------------------------- catching up

  /** The flows' output for everything in the first `n` sources above the configured minimum. */
  function Everything(cfg: Config, pools: Pools, n: nat): multiset<Out>
    requires n <= |cfg.sources|
  {
    if n == 0 then multiset{}
    else
      var s := cfg.sources[n - 1];
      Everything(cfg, pools, n - 1) + Matching(cfg, s, if s in pools then Flatten(pools[s]) else [], cfg.minTs)
  }

  /** The query sees every commit of every source. */
  ghost predicate SeesAll(cfg: Config, pools: Pools, snap: map<Source, nat>) {
    Covers(cfg, pools) && forall s :: s in cfg.sources ==> s in snap && snap[s] == |pools[s]|
  }

  /** After a read of all of a source, no record of it lies above the new watermark. */
  lemma NothingAbove(cfg: Config, rs: seq<Record>, ts: map<Source, int>, items: seq<Item>, s: Source)
    requires SummaryIsRight(rs, Level(cfg.minTs, ts, s), items, s) && !ReadAll(ts, items, true, cfg.minTs).raised
    ensures var after := ReadAll(ts, items, true, cfg.minTs).ts;
            forall r :: r in rs && r.ts.Some? ==> r.ts.value <= Level(cfg.minTs, after, s)
  {
    hide ReadAll, SummaryIsRight;
    ReadOnlyRaises(ts, items, cfg.minTs);
    SourceAfterRead(cfg, rs, ts, items, s);
    var lo, after := Level(cfg.minTs, ts, s), ReadAll(ts, items, true, cfg.minTs).ts;
    forall r | r in rs && r.ts.Some? ensures r.ts.value <= Level(cfg.minTs, after, s) {
      assert IsMatch(r, lo) || r.ts.value <= lo;
    }
  }

  lemma {:induction false} AllReadIsEverything(cfg: Config, pools: Pools, snap: map<Source, nat>, ts: map<Source, int>, items: seq<Item>, n: nat)
    requires n <= |cfg.sources| && SeesAll(cfg, pools, snap) && Answers(cfg, pools, snap, Asked(cfg, ts), items)
    requires !ReadAll(ts, items, true, cfg.minTs).raised
    ensures Total(cfg, pools, map[], ReadAll(ts, items, true, cfg.minTs).ts, n) == Everything(cfg, pools, n)
  {
    hide SummaryIsRight, Window, Flatten, Matching, ReadAll, DataOf;
    if n > 0 {
      var s := cfg.sources[n - 1];
      assert s == cfg.sources[n - 1] && s in pools && s in snap && pools[s][..snap[s]] == pools[s];
      AllReadIsEverything(cfg, pools, snap, ts, items, n - 1);
      NothingAbove(cfg, Flatten(pools[s]), ts, items, s);
      WindowIsMatching(cfg, s, Flatten(pools[s]), cfg.minTs, Level(cfg.minTs, ReadAll(ts, items, true, cfg.minTs).ts, s));
    }
  }

  /** The watermarks do move: a restarted agent whose query sees all commits, and whose load, if there is
      anything to load, is done, leaves the destination with the flows' output for every source record
      above the configured minimum, each once, whatever failed before. */
  lemma CatchUp(cfg: Config, st: State, restarted: State, snap: map<Source, nat>, items: seq<Item>, read: State, last: State)
    requires Healthy(cfg, st) && (st.agent.Down? || st.agent.Failed?) && restarted == Next(cfg, st, Restart)
    requires Enabled(cfg, restarted, Read(snap, items)) && SeesAll(cfg, st.pools, snap)
    requires read == Next(cfg, restarted, Read(snap, items)) && !read.agent.Failed?
    requires last == if read.agent.Holding? then Next(cfg, read, Load(Committed)) else read
    ensures Healthy(cfg, last) && Loaded(last.log) == Everything(cfg, st.pools, |cfg.sources|)
  {
    hide AllIncreasing, Total, Loaded, Grounded, Recover, OrderInv, ReadAll, Answers, Everything, AtMost, DataOf;
    HealthyStep(cfg, st, Restart);
    HealthyStep(cfg, restarted, Read(snap, items));
    var ts, rd := restarted.agent.ts, ReadAll(restarted.agent.ts, items, true, cfg.minTs);
    AllReadIsEverything(cfg, st.pools, snap, ts, items, |cfg.sources|);
    if read.agent.Holding? {
      HealthyStep(cfg, read, Load(Committed));
      CommitCatchesUp(cfg, read);
    } else {
      ReadUpTo(cfg, read);
    }
  }

  /** An idle agent that is healthy has nothing in memory beyond what was saved. */
  lemma ReadUpTo(cfg: Config, st: State)
    requires Healthy(cfg, st) && st.agent.Idle?
    ensures Loaded(st.log) == UpTo(cfg, st.pools, st.agent.ts)
  {
    hide AllIncreasing, Total, Loaded, Grounded;
    TotalSplit(cfg, st.pools, map[], Recover(st.log), st.agent.ts, |cfg.sources|);
  }

  // ---------------------------------------------------------------- resuming after an exception

  /** Resuming an ended agent keeps the state healthy in exactly one case: nothing that the flows emit
      lies between the saved watermarks and those left in memory. */
  lemma ResumeIsSafeIff(cfg: Config, st: State)
    requires Healthy(cfg, st) && st.agent.Failed?
    ensures Healthy(cfg, Next(cfg, st, Resume)) <==> Gap(cfg, st, st.agent.ts) == multiset{}
  {
    hide Increasing, Total, Loaded, Grounded, Recover, OrderInv;
    OrderStep(cfg, st, Resume);
  }

  /** So an agent that is ended by its load may be called again exactly when the load was committed,
      that is, when only the reply was lost. */
  lemma ResumeAfterLoadIff(cfg: Config, st: State, reply: Reply, ended: State, resumed: State)
    requires st.agent.Holding? && st.agent.outs != [] && !reply.Committed? && ended == Next(cfg, st, Load(reply))
    requires ended.agent.Failed? && resumed == Next(cfg, ended, Resume)
    requires Healthy(cfg, st)
    ensures Healthy(cfg, ended)
    ensures Healthy(cfg, resumed) <==> reply.ReplyLost?
  {
    hide Increasing, Total, Grounded, OrderInv, Healthy;
    LoadStep(cfg, st, reply);
    ResumeIsSafeIff(cfg, ended);
    assert Gap(cfg, ended, ended.agent.ts) == if reply.Refused? then multiset(st.agent.outs) else multiset{} by {
      GapAfterLoad(cfg, st, reply);
    }
    assert st.agent.outs[0] in multiset(st.agent.outs);
  }

  lemma GapAfterLoad(cfg: Config, st: State, reply: Reply)
    requires Healthy(cfg, st) && st.agent.Holding?
    ensures var ended := Next(cfg, st, Load(reply));
            Gap(cfg, ended, st.agent.ts) == if reply.Refused? then multiset(st.agent.outs) else multiset{}
  {
    hide Increasing, Total, Loaded, Grounded;
    if !reply.Refused? {
      CommitCatchesUp(cfg, st);
      TotalEmpty(cfg, st.pools, st.agent.ts, |cfg.sources|);
    }
  }

  /** What is in the gap when an agent is resumed is lost: after its next commit the destination lacks
      exactly that, and the saved watermarks are past it. */
  lemma ResumedAgentLosesGap(cfg: Config, st: State, resumed: State, snap: map<Source, nat>, items: seq<Item>, holding: State, last: State)
    requires Healthy(cfg, st) && st.agent.Failed? && resumed == Next(cfg, st, Resume)
    requires Enabled(cfg, resumed, Read(snap, items)) && holding == Next(cfg, resumed, Read(snap, items)) && holding.agent.Holding?
    requires last == Next(cfg, holding, Load(Committed))
    ensures Loaded(last.log) + Gap(cfg, st, st.agent.ts) == UpTo(cfg, last.pools, Recover(last.log))
    ensures Loaded(last.log) == UpTo(cfg, last.pools, Recover(last.log)) <==> Gap(cfg, st, st.agent.ts) == multiset{}
  {
    hide Increasing, Total, Loaded, Grounded, Recover, OrderInv, ReadAll, Answers;
    OrderStep(cfg, st, Resume);
    OrderStep(cfg, resumed, Read(snap, items));
    GapAfterRead(cfg, resumed, snap, items);
    CommitCatchesUp(cfg, holding);
  }

  // ---------------------------------------------------------------- a run that loses a record

  lemma RunStep(cfg: Config, start: State, steps: seq<Step>, step: Step, st: State)
    requires Run(cfg, start, steps) == Some(st) && Enabled(cfg, st, step)
    ensures Run(cfg, start, steps + [step]) == Some(Next(cfg, st, step))
  {
    hide Enabled, Next;
    assert (steps + [step])[..|steps|] == steps;
  }

  /** With one source, of which only the last record seen is new, this is an answer. */
  lemma LastIsNew(cfg: Config, s: Source, pools: Pools, snap: map<Source, nat>, ts: map<Source, int>, earlier: seq<Record>, r: Record, out: Out)
    requires cfg.sources == [s] && Snapshot(cfg, pools, snap) && Seen(pools, snap, s) == earlier + [r] && cfg.flow(s, r) == [out]
    requires IsMatch(r, Level(cfg.minTs, ts, s)) && forall q :: q in earlier ==> !IsMatch(q, Level(cfg.minTs, ts, s))
    ensures Answers(cfg, pools, snap, Asked(cfg, ts), [Data(out), Mark(s, r.ts)])
  {
    hide Matching, DataOf, Seen, SummaryIsRight;
    var lo, items := Level(cfg.minTs, ts, s), [Data(out), Mark(s, r.ts)];
    MatchingOfLast(cfg, s, earlier, r, out, lo);
    DataOfTwo(Data(out), Mark(s, r.ts));
    assert AllMatching(cfg, pools, snap, Asked(cfg, ts), 1) == multiset{} + multiset{out};
    assert SummaryIsRight(Seen(pools, snap, s), lo, items, s) by {
      LastSummary(earlier, r, out, lo, s);
    }
  }

  lemma MatchingOfLast(cfg: Config, s: Source, earlier: seq<Record>, r: Record, out: Out, lo: int)
    requires cfg.flow(s, r) == [out] && IsMatch(r, lo) && forall q :: q in earlier ==> !IsMatch(q, lo)
    ensures Matching(cfg, s, earlier + [r], lo) == multiset{out}
  {
    WindowIsMatching(cfg, s, earlier, lo, lo);
    WindowEmpty(cfg, s, earlier, lo, lo);
    assert (earlier + [r])[..|earlier|] == earlier;
  }

  lemma DataOfTwo(data: Item, mark: Item)
    requires data.Data? && mark.Mark?
    ensures DataOf([data, mark]) == multiset{data.out}
  {
    assert [data, mark][..1] == [data] && [data][..0] == [];
    assert DataOf([data]) == multiset{data.out};
  }

  lemma LastSummary(earlier: seq<Record>, r: Record, out: Out, lo: int, s: Source)
    requires IsMatch(r, lo) && forall q :: q in earlier ==> !IsMatch(q, lo)
    ensures SummaryIsRight(earlier + [r], lo, [Data(out), Mark(s, r.ts)], s)
  {
    assert r in earlier + [r];
  }

  /** Reading such an answer, and what the agent then holds. */
  lemma LastIsRead(s: Source, ts: map<Source, int>, at: int, out: Out, minTs: int)
    requires s in ts ==> ts[s] <= at
    ensures ReadAll(ts, [Data(out), Mark(s, Some(at))], true, minTs) == ReadState(ts[s := at], [out], false)
  {
    var items := [Data(out), Mark(s, Some(at))];
    assert items[..1] == [Data(out)] && items[..1][..0] == [];
    assert ReadAll(ts, items[..1], true, minTs) == ReadState(ts, [out], false);
  }

  const ONE_SOURCE := Config(["s"], 0, (s, r: Record) => [r.data])
  const FIRST := Record(Some(1), "first")
  const SECOND := Record(Some(2), "second")

  /** A run in which the load of the first record is refused and the agent is called again all the same:
      it then loads the second record, and the first is never loaded, though the saved watermark is past
      both. */
  lemma ResumedRunLosesRecord()
    ensures exists steps: seq<Step>, st: State ::
              && Run(ONE_SOURCE, Initial(map["s" := [[FIRST]]]), steps) == Some(st)
              && st.pools == map["s" := [[FIRST], [SECOND]]] && AllIncreasing(st.pools)
              && Recover(st.log) == map["s" := 2]
              && Loaded(st.log) == multiset{"second"}
              && UpTo(ONE_SOURCE, st.pools, Recover(st.log)) == multiset{"first", "second"}
  {
    hide Run, Enabled, Next, Answers, ReadAll, Total, Loaded;
    var start := Initial(map["s" := [[FIRST]]]);
    var steps, st := LosingRun(start);
    assert Run(ONE_SOURCE, start, steps) == Some(st);
    LosingLog(st.log);
    LosingSources(st.pools);
  }

  lemma LosingLog(log: seq<Commit>)
    requires log == [Commit(["second"], map["s" := 2])]
    ensures Recover(log) == map["s" := 2] && Loaded(log) == multiset{"second"}
  {
    assert log[..0] == [];
    assert Loaded([]) == multiset{} && Recover([]) == map[];
  }

  lemma LosingSources(pools: Pools)
    requires pools == map["s" := [[FIRST], [SECOND]]]
    ensures AllIncreasing(pools)
    ensures UpTo(ONE_SOURCE, pools, map["s" := 2]) == multiset{"first", "second"}
  {
    var pool := pools["s"];
    TwoCommits();
    assert [FIRST, SECOND][..1] == [FIRST] && [FIRST][..0] == [];
    assert Window(ONE_SOURCE, "s", [FIRST], 0, 2) == multiset{"first"};
    assert Window(ONE_SOURCE, "s", [FIRST, SECOND], 0, 2) == multiset{"first", "second"};
    assert Total(ONE_SOURCE, pools, map[], map["s" := 2], 0) == multiset{};
  }

  lemma TwoCommits()
    ensures Flatten([[FIRST]]) == [FIRST] && Flatten([[FIRST], [SECOND]]) == [FIRST, SECOND]
  {
    assert [[FIRST], [SECOND]][..1] == [[FIRST]] && [[FIRST]][..0] == [];
  }

  lemma LosingRun(start: State) returns (steps: seq<Step>, st: State)
    requires start == Initial(map["s" := [[FIRST]]])
    ensures Run(ONE_SOURCE, start, steps) == Some(st)
    ensures st.log == [Commit(["second"], map["s" := 2])] && st.pools == map["s" := [[FIRST], [SECOND]]]
  {
    hide Run, Answers, ReadAll;
    var cfg := ONE_SOURCE;
    assert Run(cfg, start, []) == Some(start) by {
      NoSteps(cfg, start);
    }
    var s1 := start.(agent := Idle(map[]));
    RunStep(cfg, start, [], Restart, start);
    var snap, items := map["s" := 1], [Data("first"), Mark("s", Some(1))];
    assert s1.pools["s"][..1] == [[FIRST]];
    TwoCommits();
    LastIsNew(cfg, "s", s1.pools, snap, map[], [], FIRST, "first");
    LastIsRead("s", map[], 1, "first", 0);
    assert [] + [Restart] == [Restart];
    RunStep(cfg, start, [Restart], Read(snap, items), s1);
    var s2 := Next(cfg, s1, Read(snap, items));
    RunStep(cfg, start, [Restart] + [Read(snap, items)], Load(Refused), s2);
    var s3 := Next(cfg, s2, Load(Refused));
    assert s3 == start.(agent := Failed(map["s" := 1]));
    steps := [Restart] + [Read(snap, items)] + [Load(Refused)];
    steps, st := LosingEnd(start, steps, s3);
  }

  lemma NoSteps(cfg: Config, start: State)
    ensures Run(cfg, start, []) == Some(start)
  {
  }

  lemma LosingEnd(start: State, before: seq<Step>, failed: State) returns (steps: seq<Step>, st: State)
    requires start == Initial(map["s" := [[FIRST]]]) && Run(ONE_SOURCE, start, before) == Some(failed)
    requires failed == start.(agent := Failed(map["s" := 1]))
    ensures Run(ONE_SOURCE, start, steps) == Some(st)
    ensures st.log == [Commit(["second"], map["s" := 2])] && st.pools == map["s" := [[FIRST], [SECOND]]]
  {
    hide Run, Answers, ReadAll;
    var cfg := ONE_SOURCE;
    RunStep(cfg, start, before, Resume, failed);
    var s4 := Next(cfg, failed, Resume);
    RunStep(cfg, start, before + [Resume], Append("s", [SECOND]), s4);
    var s5 := Next(cfg, s4, Append("s", [SECOND]));
    assert failed.pools["s"] + [[SECOND]] == [[FIRST], [SECOND]];
    assert s5.pools == map["s" := [[FIRST], [SECOND]]];
    var snap, items := map["s" := 2], [Data("second"), Mark("s", Some(2))];
    assert s5.pools["s"][..2] == [[FIRST], [SECOND]] && [FIRST, SECOND] == [FIRST] + [SECOND];
    TwoCommits();
    LastIsNew(cfg, "s", s5.pools, snap, map["s" := 1], [FIRST], SECOND, "second");
    LastIsRead("s", map["s" := 1], 2, "second", 0);
    steps := before + [Resume] + [Append("s", [SECOND])];
    RunStep(cfg, start, steps, Read(snap, items), s5);
    var s6 := Next(cfg, s5, Read(snap, items));
    steps := steps + [Read(snap, items)];
    RunStep(cfg, start, steps, Load(Committed), s6);
    st := Next(cfg, s6, Load(Committed));
    steps := steps + [Load(Committed)];
    assert map["s" := 1]["s" := 2] == map["s" := 2];
  }
}
