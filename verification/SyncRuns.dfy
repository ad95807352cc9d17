/** Every run of a sync agent against its sources and its destination: appends to the sources, reads,
    loads that succeed, fail or lose their reply, crashes and restarts, in any interleaving. */
module SyncRuns {
  import opened Basics
  import opened PoolSync

  // ---------------------------------------------------------------- what a query may answer

  function Flatten(pool: Pool): seq<Record> {
    if pool == [] then [] else Flatten(pool[..|pool| - 1]) + pool[|pool| - 1]
  }

  predicate InWindow(r: Record, lo: int, hi: int) {
    r.ts.Some? && lo < r.ts.value <= hi
  }

  /** The flow's output for the records with `lo < ts <= hi`. */
  function Window(cfg: Config, s: Source, rs: seq<Record>, lo: int, hi: int): multiset<Out> {
    if rs == [] then multiset{}
    else
      var last := rs[|rs| - 1];
      Window(cfg, s, rs[..|rs| - 1], lo, hi)
      + if InWindow(last, lo, hi) then multiset(cfg.flow(s, last)) else multiset{}
  }

  /** The flow's output for the records with `lo < ts`: what the query asks for. */
  function Matching(cfg: Config, s: Source, rs: seq<Record>, lo: int): multiset<Out> {
    if rs == [] then multiset{}
    else
      var last := rs[|rs| - 1];
      Matching(cfg, s, rs[..|rs| - 1], lo)
      + if last.ts.Some? && lo < last.ts.value then multiset(cfg.flow(s, last)) else multiset{}
  }

  type Pools = map<Source, Pool>

  ghost predicate Covers(cfg: Config, pools: Pools) {
    forall i :: 0 <= i < |cfg.sources| ==> cfg.sources[i] in pools
  }

  /** Per source, how much of its history the query sees: commits are seen whole. */
  ghost predicate Snapshot(cfg: Config, pools: Pools, snap: map<Source, nat>) {
    && Covers(cfg, pools)
    && forall i :: 0 <= i < |cfg.sources| ==>
         cfg.sources[i] in snap && snap[cfg.sources[i]] <= |pools[cfg.sources[i]]|
  }

  function Seen(pools: Pools, snap: map<Source, nat>, s: Source): seq<Record> {
    if s in pools && s in snap && snap[s] <= |pools[s]| then Flatten(pools[s][..snap[s]]) else []
  }

  function AllMatching(cfg: Config, pools: Pools, snap: map<Source, nat>, bounds: map<Source, int>, n: nat): multiset<Out>
    requires n <= |cfg.sources| && forall i :: 0 <= i < |cfg.sources| ==> cfg.sources[i] in bounds
  {
    if n == 0 then multiset{}
    else
      var s := cfg.sources[n - 1];
      AllMatching(cfg, pools, snap, bounds, n - 1) + Matching(cfg, s, Seen(pools, snap, s), bounds[s])
  }

  predicate IsMatch(r: Record, lo: int) {
    r.ts.Some? && lo < r.ts.value
  }

  ghost predicate IsMaxMatch(rs: seq<Record>, lo: int, m: int) {
    && (exists r :: r in rs && IsMatch(r, lo) && r.ts.value == m)
    && (forall r :: r in rs && IsMatch(r, lo) ==> r.ts.value <= m)
  }

  function DataOf(items: seq<Item>): multiset<Out> {
    if items == [] then multiset{}
    else
      DataOf(items[..|items| - 1])
      + match items[|items| - 1] case Data(out) => multiset{out} case Mark(_, _) => multiset{}
  }

  /** An answer of the lake to the query with these bounds: the flows' output for everything above them, in any order, and
      one summary or more for each source that has such records, with their largest `ts`. For a
      source that has none there may be a summary without a timestamp. */
  ghost predicate Answers(cfg: Config, pools: Pools, snap: map<Source, nat>, bounds: map<Source, int>, items: seq<Item>) {
    && Snapshot(cfg, pools, snap) && (forall i :: 0 <= i < |cfg.sources| ==> cfg.sources[i] in bounds)
    && DataOf(items) == AllMatching(cfg, pools, snap, bounds, |cfg.sources|)
    && (forall i :: 0 <= i < |cfg.sources| ==>
          SummaryIsRight(Seen(pools, snap, cfg.sources[i]), bounds[cfg.sources[i]], items, cfg.sources[i]))
    && (forall item :: item in items && item.Mark? ==> item.source in cfg.sources)
  }

  ghost predicate SummaryIsRight(rs: seq<Record>, lo: int, items: seq<Item>, s: Source) {
    && (forall item :: item in items && IsMarkOf(item, s) ==>
          if item.maxTs.Some? then IsMaxMatch(rs, lo, item.maxTs.value) else forall r :: r in rs ==> !IsMatch(r, lo))
    && ((exists r :: r in rs && IsMatch(r, lo)) ==> HasMark(items, s))
  }

  predicate IsMarkOf(item: Item, s: Source) {
    item.Mark? && item.source == s
  }

  predicate HasMark(items: seq<Item>, s: Source) {
    items != [] && (IsMarkOf(items[|items| - 1], s) || HasMark(items[..|items| - 1], s))
  }

  // ---------------------------------------------------------------- the state machine

  /** The agent process: not running; between reads; holding records that it has read but not yet
      loaded; or ended by an exception, with its object still in memory. */
  datatype Agent =
    | Down
    | Idle(ts: map<Source, int>)
    | Holding(ts: map<Source, int>, outs: seq<Out>, batch: set<(Source, Record)>)
    | Failed(ts: map<Source, int>)

  /** `taken` records, commit by commit, which source records the data was computed from. */
  datatype State = State(pools: Pools, log: seq<Commit>, taken: seq<set<(Source, Record)>>, agent: Agent)

  datatype Step =
    | Append(s: Source, records: seq<Record>)
    | Read(snap: map<Source, nat>, items: seq<Item>)
    | Load(reply: Reply)
    | Crash
    | Restart
    /** `once` is called again on an object whose thread has ended */
    | Resume

  /** What an agent with these watermarks asks for. */
  function Asked(cfg: Config, ts: map<Source, int>): map<Source, int> {
    Bounds(cfg.sources, cfg.minTs, ts)
  }

  ghost predicate Enabled(cfg: Config, st: State, step: Step) {
    match step
    case Append(s, records) => s in st.pools
    case Read(snap, items) => st.agent.Idle? && Answers(cfg, st.pools, snap, Asked(cfg, st.agent.ts), items)
    case Load(reply) => st.agent.Holding?
    case Crash => true
    case Restart => st.agent.Down? || st.agent.Failed?
    case Resume => st.agent.Failed?
  }

  ghost function Batch(cfg: Config, pools: Pools, snap: map<Source, nat>, ts: map<Source, int>): set<(Source, Record)> {
    set s, r | s in cfg.sources && r in Seen(pools, snap, s) && IsMatch(r, Level(cfg.minTs, ts, s)) :: (s, r)
  }

  ghost function Next(cfg: Config, st: State, step: Step): State
    requires Enabled(cfg, st, step)
  {
    match step
    case Append(s, records) => st.(pools := st.pools[s := st.pools[s] + [records]])
    case Read(snap, items) =>
      var rd := ReadAll(st.agent.ts, items, true, cfg.minTs);
      st.(agent := if rd.raised then Failed(rd.ts)
                   else if rd.records == [] then Idle(rd.ts)
                   else Holding(rd.ts, rd.records, Batch(cfg, st.pools, snap, st.agent.ts)))
    case Load(reply) =>
      var after := if reply.Committed? then Idle(st.agent.ts) else Failed(st.agent.ts);
      if reply.Refused? then st.(agent := after)
      else State(st.pools, st.log + [Commit(st.agent.outs, st.agent.ts)], st.taken + [st.agent.batch], after)
    case Crash => st.(agent := Down)
    case Restart => st.(agent := Idle(Recover(st.log)))
    case Resume => st.(agent := Idle(st.agent.ts))
  }

  /** Where a sequence of steps leads, if every step is enabled in turn. */
  ghost function Run(cfg: Config, st: State, steps: seq<Step>): Option<State> {
    if steps == [] then Some(st)
    else
      var before := Run(cfg, st, steps[..|steps| - 1]);
      if before.Some? && Enabled(cfg, before.value, steps[|steps| - 1])
      then Some(Next(cfg, before.value, steps[|steps| - 1])) else None
  }

  /** Sources of any content, an empty destination, no agent. */
  ghost function Initial(pools: Pools): State {
    State(pools, [], [], Down)
  }

  /** The object's fields are what the state says of an idle agent. */
  ghost predicate Represents(sync: Sync, cfg: Config, st: State)
    reads sync, sync.dest
  {
    && sync.sources == cfg.sources && sync.minTs == cfg.minTs && sync.eoio
    && sync.dest.log == st.log && st.agent == Idle(sync.sourceTs)
  }

  /** The steps are those of the object: `once` asks, reads the lake's answer to what was asked and, if
      there is something to load, loads; and constructing the object anew is a restart. */
  method OnceTakesSteps(sync: Sync, cfg: Config, ghost st: State, ghost snap: map<Source, nat>,
                        answer: map<Source, int> -> seq<Item>, reply: Reply)
    returns (ok: bool, ghost steps: seq<Step>, ghost after: State)
    requires Represents(sync, cfg, st)
    requires forall bounds: map<Source, int> :: bounds.Keys == Elems(cfg.sources) ==> Answers(cfg, st.pools, snap, bounds, answer(bounds))
    modifies sync`sourceTs, sync.dest
    ensures Run(cfg, st, steps) == Some(after)
    ensures after.pools == st.pools && after.log == sync.dest.log
    ensures if ok then Represents(sync, cfg, after) else after.agent == Failed(sync.sourceTs)
  {
    hide Answers;
    var bounds := sync.MakeQuery();
    var items := answer(bounds);
    ghost var read := Read(snap, items);
    assert bounds == Asked(cfg, st.agent.ts) && bounds.Keys == Elems(cfg.sources);
    after := Next(cfg, st, read);
    steps := [read];
    OneStep(cfg, st, read);
    ok := sync.Once(items, reply);
    if after.agent.Holding? {
      ghost var holding := after;
      after := Next(cfg, holding, Load(reply));
      steps := [read, Load(reply)];
      assert steps[..1] == [read];
    }
  }

  lemma OneStep(cfg: Config, st: State, step: Step)
    requires Enabled(cfg, st, step)
    ensures Run(cfg, st, [step]) == Some(Next(cfg, st, step))
  {
    hide Enabled, Next;
    assert [step][..0] == [];
  }

  method RestartTakesAStep(cfg: Config, ghost st: State, dest: Lake) returns (sync: Sync, ghost after: State)
    requires cfg.sources != [] && dest.log == st.log && (st.agent.Down? || st.agent.Failed?)
    ensures fresh(sync) && Run(cfg, st, [Restart]) == Some(after) && Represents(sync, cfg, after)
  {
    sync := new Sync(cfg.sources, cfg.minTs, true, dest);
    after := Next(cfg, st, Restart);
    OneStep(cfg, st, Restart);
  }

  // ---------------------------------------------------------------- order and recovery, in every run

  /** Pointwise order of watermarks; a missing watermark is below every other. */
  predicate AtMost(a: map<Source, int>, b: map<Source, int>) {
    forall s :: s in a ==> s in b && a[s] <= b[s]
  }

  ghost predicate Between(batch: set<(Source, Record)>, lo: map<Source, int>, hi: map<Source, int>) {
    forall p :: p in batch ==>
      p.1.ts.Some? && p.0 in hi && p.1.ts.value <= hi[p.0] && (p.0 in lo ==> lo[p.0] < p.1.ts.value)
  }

  ghost function LastMeta(log: seq<Commit>): map<Source, int> {
    if log == [] then map[] else log[|log| - 1].meta
  }

  ghost predicate OrderInv(st: State) {
    && |st.taken| == |st.log|
    && Recover(st.log) == LastMeta(st.log)
    && (forall i, j :: 0 <= i < j < |st.log| ==> AtMost(st.log[i].meta, st.log[j].meta))
    && (forall i :: 0 <= i < |st.log| ==> Between(st.taken[i], LastMeta(st.log[..i]), st.log[i].meta))
    && (!st.agent.Down? ==> AtMost(LastMeta(st.log), st.agent.ts))
    && (st.agent.Holding? ==> Between(st.agent.batch, LastMeta(st.log), st.agent.ts))
  }

  /** Reading one item never lowers a watermark. */
  lemma {:induction false} ReadOnlyRaises(ts: map<Source, int>, items: seq<Item>, minTs: int)
    ensures AtMost(ts, ReadAll(ts, items, true, minTs).ts)
  {
    if items != [] {
      ReadOnlyRaises(ts, items[..|items| - 1], minTs);
    }
  }

  /** The watermark of a source after an answer whose summaries for it all say `m`. */
  lemma {:induction false} ReadMarks(ts: map<Source, int>, items: seq<Item>, minTs: int, s: Source, m: int)
    requires forall item :: item in items && IsMarkOf(item, s) ==> item.maxTs == Some(m)
    requires !ReadAll(ts, items, true, minTs).raised
    ensures var after := ReadAll(ts, items, true, minTs).ts;
            if HasMark(items, s)
            then s in after && after[s] == if s in ts then Max(ts[s], m) else m
            else (s in after <==> s in ts) && (s in ts ==> after[s] == ts[s])
  {
    if items != [] {
      var front, last := items[..|items| - 1], items[|items| - 1];
      assert forall item :: item in front ==> item in items;
      assert last in items;
      ReadMarks(ts, front, minTs, s, m);
    }
  }

  lemma {:induction false} NoMarkNoChange(ts: map<Source, int>, items: seq<Item>, minTs: int, s: Source)
    requires !HasMark(items, s)
    ensures var after := ReadAll(ts, items, true, minTs).ts;
            (s in after <==> s in ts) && (s in ts ==> after[s] == ts[s])
  {
    if items != [] {
      NoMarkNoChange(ts, items[..|items| - 1], minTs, s);
    }
  }

  lemma {:induction false} MarkedItem(items: seq<Item>, s: Source) returns (item: Item)
    requires HasMark(items, s)
    ensures item in items && IsMarkOf(item, s)
  {
    if IsMarkOf(items[|items| - 1], s) {
      item := items[|items| - 1];
    } else {
      item := MarkedItem(items[..|items| - 1], s);
    }
  }

  lemma {:induction false} ReadRecords(ts: map<Source, int>, items: seq<Item>, minTs: int)
    requires !ReadAll(ts, items, true, minTs).raised
    ensures multiset(ReadAll(ts, items, true, minTs).records) == DataOf(items)
  {
    if items != [] {
      ReadRecords(ts, items[..|items| - 1], minTs);
    }
  }

  /** After reading, the watermark of each source is the largest matching `ts`, or is as before when
      nothing matched; this is what the agent will save with the data. */
  lemma SourceAfterRead(cfg: Config, rs: seq<Record>, ts: map<Source, int>, items: seq<Item>, s: Source)
    requires SummaryIsRight(rs, Level(cfg.minTs, ts, s), items, s)
    requires !ReadAll(ts, items, true, cfg.minTs).raised
    ensures var after := ReadAll(ts, items, true, cfg.minTs).ts;
            if exists r :: r in rs && IsMatch(r, Level(cfg.minTs, ts, s))
            then s in after && IsMaxMatch(rs, Level(cfg.minTs, ts, s), after[s])
            else (s in after <==> s in ts) && (s in ts ==> after[s] == ts[s])
  {
    var lo := Level(cfg.minTs, ts, s);
    if exists r :: r in rs && IsMatch(r, lo) {
      var mark := MarkedItem(items, s);
      var m := mark.maxTs.value;
      forall item | item in items && IsMarkOf(item, s) ensures item.maxTs == Some(m) {
      }
      ReadMarks(ts, items, cfg.minTs, s, m);
    } else if HasMark(items, s) {
      var mark := MarkedItem(items, s);
      MarkRaises(ts, items, cfg.minTs, mark);
      assert false;
    } else {
      NoMarkNoChange(ts, items, cfg.minTs, s);
    }
  }

  lemma {:induction false} MarkRaises(ts: map<Source, int>, items: seq<Item>, minTs: int, item: Item)
    requires item in items && item.Mark? && item.maxTs == None
    ensures ReadAll(ts, items, true, minTs).raised
  {
    var front := items[..|items| - 1];
    if item in front {
      MarkRaises(ts, front, minTs, item);
    } else {
      assert items == front + [items[|items| - 1]];
    }
  }

  lemma RecoverStep(log: seq<Commit>, c: Commit)
    requires Recover(log) == LastMeta(log) && AtMost(LastMeta(log), c.meta)
    ensures Recover(log + [c]) == c.meta
  {
    assert (log + [c])[..|log|] == log;
  }

  lemma OrderStep(cfg: Config, st: State, step: Step)
    requires OrderInv(st) && Enabled(cfg, st, step)
    ensures OrderInv(Next(cfg, st, step))
  {
    match step
    case Read(snap, items) =>
      ReadOnlyRaises(st.agent.ts, items, cfg.minTs);
      var rd := ReadAll(st.agent.ts, items, true, cfg.minTs);
      if !rd.raised {
        BatchBetween(cfg, st.pools, snap, st.agent.ts, items);
      }
    case Load(reply) =>
      if !reply.Refused? {
        LogGrows(st, Commit(st.agent.outs, st.agent.ts));
      }
    case _ =>
  }

  lemma BatchBetween(cfg: Config, pools: Pools, snap: map<Source, nat>, ts: map<Source, int>, items: seq<Item>)
    requires Answers(cfg, pools, snap, Asked(cfg, ts), items) && !ReadAll(ts, items, true, cfg.minTs).raised
    ensures Between(Batch(cfg, pools, snap, ts), ts, ReadAll(ts, items, true, cfg.minTs).ts)
  {
    var after := ReadAll(ts, items, true, cfg.minTs).ts;
    forall p | p in Batch(cfg, pools, snap, ts)
      ensures p.1.ts.Some? && p.0 in after && p.1.ts.value <= after[p.0] && (p.0 in ts ==> ts[p.0] < p.1.ts.value)
    {
      var i :| 0 <= i < |cfg.sources| && cfg.sources[i] == p.0;
      SourceAfterRead(cfg, Seen(pools, snap, p.0), ts, items, p.0);
    }
  }

  lemma LogGrows(st: State, c: Commit)
    requires OrderInv(st) && st.agent.Holding? && c.meta == st.agent.ts
    ensures var log, taken := st.log + [c], st.taken + [st.agent.batch];
            && Recover(log) == LastMeta(log) == c.meta
            && (forall i, j :: 0 <= i < j < |log| ==> AtMost(log[i].meta, log[j].meta))
            && (forall i :: 0 <= i < |log| ==> Between(taken[i], LastMeta(log[..i]), log[i].meta))
  {
    var log, taken := st.log + [c], st.taken + [st.agent.batch];
    RecoverStep(st.log, c);
    forall i | 0 <= i < |st.log| ensures AtMost(log[i].meta, c.meta) {
      assert i < |st.log| - 1 ==> AtMost(st.log[i].meta, LastMeta(st.log));
    }
    forall i | 0 <= i < |log| ensures Between(taken[i], LastMeta(log[..i]), log[i].meta) {
      assert log[..i] == st.log[..i];
      assert st.log[..|st.log|] == st.log;
    }
  }

  lemma {:induction false} OrderAlways(cfg: Config, pools: Pools, steps: seq<Step>)
    requires Run(cfg, Initial(pools), steps).Some?
    ensures OrderInv(Run(cfg, Initial(pools), steps).value)
  {
    if steps != [] {
      OrderAlways(cfg, pools, steps[..|steps| - 1]);
      OrderStep(cfg, Run(cfg, Initial(pools), steps[..|steps| - 1]).value, steps[|steps| - 1]);
    }
  }

  lemma LaterIsAbove(st: State, i: int, j: int, p: (Source, Record), q: (Source, Record))
    requires OrderInv(st) && 0 <= i < j < |st.log| && p in st.taken[i] && q in st.taken[j] && p.0 == q.0
    ensures p.1.ts.Some? && q.1.ts.Some? && p.1.ts.value < q.1.ts.value
  {
    hide Recover, LastMeta;
    var lo, hi := LastMeta(st.log[..i]), LastMeta(st.log[..j]);
    assert hi == st.log[j - 1].meta by {
      LastMetaAt(st.log, j);
    }
    assert i == j - 1 || AtMost(st.log[i].meta, st.log[j - 1].meta);
    assert Between(st.taken[i], lo, st.log[i].meta) && Between(st.taken[j], hi, st.log[j].meta);
  }

  lemma LastMetaAt(log: seq<Commit>, j: nat)
    requires 0 < j <= |log|
    ensures LastMeta(log[..j]) == log[j - 1].meta
  {
  }

  /** In every run, also when source timestamps go backwards and when a failed agent is resumed: what
      a later commit took from a source lies strictly above what earlier commits took from it, the
      saved watermarks never go down, and the maximum over the log, which a restart recovers, is what
      the last commit saved. */
  lemma InOrderAndRecovered(cfg: Config, pools: Pools, steps: seq<Step>)
    requires Run(cfg, Initial(pools), steps).Some?
    ensures var st := Run(cfg, Initial(pools), steps).value;
            && |st.taken| == |st.log|
            && Recover(st.log) == LastMeta(st.log)
            && (forall i, j :: 0 <= i < j < |st.log| ==> AtMost(st.log[i].meta, st.log[j].meta))
            && (forall i, j, p, q :: 0 <= i < j < |st.log| && p in st.taken[i] && q in st.taken[j] && p.0 == q.0 ==>
                  p.1.ts.Some? && q.1.ts.Some? && p.1.ts.value < q.1.ts.value)
  {
    hide Run, Recover, AtMost, LastMeta, Between;
    OrderAlways(cfg, pools, steps);
    var st := Run(cfg, Initial(pools), steps).value;
    forall i, j, p, q | 0 <= i < j < |st.log| && p in st.taken[i] && q in st.taken[j] && p.0 == q.0
      ensures p.1.ts.Some? && q.1.ts.Some? && p.1.ts.value < q.1.ts.value
    {
      LaterIsAbove(st, i, j, p, q);
    }
  }
}
