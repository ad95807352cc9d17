/** The many-to-one sync between data pools: per-source watermarks, a commit that carries data and
    watermarks together, and recovery of the watermarks from the destination's log. */
module PoolSync {

  import opened Basics

  type Source = string
  type Out = string

  /** A source record; only the presence and the value of its `ts` field matter to the agent. */
  datatype Record = Record(ts: Option<int>, data: string)

  /** A pool is a history of commits, each adding some records at once. */
  type Pool = seq<seq<Record>>

  /** What is fixed for one sync agent: the sources, the lower bound on `ts`, and the flows,
      seen as what they emit for one record of one source. */
  datatype Config = Config(sources: seq<Source>, minTs: int, flow: (Source, Record) -> seq<Out>)

  /** A commit of the destination: the loaded data and, in its meta, the watermarks. */
  datatype Commit = Commit(outs: seq<Out>, meta: map<Source, int>)

  /** One value of the query's answer: an output record, or the summary of one source. */
  datatype Item = Data(out: Out) | Mark(source: Source, maxTs: Option<int>)

  /** The watermark in force for a source, never below the configured minimum. */
  function Level(minTs: int, ts: map<Source, int>, s: Source): int {
    if s in ts then Max(ts[s], minTs) else minTs
  }

  /** The lower bounds that the next query puts on `ts`, source by source. */
  function Bounds(sources: seq<Source>, minTs: int, ts: map<Source, int>): map<Source, int> {
    map s | s in sources :: Level(minTs, ts, s)
  }

  // ---------------------------------------------------------------- the agent's own steps

  /** What reading one answer leaves behind: the watermarks, the records, and whether a summary
      without a timestamp made it raise. */
  datatype ReadState = ReadState(ts: map<Source, int>, records: seq<Out>, raised: bool)

  function ReadItem(st: ReadState, item: Item, eoio: bool, minTs: int): ReadState {
    match item
    case Data(out) => st.(records := st.records + [out])
    case Mark(source, maxTs) =>
      if !eoio then st.(ts := st.ts[source := minTs])
      else if maxTs == None then st.(raised := true)
      else st.(ts := st.ts[source := if source in st.ts then Max(maxTs.value, st.ts[source]) else maxTs.value])
  }

  /** Reading stops at the first summary that raises. */
  function ReadAll(ts: map<Source, int>, items: seq<Item>, eoio: bool, minTs: int): ReadState {
    if items == [] then ReadState(ts, [], false)
    else
      var st := ReadAll(ts, items[..|items| - 1], eoio, minTs);
      if st.raised then st else ReadItem(st, items[|items| - 1], eoio, minTs)
  }

  // ---------------------------------------------------------------- what reading means

  /** The output records of an answer, in its order. */
  function OutsOf(items: seq<Item>): seq<Out> {
    if items == [] then []
    else OutsOf(items[..|items| - 1]) + match items[|items| - 1] case Data(out) => [out] case Mark(_, _) => []
  }

  predicate Summarises(item: Item, s: Source) {
    item.Mark? && item.source == s
  }

  predicate Blank(item: Item) {
    item.Mark? && item.maxTs == None
  }

  /** Reading consumes everything, or, where exactly once is asked for, everything before the first summary
      without a timestamp, and then raises. */
  ghost predicate Consumes(items: seq<Item>, n: nat, eoio: bool, raised: bool) {
    && (if raised then eoio && n < |items| && Blank(items[n]) else n == |items|)
    && (eoio ==> forall i :: 0 <= i < n ==> !Blank(items[i]))
  }

  ghost predicate Summarised(items: seq<Item>, s: Source) {
    exists i :: 0 <= i < |items| && Summarises(items[i], s)
  }

  /** `m` is the largest of the earlier watermark and the summaries. */
  ghost predicate IsTop(before: map<Source, int>, items: seq<Item>, s: Source, m: int) {
    && (s in before ==> before[s] <= m)
    && (forall i :: 0 <= i < |items| && Summarises(items[i], s) && items[i].maxTs.Some? ==> items[i].maxTs.value <= m)
    && ((s in before && before[s] == m) || exists i :: 0 <= i < |items| && Summarises(items[i], s) && items[i].maxTs == Some(m))
  }

  /** Sources without a summary keep their watermark; the others end at the largest, or, where exactly once
      is not asked for, at the configured minimum. */
  ghost predicate Moved(before: map<Source, int>, items: seq<Item>, eoio: bool, minTs: int, after: map<Source, int>) {
    forall s ::
      && (s in after <==> s in before || Summarised(items, s))
      && (s in after ==>
            if !Summarised(items, s) then after[s] == before[s]
            else if !eoio then after[s] == minTs
            else IsTop(before, items, s, after[s]))
  }

  lemma {:induction false} ReadMeaning(ts: map<Source, int>, items: seq<Item>, eoio: bool, minTs: int) returns (n: nat)
    ensures var st := ReadAll(ts, items, eoio, minTs);
            && Consumes(items, n, eoio, st.raised)
            && st.records == OutsOf(items[..n]) && Moved(ts, items[..n], eoio, minTs, st.ts)
  {
    hide Moved, Summarised, IsTop;
    if items == [] {
      n := 0;
      NothingMoved(ts, eoio, minTs);
    } else {
      var front, last := items[..|items| - 1], items[|items| - 1];
      var m := ReadMeaning(ts, front, eoio, minTs);
      var st := ReadAll(ts, front, eoio, minTs);
      assert front[..m] == items[..m];
      if st.raised || (eoio && Blank(last)) {
        n := m;
      } else {
        n := |items|;
        assert items[..n] == items && items == front + [last] && front[..m] == front;
        MovedFurther(ts, front, eoio, minTs, st.ts, last);
      }
    }
  }

  lemma NothingMoved(ts: map<Source, int>, eoio: bool, minTs: int)
    ensures Moved(ts, [], eoio, minTs, ts)
  {
  }

  lemma MovedFurther(ts: map<Source, int>, items: seq<Item>, eoio: bool, minTs: int, mid: map<Source, int>, last: Item)
    requires Moved(ts, items, eoio, minTs, mid) && !(eoio && Blank(last))
    ensures Moved(ts, items + [last], eoio, minTs, ReadItem(ReadState(mid, [], false), last, eoio, minTs).ts)
  {
    var after := ReadItem(ReadState(mid, [], false), last, eoio, minTs).ts;
    var all := items + [last];
    forall s
      ensures Summarised(all, s) <==> Summarised(items, s) || Summarises(last, s)
    {
      if Summarised(items, s) {
        var i :| 0 <= i < |items| && Summarises(items[i], s);
        assert Summarises(all[i], s);
      }
      if Summarises(last, s) {
        assert Summarises(all[|items|], s);
      }
    }
    forall s | s in after && Summarised(all, s) && eoio
      ensures IsTop(ts, all, s, after[s])
    {
      TopFurther(ts, items, eoio, minTs, mid, last, s);
    }
  }

  lemma TopFurther(ts: map<Source, int>, items: seq<Item>, eoio: bool, minTs: int, mid: map<Source, int>, last: Item, s: Source)
    requires Moved(ts, items, eoio, minTs, mid) && eoio && !Blank(last)
    requires s in ReadItem(ReadState(mid, [], false), last, eoio, minTs).ts
    requires Summarised(items, s) || Summarises(last, s)
    ensures IsTop(ts, items + [last], s, ReadItem(ReadState(mid, [], false), last, eoio, minTs).ts[s])
  {
    var all, m := items + [last], ReadItem(ReadState(mid, [], false), last, eoio, minTs).ts[s];
    assert s in mid ==> mid[s] <= m;
    if Summarises(last, s) && last.maxTs == Some(m) {
      assert all[|items|] == last;
    } else {
      assert s in mid && mid[s] == m;
      if !(s in ts && ts[s] == m) {
        var i :| 0 <= i < |items| && Summarises(items[i], s) && items[i].maxTs == Some(m);
        assert all[i] == items[i];
      }
    }
  }

  function MaxMerge(a: map<Source, int>, b: map<Source, int>): map<Source, int> {
    map s | s in a.Keys + b.Keys ::
      if s in a && s in b then Max(a[s], b[s]) else if s in a then a[s] else b[s]
  }

  /** The watermarks that a restarted agent finds: per source, the maximum over the whole log. */
  function Recover(log: seq<Commit>): map<Source, int> {
    if log == [] then map[] else MaxMerge(Recover(log[..|log| - 1]), log[|log| - 1].meta)
  }

  /** The recovered watermark of a source is the maximum over the log: it bounds every watermark saved for
      the source, and is one of them. */
  lemma {:induction false} RecoverIsMax(log: seq<Commit>, s: Source)
    ensures s in Recover(log) <==> exists i :: 0 <= i < |log| && s in log[i].meta
    ensures s in Recover(log) ==>
              && (forall i :: 0 <= i < |log| && s in log[i].meta ==> log[i].meta[s] <= Recover(log)[s])
              && (exists i :: 0 <= i < |log| && s in log[i].meta && log[i].meta[s] == Recover(log)[s])
  {
    if log != [] {
      var front, last := log[..|log| - 1], log[|log| - 1];
      RecoverIsMax(front, s);
      assert forall i :: 0 <= i < |front| ==> front[i] == log[i];
      if s in Recover(front) {
        var i :| 0 <= i < |front| && s in front[i].meta && front[i].meta[s] == Recover(front)[s];
        assert log[i].meta[s] == Recover(front)[s];
      }
      assert s in last.meta ==> log[|log| - 1].meta[s] == last.meta[s];
    }
  }

  /** The destination. Data and meta of a load become visible together or not at all. */
  class Lake {
    var log: seq<Commit>

    constructor ()
      ensures log == []
    {
      log := [];
    }

    method Load(outs: seq<Out>, meta: map<Source, int>, reply: Reply) returns (ok: bool)
      modifies this
      ensures log == if reply.Refused? then old(log) else old(log) + [Commit(outs, meta)]
      ensures ok <==> reply.Committed?
    {
      if !reply.Refused? {
        log := log + [Commit(outs, meta)];
      }
      ok := reply.Committed?;
    }
  }

  class Sync {
    const sources: seq<Source>
    const minTs: int
    const eoio: bool
    const dest: Lake
    var sourceTs: map<Source, int>

    constructor (sources: seq<Source>, minTs: int, eoio: bool, dest: Lake)
      requires sources != []
      ensures this.sources == sources && this.minTs == minTs && this.eoio == eoio && this.dest == dest
      ensures sourceTs == Recover(dest.log)
    {
      this.sources, this.minTs, this.eoio, this.dest := sources, minTs, eoio, dest;
      sourceTs := map[];
      new;
      sourceTs := FetchSourceTs();
    }

    method FetchSourceTs() returns (ts: map<Source, int>)
      ensures ts == Recover(dest.log)
      ensures forall i, s :: 0 <= i < |dest.log| && s in dest.log[i].meta ==> s in ts && dest.log[i].meta[s] <= ts[s]
      ensures forall s :: s in ts ==> exists i :: 0 <= i < |dest.log| && s in dest.log[i].meta && dest.log[i].meta[s] == ts[s]
    {
      ts := map[];
      for i := 0 to |dest.log|
        invariant ts == Recover(dest.log[..i])
      {
        ts := MaxMerge(ts, dest.log[i].meta);
        assert dest.log[..i + 1][..i] == dest.log[..i];
      }
      assert dest.log[..|dest.log|] == dest.log;
      forall s {
        RecoverIsMax(dest.log, s);
      }
    }

    /** The query names every source, each with the watermark in force for it. */
    method MakeQuery() returns (bounds: map<Source, int>)
      ensures bounds == Bounds(sources, minTs, sourceTs)
      ensures bounds.Keys == (set s | s in sources) && forall s :: s in bounds ==>
                && bounds[s] >= minTs && (s in sourceTs ==> bounds[s] >= sourceTs[s])
                && (bounds[s] == minTs || (s in sourceTs && bounds[s] == sourceTs[s]))
    {
      bounds := map[];
      for i := 0 to |sources|
        invariant bounds == Bounds(sources[..i], minTs, sourceTs)
      {
        var s := sources[i];
        var curTs := Max(if s in sourceTs then sourceTs[s] else minTs, minTs);
        bounds := bounds[s := curTs];
        assert sources[..i + 1] == sources[..i] + [s];
      }
      assert sources[..|sources|] == sources;
    }

    /** Consumes the answer to the query, up to a summary that raises. The records come in the order of the
        answer; the watermarks move in memory as the summaries come in, also when a later one raises. */
    method Read(items: seq<Item>) returns (records: seq<Out>, raised: bool, ghost n: nat)
      modifies this`sourceTs
      ensures ReadState(sourceTs, records, raised) == ReadAll(old(sourceTs), items, eoio, minTs)
      ensures Consumes(items, n, eoio, raised)
      ensures records == OutsOf(items[..n]) && Moved(old(sourceTs), items[..n], eoio, minTs, sourceTs)
    {
      hide OutsOf, Moved, Consumes;
      n := ReadMeaning(sourceTs, items, eoio, minTs);
      records, raised := [], false;
      for i := 0 to |items|
        invariant ReadState(sourceTs, records, raised) == ReadAll(old(sourceTs), items[..i], eoio, minTs)
        invariant !raised
      {
        assert items[..i + 1][..i] == items[..i];
        match items[i]
        case Data(out) =>
          records := records + [out];
        case Mark(source, maxTs) =>
          if eoio {
            if maxTs == None {
              raised := true;
              ReadStops(old(sourceTs), items, i + 1, eoio, minTs);
              return;
            }
            if source !in sourceTs {
              sourceTs := sourceTs[source := maxTs.value];
            } else {
              sourceTs := sourceTs[source := Max(maxTs.value, sourceTs[source])];
            }
          } else {
            sourceTs := sourceTs[source := minTs];
          }
      }
      assert items[..|items|] == items;
    }

    /** Nothing is loaded for an empty answer, so its watermarks stay in memory only. */
    method Once(items: seq<Item>, reply: Reply) returns (ok: bool)
      modifies this`sourceTs, dest
      ensures var st := ReadAll(old(sourceTs), items, eoio, minTs);
              && sourceTs == st.ts
              && dest.log == (if st.raised || st.records == [] || reply.Refused? then old(dest.log)
                              else old(dest.log) + [Commit(st.records, st.ts)])
              && (ok <==> !st.raised && (st.records == [] || reply.Committed?))
      ensures (eoio ==> forall i :: 0 <= i < |items| ==> !Blank(items[i])) ==>
                && Moved(old(sourceTs), items, eoio, minTs, sourceTs)
                && dest.log == (if OutsOf(items) == [] || reply.Refused? then old(dest.log)
                                else old(dest.log) + [Commit(OutsOf(items), sourceTs)])
      ensures (eoio && exists i :: 0 <= i < |items| && Blank(items[i])) ==> !ok && dest.log == old(dest.log)
    {
      hide Moved, ReadAll;
      var records, raised, n := Read(items);
      assert items[..|items|] == items;
      if raised {
        return false;
      }
      ok := true;
      if |records| != 0 {
        ok := dest.Load(records, sourceTs, reply);
      }
    }
  }

  lemma {:induction false} ReadStops(ts: map<Source, int>, items: seq<Item>, i: nat, eoio: bool, minTs: int)
    requires i <= |items| && ReadAll(ts, items[..i], eoio, minTs).raised
    ensures ReadAll(ts, items, eoio, minTs) == ReadAll(ts, items[..i], eoio, minTs)
    decreases |items|
  {
    if i == |items| {
      assert items[..i] == items;
    } else {
      var front := items[..|items| - 1];
      assert front[..i] == items[..i];
      ReadStops(ts, front, i, eoio, minTs);
    }
  }
}
