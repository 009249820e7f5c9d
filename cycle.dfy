/**
 * One host's collection cycle: `run` in plugins/rabbitmq.js chains the nodes, vhosts and
 * queues stages with `async.waterfall`. Each stage fetches its API path, transforms the
 * reply into a series, and flushes the points `writeStats` makes of it; the first error
 * skips every later stage and ends the process with exit code 1.
 */
module Cycle {
  import opened Wrappers
  import opened Json
  import opened Series
  import opened Collector

  /** What `getInfo` hands each stage: the parsed reply, or the request or parse error. */
  datatype Replies = Replies(nodes: Result<Json, Error>, vhosts: Result<Json, Error>, queues: Result<Json, Error>)

  /** What one host's cycle does, in order. */
  datatype Event =
    | Fetch(path: string)        // `getInfo(host, path, ...)`
    | Flush(points: seq<Point>)  // `this.flush(tmp, callback)`
    | Exit(code: int)            // `process.exit(1)` after an error
    | Done                       // the waterfall's final callback without an error

  /** The waterfall's stages, in order (the exchanges stage is commented out). */
  const STAGES: seq<Category> := [Nodes, Vhosts, Queues]

  function Reply(replies: Replies, c: Category): Result<Json, Error> {
    match c
    case Nodes => replies.nodes
    case Vhosts => replies.vhosts
    case Queues => replies.queues
  }

  /** Replies the transforms can be applied to. */
  predicate RepliesModelled(replies: Replies) {
    forall k :: 0 <= k < |STAGES| ==>
      Reply(replies, STAGES[k]).Ok? ==> AllAdmissible(STAGES[k], Entities(Reply(replies, STAGES[k]).value))
  }

  /** Stage `k`: its reply's error, its transform's error, or the points it flushes. */
  function StageResult(host: string, replies: Replies, k: nat): Result<seq<Point>, Error>
    requires RepliesModelled(replies) && k < |STAGES|
  {
    var c := STAGES[k];
    match Reply(replies, c)
    case Err(e) => Err(e)
    case Ok(json) =>
      match SeriesOf(c, Entities(json))
      case Err(e) => Err(e)
      case Ok(series) => Ok(Points(StatName(c), host, series))
  }

  /** A stage's outcome: its error, or the points it flushed. */
  type Outcome = Result<seq<Point>, Error>

  /** The outcomes of the three stages, were each of them run. */
  function Outcomes(host: string, replies: Replies): (rs: seq<Outcome>)
    requires RepliesModelled(replies)
    ensures |rs| == |STAGES|
    ensures forall k :: 0 <= k < |STAGES| ==> rs[k] == StageResult(host, replies, k)
  {
    [StageResult(host, replies, 0), StageResult(host, replies, 1), StageResult(host, replies, 2)]
  }

  /** The events from stage `k` on, given every stage's outcome. */
  function CycleFrom(rs: seq<Outcome>, k: nat): seq<Event>
    requires |rs| == |STAGES| && k <= |STAGES|
    decreases |STAGES| - k
  {
    if k == |STAGES| then [Done]
    else
      [Fetch(ApiPath(STAGES[k]))] +
      match rs[k]
      case Err(_) => [Exit(1)]
      case Ok(points) => [Flush(points)] + CycleFrom(rs, k + 1)
  }

  /** The events of one host's cycle. */
  function HostCycle(host: string, replies: Replies): seq<Event>
    requires RepliesModelled(replies)
  {
    CycleFrom(Outcomes(host, replies), 0)
  }

  /** One stage: the reply, the transform's series, and the points `writeStats` makes of it. */
  method RunStage(host: string, replies: Replies, k: nat) returns (r: Outcome)
    requires RepliesModelled(replies) && k < |STAGES|
    ensures r == StageResult(host, replies, k)
  {
    var c := STAGES[k];
    var reply := Reply(replies, c);
    if reply.Err? {
      return Err(reply.error);
    }
    var series := BuildSeries(c, reply.value);
    if series.Err? {
      return Err(series.error);
    }
    var points := WriteStats(StatName(c), host, series.value);
    r := Ok(points);
  }

  /** The events of stage `k` and after, by the stage's outcome. */
  lemma CycleStep(rs: seq<Outcome>, k: nat)
    requires |rs| == |STAGES| && k < |STAGES|
    ensures rs[k].Err? ==> CycleFrom(rs, k) == [Fetch(ApiPath(STAGES[k])), Exit(1)]
    ensures rs[k].Ok? ==> CycleFrom(rs, k) == [Fetch(ApiPath(STAGES[k])), Flush(rs[k].value)] + CycleFrom(rs, k + 1)
  {
  }

  /** The waterfall for one host, stage by stage. */
  method RunHost(host: string, replies: Replies) returns (trace: seq<Event>)
    requires RepliesModelled(replies)
    ensures trace == HostCycle(host, replies)
  {
    ghost var rs := Outcomes(host, replies);
    trace := [];
    var k := 0;
    while k < |STAGES|
      invariant 0 <= k <= |STAGES|
      invariant trace + CycleFrom(rs, k) == HostCycle(host, replies)
    {
      CycleStep(rs, k);
      var before := trace;
      var outcome := RunStage(host, replies, k);
      if outcome.Err? {
        trace := trace + [Fetch(ApiPath(STAGES[k])), Exit(1)];
        return;
      }
      trace := trace + [Fetch(ApiPath(STAGES[k])), Flush(outcome.value)];
      assert before + ([Fetch(ApiPath(STAGES[k])), Flush(outcome.value)] + CycleFrom(rs, k + 1))
          == trace + CycleFrom(rs, k + 1);
      k := k + 1;
    }
    trace := trace + [Done];
  }

  /** The first failing stage from `k` on, or `|STAGES|` when none fails. */
  function FirstFailure(rs: seq<Outcome>, k: nat): (n: nat)
    requires |rs| == |STAGES| && k <= |STAGES|
    ensures k <= n <= |STAGES|
    ensures forall j :: k <= j < n ==> rs[j].Ok?
    ensures n < |STAGES| ==> rs[n].Err?
    decreases |STAGES| - k
  {
    if k == |STAGES| then k
    else if rs[k].Err? then k
    else FirstFailure(rs, k + 1)
  }

  /** The API paths the trace fetches, in order. */
  function Fetched(trace: seq<Event>): seq<string> {
    if trace == [] then []
    else (if trace[0].Fetch? then [trace[0].path] else []) + Fetched(trace[1..])
  }

  /** The point lists the trace flushes, in order. */
  function Flushed(trace: seq<Event>): seq<seq<Point>> {
    if trace == [] then []
    else (if trace[0].Flush? then [trace[0].points] else []) + Flushed(trace[1..])
  }

  const PATHS: seq<string> := ["nodes", "vhosts", "queues"]

  lemma PathsOfStages()
    ensures forall k :: 0 <= k < |STAGES| ==> ApiPath(STAGES[k]) == PATHS[k]
  {
  }

  lemma FilterSteps(a: Event, b: Event, rest: seq<Event>)
    ensures Fetched([a, b] + rest) == Fetched([a]) + Fetched([b]) + Fetched(rest)
    ensures Flushed([a, b] + rest) == Flushed([a]) + Flushed([b]) + Flushed(rest)
  {
    assert [a, b] + rest == [a] + ([b] + rest);
    FetchedCons(a, [b] + rest);
    FetchedCons(b, rest);
    FlushedCons(a, [b] + rest);
    FlushedCons(b, rest);
  }

  lemma FetchedCons(e: Event, rest: seq<Event>)
    ensures Fetched([e] + rest) == Fetched([e]) + Fetched(rest)
  {
    assert ([e] + rest)[1..] == rest;
    assert [e][1..] == [];
  }

  lemma FlushedCons(e: Event, rest: seq<Event>)
    ensures Flushed([e] + rest) == Flushed([e]) + Flushed(rest)
  {
    assert ([e] + rest)[1..] == rest;
    assert [e][1..] == [];
  }

  /**
   * The stages from `k` on are fetched in order up to and including the first failing
   * one, and none after it.
   */
  lemma {:induction false} FetchedFrom(rs: seq<Outcome>, k: nat)
    requires |rs| == |STAGES| && k <= |STAGES|
    ensures var n := FirstFailure(rs, k);
      Fetched(CycleFrom(rs, k)) == PATHS[k..if n < |STAGES| then n + 1 else |STAGES|]
    decreases |STAGES| - k
  {
    if k < |STAGES| {
      CycleStep(rs, k);
      PathsOfStages();
      if rs[k].Err? {
        FilterSteps(Fetch(PATHS[k]), Exit(1), []);
      } else {
        FetchedFrom(rs, k + 1);
        FetchedStep(rs, k, Fetched(CycleFrom(rs, k + 1)));
      }
    }
  }

  /** A successful stage puts its path in front of those of the later stages. */
  lemma FetchedStep(rs: seq<Outcome>, k: nat, rest: seq<string>)
    requires |rs| == |STAGES| && k < |STAGES| && rs[k].Ok?
    requires rest == Fetched(CycleFrom(rs, k + 1))
    requires var n := FirstFailure(rs, k + 1);
      rest == PATHS[k + 1..if n < |STAGES| then n + 1 else |STAGES|]
    ensures var n := FirstFailure(rs, k);
      Fetched(CycleFrom(rs, k)) == PATHS[k..if n < |STAGES| then n + 1 else |STAGES|]
  {
    CycleStep(rs, k);
    PathsOfStages();
    FilterSteps(Fetch(PATHS[k]), Flush(rs[k].value), CycleFrom(rs, k + 1));
    var n := FirstFailure(rs, k);
    var m := if n < |STAGES| then n + 1 else |STAGES|;
    assert PATHS[k..m] == [PATHS[k]] + PATHS[k + 1..m];
  }

  /** The stages from `k` up to the first failing one each flush their points, in order. */
  lemma {:induction false} FlushedFrom(rs: seq<Outcome>, k: nat)
    requires |rs| == |STAGES| && k <= |STAGES|
    ensures |Flushed(CycleFrom(rs, k))| == FirstFailure(rs, k) - k
    ensures forall i :: 0 <= i < |Flushed(CycleFrom(rs, k))| ==> rs[k + i] == Ok(Flushed(CycleFrom(rs, k))[i])
    decreases |STAGES| - k
  {
    if k < |STAGES| {
      CycleStep(rs, k);
      if rs[k].Err? {
        FilterSteps(Fetch(ApiPath(STAGES[k])), Exit(1), []);
      } else {
        FlushedFrom(rs, k + 1);
        FlushedStep(rs, k, Flushed(CycleFrom(rs, k + 1)));
      }
    }
  }

  /** A successful stage puts its points in front of those of the later stages. */
  lemma FlushedStep(rs: seq<Outcome>, k: nat, rest: seq<seq<Point>>)
    requires |rs| == |STAGES| && k < |STAGES| && rs[k].Ok?
    requires rest == Flushed(CycleFrom(rs, k + 1))
    requires |rest| == FirstFailure(rs, k + 1) - (k + 1)
    requires forall i :: 0 <= i < |rest| ==> rs[k + 1 + i] == Ok(rest[i])
    ensures |Flushed(CycleFrom(rs, k))| == FirstFailure(rs, k) - k
    ensures forall i :: 0 <= i < |Flushed(CycleFrom(rs, k))| ==> rs[k + i] == Ok(Flushed(CycleFrom(rs, k))[i])
  {
    CycleStep(rs, k);
    FilterSteps(Fetch(ApiPath(STAGES[k])), Flush(rs[k].value), CycleFrom(rs, k + 1));
    var f := Flushed(CycleFrom(rs, k));
    assert f == [rs[k].value] + rest;
    forall i | 0 <= i < |f| ensures rs[k + i] == Ok(f[i]) {
      if i > 0 {
        assert f[i] == rest[i - 1];
        assert rs[k + 1 + (i - 1)] == Ok(rest[i - 1]);
      }
    }
  }

  /** The cycle from `k` ends in `exit(1)` exactly when a stage from `k` on fails, and otherwise completes. */
  lemma {:induction false} EndsFrom(rs: seq<Outcome>, k: nat)
    requires |rs| == |STAGES| && k <= |STAGES|
    ensures |CycleFrom(rs, k)| >= 1
    ensures var t := CycleFrom(rs, k);
      t[|t| - 1] == if FirstFailure(rs, k) < |STAGES| then Exit(1) else Done
    ensures Exit(1) in CycleFrom(rs, k) <==> FirstFailure(rs, k) < |STAGES|
    ensures Done in CycleFrom(rs, k) <==> FirstFailure(rs, k) == |STAGES|
    decreases |STAGES| - k
  {
    if k < |STAGES| {
      CycleStep(rs, k);
      if rs[k].Ok? {
        EndsFrom(rs, k + 1);
        var rest := CycleFrom(rs, k + 1);
        var t := CycleFrom(rs, k);
        assert t == [Fetch(ApiPath(STAGES[k])), Flush(rs[k].value)] + rest;
        assert t[|t| - 1] == rest[|rest| - 1];
        assert Exit(1) in t <==> Exit(1) in rest;
        assert Done in t <==> Done in rest;
      }
    }
  }

  /**
   * A host's cycle: stages are fetched strictly in the order nodes, vhosts, queues; a stage
   * runs only when every earlier one succeeded; each successful stage flushes the points
   * of its series; the first failure ends the cycle in exit code 1 and nothing after it runs.
   */
  lemma HostCycleSpec(host: string, replies: Replies)
    requires RepliesModelled(replies)
    ensures var n := FirstFailure(Outcomes(host, replies), 0);
      && Fetched(HostCycle(host, replies)) == PATHS[..if n < |STAGES| then n + 1 else |STAGES|]
      && |Flushed(HostCycle(host, replies))| == n
      && (forall k :: 0 <= k < n ==> StageResult(host, replies, k) == Ok(Flushed(HostCycle(host, replies))[k]))
      && (Exit(1) in HostCycle(host, replies) <==> n < |STAGES|)
      && HostCycle(host, replies)[|HostCycle(host, replies)| - 1] == if n < |STAGES| then Exit(1) else Done
  {
    var rs := Outcomes(host, replies);
    FetchedFrom(rs, 0);
    FlushedFrom(rs, 0);
    EndsFrom(rs, 0);
  }

  /** Stage `k` is fetched exactly when every earlier stage succeeded. */
  lemma StageRunsIff(host: string, replies: Replies, k: nat)
    requires RepliesModelled(replies) && k < |STAGES|
    ensures PATHS[k] in Fetched(HostCycle(host, replies)) <==>
      forall j :: 0 <= j < k ==> StageResult(host, replies, j).Ok?
  {
    var rs := Outcomes(host, replies);
    FetchedFrom(rs, 0);
    var n := FirstFailure(rs, 0);
    var m := if n < |STAGES| then n + 1 else |STAGES|;
    var f := PATHS[..m];
    if PATHS[k] in f {
      var i :| 0 <= i < |f| && f[i] == PATHS[k];
      assert i == k;
    }
    if forall j :: 0 <= j < k ==> rs[j].Ok? {
      assert k <= n;
      assert f[k] == PATHS[k];
    }
  }

  /**
   * A queues request that fails after two empty replies: two empty flushes, then exit 1.
   * This takes a flush of no points to complete, as the `Flush` event does.
   */
  lemma QueuesTransportError(host: string)
    ensures var replies := Replies(Ok(JArr([])), Ok(JArr([])), Err(TransportError));
      RepliesModelled(replies) &&
      HostCycle(host, replies) == [Fetch("nodes"), Flush([]), Fetch("vhosts"), Flush([]), Fetch("queues"), Exit(1)]
  {
    var replies := Replies(Ok(JArr([])), Ok(JArr([])), Err(TransportError));
    assert RepliesModelled(replies);
    var rs := Outcomes(host, replies);
    assert rs[0] == Ok([]) && rs[1] == Ok([]) && rs[2] == Err(TransportError);
    CycleStep(rs, 0);
    CycleStep(rs, 1);
    CycleStep(rs, 2);
  }
}
