/**
 * The per-category transforms of `sendNodesStats`, `sendVhostsStats` and
 * `sendQueuesStats` in plugins/rabbitmq.js: each broker entity becomes one
 * `{tags, metrics}` entry of the series handed to `writeStats`.
 */
module Collector {
  import opened Wrappers
  import opened Objects
  import opened Json
  import opened Paths
  import opened Extract
  import opened Series

  /** `Math.round`: the nearest integer, halves rounded up. */
  function Round(x: real): (r: int)
    ensures r as real - 0.5 <= x < r as real + 0.5
  {
    (x + 0.5).Floor
  }

  /** `Math.round(100 * used / limit)`. */
  function Percent(used: real, limit: real): int
    requires limit != 0.0
  {
    Round(100.0 * used / limit)
  }

  /** For integers and a positive denominator the percentage is an integer division. */
  lemma PercentOfIntegers(a: int, b: int)
    requires b > 0
    ensures Percent(a as real, b as real) == (200 * a + b) / (2 * b)
  {
    var n, d := 200 * a + b, 2 * b;
    var q, rem := n / d, n % d;
    assert n == q * d + rem && 0 <= rem < d;
    var x := 100.0 * (a as real) / (b as real);
    assert x * (b as real) == 100.0 * (a as real);
    var y := x + 0.5;
    assert y * (d as real) == n as real;
    assert (q as real) * (d as real) <= n as real;
    assert n as real < (q as real + 1.0) * (d as real);
    DivideBounds(q as real, y, q as real + 1.0, d as real);
  }

  /** Dividing both bounds by a positive number. */
  lemma DivideBounds(lo: real, y: real, hi: real, d: real)
    requires d > 0.0
    requires lo * d <= y * d < hi * d
    ensures lo <= y < hi
  {
  }

  /** 50 of 200 is 25 percent, 3 of 10 is 30, 1 of 2 is 50. */
  lemma PercentExamples()
    ensures Percent(50.0, 200.0) == 25
    ensures Percent(3.0, 10.0) == 30
    ensures Percent(1.0, 2.0) == 50
  {
    PercentOfIntegers(50, 200);
    PercentOfIntegers(3, 10);
    PercentOfIntegers(1, 2);
  }

  /** A lookup that succeeded with a number. */
  predicate IsNumber(r: Result<Json, Error>) {
    r.Ok? && r.value.JNum?
  }

  /** A lookup that succeeded with a non-zero number. */
  predicate IsNonZero(r: Result<Json, Error>) {
    IsNumber(r) && r.value.n != 0.0
  }

  /** The percentage of the number at `limit` that the number at `used` is. */
  function Ratio(obj: Json, used: string, limit: string): int
    requires IsNumber(Resolve(obj, used, ZERO)) && IsNonZero(Resolve(obj, limit, ZERO))
  {
    Percent(Resolve(obj, used, ZERO).value.n, Resolve(obj, limit, ZERO).value.n)
  }

  /** The fields `sendNodesStats` extracts from a node. */
  const NODE_SPECS: seq<FieldSpec> :=
    [Bare("mem_used"), Bare("sockets_used"), Bare("disk_free"), Bare("mem_limit"), Bare("sockets_total")]

  const NODE_MOVES: Props<string> :=
    [("mem_used", "mem_used"), ("sockets_used", "sockets_used"), ("disk_free", "disk_free"),
     ("mem_limit", "mem_limit"), ("sockets_total", "sockets_total")]

  lemma NodeMoves()
    ensures Assignments(NODE_SPECS) == NODE_MOVES
  {
    var s := NODE_SPECS;
    assert s[..0] == [] && s[..5] == s;
    AssignmentsTake(s, 0);
    AssignmentsTake(s, 1);
    AssignmentsTake(s, 2);
    AssignmentsTake(s, 3);
    AssignmentsTake(s, 4);
  }

  lemma NodeMovesFlat()
    ensures DistinctKeys(NODE_MOVES)
    ensures forall i :: 0 <= i < |NODE_MOVES| ==> '.' !in NODE_MOVES[i].1
  {
  }

  /** `value` of `path` on `obj` succeeded and is what `metrics` holds under `key`. */
  ghost predicate Extracted(metrics: Fields, key: string, obj: Json, path: string) {
    Get(metrics, key).Some? && Resolve(obj, path, ZERO) == Ok(Get(metrics, key).value)
  }

  /** Every assignment of a list of dot-free moves, as a property of the result of `values`. */
  lemma FlatFields(obj: Json, moves: Props<string>)
    requires obj != JNull
    requires DistinctKeys(moves)
    requires forall i :: 0 <= i < |moves| ==> '.' !in moves[i].1
    ensures AssignAll(obj, moves).Ok?
    ensures KeySeq(AssignAll(obj, moves).value) == KeySeq(moves)
    ensures forall i :: 0 <= i < |moves| ==> Extracted(AssignAll(obj, moves).value, moves[i].0, obj, moves[i].1)
  {
    FlatLookups(obj, moves);
    AssignAllDistinct(obj, moves);
  }

  /**
   * Nodes whose ratios the model can compute: the used counts resolve to numbers and the
   * limits to non-zero numbers (a JavaScript division by a zero or missing limit gives
   * Infinity or NaN, and `parseFloat` of a string is not modelled).
   */
  predicate NodeRatiosDefined(node: Json) {
    node != JNull ==>
      && IsNumber(Resolve(node, "mem_used", ZERO)) && IsNonZero(Resolve(node, "mem_limit", ZERO))
      && IsNumber(Resolve(node, "sockets_used", ZERO)) && IsNonZero(Resolve(node, "sockets_total", ZERO))
  }

  /** What `values` extracts from a node: each field is the lookup of its own name. */
  lemma NodeFields(node: Json)
    requires node != JNull
    ensures AssignAll(node, NODE_MOVES).Ok?
    ensures var values := AssignAll(node, NODE_MOVES).value;
      && Extracted(values, "mem_used", node, "mem_used")
      && Extracted(values, "sockets_used", node, "sockets_used")
      && Extracted(values, "disk_free", node, "disk_free")
      && Extracted(values, "mem_limit", node, "mem_limit")
      && Extracted(values, "sockets_total", node, "sockets_total")
  {
    NodeMovesFlat();
    FlatFields(node, NODE_MOVES);
    var m := NODE_MOVES;
    assert m[0] == ("mem_used", "mem_used") && m[1] == ("sockets_used", "sockets_used");
    assert m[2] == ("disk_free", "disk_free") && m[3] == ("mem_limit", "mem_limit");
    assert m[4] == ("sockets_total", "sockets_total");
  }

  /** The metrics of a node entry built from the node's extracted fields. */
  function NodeMetrics(values: Fields): Fields
    requires Get(values, "mem_used").Some? && Get(values, "mem_used").value.JNum?
    requires Get(values, "mem_limit").Some? && Get(values, "mem_limit").value.JNum?
    requires Get(values, "mem_limit").value.n != 0.0
    requires Get(values, "sockets_used").Some? && Get(values, "sockets_used").value.JNum?
    requires Get(values, "sockets_total").Some? && Get(values, "sockets_total").value.JNum?
    requires Get(values, "sockets_total").value.n != 0.0
    requires Get(values, "disk_free").Some?
  {
    [("mem", JNum(Percent(Get(values, "mem_used").value.n, Get(values, "mem_limit").value.n) as real)),
     ("sockets", JNum(Percent(Get(values, "sockets_used").value.n, Get(values, "sockets_total").value.n) as real)),
     ("disk_free", Get(values, "disk_free").value)]
  }

  /** The node metric keys, and `disk_free` as extracted. */
  lemma NodeMetricsDisk(node: Json, values: Fields)
    requires Extracted(values, "disk_free", node, "disk_free")
    requires && Get(values, "mem_used").Some? && Get(values, "mem_limit").Some?
             && Get(values, "sockets_used").Some? && Get(values, "sockets_total").Some?
    requires && Get(values, "mem_used").value.JNum? && Get(values, "mem_limit").value.JNum?
             && Get(values, "sockets_used").value.JNum? && Get(values, "sockets_total").value.JNum?
    requires Get(values, "mem_limit").value.n != 0.0 && Get(values, "sockets_total").value.n != 0.0
    ensures KeySeq(NodeMetrics(values)) == ["mem", "sockets", "disk_free"]
    ensures Extracted(NodeMetrics(values), "disk_free", node, "disk_free")
  {
    var m := NodeMetrics(values);
    var t := m[1..];
    assert Get(m, "disk_free") == Get(t, "disk_free");
    assert Get(t, "disk_free") == Get(t[1..], "disk_free");
  }

  /** The node ratios, in terms of the node's own fields. */
  lemma NodeMetricsRatios(node: Json, values: Fields)
    requires NodeRatiosDefined(node) && node != JNull
    requires Extracted(values, "mem_used", node, "mem_used")
    requires Extracted(values, "sockets_used", node, "sockets_used")
    requires Extracted(values, "disk_free", node, "disk_free")
    requires Extracted(values, "mem_limit", node, "mem_limit")
    requires Extracted(values, "sockets_total", node, "sockets_total")
    ensures Get(NodeMetrics(values), "mem") ==
      Some(JNum(Ratio(node, "mem_used", "mem_limit") as real))
    ensures Get(NodeMetrics(values), "sockets") ==
      Some(JNum(Ratio(node, "sockets_used", "sockets_total") as real))
  {
  }

  /** A node entry; only a `null` node makes the transform throw. */
  function NodeEntry(node: Json): (r: Result<Entry, Error>)
    requires NodeRatiosDefined(node)
    ensures r.Err? <==> node == JNull
    ensures r.Err? ==> r.error == TypeError
  {
    if node == JNull then Err(TypeError)
    else
      NodeFields(node);
      Ok(Entry([("name", Property(node, "name"))], NodeMetrics(AssignAll(node, NODE_MOVES).value)))
  }

  /**
   * A node entry has tags `{name}`, and metrics `mem` and `sockets` as rounded percentages
   * of the limits and `disk_free` as found, in that order.
   */
  lemma NodeEntrySpec(node: Json)
    requires NodeRatiosDefined(node) && node != JNull
    ensures NodeEntry(node).value.tags == [("name", Property(node, "name"))]
    ensures KeySeq(NodeEntry(node).value.metrics) == ["mem", "sockets", "disk_free"]
    ensures Get(NodeEntry(node).value.metrics, "mem") == Some(JNum(Ratio(node, "mem_used", "mem_limit") as real))
    ensures Get(NodeEntry(node).value.metrics, "sockets") ==
      Some(JNum(Ratio(node, "sockets_used", "sockets_total") as real))
    ensures Extracted(NodeEntry(node).value.metrics, "disk_free", node, "disk_free")
  {
    NodeFields(node);
    var values := AssignAll(node, NODE_MOVES).value;
    NodeMetricsDisk(node, values);
    NodeMetricsRatios(node, values);
  }

  /** The fields `sendVhostsStats` extracts: `messages_unack` is read from `messages_unacknowledged`. */
  const VHOST_SPECS: seq<FieldSpec> :=
    [Bare("messages"), Bare("messages_ready"), Remap([("messages_unack", "messages_unacknowledged")])]

  const VHOST_MOVES: Props<string> :=
    [("messages", "messages"), ("messages_ready", "messages_ready"), ("messages_unack", "messages_unacknowledged")]

  /** The fields `sendQueuesStats` extracts: those of a vhost and `consumers`. */
  const QUEUE_SPECS: seq<FieldSpec> := VHOST_SPECS + [Bare("consumers")]

  const QUEUE_MOVES: Props<string> := VHOST_MOVES + [("consumers", "consumers")]

  lemma VhostMoves()
    ensures Assignments(VHOST_SPECS) == VHOST_MOVES
  {
    var s := VHOST_SPECS;
    assert s[..0] == [] && s[..3] == s;
    AssignmentsTake(s, 0);
    AssignmentsTake(s, 1);
    AssignmentsTake(s, 2);
    assert Moves(s[2]) == [("messages_unack", "messages_unacknowledged")];
  }

  lemma QueueMoves()
    ensures Assignments(QUEUE_SPECS) == QUEUE_MOVES
  {
    var s := QUEUE_SPECS;
    VhostMoves();
    assert s[..3] == VHOST_SPECS && s[..4] == s;
    AssignmentsTake(s, 3);
  }

  lemma VhostMovesFlat()
    ensures DistinctKeys(VHOST_MOVES)
    ensures forall i :: 0 <= i < |VHOST_MOVES| ==> '.' !in VHOST_MOVES[i].1
  {
  }

  lemma QueueMovesFlat()
    ensures DistinctKeys(QUEUE_MOVES)
    ensures forall i :: 0 <= i < |QUEUE_MOVES| ==> '.' !in QUEUE_MOVES[i].1
  {
  }

  /** The message metrics of an extracted object, as found at their source paths. */
  ghost predicate MessageMetrics(obj: Json, metrics: Fields) {
    && Extracted(metrics, "messages", obj, "messages")
    && Extracted(metrics, "messages_ready", obj, "messages_ready")
    && Extracted(metrics, "messages_unack", obj, "messages_unacknowledged")
  }

  /** A vhost entry; only a `null` vhost makes the transform throw. */
  function VhostEntry(vhost: Json): (r: Result<Entry, Error>)
    ensures r.Err? <==> vhost == JNull
    ensures r.Err? ==> r.error == TypeError
  {
    if vhost == JNull then Err(TypeError)
    else
      VhostMovesFlat();
      FlatLookups(vhost, VHOST_MOVES);
      Ok(Entry([("vhost", Property(vhost, "name"))], AssignAll(vhost, VHOST_MOVES).value))
  }

  /** A vhost entry has tags `{vhost: name}`, and metrics `messages`, `messages_ready` and `messages_unack`. */
  lemma VhostEntryShape(vhost: Json)
    requires vhost != JNull
    ensures VhostEntry(vhost).value.tags == [("vhost", Property(vhost, "name"))]
    ensures KeySeq(VhostEntry(vhost).value.metrics) == ["messages", "messages_ready", "messages_unack"]
  {
    VhostMovesFlat();
    FlatFields(vhost, VHOST_MOVES);
  }

  /** The vhost metrics are the lookups of their fields, `messages_unack` that of `messages_unacknowledged`. */
  lemma VhostEntryMetrics(vhost: Json)
    requires vhost != JNull
    ensures MessageMetrics(vhost, VhostEntry(vhost).value.metrics)
  {
    VhostMovesFlat();
    FlatFields(vhost, VHOST_MOVES);
    var m := VHOST_MOVES;
    var values := AssignAll(vhost, m).value;
    assert m[0] == ("messages", "messages") && m[1] == ("messages_ready", "messages_ready");
    assert m[2] == ("messages_unack", "messages_unacknowledged");
    assert Extracted(values, m[0].0, vhost, m[0].1) && Extracted(values, m[1].0, vhost, m[1].1);
    assert Extracted(values, m[2].0, vhost, m[2].1);
  }

  /** A queue entry; only a `null` queue makes the transform throw. */
  function QueueEntry(queue: Json): (r: Result<Entry, Error>)
    ensures r.Err? <==> queue == JNull
    ensures r.Err? ==> r.error == TypeError
  {
    if queue == JNull then Err(TypeError)
    else
      QueueMovesFlat();
      FlatLookups(queue, QUEUE_MOVES);
      Ok(Entry([("vhost", Property(queue, "vhost")), ("queue", Property(queue, "name"))],
               AssignAll(queue, QUEUE_MOVES).value))
  }

  /**
   * A queue entry has tags `{vhost, queue: name}`, and the vhost metrics followed by
   * `consumers`.
   */
  lemma QueueEntrySpec(queue: Json)
    requires queue != JNull
    ensures QueueEntry(queue).value.tags == [("vhost", Property(queue, "vhost")), ("queue", Property(queue, "name"))]
    ensures KeySeq(QueueEntry(queue).value.metrics) == ["messages", "messages_ready", "messages_unack", "consumers"]
    ensures MessageMetrics(queue, QueueEntry(queue).value.metrics)
    ensures Extracted(QueueEntry(queue).value.metrics, "consumers", queue, "consumers")
  {
    QueueMovesFlat();
    FlatFields(queue, QUEUE_MOVES);
    assert QUEUE_MOVES[0].0 == "messages" && QUEUE_MOVES[1].0 == "messages_ready";
    assert QUEUE_MOVES[2] == ("messages_unack", "messages_unacknowledged");
    assert QUEUE_MOVES[3] == ("consumers", "consumers");
  }

  /** The three categories the per-host cycle collects, in the order it collects them. */
  datatype Category = Nodes | Vhosts | Queues

  /** The `type` tag `writeStats` adds to the category's points. */
  function StatName(c: Category): string {
    match c
    case Nodes => "node"
    case Vhosts => "vhost"
    case Queues => "queue"
  }

  /** The management API path `getInfo` requests for the category. */
  function ApiPath(c: Category): string {
    match c
    case Nodes => "nodes"
    case Vhosts => "vhosts"
    case Queues => "queues"
  }

  /** Entities the model can transform: only node ratios need defined numbers. */
  predicate Admissible(c: Category, e: Json) {
    c.Nodes? ==> NodeRatiosDefined(e)
  }

  /** The entry the category's transform builds from one entity. */
  function EntryFor(c: Category, e: Json): (r: Result<Entry, Error>)
    requires Admissible(c, e)
    ensures r.Err? <==> e == JNull
    ensures r.Err? ==> r.error == TypeError
  {
    match c
    case Nodes => NodeEntry(e)
    case Vhosts => VhostEntry(e)
    case Queues => QueueEntry(e)
  }

  /** Every entity of a list is admissible. */
  predicate AllAdmissible(c: Category, es: seq<Json>) {
    forall i :: 0 <= i < |es| ==> Admissible(c, es[i])
  }

  /** What the callback does with each entity, in order. */
  function Results(c: Category, es: seq<Json>): (rs: seq<Result<Entry, Error>>)
    requires AllAdmissible(c, es)
    ensures |rs| == |es|
    ensures forall i :: 0 <= i < |es| ==> rs[i] == EntryFor(c, es[i])
  {
    if es == [] then []
    else
      var pre := es[..|es| - 1];
      assert forall i :: 0 <= i < |pre| ==> pre[i] == es[i];
      Results(c, pre) + [EntryFor(c, es[|es| - 1])]
  }

  /** The pushed entries of a run of callbacks: the first thrown error ends the loop. */
  function Collect(rs: seq<Result<Entry, Error>>): Result<seq<Entry>, Error> {
    if rs == [] then Ok([])
    else match Collect(rs[..|rs| - 1])
      case Err(e) => Err(e)
      case Ok(s) =>
        match rs[|rs| - 1]
        case Err(e) => Err(e)
        case Ok(x) => Ok(s + [x])
  }

  /** The loop finishes exactly when every callback does, and then pushes every entry in order. */
  lemma {:induction false} CollectOk(rs: seq<Result<Entry, Error>>)
    ensures Collect(rs).Ok? <==> forall i :: 0 <= i < |rs| ==> rs[i].Ok?
    ensures Collect(rs).Ok? ==> |Collect(rs).value| == |rs|
    ensures Collect(rs).Ok? ==> forall i :: 0 <= i < |rs| ==> rs[i] == Ok(Collect(rs).value[i])
  {
    if rs != [] {
      var pre := rs[..|rs| - 1];
      CollectOk(pre);
      assert forall i :: 0 <= i < |pre| ==> pre[i] == rs[i];
    }
  }

  /** The error a loop stops with is the one the first failing callback throws. */
  lemma {:induction false} CollectFirstError(rs: seq<Result<Entry, Error>>, j: nat)
    requires j < |rs| && rs[j].Err?
    requires forall i :: 0 <= i < j ==> rs[i].Ok?
    ensures Collect(rs) == Err(rs[j].error)
  {
    var pre := rs[..|rs| - 1];
    if j < |rs| - 1 {
      assert forall i :: 0 <= i < |pre| ==> pre[i] == rs[i];
      CollectFirstError(pre, j);
    } else {
      assert forall i :: 0 <= i < |pre| ==> pre[i] == rs[i];
      CollectOk(pre);
    }
  }

  /** One more finished callback pushes its entry. */
  lemma CollectNext(rs: seq<Result<Entry, Error>>, i: nat)
    requires i < |rs| && Collect(rs[..i]).Ok? && rs[i].Ok?
    ensures Collect(rs[..i + 1]) == Ok(Collect(rs[..i]).value + [rs[i].value])
  {
    var done := rs[..i + 1];
    assert done[..i] == rs[..i] && done[i] == rs[i];
  }

  /** A callback that throws after finished ones ends the whole loop with its error. */
  lemma CollectStops(rs: seq<Result<Entry, Error>>, i: nat)
    requires i < |rs| && Collect(rs[..i]).Ok? && rs[i].Err?
    ensures Collect(rs) == Err(rs[i].error)
  {
    CollectOk(rs[..i]);
    assert forall k :: 0 <= k < i ==> rs[..i][k] == rs[k];
    CollectFirstError(rs, i);
  }

  /** The series a transform pushes, entity by entity. */
  function SeriesOf(c: Category, es: seq<Json>): Result<seq<Entry>, Error>
    requires AllAdmissible(c, es)
  {
    Collect(Results(c, es))
  }

  /**
   * A transform succeeds exactly when no entity is `null`, and then pushes one entry per
   * entity, in order; otherwise it throws a `TypeError`.
   */
  lemma SeriesOfSpec(c: Category, es: seq<Json>)
    requires AllAdmissible(c, es)
    ensures SeriesOf(c, es).Ok? <==> forall i :: 0 <= i < |es| ==> es[i] != JNull
    ensures SeriesOf(c, es).Err? ==> SeriesOf(c, es) == Err(TypeError)
    ensures SeriesOf(c, es).Ok? ==> |SeriesOf(c, es).value| == |es|
    ensures SeriesOf(c, es).Ok? ==>
      forall i :: 0 <= i < |es| ==> EntryFor(c, es[i]) == Ok(SeriesOf(c, es).value[i])
  {
    var rs := Results(c, es);
    CollectOk(rs);
    CollectErr(rs);
  }

  /** A loop's error is one that a callback threw. */
  lemma {:induction false} CollectErr(rs: seq<Result<Entry, Error>>)
    ensures Collect(rs).Err? ==> exists i :: 0 <= i < |rs| && rs[i] == Err(Collect(rs).error)
  {
    if rs != [] {
      var pre := rs[..|rs| - 1];
      CollectErr(pre);
      if Collect(pre).Err? {
        var i :| 0 <= i < |pre| && pre[i] == Err(Collect(pre).error);
        assert rs[i] == pre[i];
      }
    }
  }

  /** The entry of one entity, built as the category's callback builds it. */
  method EntryOf(c: Category, e: Json) returns (r: Result<Entry, Error>)
    requires Admissible(c, e)
    ensures r == EntryFor(c, e)
  {
    match c {
      case Nodes =>
        var values := Values(e, NODE_SPECS);
        NodeMoves();
        NodeMovesFlat();
        FlatLookups(e, NODE_MOVES);
        if values.Err? {
          AssignAllThrows(e, NODE_MOVES);
          return Err(values.error);
        }
        NodeFields(e);
        r := Ok(Entry([("name", Property(e, "name"))], NodeMetrics(values.value)));
      case Vhosts =>
        if e == JNull {
          return Err(TypeError);
        }
        var tags := [("vhost", Property(e, "name"))];
        var values := Values(e, VHOST_SPECS);
        VhostMoves();
        VhostMovesFlat();
        FlatLookups(e, VHOST_MOVES);
        r := Ok(Entry(tags, values.value));
      case Queues =>
        if e == JNull {
          return Err(TypeError);
        }
        var tags := [("vhost", Property(e, "vhost")), ("queue", Property(e, "name"))];
        var values := Values(e, QUEUE_SPECS);
        QueueMoves();
        QueueMovesFlat();
        FlatLookups(e, QUEUE_MOVES);
        r := Ok(Entry(tags, values.value));
    }
  }

  /** A transform's loop over `json || []`, pushing one entry per entity. */
  method BuildSeries(c: Category, json: Json) returns (r: Result<seq<Entry>, Error>)
    requires AllAdmissible(c, Entities(json))
    ensures r == SeriesOf(c, Entities(json))
  {
    var entities := Entities(json);
    ghost var rs := Results(c, entities);
    var series: seq<Entry> := [];
    var i := 0;
    while i < |entities|
      invariant 0 <= i <= |entities|
      invariant Collect(rs[..i]) == Ok(series)
    {
      var entry := EntryOf(c, entities[i]);
      assert entry == rs[i];
      if entry.Err? {
        CollectStops(rs, i);
        return Err(entry.error);
      }
      CollectNext(rs, i);
      series := series + [entry.value];
      i := i + 1;
    }
    assert rs[..i] == rs;
    r := Ok(series);
  }
}
