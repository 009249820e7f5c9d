/**
 * The exchange transform of `sendExchangesStats` in plugins/rabbitmq.js: system
 * (`amq.`-prefixed) and nameless exchanges are dropped, and every other exchange is
 * stored under the key `vhost + '|exchange|' + name`, a later exchange replacing an
 * earlier one with the same key.
 */
module Exchanges {
  import opened Wrappers
  import opened Objects
  import opened Json
  import opened Paths
  import opened Extract

  /** `/^amq\./.test(s)`. */
  predicate IsSystemName(s: string) {
    |s| >= 4 && s[..4] == "amq."
  }

  /**
   * Names whose string conversion the model spells out: arrays and objects, which
   * `RegExp.prototype.test` would stringify through their methods, are not covered.
   */
  predicate NameModelled(e: Json) {
    e != JNull && Property(e, "name").Some? ==> !Property(e, "name").value.JArr? && !Property(e, "name").value.JObj?
  }

  /**
   * The filter `false == /^amq\./.test(exchange.name) && exchange.name.length`: a
   * `null` exchange, or an undefined or `null` name that is not a system name, throws
   * when its `length` is read; a number or boolean has no length and is dropped.
   */
  function KeepExchange(e: Json): (r: Result<bool, Error>)
    requires NameModelled(e)
    ensures r.Err? <==> e == JNull || Property(e, "name") == None || Property(e, "name") == Some(JNull)
    ensures r.Err? ==> r.error == TypeError
    ensures r == Ok(true) <==>
      e != JNull && Property(e, "name").Some? && Property(e, "name").value.JStr?
      && Property(e, "name").value.s != [] && !IsSystemName(Property(e, "name").value.s)
  {
    if e == JNull then Err(TypeError)
    else match Property(e, "name")
      case None => Err(TypeError)
      case Some(JNull) => Err(TypeError)
      case Some(JStr(s)) => Ok(!IsSystemName(s) && |s| > 0)
      case Some(_) => Ok(false)
  }

  /** An exchange the filter keeps. */
  predicate Kept(e: Json)
    requires NameModelled(e)
  {
    KeepExchange(e) == Ok(true)
  }

  /** Exchanges the model covers: a kept one has a vhost whose string conversion is spelled out. */
  predicate ExchangeModelled(e: Json) {
    NameModelled(e) && (Kept(e) ==> ToJsString(Property(e, "vhost")).Some?)
  }

  predicate AllModelled(es: seq<Json>) {
    forall i :: 0 <= i < |es| ==> ExchangeModelled(es[i])
  }

  /** The series key `exchange['vhost'] + '|exchange|' + exchange.name` of a kept exchange. */
  function ExchangeKey(e: Json): string
    requires ExchangeModelled(e) && Kept(e)
  {
    ToJsString(Property(e, "vhost")).value + "|exchange|" + Property(e, "name").value.s
  }

  /** An exchange whose vhost name contains the key separator. */
  const SPLIT_IN_VHOST: Json := JObj([("vhost", JStr("a|exchange|b")), ("name", JStr("c"))])

  /** An exchange whose own name contains the key separator. */
  const SPLIT_IN_NAME: Json := JObj([("vhost", JStr("a")), ("name", JStr("b|exchange|c"))])

  /** The series key does not identify an exchange: two different kept exchanges share one. */
  lemma KeysCollide()
    ensures ExchangeModelled(SPLIT_IN_VHOST) && Kept(SPLIT_IN_VHOST)
    ensures ExchangeModelled(SPLIT_IN_NAME) && Kept(SPLIT_IN_NAME)
    ensures SPLIT_IN_VHOST != SPLIT_IN_NAME
    ensures ExchangeKey(SPLIT_IN_VHOST) == ExchangeKey(SPLIT_IN_NAME)
  {
    var f1, f2 := SPLIT_IN_VHOST.fields, SPLIT_IN_NAME.fields;
    assert Get(f1, "name") == Get(f1[1..], "name");
    assert Get(f2, "name") == Get(f2[1..], "name");
    assert SPLIT_IN_VHOST.fields[1] != SPLIT_IN_NAME.fields[1];
    assert !IsSystemName("b|exchange|c") by { assert "b|exchange|c"[..4][0] == 'b'; }
    assert "a|exchange|b" + "|exchange|" + "c" == "a" + "|exchange|" + "b|exchange|c";
  }

  /** The four publish counters and rates extracted from a kept exchange. */
  const EXCHANGE_SPECS: seq<FieldSpec> :=
    [Remap([("publish_in", "message_stats.publish_in")]),
     Remap([("publish_out", "message_stats.publish_out")]),
     Remap([("publish_in_rate", "message_stats.publish_in_details.rate")]),
     Remap([("publish_out_rate", "message_stats.publish_out_details.rate")])]

  const EXCHANGE_MOVES: Props<string> :=
    [("publish_in", "message_stats.publish_in"),
     ("publish_out", "message_stats.publish_out"),
     ("publish_in_rate", "message_stats.publish_in_details.rate"),
     ("publish_out_rate", "message_stats.publish_out_details.rate")]

  lemma ExchangeMoves()
    ensures Assignments(EXCHANGE_SPECS) == EXCHANGE_MOVES
  {
    var s := EXCHANGE_SPECS;
    assert s[..0] == [] && s[..4] == s;
    AssignmentsTake(s, 0);
    AssignmentsTake(s, 1);
    AssignmentsTake(s, 2);
    AssignmentsTake(s, 3);
  }

  /** The series object the transform fills: key to a one-element array of extracted values. */
  type ExchangeSeries = Props<seq<Fields>>

  /** One exchange, as the callback handles it, extracting `moves` from a kept one. */
  function Record(series: ExchangeSeries, e: Json, moves: Props<string>): Result<ExchangeSeries, Error>
    requires ExchangeModelled(e)
  {
    match KeepExchange(e)
    case Err(err) => Err(err)
    case Ok(keep) =>
      if !keep then Ok(series)
      else match AssignAll(e, moves)
        case Err(err) => Err(err)
        case Ok(values) => Ok(Put(series, ExchangeKey(e), [values]))
  }

  /** The series after every exchange, in order; the first thrown error ends it. */
  function ExchangesWith(es: seq<Json>, moves: Props<string>): Result<ExchangeSeries, Error>
    requires AllModelled(es)
  {
    if es == [] then Ok([])
    else
      var pre := es[..|es| - 1];
      assert forall i :: 0 <= i < |pre| ==> pre[i] == es[i];
      match ExchangesWith(pre, moves)
      case Err(err) => Err(err)
      case Ok(series) => Record(series, es[|es| - 1], moves)
  }

  /** The series `sendExchangesStats` builds from the exchanges. */
  function ExchangesOf(es: seq<Json>): Result<ExchangeSeries, Error>
    requires AllModelled(es)
  {
    ExchangesWith(es, EXCHANGE_MOVES)
  }

  /** An exchange the callback finishes on: the filter decides, and a kept one's values resolve. */
  predicate Survives(e: Json, moves: Props<string>)
    requires NameModelled(e)
  {
    KeepExchange(e).Ok? && (Kept(e) ==> AssignAll(e, moves).Ok?)
  }

  /** The transform finishes exactly when the callback finishes on every exchange. */
  lemma {:induction false} ExchangesOk(es: seq<Json>, moves: Props<string>)
    requires AllModelled(es)
    ensures ExchangesWith(es, moves).Ok? <==> forall i :: 0 <= i < |es| ==> Survives(es[i], moves)
  {
    if es != [] {
      var pre := es[..|es| - 1];
      assert forall i :: 0 <= i < |pre| ==> pre[i] == es[i];
      ExchangesOk(pre, moves);
    }
  }

  /** The keys of kept exchanges among the first `n`. */
  ghost function KeptKeys(es: seq<Json>, n: nat): set<string>
    requires n <= |es| && AllModelled(es)
  {
    set i | 0 <= i < n && Kept(es[i]) :: ExchangeKey(es[i])
  }

  /** The series has exactly one key per kept exchange, and no other. */
  lemma {:induction false} ExchangesKeys(es: seq<Json>, moves: Props<string>)
    requires AllModelled(es)
    requires ExchangesWith(es, moves).Ok?
    ensures Keys(ExchangesWith(es, moves).value) == KeptKeys(es, |es|)
  {
    if es != [] {
      var pre := es[..|es| - 1];
      var e := es[|es| - 1];
      assert forall i :: 0 <= i < |pre| ==> pre[i] == es[i];
      assert AllModelled(pre);
      ExchangesKeys(pre, moves);
      var series := ExchangesWith(pre, moves).value;
      assert KeptKeys(pre, |pre|) == KeptKeys(es, |pre|);
      if Kept(e) {
        PutKeys(series, ExchangeKey(e), [AssignAll(e, moves).value]);
        assert KeptKeys(es, |es|) == KeptKeys(es, |pre|) + {ExchangeKey(e)};
      } else {
        assert KeptKeys(es, |es|) == KeptKeys(es, |pre|);
      }
    }
  }

  /**
   * The series holds, under a kept exchange's key, the values of the last kept exchange
   * with that key.
   */
  lemma {:induction false} ExchangesLast(es: seq<Json>, moves: Props<string>, i: nat)
    requires AllModelled(es)
    requires ExchangesWith(es, moves).Ok?
    requires i < |es| && Kept(es[i])
    requires forall j :: i < j < |es| && Kept(es[j]) ==> ExchangeKey(es[j]) != ExchangeKey(es[i])
    ensures AssignAll(es[i], moves).Ok?
    ensures Get(ExchangesWith(es, moves).value, ExchangeKey(es[i])) == Some([AssignAll(es[i], moves).value])
  {
    var pre := es[..|es| - 1];
    var e := es[|es| - 1];
    assert forall j :: 0 <= j < |pre| ==> pre[j] == es[j];
    assert AllModelled(pre);
    if i == |es| - 1 {
    } else {
      ExchangesLast(pre, moves, i);
      if Kept(e) {
        assert ExchangeKey(e) != ExchangeKey(es[i]);
      }
    }
  }

  /**
   * Two exchanges with the same key collapse into one entry: of the two colliding
   * exchanges, the series keeps only the values of the later one.
   */
  lemma CollidingExchangeLost(moves: Props<string>)
    ensures AllModelled([SPLIT_IN_VHOST, SPLIT_IN_NAME])
    ensures Kept(SPLIT_IN_VHOST) && Kept(SPLIT_IN_NAME)
    ensures var r := ExchangesWith([SPLIT_IN_VHOST, SPLIT_IN_NAME], moves);
      r.Ok? ==>
        && Keys(r.value) == {ExchangeKey(SPLIT_IN_NAME)}
        && Get(r.value, ExchangeKey(SPLIT_IN_VHOST)) == Some([AssignAll(SPLIT_IN_NAME, moves).value])
  {
    KeysCollide();
    var es := [SPLIT_IN_VHOST, SPLIT_IN_NAME];
    assert es[0] == SPLIT_IN_VHOST && es[1] == SPLIT_IN_NAME;
    assert AllModelled(es);
    if ExchangesWith(es, moves).Ok? {
      ExchangesKeys(es, moves);
      ExchangesLast(es, moves, 1);
      assert KeptKeys(es, |es|) == {ExchangeKey(SPLIT_IN_NAME)} by {
        assert ExchangeKey(es[0]) == ExchangeKey(es[1]);
        assert forall x :: x in KeptKeys(es, |es|) ==> x == ExchangeKey(es[1]);
        assert ExchangeKey(es[1]) in KeptKeys(es, |es|);
      }
    }
  }

  /** Reading through a `null` property throws. */
  lemma NullStepThrows(obj: Json, p: string, q: string)
    requires Property(obj, p) == Some(JNull) && obj != JNull
    requires '.' !in p && '.' !in q
    ensures Resolve(obj, p + "." + q, ZERO) == Err(TypeError)
  {
    ResolveDotted(obj, p, q, ZERO);
    SplitNoSeparator(p, '.');
    assert Walk(obj, [p]) == Walk(JNull, [p][1..]);
    ResolveKey(JNull, q, ZERO);
  }

  /** A lookup that throws makes `values` throw. */
  lemma {:induction false} FailingMove(obj: Json, moves: Props<string>, i: nat)
    requires i < |moves| && Resolve(obj, moves[i].1, ZERO).Err?
    ensures AssignAll(obj, moves) == Err(TypeError)
  {
    assert !AllResolve(obj, moves);
    AssignAllOk(obj, moves);
    AssignAllThrows(obj, moves);
  }

  /** A kept exchange whose `message_stats` is `null` makes the callback throw. */
  lemma NullStatsThrow(series: ExchangeSeries, e: Json)
    requires ExchangeModelled(e) && Kept(e)
    requires Property(e, "message_stats") == Some(JNull)
    ensures Record(series, e, EXCHANGE_MOVES) == Err(TypeError)
  {
    var m := EXCHANGE_MOVES;
    assert m[0].1 == "message_stats" + "." + "publish_in";
    NullStepThrows(e, "message_stats", "publish_in");
    FailingMove(e, m, 0);
  }

  /** The series after one more exchange. */
  lemma ExchangesNext(es: seq<Json>, moves: Props<string>, i: nat)
    requires AllModelled(es) && i < |es|
    ensures AllModelled(es[..i]) && AllModelled(es[..i + 1])
    ensures ExchangesWith(es[..i], moves).Err? ==>
      ExchangesWith(es[..i + 1], moves) == ExchangesWith(es[..i], moves)
    ensures ExchangesWith(es[..i], moves).Ok? ==>
      ExchangesWith(es[..i + 1], moves) == Record(ExchangesWith(es[..i], moves).value, es[i], moves)
  {
    var done := es[..i + 1];
    assert forall j :: 0 <= j < i ==> es[..i][j] == es[j];
    assert forall j :: 0 <= j <= i ==> done[j] == es[j];
    assert done[..i] == es[..i] && done[i] == es[i];
  }

  /** An error on a prefix is the error of the whole transform. */
  lemma {:induction false} ExchangesStop(es: seq<Json>, moves: Props<string>, n: nat)
    requires AllModelled(es) && n <= |es|
    requires AllModelled(es[..n]) && ExchangesWith(es[..n], moves).Err?
    ensures ExchangesWith(es, moves) == ExchangesWith(es[..n], moves)
    decreases |es|
  {
    if n < |es| {
      var pre := es[..|es| - 1];
      assert forall i :: 0 <= i < |pre| ==> pre[i] == es[i];
      assert pre[..n] == es[..n];
      ExchangesStop(pre, moves, n);
    } else {
      assert es[..n] == es;
    }
  }

  /** The callback on one exchange: filter, then store its values under its key. */
  method RecordExchange(series: ExchangeSeries, e: Json) returns (r: Result<ExchangeSeries, Error>)
    requires ExchangeModelled(e)
    ensures r == Record(series, e, EXCHANGE_MOVES)
  {
    var keep := KeepExchange(e);
    if keep.Err? {
      return Err(keep.error);
    }
    if !keep.value {
      return Ok(series);
    }
    var values := Values(e, EXCHANGE_SPECS);
    ExchangeMoves();
    if values.Err? {
      return Err(values.error);
    }
    r := Ok(Put(series, ExchangeKey(e), [values.value]));
  }

  /** `sendExchangesStats`'s loop over `json || []`, filling the series object. */
  method CollectExchanges(json: Json) returns (r: Result<ExchangeSeries, Error>)
    requires AllModelled(Entities(json))
    ensures r == ExchangesOf(Entities(json))
  {
    var es := Entities(json);
    var series: ExchangeSeries := [];
    var i := 0;
    while i < |es|
      invariant 0 <= i <= |es| && AllModelled(es[..i])
      invariant ExchangesWith(es[..i], EXCHANGE_MOVES) == Ok(series)
    {
      ExchangesNext(es, EXCHANGE_MOVES, i);
      var next := RecordExchange(series, es[i]);
      if next.Err? {
        ExchangesStop(es, EXCHANGE_MOVES, i + 1);
        return next;
      }
      series := next.value;
      i := i + 1;
    }
    assert es[..i] == es;
    r := Ok(series);
  }
}
