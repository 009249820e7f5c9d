/**
 * `values(obj, spec1, spec2, ...)` in plugins/rabbitmq.js: a flat object built
 * from dotted lookups into `obj`, each with the default `0`.
 */
module Extract {
  import opened Wrappers
  import opened Objects
  import opened Json
  import opened Paths

  /** One argument after `obj`: a bare field name, or an object mapping destination names to source paths. */
  datatype FieldSpec = Bare(name: string) | Remap(pairs: Props<string>)

  /** A flat object of extracted values. */
  type Fields = Props<Json>

  /** The default every lookup in `values` uses: the number 0. */
  const ZERO := JNum(0.0)

  /** The (destination, source path) assignments one spec performs, in order. */
  function Moves(spec: FieldSpec): (m: Props<string>)
    ensures spec.Bare? ==> m == [(spec.name, spec.name)]
  {
    match spec
    case Bare(name) => [(name, name)]
    case Remap(pairs) => pairs
  }

  /** All assignments of a spec list, in argument order. */
  function Assignments(specs: seq<FieldSpec>): Props<string> {
    if specs == [] then [] else Assignments(specs[..|specs| - 1]) + Moves(specs[|specs| - 1])
  }

  /** The contents of `tmp` after the given assignments, or the error the first failing lookup throws. */
  function AssignAll(obj: Json, moves: Props<string>): Result<Fields, Error> {
    if moves == [] then Ok([])
    else match AssignAll(obj, moves[..|moves| - 1])
      case Err(e) => Err(e)
      case Ok(acc) =>
        var m := moves[|moves| - 1];
        match Resolve(obj, m.1, ZERO)
        case Err(e) => Err(e)
        case Ok(v) => Ok(Put(acc, m.0, v))
  }

  lemma {:induction false} AssignmentsAppend(a: seq<FieldSpec>, b: seq<FieldSpec>)
    ensures Assignments(a + b) == Assignments(a) + Assignments(b)
    decreases |b|
  {
    if b != [] {
      assert (a + b)[..|a + b| - 1] == a + b[..|b| - 1];
      AssignmentsAppend(a, b[..|b| - 1]);
    } else {
      assert a + b == a;
    }
  }

  /** Once an assignment has thrown, later ones are never reached. */
  lemma {:induction false} AssignAllStops(obj: Json, pre: Props<string>, rest: Props<string>)
    requires AssignAll(obj, pre).Err?
    ensures AssignAll(obj, pre + rest) == AssignAll(obj, pre)
    decreases |rest|
  {
    if rest == [] {
      assert pre + rest == pre;
    } else {
      assert (pre + rest)[..|pre + rest| - 1] == pre + rest[..|rest| - 1];
      AssignAllStops(obj, pre, rest[..|rest| - 1]);
    }
  }

  /** One more assignment, on top of the ones already done. */
  lemma AssignAllSnoc(obj: Json, pre: Props<string>, m: (string, string))
    ensures AssignAll(obj, pre + [m]) ==
      match AssignAll(obj, pre)
      case Err(e) => Err(e)
      case Ok(acc) => (match Resolve(obj, m.1, ZERO) case Err(e) => Err(e) case Ok(v) => Ok(Put(acc, m.0, v)))
  {
    assert (pre + [m])[..|pre|] == pre;
  }

  /** The assignments of the first `i + 1` specs. */
  lemma AssignmentsTake(specs: seq<FieldSpec>, i: nat)
    requires i < |specs|
    ensures Assignments(specs[..i + 1]) == Assignments(specs[..i]) + Moves(specs[i])
  {
    assert specs[..i + 1][..i] == specs[..i];
  }

  /** The assignments of a spec list around its spec `i`. */
  lemma AssignmentsAround(specs: seq<FieldSpec>, i: nat)
    requires i < |specs|
    ensures Assignments(specs) == Assignments(specs[..i]) + Moves(specs[i]) + Assignments(specs[i + 1..])
  {
    var front, back := specs[..i + 1], specs[i + 1..];
    assert front + back == specs;
    AssignmentsTake(specs, i);
    AssignmentsAppend(front, back);
  }

  /** `values(obj, ...specs)`. */
  method Values(obj: Json, specs: seq<FieldSpec>) returns (r: Result<Fields, Error>)
    ensures r == AssignAll(obj, Assignments(specs))
  {
    var tmp: Fields := [];
    var i := 0;
    while i < |specs|
      invariant 0 <= i <= |specs|
      invariant AssignAll(obj, Assignments(specs[..i])) == Ok(tmp)
    {
      AssignmentsTake(specs, i);
      var step := AssignEach(obj, Moves(specs[i]), tmp, Assignments(specs[..i]));
      if step.Err? {
        AssignmentsAround(specs, i);
        AssignAllStops(obj, Assignments(specs[..i]) + Moves(specs[i]), Assignments(specs[i + 1..]));
        return step;
      }
      tmp := step.value;
      i := i + 1;
    }
    assert specs[..|specs|] == specs;
    r := Ok(tmp);
  }

  /** The assignments of one remap object, `_.each` over its pairs, on top of `tmp`. */
  method AssignEach(obj: Json, moves: Props<string>, tmp: Fields, ghost pre: Props<string>)
    returns (r: Result<Fields, Error>)
    requires AssignAll(obj, pre) == Ok(tmp)
    ensures r == AssignAll(obj, pre + moves)
  {
    r := Ok(tmp);
    assert pre + moves[..0] == pre;
    var j := 0;
    while j < |moves|
      invariant 0 <= j <= |moves|
      invariant r.Ok? && AssignAll(obj, pre + moves[..j]) == r
    {
      NextMove(pre, moves, j);
      AssignAllSnoc(obj, pre + moves[..j], moves[j]);
      var v := Value(obj, moves[j].1, ZERO);
      if v.Err? {
        SplitAt(pre, moves, j + 1);
        AssignAllStops(obj, pre + moves[..j + 1], moves[j + 1..]);
        return Err(v.error);
      }
      r := Ok(Put(r.value, moves[j].0, v.value));
      j := j + 1;
    }
    assert moves[..|moves|] == moves;
  }

  lemma NextMove(pre: Props<string>, moves: Props<string>, j: nat)
    requires j < |moves|
    ensures pre + moves[..j + 1] == (pre + moves[..j]) + [moves[j]]
  {
    assert moves[..j + 1] == moves[..j] + [moves[j]];
  }

  /** Every lookup of the assignments succeeds. */
  ghost predicate AllResolve(obj: Json, moves: Props<string>) {
    forall i :: 0 <= i < |moves| ==> Resolve(obj, moves[i].1, ZERO).Ok?
  }

  /** `values` succeeds exactly when every lookup it performs succeeds. */
  lemma {:induction false} AssignAllOk(obj: Json, moves: Props<string>)
    ensures AssignAll(obj, moves).Ok? <==> AllResolve(obj, moves)
    decreases |moves|
  {
    if moves != [] {
      var pre := moves[..|moves| - 1];
      var m := moves[|moves| - 1];
      AssignAllOk(obj, pre);
      assert moves == pre + [m];
      assert AllResolve(obj, moves) <==> AllResolve(obj, pre) && Resolve(obj, m.1, ZERO).Ok?;
    }
  }

  /**
   * The keys of the result are the destinations, in order of first appearance,
   * each once; so an empty spec list gives an empty object.
   */
  lemma {:induction false} AssignAllKeys(obj: Json, moves: Props<string>)
    requires AssignAll(obj, moves).Ok?
    ensures KeySeq(AssignAll(obj, moves).value) == Dedup(KeySeq(moves))
    ensures Keys(AssignAll(obj, moves).value) == Keys(moves)
    ensures DistinctKeys(AssignAll(obj, moves).value)
    decreases |moves|
  {
    if moves != [] {
      var pre, m := moves[..|moves| - 1], moves[|moves| - 1];
      assert moves == pre + [m];
      AssignAllSnoc(obj, pre, m);
      var acc := AssignAll(obj, pre).value;
      var v := Resolve(obj, m.1, ZERO).value;
      assert AssignAll(obj, moves).value == Put(acc, m.0, v);
      AssignAllKeys(obj, pre);
      KeySeqSnoc(pre, m);
      KeysSnoc(pre, m);
      PutKeys(acc, m.0, v);
      PutKeySeq(acc, m.0, v);
      PutDistinct(acc, m.0, v);
      KeysAreKeySeq(acc);
    }
  }

  /** Each destination holds the lookup of the last assignment to it: later specs overwrite earlier ones. */
  lemma {:induction false} AssignAllLast(obj: Json, moves: Props<string>, i: nat)
    requires AssignAll(obj, moves).Ok?
    requires i < |moves|
    requires forall j :: i < j < |moves| ==> moves[j].0 != moves[i].0
    ensures Resolve(obj, moves[i].1, ZERO).Ok?
    ensures Get(AssignAll(obj, moves).value, moves[i].0) == Some(Resolve(obj, moves[i].1, ZERO).value)
    decreases |moves|
  {
    AssignAllOk(obj, moves);
    var pre := moves[..|moves| - 1];
    if i < |moves| - 1 {
      AssignAllLast(obj, pre, i);
    }
  }

  /** The destinations of a spec list: a bare name stands for itself, a remap for its own keys. */
  lemma {:induction false} Destinations(specs: seq<FieldSpec>, k: string)
    ensures k in Keys(Assignments(specs)) <==>
      exists s :: s in specs && ((s.Bare? && s.name == k) || (s.Remap? && k in Keys(s.pairs)))
    decreases |specs|
  {
    if specs != [] {
      var pre := specs[..|specs| - 1];
      var s := specs[|specs| - 1];
      Destinations(pre, k);
      assert specs == pre + [s];
      KeysConcat(Assignments(pre), Moves(s));
      if s.Bare? {
        assert Keys(Moves(s)) == {s.name} by { assert Moves(s)[0].0 == s.name; }
      }
    }
  }

  /** With distinct destinations every destination holds its own lookup, in spec order. */
  lemma AssignAllDistinct(obj: Json, moves: Props<string>)
    requires DistinctKeys(moves)
    requires AssignAll(obj, moves).Ok?
    ensures KeySeq(AssignAll(obj, moves).value) == KeySeq(moves)
    ensures forall i :: 0 <= i < |moves| ==>
      Resolve(obj, moves[i].1, ZERO).Ok? &&
      Get(AssignAll(obj, moves).value, moves[i].0) == Some(Resolve(obj, moves[i].1, ZERO).value)
  {
    AssignAllKeys(obj, moves);
    DedupDistinct(KeySeq(moves));
    forall i | 0 <= i < |moves|
      ensures Resolve(obj, moves[i].1, ZERO).Ok?
      ensures Get(AssignAll(obj, moves).value, moves[i].0) == Some(Resolve(obj, moves[i].1, ZERO).value)
    {
      AssignAllLast(obj, moves, i);
    }
  }

  /** A sequence without repetitions is its own deduplication. */
  lemma {:induction false} DedupDistinct(s: seq<string>)
    requires forall i, j :: 0 <= i < j < |s| ==> s[i] != s[j]
    ensures Dedup(s) == s
    decreases |s|
  {
    if s != [] {
      var pre := s[..|s| - 1];
      DedupDistinct(pre);
      assert s[|s| - 1] !in pre;
      assert s == pre + [s[|s| - 1]];
    }
  }

  /** With one-key source paths, `values` throws exactly when it is asked about `null`. */
  lemma {:induction false} FlatLookups(obj: Json, moves: Props<string>)
    requires forall i :: 0 <= i < |moves| ==> '.' !in moves[i].1
    ensures AssignAll(obj, moves).Ok? <==> (obj != JNull || moves == [])
  {
    AssignAllOk(obj, moves);
    forall i | 0 <= i < |moves| ensures Resolve(obj, moves[i].1, ZERO).Ok? <==> obj != JNull {
      ResolveKey(obj, moves[i].1, ZERO);
    }
    if moves != [] && obj == JNull {
      assert !Resolve(obj, moves[0].1, ZERO).Ok?;
    }
  }

  /** The only error `values` can raise is the `TypeError` of stepping into `null`. */
  lemma {:induction false} AssignAllThrows(obj: Json, moves: Props<string>)
    ensures AssignAll(obj, moves).Err? ==> AssignAll(obj, moves) == Err(TypeError)
  {
    if moves != [] {
      AssignAllThrows(obj, moves[..|moves| - 1]);
    }
  }
}
