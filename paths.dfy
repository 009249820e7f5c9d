/**
 * Dotted-path lookup: `value(obj, path, defaultValue)` in plugins/rabbitmq.js.
 * The path is split on '.', every step reads one property, the walk stops at the
 * first undefined step, and a falsy result is replaced by the default.
 */
module Paths {
  import opened Wrappers
  import opened Json

  /** `s.split(sep)` for a one-character separator: always at least one segment. */
  function Split(s: string, sep: char): (r: seq<string>)
    ensures |r| >= 1
  {
    if s == [] then [[]]
    else
      var rest := Split(s[1..], sep);
      if s[0] == sep then [[]] + rest
      else [[s[0]] + rest[0]] + rest[1..]
  }

  /** No segment of a split contains the separator. */
  lemma {:induction false} SplitSegments(s: string, sep: char)
    ensures forall i :: 0 <= i < |Split(s, sep)| ==> sep !in Split(s, sep)[i]
  {
    if s != [] {
      SplitSegments(s[1..], sep);
    }
  }

  /** `segs.join(sep)`. */
  function Join(segs: seq<string>, sep: char): string
    requires |segs| >= 1
  {
    if |segs| == 1 then segs[0] else segs[0] + [sep] + Join(segs[1..], sep)
  }

  /** Joining the segments of a split gives back the string. */
  lemma {:induction false} JoinSplit(s: string, sep: char)
    ensures Join(Split(s, sep), sep) == s
  {
    if s != [] {
      var rest := Split(s[1..], sep);
      JoinSplit(s[1..], sep);
      if s[0] == sep {
        assert Split(s, sep)[1..] == rest;
      } else if |rest| > 1 {
        assert Split(s, sep)[1..] == rest[1..];
      }
    }
  }

  /** Splitting at a separator splits the two sides independently. */
  lemma {:induction false} SplitConcat(p: string, q: string, sep: char)
    ensures Split(p + [sep] + q, sep) == Split(p, sep) + Split(q, sep)
  {
    var s := p + [sep] + q;
    if p == [] {
      assert s[1..] == q;
    } else {
      assert s[1..] == p[1..] + [sep] + q;
      SplitConcat(p[1..], q, sep);
    }
  }

  /** A string without the separator is one segment. */
  lemma {:induction false} SplitNoSeparator(s: string, sep: char)
    requires sep !in s
    ensures Split(s, sep) == [s]
  {
    if s != [] {
      assert s[0] in s;
      SplitNoSeparator(s[1..], sep);
      assert [s[0]] + s[1..] == s;
    }
  }

  /** Splitting a join of separator-free segments gives back the segments. */
  lemma {:induction false} SplitJoin(segs: seq<string>, sep: char)
    requires |segs| >= 1
    requires forall i :: 0 <= i < |segs| ==> sep !in segs[i]
    ensures Split(Join(segs, sep), sep) == segs
  {
    SplitNoSeparator(segs[0], sep);
    if |segs| > 1 {
      SplitJoin(segs[1..], sep);
      SplitConcat(segs[0], Join(segs[1..], sep), sep);
    }
  }

  /** Where a walk along a list of keys ends. */
  datatype Walked =
    | Reached(v: Json)  // every key was defined; `v` is the value reached
    | Undefined         // some key read undefined; the walk stopped there
    | Thrown            // a key was read from `null`, which throws a TypeError

  /** Follow the keys one after the other, as the loop in `value` does. */
  function Walk(obj: Json, keys: seq<string>): Walked
    decreases keys
  {
    if keys == [] then Reached(obj)
    else if obj == JNull then Thrown
    else match Property(obj, keys[0])
      case None => Undefined
      case Some(v) => Walk(v, keys[1..])
  }

  /** What `value(obj, path, d)` evaluates to: the value, the default, or the thrown error. */
  function Resolve(obj: Json, path: string, d: Json): (r: Result<Json, Error>)
  {
    match Walk(obj, Split(path, '.'))
    case Thrown => Err(TypeError)
    case Undefined => Ok(d)
    case Reached(v) => Ok(if IsFalsy(v) then d else v)
  }

  /** `value(obj, path, defaultValue)`: walks the dotted path step by step. */
  method Value(obj: Json, path: string, defaultValue: Json) returns (r: Result<Json, Error>)
    ensures r == Resolve(obj, path, defaultValue)
  {
    var keys := Split(path, '.');
    var cur := obj;
    var i := 0;
    var stopped := false;
    while i < |keys| && !stopped
      invariant 0 <= i <= |keys|
      invariant !stopped ==> Walk(obj, keys) == Walk(cur, keys[i..])
      invariant stopped ==> Walk(obj, keys) == Undefined && cur == JNull
      decreases |keys| - i, !stopped
    {
      if cur == JNull {
        return Err(TypeError);
      }
      var next := Property(cur, keys[i]);
      if next.None? {
        cur := JNull;
        stopped := true;
      } else {
        cur := next.value;
        i := i + 1;
      }
    }
    r := Ok(if IsFalsy(cur) then defaultValue else cur);
  }

  /** Walking `a + b` is walking `a` and then, from where it ended, `b`. */
  lemma {:induction false} WalkAppend(obj: Json, a: seq<string>, b: seq<string>)
    ensures Walk(obj, a + b) == match Walk(obj, a) case Reached(v) => Walk(v, b) case other => other
    decreases a
  {
    if a == [] {
      assert a + b == b;
    } else {
      assert (a + b)[1..] == a[1..] + b;
      if obj != JNull {
        match Property(obj, a[0])
        case None =>
        case Some(v) => WalkAppend(v, a[1..], b);
      }
    }
  }

  /** The walk throws exactly when some prefix of the keys reaches `null` before the last key. */
  lemma {:induction false} WalkThrows(obj: Json, keys: seq<string>)
    ensures Walk(obj, keys) == Thrown <==> exists i :: 0 <= i < |keys| && Walk(obj, keys[..i]) == Reached(JNull)
    decreases keys
  {
    if exists i :: 0 <= i < |keys| && Walk(obj, keys[..i]) == Reached(JNull) {
      var i :| 0 <= i < |keys| && Walk(obj, keys[..i]) == Reached(JNull);
      WalkAppend(obj, keys[..i], keys[i..]);
      assert keys[..i] + keys[i..] == keys;
    }
    if Walk(obj, keys) == Thrown {
      if obj == JNull {
        assert keys[..0] == [];
      } else {
        var v := Property(obj, keys[0]).value;
        WalkThrows(v, keys[1..]);
        var i :| 0 <= i < |keys[1..]| && Walk(v, keys[1..][..i]) == Reached(JNull);
        assert keys[..i + 1] == [keys[0]] + keys[1..][..i];
        assert keys[..i + 1][1..] == keys[1..][..i];
      }
    }
  }

  /** A bare key (no dot) is one property read of a non-null object. */
  lemma ResolveKey(obj: Json, key: string, d: Json)
    requires '.' !in key
    ensures Resolve(obj, key, d) ==
      if obj == JNull then Err(TypeError)
      else match Property(obj, key)
        case None => Ok(d)
        case Some(v) => Ok(if IsFalsy(v) then d else v)
  {
    SplitNoSeparator(key, '.');
    assert [key][1..] == [];
    if obj != JNull {
      match Property(obj, key)
      case None =>
      case Some(v) => assert Walk(obj, [key]) == Walk(v, []);
    }
  }

  /** `value(obj, p + "." + q, d)` is `value` of `q` on what path `p` reaches. */
  lemma ResolveDotted(obj: Json, p: string, q: string, d: Json)
    ensures Resolve(obj, p + "." + q, d) ==
      match Walk(obj, Split(p, '.'))
      case Reached(v) => Resolve(v, q, d)
      case Undefined => Ok(d)
      case Thrown => Err(TypeError)
  {
    SplitConcat(p, q, '.');
    WalkAppend(obj, Split(p, '.'), Split(q, '.'));
  }

  /** The first key that reads undefined makes the whole lookup the default. */
  lemma ResolveStopsAtMissingKey(obj: Json, path: string, d: Json, i: nat)
    requires i < |Split(path, '.')|
    requires Walk(obj, Split(path, '.')[..i]).Reached?
    requires Walk(obj, Split(path, '.')[..i]).v != JNull
    requires Property(Walk(obj, Split(path, '.')[..i]).v, Split(path, '.')[i]) == None
    ensures Resolve(obj, path, d) == Ok(d)
  {
    var keys := Split(path, '.');
    WalkAppend(obj, keys[..i], keys[i..]);
    assert keys[..i] + keys[i..] == keys;
  }

  /** The object `{k1: {k2: ... {kn: leaf}}}`. */
  function Nest(keys: seq<string>, leaf: Json): Json {
    if keys == [] then leaf else JObj([(keys[0], Nest(keys[1..], leaf))])
  }

  /** Following every key of a nested object reaches its leaf. */
  lemma {:induction false} WalkNest(keys: seq<string>, leaf: Json)
    ensures Walk(Nest(keys, leaf), keys) == Reached(leaf)
  {
    if keys != [] {
      WalkNest(keys[1..], leaf);
    }
  }

  /** `value` returns the value found at the dotted path, or the default when that value is falsy. */
  lemma ResolveNest(keys: seq<string>, leaf: Json, d: Json)
    requires |keys| >= 1
    requires forall i :: 0 <= i < |keys| ==> '.' !in keys[i]
    ensures Resolve(Nest(keys, leaf), Join(keys, '.'), d) == Ok(if IsFalsy(leaf) then d else leaf)
  {
    SplitJoin(keys, '.');
    WalkNest(keys, leaf);
  }
}
