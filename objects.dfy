/**
 * Plain JavaScript objects as the model sees them: the object's own enumerable
 * properties, in insertion order. Assigning to an existing key keeps its place and
 * replaces its value; assigning a new key appends it.
 */
module Objects {
  import opened Wrappers

  /** An object as its list of (key, value) properties in enumeration order. */
  type Props<V> = seq<(string, V)>

  /** The keys of an object in enumeration order (what `_.keys` returns). */
  function KeySeq<V>(o: Props<V>): (ks: seq<string>)
    ensures |ks| == |o|
    ensures forall i :: 0 <= i < |o| ==> ks[i] == o[i].0
  {
    if o == [] then [] else [o[0].0] + KeySeq(o[1..])
  }

  /** The set of keys of an object. */
  function Keys<V>(o: Props<V>): set<string> {
    set i | 0 <= i < |o| :: o[i].0
  }

  /** No key occurs twice; every object the program builds has this shape. */
  ghost predicate DistinctKeys<V>(o: Props<V>) {
    forall i, j :: 0 <= i < j < |o| ==> o[i].0 != o[j].0
  }

  /** Property read `o[k]`: the value of the first property named `k`, or `None` (undefined). */
  function Get<V>(o: Props<V>, k: string): (r: Option<V>) {
    if o == [] then None
    else if o[0].0 == k then Some(o[0].1)
    else Get(o[1..], k)
  }

  /** A read finds a value exactly for the keys of the object. */
  lemma {:induction false} GetDefined<V>(o: Props<V>, k: string)
    ensures Get(o, k).Some? <==> k in Keys(o)
  {
    if o != [] {
      KeysCons(o);
      GetDefined(o[1..], k);
    }
  }

  /** A write adds its key to the key set. */
  lemma {:induction false} PutKeys<V>(o: Props<V>, k: string, v: V)
    ensures Keys(Put(o, k, v)) == Keys(o) + {k}
  {
    var r := Put(o, k, v);
    if o == [] {
      assert r[0].0 == k;
    } else if o[0].0 == k {
      assert r[1..] == o[1..];
      KeysCons(o);
      KeysCons(r);
    } else {
      assert r[1..] == Put(o[1..], k, v);
      PutKeys(o[1..], k, v);
      KeysCons(o);
      KeysCons(r);
    }
  }

  /** Property write `o[k] = v`. */
  function Put<V>(o: Props<V>, k: string, v: V): (r: Props<V>)
    ensures Get(r, k) == Some(v)
    ensures forall k' :: k' != k ==> Get(r, k') == Get(o, k')
  {
    if o == [] then [(k, v)]
    else if o[0].0 == k then [(k, v)] + o[1..]
    else [o[0]] + Put(o[1..], k, v)
  }

  /** A write keeps the position of an existing key and appends a new one. */
  lemma {:induction false} PutKeySeq<V>(o: Props<V>, k: string, v: V)
    ensures KeySeq(Put(o, k, v)) == if k in Keys(o) then KeySeq(o) else KeySeq(o) + [k]
  {
    if o != [] && o[0].0 != k {
      KeysCons(o);
      PutKeySeq(o[1..], k, v);
      assert Put(o, k, v)[1..] == Put(o[1..], k, v);
      assert Put(o, k, v) == [o[0]] + Put(o[1..], k, v);
    }
  }

  /** A write never introduces a duplicate key. */
  lemma {:induction false} PutDistinct<V>(o: Props<V>, k: string, v: V)
    requires DistinctKeys(o)
    ensures DistinctKeys(Put(o, k, v))
  {
    PutKeySeq(o, k, v);
    var r := Put(o, k, v);
    KeysAreKeySeq(o);
    forall i, j | 0 <= i < j < |r| ensures r[i].0 != r[j].0 {
      assert KeySeq(r)[i] == r[i].0 && KeySeq(r)[j] == r[j].0;
      if k !in Keys(o) && j == |o| {
        assert r[i].0 == KeySeq(o)[i];
      }
    }
  }

  lemma KeysCons<V>(o: Props<V>)
    requires o != []
    ensures Keys(o) == {o[0].0} + Keys(o[1..])
  {
    forall x | x in Keys(o) ensures x in {o[0].0} + Keys(o[1..]) {
      var i :| 0 <= i < |o| && o[i].0 == x;
      if i > 0 { assert o[1..][i - 1].0 == x; }
    }
    forall x | x in Keys(o[1..]) ensures x in Keys(o) {
      var i :| 0 <= i < |o[1..]| && o[1..][i].0 == x;
      assert o[i + 1].0 == x;
    }
  }

  /** A key is a key of the object exactly when it occurs in its key sequence. */
  lemma KeysAreKeySeq<V>(o: Props<V>)
    ensures Keys(o) == set k | k in KeySeq(o)
  {
    forall k | k in KeySeq(o) ensures k in Keys(o) {
      var i :| 0 <= i < |o| && KeySeq(o)[i] == k;
      assert o[i].0 == k;
    }
  }

  lemma KeysSnoc<V>(o: Props<V>, p: (string, V))
    ensures Keys(o + [p]) == Keys(o) + {p.0}
  {
    var r := o + [p];
    forall x | x in Keys(r) ensures x in Keys(o) + {p.0} {
      var i :| 0 <= i < |r| && r[i].0 == x;
      if i < |o| { assert o[i].0 == x; }
    }
    forall x | x in Keys(o) ensures x in Keys(r) {
      var i :| 0 <= i < |o| && o[i].0 == x;
      assert r[i].0 == x;
    }
    assert r[|o|].0 == p.0;
  }

  lemma KeySeqSnoc<V>(o: Props<V>, p: (string, V))
    ensures KeySeq(o + [p]) == KeySeq(o) + [p.0]
  {
    var a, b := KeySeq(o + [p]), KeySeq(o) + [p.0];
    assert |a| == |b|;
    assert forall i :: 0 <= i < |a| ==> a[i] == b[i];
  }

  /** The keys of a concatenation are the keys of both parts. */
  lemma KeysConcat<V>(a: Props<V>, b: Props<V>)
    ensures Keys(a + b) == Keys(a) + Keys(b)
  {
    var r := a + b;
    forall x | x in Keys(r) ensures x in Keys(a) + Keys(b) {
      var i :| 0 <= i < |r| && r[i].0 == x;
      if i < |a| { assert a[i].0 == x; } else { assert b[i - |a|].0 == x; }
    }
    forall x | x in Keys(a) + Keys(b) ensures x in Keys(r) {
      if x in Keys(a) {
        var i :| 0 <= i < |a| && a[i].0 == x;
        assert r[i].0 == x;
      } else {
        var i :| 0 <= i < |b| && b[i].0 == x;
        assert r[|a| + i].0 == x;
      }
    }
  }

  /** In an object without duplicate keys, reading the key of property `i` gives its value. */
  lemma {:induction false} GetAt<V>(o: Props<V>, i: nat)
    requires DistinctKeys(o) && i < |o|
    ensures Get(o, o[i].0) == Some(o[i].1)
  {
    if i > 0 {
      assert o[0].0 != o[i].0;
      var t := o[1..];
      assert t[i - 1] == o[i];
      assert DistinctKeys(t) by {
        forall a, b | 0 <= a < b < |t| ensures t[a].0 != t[b].0 {
          assert t[a] == o[a + 1] && t[b] == o[b + 1];
        }
      }
      GetAt(t, i - 1);
    }
  }

  /** Splitting the right operand of a concatenation. */
  lemma SplitAt<T>(a: seq<T>, b: seq<T>, j: nat)
    requires j <= |b|
    ensures a + b == (a + b[..j]) + b[j..]
  {
    assert b == b[..j] + b[j..];
  }

  /** The distinct elements of a sequence, in order of first occurrence. */
  function Dedup(s: seq<string>): (r: seq<string>)
    ensures forall x :: x in r <==> x in s
  {
    if s == [] then []
    else
      var d := Dedup(s[..|s| - 1]);
      assert s == s[..|s| - 1] + [s[|s| - 1]];
      if s[|s| - 1] in d then d else d + [s[|s| - 1]]
  }
}
