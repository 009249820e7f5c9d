/**
 * Parsed broker JSON and the few pieces of JavaScript semantics the metric code
 * relies on: truthiness, property access and iteration with `_.each`.
 */
module Json {
  import opened Wrappers
  import opened Objects

  /** A value produced by `JSON.parse`. Numbers are the mathematical reals. */
  datatype Json =
    | JNull
    | JBool(b: bool)
    | JNum(n: real)
    | JStr(s: string)
    | JArr(items: seq<Json>)
    | JObj(fields: Props<Json>)

  /** A property read: `None` is `undefined`, which JSON itself cannot hold. */
  type Prop = Option<Json>

  /** Why a stage fails. */
  datatype Error =
    | TypeError       // reading a property of `null`: the only error the metric code raises itself
    | TransportError  // the request to the management API failed
    | ParseError      // `JSON.parse` rejected the reply body

  /** JavaScript's falsy JSON values: null, 0, "" and false. */
  predicate IsFalsy(j: Json) {
    j == JNull || j == JBool(false) || j == JNum(0.0) || j == JStr("")
  }

  predicate IsDigit(c: char) { '0' <= c <= '9' }

  /** The value of a string of decimal digits. */
  function DecimalValue(s: string): (n: nat)
    requires forall i :: 0 <= i < |s| ==> IsDigit(s[i])
  {
    if s == [] then 0
    else
      assert IsDigit(s[|s| - 1]);
      10 * DecimalValue(s[..|s| - 1]) + (s[|s| - 1] as int - '0' as int)
  }

  /** A canonical array index: decimal digits without a leading zero (or "0" itself). */
  function ArrayIndex(key: string): (r: Option<nat>)
    ensures r.Some? ==> |key| > 0 && (key[0] == '0' ==> key == "0")
  {
    if |key| > 0 && (forall i :: 0 <= i < |key| ==> IsDigit(key[i])) && (key[0] != '0' || key == "0")
    then Some(DecimalValue(key))
    else None
  }

  /** The decimal digit `d`. */
  function Digit(d: nat): (c: char)
    requires d < 10
    ensures IsDigit(c) && c as int - '0' as int == d
  {
    ('0' as int + d) as char
  }

  /** `String(n)` for a whole number: its decimal digits, without leading zeros. */
  function DecimalString(n: nat): string
    decreases n
  {
    if n < 10 then [Digit(n)] else DecimalString(n / 10) + [Digit(n % 10)]
  }

  /** The decimal string of a number is digits only, starts with `0` only for 0, and reads back as the number. */
  lemma {:induction false} DecimalRoundTrip(n: nat)
    ensures |DecimalString(n)| > 0
    ensures forall i :: 0 <= i < |DecimalString(n)| ==> IsDigit(DecimalString(n)[i])
    ensures DecimalString(n)[0] == '0' <==> n == 0
    ensures DecimalValue(DecimalString(n)) == n
    decreases n
  {
    if n >= 10 {
      DecimalRoundTrip(n / 10);
      var s := DecimalString(n);
      assert s[..|s| - 1] == DecimalString(n / 10);
      assert s[0] == DecimalString(n / 10)[0];
    }
  }

  /** A whole number's decimal string is the canonical array index of that number. */
  lemma ArrayIndexOfDecimal(n: nat)
    ensures ArrayIndex(DecimalString(n)) == Some(n)
  {
    DecimalRoundTrip(n);
  }

  /**
   * `obj[key]` for a value that is not null: own properties of an object, elements
   * and `length` of arrays and strings; everything else reads as undefined.
   */
  function Property(obj: Json, key: string): (r: Prop)
    ensures obj.JObj? ==> r == Get(obj.fields, key)
    ensures (obj.JNull? || obj.JBool? || obj.JNum?) ==> r == None
  {
    match obj
    case JObj(fields) => Get(fields, key)
    case JArr(items) =>
      if key == "length" then Some(JNum(|items| as real))
      else (match ArrayIndex(key)
            case Some(i) => if i < |items| then Some(items[i]) else None
            case None => None)
    case JStr(s) =>
      if key == "length" then Some(JNum(|s| as real))
      else (match ArrayIndex(key)
            case Some(i) => if i < |s| then Some(JStr([s[i]])) else None
            case None => None)
    case _ => None
  }

  /** The properties of an object are defined exactly for its keys. */
  lemma PropertyOfObject(fields: Props<Json>, key: string)
    ensures Property(JObj(fields), key).Some? <==> key in Keys(fields)
  {
    GetDefined(fields, key);
  }

  /** `items[i]`, for the index written in decimal, reads element `i` of an array. */
  lemma PropertyIndex(items: seq<Json>, i: nat)
    requires i < |items|
    ensures Property(JArr(items), DecimalString(i)) == Some(items[i])
  {
    ArrayIndexOfDecimal(i);
    DecimalRoundTrip(i);
    assert DecimalString(i) != "length" by { assert IsDigit(DecimalString(i)[0]); }
  }

  /** `s[i]`, for the index written in decimal, reads character `i` of a string. */
  lemma PropertyCharacter(s: string, i: nat)
    requires i < |s|
    ensures Property(JStr(s), DecimalString(i)) == Some(JStr([s[i]]))
  {
    ArrayIndexOfDecimal(i);
    DecimalRoundTrip(i);
    assert DecimalString(i) != "length" by { assert IsDigit(DecimalString(i)[0]); }
  }

  /**
   * The elements `_.each(json || [], f)` visits: none for a falsy body, the items of
   * an array, the property values of an object, the characters of a string, and
   * none for `true` or a non-zero number.
   */
  function Entities(json: Json): (es: seq<Json>)
    ensures IsFalsy(json) ==> es == []
    ensures json.JArr? ==> es == json.items
    ensures json.JObj? ==> |es| == |json.fields| && forall i :: 0 <= i < |es| ==> es[i] == json.fields[i].1
  {
    if IsFalsy(json) then []
    else match json
      case JArr(items) => items
      case JObj(fields) => PropertyValues(fields)
      case JStr(s) => Characters(s)
      case _ => []
  }

  /**
   * Over an object without duplicate keys, `_.each` visits exactly what reading each
   * key gives: entity `i` is the value of key `i`, and every defined key's value is visited.
   */
  lemma EntitiesOfObject(fields: Props<Json>)
    requires DistinctKeys(fields)
    ensures forall i :: 0 <= i < |fields| ==> Property(JObj(fields), fields[i].0) == Some(Entities(JObj(fields))[i])
    ensures forall k :: Property(JObj(fields), k).Some? ==> Property(JObj(fields), k).value in Entities(JObj(fields))
  {
    var es := Entities(JObj(fields));
    forall i | 0 <= i < |fields| ensures Property(JObj(fields), fields[i].0) == Some(es[i]) {
      GetAt(fields, i);
    }
    forall k | Property(JObj(fields), k).Some? ensures Property(JObj(fields), k).value in es {
      GetDefined(fields, k);
      var i :| 0 <= i < |fields| && fields[i].0 == k;
      GetAt(fields, i);
      assert es[i] == Property(JObj(fields), k).value;
    }
  }

  /** The property values of an object, in enumeration order. */
  function PropertyValues(fields: Props<Json>): (vs: seq<Json>)
    ensures |vs| == |fields| && forall i :: 0 <= i < |vs| ==> vs[i] == fields[i].1
  {
    if fields == [] then [] else [fields[0].1] + PropertyValues(fields[1..])
  }

  /** The one-character strings of a string, in order. */
  function Characters(s: string): (cs: seq<Json>)
    ensures |cs| == |s| && forall i :: 0 <= i < |s| ==> cs[i] == JStr([s[i]])
  {
    if s == [] then [] else [JStr([s[0]])] + Characters(s[1..])
  }

  /** `String(p)` for the values whose conversion the model spells out. */
  function ToJsString(p: Prop): Option<string> {
    match p
    case None => Some("undefined")
    case Some(JNull) => Some("null")
    case Some(JBool(b)) => Some(if b then "true" else "false")
    case Some(JStr(s)) => Some(s)
    case _ => None
  }
}
