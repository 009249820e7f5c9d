/**
 * `escape(name)` in plugins/rabbitmq.js: every '.' becomes '_', then every '|' becomes
 * '.', and the result is percent-encoded by `encodeURIComponent` (section 15.1.3.4 of
 * ECMA-262 5.1), which keeps the unreserved characters and writes every other code point
 * as the `%XY` escapes of its UTF-8 bytes.
 */
module Escape {
  /** `s.replace(/f/g, t)` for a single-character pattern. */
  function ReplaceAll(s: string, f: char, t: char): (r: string)
    ensures |r| == |s|
    ensures forall i :: 0 <= i < |s| ==> r[i] == if s[i] == f then t else s[i]
  {
    if s == [] then [] else [if s[0] == f then t else s[0]] + ReplaceAll(s[1..], f, t)
  }

  /** The two replacements of `escape`. */
  function Dotless(name: string): string {
    ReplaceAll(ReplaceAll(name, '.', '_'), '|', '.')
  }

  /**
   * The two passes act as one character map: dots become underscores and bars become
   * dots, so a '.' of the result marks exactly a '|' of the name.
   */
  lemma DotlessMap(name: string)
    ensures |Dotless(name)| == |name|
    ensures forall i :: 0 <= i < |name| ==>
      Dotless(name)[i] == (if name[i] == '.' then '_' else if name[i] == '|' then '.' else name[i])
    ensures forall i :: 0 <= i < |name| ==> (Dotless(name)[i] == '.' <==> name[i] == '|')
    ensures '|' !in Dotless(name)
  {
    var once := ReplaceAll(name, '.', '_');
    assert forall i :: 0 <= i < |name| ==> once[i] == (if name[i] == '.' then '_' else name[i]);
  }

  /** The characters `encodeURIComponent` leaves as they are. */
  predicate Unreserved(c: char) {
    || 'A' <= c <= 'Z' || 'a' <= c <= 'z' || '0' <= c <= '9'
    || c == '-' || c == '_' || c == '.' || c == '!' || c == '~' || c == '*' || c == '\'' || c == '(' || c == ')'
  }

  /** The UTF-8 encoding of a code point. */
  function Utf8(c: char): (bytes: seq<nat>)
    ensures 1 <= |bytes| <= 4
    ensures forall i :: 0 <= i < |bytes| ==> bytes[i] < 256
  {
    var n := c as int;
    if n < 0x80 then [n]
    else if n < 0x800 then [0xC0 + n / 0x40, 0x80 + n % 0x40]
    else if n < 0x1_0000 then [0xE0 + n / 0x1000, 0x80 + (n / 0x40) % 0x40, 0x80 + n % 0x40]
    else [0xF0 + n / 0x4_0000, 0x80 + (n / 0x1000) % 0x40, 0x80 + (n / 0x40) % 0x40, 0x80 + n % 0x40]
  }

  /** An upper-case hexadecimal digit. */
  function Hex(d: nat): char
    requires d < 16
  {
    "0123456789ABCDEF"[d]
  }

  predicate IsHex(c: char) {
    '0' <= c <= '9' || 'A' <= c <= 'F'
  }

  /** The `%XY` escape of every byte. */
  function PercentBytes(bytes: seq<nat>): (r: string)
    requires forall i :: 0 <= i < |bytes| ==> bytes[i] < 256
    ensures |r| == 3 * |bytes|
    ensures forall i :: 0 <= i < |r| ==> r[i] == '%' || IsHex(r[i])
  {
    if bytes == [] then []
    else
      var rest := PercentBytes(bytes[1..]);
      var r := ['%', Hex(bytes[0] / 16), Hex(bytes[0] % 16)] + rest;
      assert forall i :: 3 <= i < |r| ==> r[i] == rest[i - 3];
      r
  }

  /** Byte `i` becomes the three characters from `3 * i` on: `%` and its two hex digits. */
  lemma {:induction false} PercentBytesAt(bytes: seq<nat>, i: nat)
    requires forall j :: 0 <= j < |bytes| ==> bytes[j] < 256
    requires i < |bytes|
    ensures var r := PercentBytes(bytes);
      r[3 * i] == '%' && r[3 * i + 1] == Hex(bytes[i] / 16) && r[3 * i + 2] == Hex(bytes[i] % 16)
  {
    if i > 0 {
      var rest := bytes[1..];
      PercentBytesAt(rest, i - 1);
      var r := PercentBytes(bytes);
      assert r[3..] == PercentBytes(rest);
      assert rest[i - 1] == bytes[i];
      assert r[3 * i] == PercentBytes(rest)[3 * (i - 1)];
      assert r[3 * i + 1] == PercentBytes(rest)[3 * (i - 1) + 1];
      assert r[3 * i + 2] == PercentBytes(rest)[3 * (i - 1) + 2];
    }
  }

  /** `encodeURIComponent` of one code point. */
  function EncodeChar(c: char): string {
    if Unreserved(c) then [c] else PercentBytes(Utf8(c))
  }

  /** `encodeURIComponent(s)`. */
  function Encode(s: string): string {
    if s == [] then [] else EncodeChar(s[0]) + Encode(s[1..])
  }

  /** A character `encodeURIComponent` can produce. */
  predicate Emitted(c: char) {
    Unreserved(c) || c == '%'
  }

  /** The encoding is a homomorphism: it encodes each part on its own. */
  lemma {:induction false} EncodeAppend(a: string, b: string)
    ensures Encode(a + b) == Encode(a) + Encode(b)
  {
    if a == [] {
      assert a + b == b;
    } else {
      var ab := a + b;
      assert ab[0] == a[0] && ab[1..] == a[1..] + b;
      EncodeAppend(a[1..], b);
    }
  }

  /** The encoding only produces unreserved characters and `%` escapes. */
  lemma {:induction false} EncodeAlphabet(s: string)
    ensures forall i :: 0 <= i < |Encode(s)| ==> Emitted(Encode(s)[i])
  {
    if s != [] {
      EncodeAlphabet(s[1..]);
      var head, rest := EncodeChar(s[0]), Encode(s[1..]);
      assert forall i :: 0 <= i < |head| ==> Emitted(head[i]);
      assert Encode(s) == head + rest;
    }
  }

  /** A string of unreserved characters is its own encoding. */
  lemma {:induction false} EncodeUnreserved(s: string)
    requires forall i :: 0 <= i < |s| ==> Unreserved(s[i])
    ensures Encode(s) == s
  {
    if s != [] {
      EncodeUnreserved(s[1..]);
    }
  }

  /** `escape(name)`. */
  function EscapeName(name: string): string {
    Encode(Dotless(name))
  }

  /** A '|' separator of a series key becomes a '.' between the two escaped parts. */
  lemma EscapeSeparator(a: string, b: string)
    ensures EscapeName(a + "|" + b) == EscapeName(a) + "." + EscapeName(b)
  {
    var s := a + "|" + b;
    DotlessMap(s);
    DotlessMap(a);
    DotlessMap(b);
    var d, da, db := Dotless(s), Dotless(a), Dotless(b);
    assert d == da + "." + db by {
      forall i | 0 <= i < |d| ensures d[i] == (da + "." + db)[i] {
        if i < |a| {
          assert s[i] == a[i];
        } else if i > |a| {
          assert s[i] == b[i - |a| - 1];
        }
      }
    }
    EncodeAppend(da + ".", db);
    EncodeAppend(da, ".");
    assert Encode(".") == ".";
  }

  /** Escaping names for storage keys loses the difference between '.' and '_'. */
  lemma DotAndUnderscoreCollide()
    ensures EscapeName("a.b") == EscapeName("a_b") == "a_b"
  {
    DotlessMap("a.b");
    DotlessMap("a_b");
    assert Dotless("a.b") == "a_b";
    assert Dotless("a_b") == "a_b";
    EncodeUnreserved("a_b");
  }

  /** A space is escaped as `%20`. */
  lemma EscapeSpace()
    ensures EscapeName("a b") == "a%20b"
  {
    DotlessMap("a b");
    assert Dotless("a b") == "a b";
    EncodeAppend("a", " b");
    EncodeAppend(" ", "b");
    assert "a" + " b" == "a b" && " " + "b" == " b";
  }

  /** A non-ASCII letter is escaped as its two UTF-8 bytes. */
  lemma EscapeTwoBytes()
    ensures EscapeName("é") == "%C3%A9"
  {
    DotlessMap("é");
    assert Dotless("é") == "é";
    assert Utf8('é') == [0xC3, 0xA9];
  }

  /** A bar becomes a dot. */
  lemma EscapeBar()
    ensures EscapeName("a|b") == "a.b"
  {
    EscapeSeparator("a", "b");
    DotlessMap("a");
    DotlessMap("b");
    assert Dotless("a") == "a" && Dotless("b") == "b";
    EncodeUnreserved("a");
    EncodeUnreserved("b");
  }
}
