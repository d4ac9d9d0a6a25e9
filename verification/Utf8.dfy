/**
 UTF-8 as section 3 of RFC 3629 defines it: what Rust stores a `str` as, what
 `str::len` measures, and what `str` ordering compares.
 */
module Utf8 {
  import opened Text

  type Byte = b: int | 0 <= b < 256

  function EncodeChar(c: char): (r: seq<Byte>)
    ensures 1 <= |r| <= 4
  {
    var n := c as int;
    var n1 := n / 64;
    var n2 := n1 / 64;
    var n3 := n2 / 64;
    if n < 0x80 then [n]
    else if n < 0x800 then [0xC0 + n1, 0x80 + n % 64]
    else if n < 0x1_0000 then [0xE0 + n2, 0x80 + n1 % 64, 0x80 + n % 64]
    else [0xF0 + n3, 0x80 + n2 % 64, 0x80 + n1 % 64, 0x80 + n % 64]
  }

  function Encode(s: string): seq<Byte> {
    if s == "" then [] else EncodeChar(s[0]) + Encode(s[1..])
  }

  predicate Continuation(b: Byte) { 0x80 <= b < 0xC0 }

  /** `high` extended by the six bits of a continuation byte. */
  function Join6(high: int, b: Byte): int {
    high * 64 + (b as int - 0x80)
  }

  /** The scalar value at the front of `b` and the bytes it takes; overlong forms,
      surrogates and values above U+10FFFF are rejected. */
  function DecodeFirst(b: seq<Byte>): (r: Option<(char, nat)>)
    ensures r.Some? ==> 1 <= r.value.1 <= |b|
  {
    if |b| == 0 then None
    else
      var lead: int := b[0];
      if lead < 0x80 then Some((lead as char, 1))
      else if |b| >= 2 && 0xC2 <= lead < 0xE0 && Continuation(b[1]) then
        Some((Join6(lead - 0xC0, b[1]) as char, 2))
      else if |b| >= 3 && 0xE0 <= lead < 0xF0 && Continuation(b[1]) && Continuation(b[2]) then
        var n := Join6(Join6(lead - 0xE0, b[1]), b[2]);
        if n < 0x800 || 0xD800 <= n < 0xE000 then None else Some((n as char, 3))
      else if |b| >= 4 && 0xF0 <= lead < 0xF8 && Continuation(b[1]) && Continuation(b[2]) && Continuation(b[3]) then
        var n := Join6(Join6(Join6(lead - 0xF0, b[1]), b[2]), b[3]);
        if n < 0x1_0000 || 0x11_0000 <= n then None else Some((n as char, 4))
      else None
  }

  function Decode(b: seq<Byte>): Option<string>
    decreases |b|
  {
    if b == [] then Some("")
    else
      match DecodeFirst(b)
      case None => None
      case Some(first) =>
        match Decode(b[first.1..])
        case None => None
        case Some(rest) => Some([first.0] + rest)
  }

  lemma {:induction false} DecodeFirstOfEncoded(c: char, more: seq<Byte>)
    ensures DecodeFirst(EncodeChar(c) + more) == Some((c, |EncodeChar(c)|))
  {
    var n := c as int;
    var n1 := n / 64;
    var n2 := n1 / 64;
    var n3 := n2 / 64;
    assert Join6(n1, 0x80 + n % 64) == n && Join6(n2, 0x80 + n1 % 64) == n1 && Join6(n3, 0x80 + n2 % 64) == n2;
    var b := EncodeChar(c) + more;
    assert forall k :: 0 <= k < |EncodeChar(c)| ==> b[k] == EncodeChar(c)[k];
  }

  lemma {:induction false} DecodeEncoded(s: string)
    ensures Decode(Encode(s)) == Some(s)
  {
    if s != "" {
      DecodeFirstOfEncoded(s[0], Encode(s[1..]));
      assert Encode(s)[|EncodeChar(s[0])|..] == Encode(s[1..]);
      DecodeEncoded(s[1..]);
      assert s == [s[0]] + s[1..];
    }
  }

  lemma {:induction false} JoinParts(high: int, b: Byte)
    requires Continuation(b)
    ensures Join6(high, b) / 64 == high && 0x80 + Join6(high, b) % 64 == b
  {
  }

  /** Only the encoding of a character is decoded to it. */
  lemma {:induction false} DecodeFirstIsEncoded(b: seq<Byte>)
    requires DecodeFirst(b).Some?
    ensures b[..DecodeFirst(b).value.1] == EncodeChar(DecodeFirst(b).value.0)
  {
    var n := DecodeFirst(b).value.1;
    var lead: int := b[0];
    if n == 2 {
      JoinParts(lead - 0xC0, b[1]);
    } else if n == 3 {
      JoinParts(lead - 0xE0, b[1]);
      JoinParts(Join6(lead - 0xE0, b[1]), b[2]);
    } else if n == 4 {
      JoinParts(lead - 0xF0, b[1]);
      JoinParts(Join6(lead - 0xF0, b[1]), b[2]);
      JoinParts(Join6(Join6(lead - 0xF0, b[1]), b[2]), b[3]);
    }
  }

  /** Exactly the encoding of a string is decoded to it. */
  lemma {:induction false} DecodesIff(b: seq<Byte>, s: string)
    ensures Decode(b) == Some(s) <==> b == Encode(s)
    decreases |b|
  {
    DecodeEncoded(s);
    if Decode(b) == Some(s) && b != [] {
      var n := DecodeFirst(b).value.1;
      DecodeFirstIsEncoded(b);
      DecodesIff(b[n..], s[1..]);
      assert b == b[..n] + b[n..];
    }
  }

  lemma {:induction false} EncodeConcat(a: string, b: string)
    ensures Encode(a + b) == Encode(a) + Encode(b)
  {
    if a == "" {
      assert a + b == b;
    } else {
      assert (a + b)[1..] == a[1..] + b;
      EncodeConcat(a[1..], b);
    }
  }

  // ---------------------------------------------------------------- byte order

  predicate BytesLess(a: seq<Byte>, b: seq<Byte>) {
    if b == [] then false
    else if a == [] then true
    else a[0] < b[0] || (a[0] == b[0] && BytesLess(a[1..], b[1..]))
  }

  /** Position `k` is where `a` and `b` first differ, and `a` is smaller there. */
  predicate SmallerAt(a: seq<Byte>, b: seq<Byte>, k: nat) {
    k < |a| && k < |b| && a[..k] == b[..k] && a[k] < b[k]
  }

  lemma {:induction false} Base64Order(x: nat, y: nat)
    requires x < y
    ensures x / 64 < y / 64 || (x / 64 == y / 64 && x % 64 < y % 64)
  {
  }

  /** Longer forms have larger lead bytes. */
  lemma {:induction false} LeadOrder(c: char, d: char)
    requires c < d && |EncodeChar(c)| != |EncodeChar(d)|
    ensures EncodeChar(c)[0] < EncodeChar(d)[0]
  {
  }

  lemma {:induction false} SameLengthOrder(c: char, d: char) returns (k: nat)
    requires c < d && |EncodeChar(c)| == |EncodeChar(d)| >= 2
    ensures SmallerAt(EncodeChar(c), EncodeChar(d), k)
  {
    var a, b := EncodeChar(c), EncodeChar(d);
    var x, y := c as int, d as int;
    var x1, y1 := x / 64, y / 64;
    var x2, y2 := x1 / 64, y1 / 64;
    Base64Order(x, y);
    if x1 == y1 {
      k := |a| - 1;
    } else {
      Base64Order(x1, y1);
      if |a| == 2 || x2 == y2 {
        k := |a| - 2;
      } else {
        Base64Order(x2, y2);
        k := if |a| == 4 && x2 / 64 == y2 / 64 then 1 else 0;
      }
    }
  }

  lemma {:induction false} CharOrder(c: char, d: char) returns (k: nat)
    requires c < d
    ensures SmallerAt(EncodeChar(c), EncodeChar(d), k)
  {
    if |EncodeChar(c)| != |EncodeChar(d)| {
      LeadOrder(c, d);
      k := 0;
    } else if |EncodeChar(c)| == 1 {
      k := 0;
    } else {
      k := SameLengthOrder(c, d);
    }
  }

  lemma {:induction false} SmallerIsLess(a: seq<Byte>, b: seq<Byte>, k: nat, x: seq<Byte>, y: seq<Byte>)
    requires SmallerAt(a, b, k)
    ensures BytesLess(a + x, b + y) && !BytesLess(b + y, a + x)
    decreases k
  {
    if k > 0 {
      assert a[0] == a[..k][0] && b[0] == b[..k][0];
      assert a[1..][..k - 1] == a[..k][1..] && b[1..][..k - 1] == b[..k][1..];
      SmallerIsLess(a[1..], b[1..], k - 1, x, y);
      assert (a + x)[1..] == a[1..] + x && (b + y)[1..] == b[1..] + y;
    }
  }

  lemma {:induction false} BytesCommonPrefix(p: seq<Byte>, a: seq<Byte>, b: seq<Byte>)
    ensures BytesLess(p + a, p + b) <==> BytesLess(a, b)
  {
    if p == [] {
      assert p + a == a && p + b == b;
    } else {
      assert (p + a)[1..] == p[1..] + a && (p + b)[1..] == p[1..] + b;
      BytesCommonPrefix(p[1..], a, b);
    }
  }

  /** Comparing strings by code point is comparing their UTF-8 bytes, which is
      what both `str` and SQLite's `BINARY` collation do. */
  lemma {:induction false} OrderIsByteOrder(a: string, b: string)
    ensures Less(a, b) <==> BytesLess(Encode(a), Encode(b))
  {
    if a != "" && b != "" {
      if a[0] == b[0] {
        OrderIsByteOrder(a[1..], b[1..]);
        BytesCommonPrefix(EncodeChar(a[0]), Encode(a[1..]), Encode(b[1..]));
      } else if a[0] < b[0] {
        var k := CharOrder(a[0], b[0]);
        SmallerIsLess(EncodeChar(a[0]), EncodeChar(b[0]), k, Encode(a[1..]), Encode(b[1..]));
      } else {
        var k := CharOrder(b[0], a[0]);
        SmallerIsLess(EncodeChar(b[0]), EncodeChar(a[0]), k, Encode(b[1..]), Encode(a[1..]));
      }
    }
  }
}
