/**
 `url_escape`, the percent-encoder of query values on the audit page, against the
 decoder of sections 2.1 and 2.3 of RFC 3986.
 */
module PercentEncoding {
  import opened Text
  import opened Utf8

  predicate Unreserved(c: char) {
    'a' <= c <= 'z' || 'A' <= c <= 'Z' || '0' <= c <= '9' || c == '-' || c == '_' || c == '.' || c == '~'
  }

  function HexDigit(n: nat): char
    requires n < 16
  {
    if n < 10 then ('0' as int + n) as char else ('A' as int + n - 10) as char
  }

  predicate UpperHex(c: char) { '0' <= c <= '9' || 'A' <= c <= 'F' }

  function HexValue(c: char): Option<nat> {
    if '0' <= c <= '9' then Some(c as int - '0' as int)
    else if 'A' <= c <= 'F' then Some(c as int - 'A' as int + 10)
    else if 'a' <= c <= 'f' then Some(c as int - 'a' as int + 10)
    else None
  }

  function EscapeByte(b: Byte): string {
    ['%', HexDigit(b / 16), HexDigit(b % 16)]
  }

  function EscapeBytes(b: seq<Byte>): string {
    if b == [] then "" else EscapeBytes(b[..|b| - 1]) + EscapeByte(b[|b| - 1])
  }

  function EscapeChar(c: char): string {
    if Unreserved(c) then [c] else EscapeBytes(EncodeChar(c))
  }

  function Escape(s: string): string {
    if s == "" then "" else Escape(s[..|s| - 1]) + EscapeChar(s[|s| - 1])
  }

  /** `url_escape`, appending to its output buffer character by character. */
  method UrlEscape(value: string) returns (out: string)
    ensures out == Escape(value)
  {
    out := "";
    for i := 0 to |value|
      invariant out == Escape(value[..i])
    {
      var c := value[i];
      assert value[..i + 1][..i] == value[..i];
      if Unreserved(c) {
        out := out + [c];
      } else {
        var bytes := EncodeChar(c);
        for k := 0 to |bytes|
          invariant out == Escape(value[..i]) + EscapeBytes(bytes[..k])
        {
          assert bytes[..k + 1][..k] == bytes[..k];
          ConcatAssoc(Escape(value[..i]), EscapeBytes(bytes[..k]), EscapeByte(bytes[k]));
          out := out + EscapeByte(bytes[k]);
        }
        assert bytes[..|bytes|] == bytes;
      }
    }
    assert value[..|value|] == value;
  }

  /** Percent-decoding to bytes; only ASCII text is a well-formed input. */
  function PercentDecode(t: string): Option<seq<Byte>> {
    if t == "" then Some([])
    else if t[0] == '%' then
      if |t| < 3 || HexValue(t[1]).None? || HexValue(t[2]).None? then None
      else
        match PercentDecode(t[3..])
        case None => None
        case Some(rest) => Some([HexValue(t[1]).value * 16 + HexValue(t[2]).value] + rest)
    else if t[0] as int >= 0x80 then None
    else
      match PercentDecode(t[1..])
      case None => None
      case Some(rest) => Some([t[0] as int] + rest)
  }

  lemma {:induction false} DecodeEscapedByte(b: Byte, t: string)
    requires PercentDecode(t).Some?
    ensures PercentDecode(EscapeByte(b) + t) == Some([b] + PercentDecode(t).value)
  {
  }

  lemma {:induction false} DecodeEscapedBytes(b: seq<Byte>, t: string)
    requires PercentDecode(t).Some?
    ensures PercentDecode(EscapeBytes(b) + t) == Some(b + PercentDecode(t).value)
    decreases |b|
  {
    if b == [] {
      assert EscapeBytes(b) + t == t && b + PercentDecode(t).value == PercentDecode(t).value;
    } else {
      var n := |b| - 1;
      DecodeEscapedByte(b[n], t);
      DecodeEscapedBytes(b[..n], EscapeByte(b[n]) + t);
      ConcatAssoc(EscapeBytes(b[..n]), EscapeByte(b[n]), t);
      assert b == b[..n] + [b[n]];
      ConcatAssoc(b[..n], [b[n]], PercentDecode(t).value);
    }
  }

  lemma {:induction false} DecodeEscapedChar(c: char, t: string)
    requires PercentDecode(t).Some?
    ensures PercentDecode(EscapeChar(c) + t) == Some(EncodeChar(c) + PercentDecode(t).value)
  {
    if Unreserved(c) {
      assert ([c] + t)[1..] == t;
    } else {
      DecodeEscapedBytes(EncodeChar(c), t);
    }
  }

  lemma {:induction false} DecodeEscapedThen(s: string, t: string)
    requires PercentDecode(t).Some?
    ensures PercentDecode(Escape(s) + t) == Some(Encode(s) + PercentDecode(t).value)
    decreases |s|
  {
    if s == "" {
      assert Escape(s) + t == t && Encode(s) + PercentDecode(t).value == PercentDecode(t).value;
    } else {
      var n := |s| - 1;
      DecodeEscapedChar(s[n], t);
      DecodeEscapedThen(s[..n], EscapeChar(s[n]) + t);
      ConcatAssoc(Escape(s[..n]), EscapeChar(s[n]), t);
      assert s == s[..n] + [s[n]];
      EncodeConcat(s[..n], [s[n]]);
      EncodeOne(s[n]);
      ConcatAssoc(Encode(s[..n]), EncodeChar(s[n]), PercentDecode(t).value);
    }
  }

  lemma {:induction false} EncodeOne(c: char)
    ensures Encode([c]) == EncodeChar(c)
  {
  }

  /** Decoding the escaped text gives the UTF-8 bytes of the original, and hence
      the original. */
  lemma {:induction false} EscapeRoundTrip(s: string)
    ensures PercentDecode(Escape(s)) == Some(Encode(s))
    ensures Decode(PercentDecode(Escape(s)).value) == Some(s)
  {
    DecodeEscapedThen(s, "");
    assert Escape(s) + "" == Escape(s) && Encode(s) + [] == Encode(s);
    DecodeEncoded(s);
  }

  lemma {:induction false} EscapeInjective(a: string, b: string)
    requires Escape(a) == Escape(b)
    ensures a == b
  {
    EscapeRoundTrip(a);
    EscapeRoundTrip(b);
  }

  lemma {:induction false} EscapeConcat(a: string, b: string)
    ensures Escape(a + b) == Escape(a) + Escape(b)
    decreases |b|
  {
    if b == "" {
      assert a + b == a;
    } else {
      var n := |b| - 1;
      assert (a + b)[..|a| + n] == a + b[..n];
      EscapeConcat(a, b[..n]);
      ConcatAssoc(Escape(a), Escape(b[..n]), EscapeChar(b[n]));
    }
  }

  /** A query-safe text: unreserved characters and `%` with two uppercase digits. */
  predicate QuerySafe(t: string) {
    t == ""
    || (Unreserved(t[0]) && QuerySafe(t[1..]))
    || (|t| >= 3 && t[0] == '%' && UpperHex(t[1]) && UpperHex(t[2]) && QuerySafe(t[3..]))
  }

  lemma {:induction false} QuerySafeConcat(a: string, b: string)
    requires QuerySafe(a) && QuerySafe(b)
    ensures QuerySafe(a + b)
  {
    if a == "" {
      assert a + b == b;
    } else if Unreserved(a[0]) {
      QuerySafeConcat(a[1..], b);
      assert (a + b)[1..] == a[1..] + b;
    } else {
      QuerySafeConcat(a[3..], b);
      assert (a + b)[3..] == a[3..] + b;
    }
  }

  lemma {:induction false} EscapeBytesIsSafe(b: seq<Byte>)
    ensures QuerySafe(EscapeBytes(b))
  {
    if b != [] {
      var n := |b| - 1;
      EscapeBytesIsSafe(b[..n]);
      assert QuerySafe(EscapeByte(b[n])) by { assert EscapeByte(b[n])[3..] == ""; }
      QuerySafeConcat(EscapeBytes(b[..n]), EscapeByte(b[n]));
    }
  }

  lemma {:induction false} EscapeIsSafe(s: string)
    ensures QuerySafe(Escape(s))
  {
    if s != "" {
      var n := |s| - 1;
      EscapeIsSafe(s[..n]);
      EscapeBytesIsSafe(EncodeChar(s[n]));
      assert Unreserved(s[n]) ==> QuerySafe([s[n]]) by { assert [s[n]][1..] == ""; }
      QuerySafeConcat(Escape(s[..n]), EscapeChar(s[n]));
    }
  }

  lemma {:induction false} EscapeLength(s: string)
    ensures |s| <= |Escape(s)|
    ensures (exists k :: 0 <= k < |s| && !Unreserved(s[k])) ==> |s| < |Escape(s)|
  {
    if s != "" {
      var n := |s| - 1;
      EscapeLength(s[..n]);
      EscapeBytesLonger(EncodeChar(s[n]));
      assert forall k :: 0 <= k < n ==> s[..n][k] == s[k];
    }
  }

  lemma {:induction false} EscapeUnreserved(s: string)
    requires forall k :: 0 <= k < |s| ==> Unreserved(s[k])
    ensures Escape(s) == s
  {
    if s != "" {
      EscapeUnreserved(s[..|s| - 1]);
    }
  }

  /** Exactly the unreserved strings are left as they are. */
  lemma {:induction false} EscapeFixedIff(s: string)
    ensures Escape(s) == s <==> forall k :: 0 <= k < |s| ==> Unreserved(s[k])
  {
    EscapeLength(s);
    if forall k :: 0 <= k < |s| ==> Unreserved(s[k]) {
      EscapeUnreserved(s);
    }
  }

  lemma {:induction false} EscapeBytesLonger(b: seq<Byte>)
    ensures |EscapeBytes(b)| == 3 * |b|
  {
    if b != [] {
      EscapeBytesLonger(b[..|b| - 1]);
    }
  }

  lemma {:induction false} QuerySafeOmits(t: string, c: char)
    requires QuerySafe(t) && !Unreserved(c) && c != '%'
    ensures c !in t
  {
    if t != "" {
      if Unreserved(t[0]) && QuerySafe(t[1..]) {
        QuerySafeOmits(t[1..], c);
        assert t == [t[0]] + t[1..];
      } else {
        QuerySafeOmits(t[3..], c);
        assert t == [t[0], t[1], t[2]] + t[3..];
      }
    }
  }

  /** No delimiter of a query string survives. */
  lemma {:induction false} EscapeHasNoDelimiters(s: string)
    ensures '&' !in Escape(s) && '=' !in Escape(s) && '#' !in Escape(s) && '+' !in Escape(s) && ' ' !in Escape(s)
  {
    EscapeIsSafe(s);
    QuerySafeOmits(Escape(s), '&');
    QuerySafeOmits(Escape(s), '=');
    QuerySafeOmits(Escape(s), '#');
    QuerySafeOmits(Escape(s), '+');
    QuerySafeOmits(Escape(s), ' ');
  }

  /** Letters, digits and four marks are kept, and no other character is. */
  lemma {:induction false} KeptCharacters(c: char)
    ensures Escape([c]) == [c] <==>
            'a' <= c <= 'z' || 'A' <= c <= 'Z' || '0' <= c <= '9' || c in "-_.~"
  {
    EscapeFixedIff([c]);
    assert Unreserved(c) <==> Unreserved([c][0]);
  }
}
