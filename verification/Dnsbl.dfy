/**
 DNSBL lookup names (sections 2.1 and 2.4 of RFC 5782): IPv4 octets reversed,
 IPv6 nibbles reversed, then the zone.
 */
module Dnsbl {
  import opened Text
  import opened IpAddresses

  // ---------------------------------------------------------------- nibbles of a number

  function Pow16(n: nat): nat
    ensures Pow16(n) >= 1
  {
    if n == 0 then 1 else 16 * Pow16(n - 1)
  }

  /** The number without its `n` lowest nibbles. */
  function ShiftRight(a: nat, n: nat): nat {
    if n == 0 then a else ShiftRight(a / 16, n - 1)
  }

  lemma {:induction false} DivUnique(a: nat, d: nat, q: nat, r: nat)
    requires d > 0 && r < d && a == d * q + r
    ensures a / d == q
  {
    var k := a / d - q;
    assert d * (a / d) + a % d == a;
    assert d * k == r - a % d;
    Multiples(d, k);
  }

  lemma {:induction false} Multiples(d: int, k: int)
    requires d > 0
    ensures k >= 1 ==> d * k >= d
    ensures k <= -1 ==> d * k <= -d
  {
  }

  lemma {:induction false} DivDiv(a: nat, b: nat)
    requires b > 0
    ensures a / 16 / b == a / (16 * b)
  {
    var q, r := a / 16 / b, a / 16 % b;
    assert a / 16 == b * q + r;
    assert a == 16 * (b * q + r) + a % 16;
    assert 16 * (b * q) == (16 * b) * q;
    DivUnique(a, 16 * b, q, 16 * r + a % 16);
  }

  lemma {:induction false} ShiftShift(a: nat, m: nat, n: nat)
    ensures ShiftRight(ShiftRight(a, m), n) == ShiftRight(a, m + n)
  {
    if m > 0 {
      ShiftShift(a / 16, m - 1, n);
    }
  }

  // ---------------------------------------------------------------- labels

  /** `{:x}` of one nibble. */
  function HexLower(n: nat): char
    requires n < 16
  {
    if n < 10 then ('0' as int + n) as char else ('a' as int + n - 10) as char
  }

  /** The labels of the `n` lowest nibbles, lowest first. */
  function Labels(a: nat, n: nat): (s: string)
    ensures |s| == 2 * n
  {
    if n == 0 then "" else [HexLower(a % 16), '.'] + Labels(a / 16, n - 1)
  }

  lemma {:induction false} LabelsSnoc(a: nat, n: nat)
    ensures Labels(a, n + 1) == Labels(a, n) + [HexLower(ShiftRight(a, n) % 16), '.']
  {
    if n > 0 {
      LabelsSnoc(a / 16, n - 1);
      ConcatAssoc([HexLower(a % 16), '.'], Labels(a / 16, n - 1), [HexLower(ShiftRight(a, n) % 16), '.']);
    } else {
      assert Labels(a / 16, 0) == "";
    }
  }

  /** Label `i` is nibble `i` of the address, for every label. */
  lemma {:induction false} LabelIsNibble(a: nat, n: nat, i: nat)
    requires i < n
    ensures Labels(a, n)[2 * i] == "0123456789abcdef"[a / Pow16(i) % 16]
    ensures Labels(a, n)[2 * i + 1] == '.'
  {
    if i > 0 {
      LabelIsNibble(a / 16, n - 1, i - 1);
      DivDiv(a, Pow16(i - 1));
    }
  }

  // ---------------------------------------------------------------- addresses

  /** The 128-bit number the segments spell, most significant first. */
  function Address(segments: seq<Segment>): nat {
    if segments == [] then 0
    else Address(segments[..|segments| - 1]) * 65536 + segments[|segments| - 1]
  }

  lemma {:induction false} AddressInjective(x: seq<Segment>, y: seq<Segment>)
    requires |x| == |y| && Address(x) == Address(y)
    ensures x == y
  {
    if x != [] {
      var n := |x| - 1;
      AddressInjective(x[..n], y[..n]);
      assert x == x[..n] + [x[n]] && y == y[..n] + [y[n]];
    }
  }

  lemma {:induction false} AddressBound(x: seq<Segment>)
    ensures Address(x) < Pow16(4 * |x|)
  {
    if x != [] {
      var n := |x| - 1;
      AddressBound(x[..n]);
      assert Pow16(4 * n + 1) == 16 * Pow16(4 * n);
      assert Pow16(4 * n + 2) == 16 * Pow16(4 * n + 1);
      assert Pow16(4 * n + 3) == 16 * Pow16(4 * n + 2);
      assert Pow16(4 * n + 4) == 16 * Pow16(4 * n + 3);
      assert 4 * |x| == 4 * n + 4;
    }
  }

  /** Nibble `j` of a segment: `(seg >> 4j) & 0xF`. */
  function SegmentNibble(segment: Segment, j: nat): (r: nat)
    ensures r < 16
  {
    ShiftRight(segment, j) % 16
  }

  lemma {:induction false} LowSegment(high: nat, low: Segment)
    ensures forall j: nat :: j < 4 ==> ShiftRight(high * 65536 + low, j) % 16 == SegmentNibble(low, j)
    ensures ShiftRight(high * 65536 + low, 4) == high
  {
    var a := high * 65536 + low;
    var a1, l1 := a / 16, low / 16;
    assert a1 == high * 4096 + l1;
    var a2, l2 := a1 / 16, l1 / 16;
    assert a2 == high * 256 + l2;
    var a3, l3 := a2 / 16, l2 / 16;
    assert a3 == high * 16 + l3;
    ShiftUnfolds(a);
    ShiftUnfolds(low);
    forall j: nat | j < 4
      ensures ShiftRight(a, j) % 16 == SegmentNibble(low, j)
    {
      if j == 0 {
      } else if j == 1 {
      } else if j == 2 {
      } else {
      }
    }
  }

  lemma {:induction false} ShiftUnfolds(a: nat)
    ensures ShiftRight(a, 1) == a / 16 && ShiftRight(a, 2) == a / 16 / 16
    ensures ShiftRight(a, 3) == a / 16 / 16 / 16 && ShiftRight(a, 4) == a / 16 / 16 / 16 / 16
  {
    ShiftShift(a, 1, 1);
    ShiftShift(a, 2, 1);
    ShiftShift(a, 3, 1);
  }

  /** Dropping four nibbles per segment drops the last segments. */
  lemma {:induction false} ShiftDropsSegments(segments: seq<Segment>, k: nat)
    requires k <= |segments|
    ensures ShiftRight(Address(segments), 4 * k) == Address(segments[..|segments| - k])
  {
    if k == 0 {
      assert segments[..|segments|] == segments;
    } else {
      var rest := segments[..|segments| - (k - 1)];
      ShiftDropsSegments(segments, k - 1);
      ShiftShift(Address(segments), 4 * (k - 1), 4);
      LowSegment(Address(rest[..|rest| - 1]), rest[|rest| - 1]);
      assert rest[..|rest| - 1] == segments[..|segments| - k];
    }
  }

  lemma {:induction false} NibbleOfAddress(segments: seq<Segment>, k: nat, j: nat)
    requires k < |segments| && j < 4
    ensures ShiftRight(Address(segments), 4 * k + j) % 16 == SegmentNibble(segments[|segments| - 1 - k], j)
  {
    var rest := segments[..|segments| - k];
    ShiftDropsSegments(segments, k);
    ShiftShift(Address(segments), 4 * k, j);
    LowSegment(Address(rest[..|rest| - 1]), rest[|rest| - 1]);
  }

  // ---------------------------------------------------------------- names

  function NameV4(a: Octet, b: Octet, c: Octet, d: Octet, zone: string): string {
    Decimal(d) + "." + (Decimal(c) + "." + (Decimal(b) + "." + (Decimal(a) + "." + zone)))
  }

  function NameV6(address: nat, zone: string): string {
    Labels(address, 32) + zone
  }

  function QueryName(ip: Ip, zone: string): string {
    match ip
    case V4(a, b, c, d) => NameV4(a, b, c, d, zone)
    case V6(segments) => NameV6(Address(segments), zone)
  }

  /** The IPv6 branch of `dnsbl_query_name`: segments from least to most
      significant, nibbles from low to high. */
  method BuildV6(segments: seq<Segment>, zone: string) returns (out: string)
    requires |segments| == 8
    ensures out == QueryName(V6(segments), zone)
  {
    out := "";
    for k := 0 to 8
      invariant out == Labels(Address(segments), 4 * k)
    {
      var segment := segments[7 - k];
      for j := 0 to 4
        invariant out == Labels(Address(segments), 4 * k + j)
      {
        NibbleOfAddress(segments, k, j);
        LabelsSnoc(Address(segments), 4 * k + j);
        out := out + [HexLower(SegmentNibble(segment, j)), '.'];
      }
    }
    out := out + zone;
  }

  // ---------------------------------------------------------------- decoding

  function HexLowerValue(c: char): Option<nat> {
    if '0' <= c <= '9' then Some(c as int - '0' as int)
    else if 'a' <= c <= 'f' then Some(c as int - 'a' as int + 10)
    else None
  }

  /** The number `n` single-digit labels spell, and what follows them. */
  function DecodeLabels(t: string, n: nat): Option<(nat, string)> {
    if n == 0 then Some((0, t))
    else if |t| < 2 || HexLowerValue(t[0]).None? || t[1] != '.' then None
    else
      match DecodeLabels(t[2..], n - 1)
      case None => None
      case Some(rest) => Some((HexLowerValue(t[0]).value + 16 * rest.0, rest.1))
  }

  function DecodeV6(name: string): Option<(nat, string)> {
    DecodeLabels(name, 32)
  }

  function DecodeOctet(t: string): Option<(Octet, string)> {
    match Find(t, ".", 0)
    case None => None
    case Some(i) =>
      match ParseOctet(t[..i])
      case None => None
      case Some(n) => Some((n, t[i + 1..]))
  }

  function DecodeV4(name: string): Option<(Ip, string)> {
    match DecodeOctet(name)
    case None => None
    case Some(d) =>
      match DecodeOctet(d.1)
      case None => None
      case Some(c) =>
        match DecodeOctet(c.1)
        case None => None
        case Some(b) =>
          match DecodeOctet(b.1)
          case None => None
          case Some(a) => Some((V4(a.0, b.0, c.0, d.0), a.1))
  }

  lemma {:induction false} DecodeWritten(n: Octet, rest: string)
    ensures DecodeOctet(Decimal(n) + "." + rest) == Some((n, rest))
  {
    OctetParses(n);
    CharOccurs(Decimal(n), '.');
    NoFind(Decimal(n), ".");
    FindInConcat(Decimal(n), ".", rest);
    var t := Decimal(n) + "." + rest;
    assert t[..|Decimal(n)|] == Decimal(n) && t[|Decimal(n)| + 1..] == rest;
  }

  lemma {:induction false} V4NameDecodes(a: Octet, b: Octet, c: Octet, d: Octet, zone: string)
    ensures DecodeV4(NameV4(a, b, c, d, zone)) == Some((V4(a, b, c, d), zone))
  {
    DecodeWritten(a, zone);
    DecodeWritten(b, Decimal(a) + "." + zone);
    DecodeWritten(c, Decimal(b) + "." + (Decimal(a) + "." + zone));
    DecodeWritten(d, Decimal(c) + "." + (Decimal(b) + "." + (Decimal(a) + "." + zone)));
  }

  lemma {:induction false} LabelsDecode(a: nat, n: nat, zone: string)
    requires a < Pow16(n)
    ensures DecodeLabels(Labels(a, n) + zone, n) == Some((a, zone))
  {
    if n == 0 {
      assert Labels(a, n) + zone == zone;
    } else {
      LabelsDecode(a / 16, n - 1, zone);
      LabelThenRest(a, n - 1, zone);
      DecodeLabel(a % 16, Labels(a / 16, n - 1) + zone, n - 1);
    }
  }

  lemma {:induction false} DecodeLabel(h: nat, rest: string, n: nat)
    requires h < 16 && DecodeLabels(rest, n).Some?
    ensures DecodeLabels([HexLower(h), '.'] + rest, n + 1)
            == Some((h + 16 * DecodeLabels(rest, n).value.0, DecodeLabels(rest, n).value.1))
  {
  }

  /** A decoder recovers the address and the zone from the name. */
  lemma {:induction false} V6NameDecodes(segments: seq<Segment>, zone: string)
    requires |segments| == 8
    ensures DecodeV6(QueryName(V6(segments), zone)) == Some((Address(segments), zone))
  {
    AddressBound(segments);
    LabelsDecode(Address(segments), 32, zone);
  }

  predicate SameFamily(x: Ip, y: Ip) {
    x.V4? <==> y.V4?
  }

  predicate ValidIp(ip: Ip) {
    ip.V6? ==> |ip.segments| == 8
  }

  /** Within one family, a name determines its address and its zone. */
  lemma {:induction false} QueryNameInjective(x: Ip, xZone: string, y: Ip, yZone: string)
    requires ValidIp(x) && ValidIp(y) && SameFamily(x, y)
    requires QueryName(x, xZone) == QueryName(y, yZone)
    ensures x == y && xZone == yZone
  {
    if x.V4? {
      V4NameDecodes(x.a, x.b, x.c, x.d, xZone);
      V4NameDecodes(y.a, y.b, y.c, y.d, yZone);
    } else {
      V6NameDecodes(x.segments, xZone);
      V6NameDecodes(y.segments, yZone);
      AddressInjective(x.segments, y.segments);
    }
  }

  lemma {:induction false} OctetLength(n: Octet)
    ensures 1 <= |Decimal(n)| <= 3
  {
  }

  /** In one zone no IPv4 name is an IPv6 name. */
  lemma {:induction false} FamiliesDisjoint(x: Ip, y: Ip, zone: string)
    requires ValidIp(x) && ValidIp(y) && !SameFamily(x, y)
    ensures QueryName(x, zone) != QueryName(y, zone)
  {
    var v4 := if x.V4? then x else y;
    OctetLength(v4.a);
    OctetLength(v4.b);
    OctetLength(v4.c);
    OctetLength(v4.d);
    assert |QueryName(v4, zone)| <= 16 + |zone|;
  }

  // ---------------------------------------------------------------- across zones

  lemma {:induction false} FourLabels(a: nat, zone: string)
    ensures NameV6(a, zone)
            == [HexLower(a % 16), '.'] + ([HexLower(a / 16 % 16), '.']
               + ([HexLower(a / 16 / 16 % 16), '.'] + ([HexLower(a / 16 / 16 / 16 % 16), '.']
               + (Labels(a / 16 / 16 / 16 / 16, 28) + zone))))
  {
    LabelThenRest(a, 31, zone);
    LabelThenRest(a / 16, 30, zone);
    LabelThenRest(a / 16 / 16, 29, zone);
    LabelThenRest(a / 16 / 16 / 16, 28, zone);
  }

  lemma {:induction false} LabelThenRest(a: nat, n: nat, zone: string)
    ensures Labels(a, n + 1) + zone == [HexLower(a % 16), '.'] + (Labels(a / 16, n) + zone)
  {
  }

  lemma {:induction false} DecodeHexLabel(n: nat, rest: string)
    requires n < 16
    ensures DecodeOctet([HexLower(n), '.'] + rest) == if n < 10 then Some((n, rest)) else None
  {
    var t := [HexLower(n), '.'] + rest;
    OtherCharNoOccurrence(t, ".", 0);
    assert OccursAt(t, ".", 1) by { assert t[1..2] == "."; }
    FindSkipTo(t, ".", 0, 1);
    assert Find(t, ".", 0) == Some(1);
    assert t[..1] == [HexLower(n)] && t[2..] == rest;
    OneHexDigit(n);
  }

  lemma {:induction false} OneHexDigit(n: nat)
    requires n < 16
    ensures ParseOctet([HexLower(n)]) == if n < 10 then Some(n) else None
  {
    var h := [HexLower(n)];
    assert h[..0] == "";
    assert IsDigit(h[0]) <==> n < 10;
    if n < 10 {
      assert Digits(h);
      assert NumeralValue(h) == 10 * NumeralValue(h[..0]) + DigitValue(h[0]);
    }
  }

  lemma {:induction false} SmallDecimal(n: nat)
    requires n < 10
    ensures Decimal(n) + "." == [HexLower(n), '.']
  {
  }

  /** Across zones an IPv4 name and an IPv6 name coincide exactly when the four
      lowest nibbles are the octets in decimal and the IPv4 zone is the rest of
      the IPv6 name. */
  lemma {:induction false} NamesCoincideIff(a: Octet, b: Octet, c: Octet, d: Octet, zone4: string, address: nat, zone6: string)
    ensures NameV4(a, b, c, d, zone4) == NameV6(address, zone6) <==>
            && d == address % 16 < 10 && c == address / 16 % 16 < 10
            && b == address / 16 / 16 % 16 < 10 && a == address / 16 / 16 / 16 % 16 < 10
            && zone4 == Labels(address / 16 / 16 / 16 / 16, 28) + zone6
  {
    var n0, n1 := address % 16, address / 16 % 16;
    var n2, n3 := address / 16 / 16 % 16, address / 16 / 16 / 16 % 16;
    var r4 := Labels(address / 16 / 16 / 16 / 16, 28) + zone6;
    var r3 := [HexLower(n3), '.'] + r4;
    var r2 := [HexLower(n2), '.'] + r3;
    var r1 := [HexLower(n1), '.'] + r2;
    FourLabels(address, zone6);
    V4NameDecodes(a, b, c, d, zone4);
    DecodeHexLabel(n0, r1);
    DecodeHexLabel(n1, r2);
    DecodeHexLabel(n2, r3);
    DecodeHexLabel(n3, r4);
    if d == n0 < 10 && c == n1 < 10 && b == n2 < 10 && a == n3 < 10 && zone4 == r4 {
      SmallDecimal(n0);
      SmallDecimal(n1);
      SmallDecimal(n2);
      SmallDecimal(n3);
    }
  }
}
