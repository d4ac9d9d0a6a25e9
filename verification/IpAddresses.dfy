/**
 IP addresses, and the textual form of IPv4 as Rust's standard library prints and
 parses it.
 */
module IpAddresses {
  import opened Text

  type Octet = n: int | 0 <= n < 256
  type Segment = n: int | 0 <= n < 65536

  /** An IPv6 address is its eight 16-bit segments, most significant first. */
  datatype Ip = V4(a: Octet, b: Octet, c: Octet, d: Octet) | V6(segments: seq<Segment>)

  function V4Parts(a: Octet, b: Octet, c: Octet, d: Octet): seq<string> {
    [Decimal(a), Decimal(b), Decimal(c), Decimal(d)]
  }

  function PrintV4(a: Octet, b: Octet, c: Octet, d: Octet): string {
    Join(V4Parts(a, b, c, d), ".")
  }

  /** One dotted part: one to three digits, no leading zero, below 256. */
  function ParseOctet(s: string): Option<Octet> {
    if 1 <= |s| <= 3 && Digits(s) && (|s| == 1 || s[0] != '0') && NumeralValue(s) < 256
    then Some(NumeralValue(s))
    else None
  }

  function ParseV4(t: string): Option<Ip> {
    var p := Split(t, ".");
    if |p| != 4 then None
    else
      var a, b, c, d := ParseOctet(p[0]), ParseOctet(p[1]), ParseOctet(p[2]), ParseOctet(p[3]);
      if a.None? || b.None? || c.None? || d.None? then None
      else Some(V4(a.value, b.value, c.value, d.value))
  }

  /** `str::parse::<IpAddr>`: the IPv4 form first, then the IPv6 form `v6` reads. */
  function ParseIp(t: string, v6: string -> Option<Ip>): Option<Ip> {
    if ParseV4(t).Some? then ParseV4(t) else v6(t)
  }

  lemma {:induction false} OctetParses(n: Octet)
    ensures ParseOctet(Decimal(n)) == Some(n)
    ensures '.' !in Decimal(n)
  {
  }

  lemma {:induction false} V4RoundTrip(a: Octet, b: Octet, c: Octet, d: Octet)
    ensures ParseV4(PrintV4(a, b, c, d)) == Some(V4(a, b, c, d))
  {
    var parts := V4Parts(a, b, c, d);
    OctetParses(a);
    OctetParses(b);
    OctetParses(c);
    OctetParses(d);
    forall k | 0 <= k < |parts|
      ensures !Contains(parts[k], ".")
    {
      CharOccurs(parts[k], '.');
    }
    JoinThenSplit(parts, ".");
  }

  lemma {:induction false} OctetParsesIff(s: string, n: Octet)
    ensures ParseOctet(s) == Some(n) <==> s == Decimal(n)
  {
    OctetParses(n);
    if ParseOctet(s) == Some(n) {
      CanonicalNumeral(s);
    }
  }

  /** Exactly the printed form of an address is parsed as that IPv4 address. */
  lemma {:induction false} V4ParsesIff(t: string, a: Octet, b: Octet, c: Octet, d: Octet)
    ensures ParseV4(t) == Some(V4(a, b, c, d)) <==> t == PrintV4(a, b, c, d)
  {
    V4RoundTrip(a, b, c, d);
    if ParseV4(t) == Some(V4(a, b, c, d)) {
      var p := Split(t, ".");
      OctetParsesIff(p[0], a);
      OctetParsesIff(p[1], b);
      OctetParsesIff(p[2], c);
      OctetParsesIff(p[3], d);
      assert p == V4Parts(a, b, c, d);
      SplitThenJoin(t, ".");
    }
  }

  /** A text that is no printed IPv4 address is read as the IPv6 grammar reads it. */
  lemma {:induction false} OtherTextIsV6(t: string, v6: string -> Option<Ip>)
    requires forall a: Octet, b: Octet, c: Octet, d: Octet :: t != PrintV4(a, b, c, d)
    ensures ParseIp(t, v6) == v6(t)
  {
    if ParseV4(t).Some? {
      var ip := ParseV4(t).value;
      V4ParsesIff(t, ip.a, ip.b, ip.c, ip.d);
    }
  }
}
