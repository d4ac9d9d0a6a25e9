/**
 String operations the panel takes from Rust's standard library: substring
 search, `split`, `replace`, `trim`, ASCII case folding, unsigned parsing and
 decimal printing. A string is a sequence of Unicode scalar values, so an index
 counts characters where Rust counts bytes.
 */
module Text {

  datatype Option<+T> = None | Some(value: T)

  lemma {:induction false} TakeOneMore<T>(s: seq<T>, i: nat)
    requires i < |s|
    ensures s[..i + 1] == s[..i] + [s[i]]
  {
  }

  lemma {:induction false} ConcatAssoc<T>(x: seq<T>, y: seq<T>, z: seq<T>)
    ensures x + (y + z) == (x + y) + z
  {
  }

  // ---------------------------------------------------------------- search

  predicate OccursAt(s: string, p: string, i: nat) {
    i + |p| <= |s| && s[i..i + |p|] == p
  }

  predicate Contains(s: string, p: string) {
    exists i: nat | i <= |s| :: OccursAt(s, p, i)
  }

  /** The leftmost occurrence at or after `from`, as in `s[from..].find(p)`. */
  function Find(s: string, p: string, from: nat): (r: Option<nat>)
    requires from <= |s|
    ensures r.Some? ==> from <= r.value <= |s| && OccursAt(s, p, r.value)
    ensures r.Some? ==> forall j: nat :: from <= j < r.value ==> !OccursAt(s, p, j)
    ensures r.None? ==> forall j: nat :: from <= j ==> !OccursAt(s, p, j)
    decreases |s| - from
  {
    if OccursAt(s, p, from) then Some(from)
    else if from == |s| then None
    else Find(s, p, from + 1)
  }

  /** The rightmost occurrence starting before `to`, as in `s.rfind(p)`. */
  function RFind(s: string, p: string, to: nat): (r: Option<nat>)
    requires to <= |s| + 1
    ensures r.Some? ==> r.value < to && OccursAt(s, p, r.value)
    ensures r.Some? ==> forall j: nat :: r.value < j < to ==> !OccursAt(s, p, j)
    ensures r.None? ==> forall j: nat :: j < to ==> !OccursAt(s, p, j)
  {
    if to == 0 then None
    else if OccursAt(s, p, to - 1) then Some(to - 1)
    else RFind(s, p, to - 1)
  }

  /** Searching from a position is searching from any later one with nothing between. */
  lemma {:induction false} FindSkipTo(s: string, p: string, from: nat, to: nat)
    requires from <= to <= |s|
    requires forall j: nat :: from <= j < to ==> !OccursAt(s, p, j)
    ensures Find(s, p, from) == Find(s, p, to)
    decreases |s| - from
  {
  }

  function Shift(n: nat, r: Option<nat>): Option<nat> {
    match r case None => None case Some(i) => Some(n + i)
  }

  /** Searching in `y` is searching in `x + y` past `x`. */
  lemma {:induction false} FindShift(x: string, y: string, p: string, from: nat)
    requires from <= |y|
    ensures Find(x + y, p, |x| + from) == Shift(|x|, Find(y, p, from))
    decreases |y| - from
  {
    if from < |y| {
      FindShift(x, y, p, from + 1);
    }
    OccursShifted(x, y, p, from);
    FindShiftStep(x + y, y, p, |x|, from);
  }

  lemma {:induction false} OccursShifted(x: string, y: string, p: string, i: nat)
    ensures OccursAt(x + y, p, |x| + i) <==> OccursAt(y, p, i)
  {
  }

  lemma {:induction false} FindShiftStep(s: string, y: string, p: string, n: nat, from: nat)
    requires from <= |y| && |s| == n + |y|
    requires OccursAt(s, p, n + from) <==> OccursAt(y, p, from)
    requires from < |y| ==> Find(s, p, n + (from + 1)) == Shift(n, Find(y, p, from + 1))
    ensures Find(s, p, n + from) == Shift(n, Find(y, p, from))
  {
  }

  /** The first character of `p` is found nowhere else in `p`: two occurrences
      of `p` never overlap. */
  predicate Sharp(p: string) {
    |p| > 0 && p[0] !in p[1..]
  }

  /** An occurrence of `p` in `x + y` lies in `x`, lies in `y`, or straddles. */
  lemma {:induction false} OccursInConcat(x: string, y: string, p: string, i: nat)
    ensures i + |p| <= |x| ==> (OccursAt(x + y, p, i) <==> OccursAt(x, p, i))
    ensures |x| <= i ==> (OccursAt(x + y, p, i) <==> OccursAt(y, p, i - |x|))
  {
  }

  lemma {:induction false} OtherCharNoOccurrence(s: string, p: string, i: nat)
    requires p != "" && i < |s| && s[i] != p[0]
    ensures !OccursAt(s, p, i)
  {
  }

  lemma {:induction false} SharpTail(s: string, p: string, i: nat)
    requires Sharp(p) && OccursAt(s, p, i)
    ensures s[i] == p[0]
    ensures forall k :: i < k < i + |p| ==> s[k] != p[0]
  {
  }

  lemma {:induction false} SharpDoesNotOverlap(s: string, p: string, i: nat, j: nat)
    requires Sharp(p) && OccursAt(s, p, i) && OccursAt(s, p, j) && i < j
    ensures i + |p| <= j
  {
  }

  /** The first occurrence of a sharp `p` in `a + p + b` is the one in `a`, or
      the one written after `a`; none straddles the boundary. */
  lemma {:induction false} FindInConcat(a: string, p: string, b: string)
    requires Sharp(p)
    ensures Find(a, p, 0).Some? ==> Find(a + p + b, p, 0) == Find(a, p, 0)
    ensures Find(a, p, 0).None? ==> Find(a + p + b, p, 0) == Some(|a|)
  {
    var s := a + p + b;
    assert s == a + (p + b);
    assert OccursAt(s, p, |a|) by { assert s[|a|..|a| + |p|] == p; }
    var r := Find(s, p, 0);
    if r.value < |a| {
      SharpDoesNotOverlap(s, p, r.value, |a|);
      OccursInConcat(a, p + b, p, r.value);
    }
    var q := Find(a, p, 0);
    if q.Some? {
      OccursInConcat(a, p + b, p, q.value);
    }
    forall j: nat | j < |a| && j + |p| <= |a|
      ensures OccursAt(s, p, j) <==> OccursAt(a, p, j)
    {
      OccursInConcat(a, p + b, p, j);
    }
  }

  // ---------------------------------------------------------------- split and join

  /** `s.split(sep)`: the pieces between successive leftmost matches. */
  function Split(s: string, sep: string): (r: seq<string>)
    requires sep != ""
    ensures |r| >= 1
    decreases |s|
  {
    match Find(s, sep, 0)
    case None => [s]
    case Some(i) => [s[..i]] + Split(s[i + |sep|..], sep)
  }

  function Join(parts: seq<string>, sep: string): string
    requires |parts| >= 1
  {
    if |parts| == 1 then parts[0] else parts[0] + sep + Join(parts[1..], sep)
  }

  /** Splitting is a homomorphism: a written separator always separates. */
  lemma {:induction false} SplitConcat(a: string, sep: string, b: string)
    requires Sharp(sep)
    ensures Split(a + sep + b, sep) == Split(a, sep) + Split(b, sep)
    decreases |a|
  {
    FindInConcat(a, sep, b);
    if Find(a, sep, 0).None? {
      SplitBetween(a, sep, b);
    } else {
      var i := Find(a, sep, 0).value;
      SplitConcat(a[i + |sep|..], sep, b);
      SplitAfterHead(a, sep, b, i);
    }
  }

  lemma {:induction false} SplitBetween(a: string, sep: string, b: string)
    requires sep != "" && Find(a, sep, 0).None? && Find(a + sep + b, sep, 0) == Some(|a|)
    ensures Split(a + sep + b, sep) == Split(a, sep) + Split(b, sep)
  {
    var s := a + sep + b;
    assert s[..|a|] == a && s[|a| + |sep|..] == b;
    SplitFound(s, sep, |a|);
    SplitNotFound(a, sep);
  }

  lemma {:induction false} SplitAfterHead(a: string, sep: string, b: string, i: nat)
    requires sep != "" && Find(a, sep, 0) == Some(i) && Find(a + sep + b, sep, 0) == Some(i)
    requires Split(a[i + |sep|..] + sep + b, sep) == Split(a[i + |sep|..], sep) + Split(b, sep)
    ensures Split(a + sep + b, sep) == Split(a, sep) + Split(b, sep)
  {
    SlicesOfConcat(a, sep, b, i, |sep|);
    SplitSameHead(a + sep + b, a, sep, i, Split(b, sep));
  }

  lemma {:induction false} SplitFound(s: string, sep: string, i: nat)
    requires sep != "" && Find(s, sep, 0) == Some(i)
    ensures Split(s, sep) == [s[..i]] + Split(s[i + |sep|..], sep)
    ensures |Split(s, sep)| == 1 + |Split(s[i + |sep|..], sep)|
  {
  }

  lemma {:induction false} SplitNotFound(s: string, sep: string)
    requires sep != "" && Find(s, sep, 0).None?
    ensures Split(s, sep) == [s]
  {
  }

  lemma {:induction false} SameHead<T>(x: seq<T>, y: seq<T>, head: seq<T>, xTail: seq<T>, yTail: seq<T>, more: seq<T>)
    requires x == head + xTail && y == head + yTail && xTail == yTail + more
    ensures x == y + more
  {
  }

  lemma {:induction false} SplitSameHead(s: string, a: string, sep: string, i: nat, more: seq<string>)
    requires sep != "" && Find(s, sep, 0) == Find(a, sep, 0) == Some(i) && s[..i] == a[..i]
    requires Split(s[i + |sep|..], sep) == Split(a[i + |sep|..], sep) + more
    ensures Split(s, sep) == Split(a, sep) + more
  {
    SplitFound(s, sep, i);
    SplitFound(a, sep, i);
    SameHead(Split(s, sep), Split(a, sep), [a[..i]], Split(s[i + |sep|..], sep), Split(a[i + |sep|..], sep), more);
  }

  lemma {:induction false} SlicesOfConcat(a: string, sep: string, b: string, i: nat, n: nat)
    requires i + n <= |a|
    ensures (a + sep + b)[..i] == a[..i]
    ensures (a + sep + b)[i + n..] == a[i + n..] + sep + b
  {
  }

  lemma {:induction false} SplitThenJoin(s: string, sep: string)
    requires sep != ""
    ensures Join(Split(s, sep), sep) == s
    decreases |s|
  {
    match Find(s, sep, 0)
    case None =>
    case Some(i) =>
      SplitThenJoin(s[i + |sep|..], sep);
      assert Split(s, sep)[1..] == Split(s[i + |sep|..], sep);
      assert s == s[..i] + sep + s[i + |sep|..];
  }

  lemma {:induction false} JoinThenSplit(parts: seq<string>, sep: string)
    requires |parts| >= 1 && Sharp(sep)
    requires forall k :: 0 <= k < |parts| ==> !Contains(parts[k], sep)
    ensures Split(Join(parts, sep), sep) == parts
  {
    NoFind(parts[0], sep);
    if |parts| > 1 {
      JoinThenSplit(parts[1..], sep);
      SplitConcat(parts[0], sep, Join(parts[1..], sep));
    }
  }

  /** No piece of a split holds the separator. */
  lemma {:induction false} SplitPiecesAreFree(s: string, sep: string, k: nat)
    requires sep != "" && k < |Split(s, sep)|
    ensures !Contains(Split(s, sep)[k], sep)
    decreases |s|
  {
    match Find(s, sep, 0)
    case None =>
    case Some(i) =>
      if k == 0 {
        var a := s[..i];
        forall j: nat | j <= |a|
          ensures !OccursAt(a, sep, j)
        {
          assert s == a + s[i..];
          OccursInConcat(a, s[i..], sep, j);
        }
      } else {
        SplitPiecesAreFree(s[i + |sep|..], sep, k - 1);
      }
  }

  lemma {:induction false} NoFind(s: string, p: string)
    ensures Find(s, p, 0).None? <==> !Contains(s, p)
  {
  }

  lemma {:induction false} CharOccurs(s: string, c: char)
    ensures c in s <==> Contains(s, [c])
  {
    forall i: nat | i < |s|
      ensures OccursAt(s, [c], i) <==> s[i] == c
    {
      assert s[i..i + 1] == [s[i]];
    }
  }

  // ---------------------------------------------------------------- replace

  /** `s.replace(p, by)`: leftmost matches, none overlapping. */
  function Replace(s: string, p: string, by_: string): string
    requires p != ""
    decreases |s|
  {
    match Find(s, p, 0)
    case None => s
    case Some(i) => s[..i] + by_ + Replace(s[i + |p|..], p, by_)
  }

  // ---------------------------------------------------------------- trim

  /** Unicode `White_Space`, which `char::is_whitespace` tests. */
  predicate IsWhitespace(c: char) {
    var n := c as int;
    9 <= n <= 13 || n == 0x20 || n == 0x85 || n == 0xA0 || n == 0x1680 || 0x2000 <= n <= 0x200A
    || n == 0x2028 || n == 0x2029 || n == 0x202F || n == 0x205F || n == 0x3000
  }

  /** The code points with the Unicode property `White_Space`, one by one. */
  lemma {:induction false} WhitespaceIs(c: char)
    ensures IsWhitespace(c) <==>
            c as int in {9, 10, 11, 12, 13, 32, 133, 160, 5760, 8192, 8193, 8194, 8195, 8196, 8197, 8198, 8199, 8200,
                         8201, 8202, 8232, 8233, 8239, 8287, 12288}
  {
  }

  predicate Blank(s: string) {
    forall k :: 0 <= k < |s| ==> IsWhitespace(s[k])
  }

  predicate Trimmed(s: string) {
    s != "" ==> !IsWhitespace(s[0]) && !IsWhitespace(s[|s| - 1])
  }

  function TrimStart(s: string): string {
    if s != "" && IsWhitespace(s[0]) then TrimStart(s[1..]) else s
  }

  function TrimEnd(s: string): string {
    if s != "" && IsWhitespace(s[|s| - 1]) then TrimEnd(s[..|s| - 1]) else s
  }

  function Trim(s: string): string {
    TrimEnd(TrimStart(s))
  }

  /** `Trim` removes exactly the blank margins: it is the only trimmed middle. */
  lemma {:induction false} TrimUnique(w: string, t: string, v: string)
    requires Blank(w) && Blank(v) && Trimmed(t)
    ensures Trim(w + t + v) == t
  {
    if t == "" {
      assert w + t + v == w + v + "";
      assert Blank(w + v);
      TrimStartDrops(w + v, "");
    } else {
      assert w + t + v == w + (t + v);
      TrimStartDrops(w, t + v);
      TrimEndDrops(t, v);
    }
  }

  lemma {:induction false} TrimStartDrops(w: string, t: string)
    requires Blank(w) && (t == "" || !IsWhitespace(t[0]))
    ensures TrimStart(w + t) == t
  {
    if w == "" {
      assert w + t == t;
    } else {
      assert (w + t)[1..] == w[1..] + t;
      TrimStartDrops(w[1..], t);
    }
  }

  lemma {:induction false} TrimEndDrops(t: string, v: string)
    requires Blank(v) && (t == "" || !IsWhitespace(t[|t| - 1]))
    ensures TrimEnd(t + v) == t
    decreases |v|
  {
    if v == "" {
      assert t + v == t;
    } else {
      assert (t + v)[..|t + v| - 1] == t + v[..|v| - 1];
      TrimEndDrops(t, v[..|v| - 1]);
    }
  }

  lemma {:induction false} TrimStartMargin(s: string) returns (w: string)
    ensures Blank(w) && s == w + TrimStart(s)
    ensures TrimStart(s) == "" || !IsWhitespace(TrimStart(s)[0])
  {
    if s != "" && IsWhitespace(s[0]) {
      var v := TrimStartMargin(s[1..]);
      w := [s[0]] + v;
      ConcatAssoc([s[0]], v, TrimStart(s[1..]));
      assert s == [s[0]] + s[1..];
    } else {
      w := "";
    }
  }

  lemma {:induction false} TrimEndMargin(s: string) returns (v: string)
    ensures Blank(v) && s == TrimEnd(s) + v
    ensures TrimEnd(s) == "" || !IsWhitespace(TrimEnd(s)[|TrimEnd(s)| - 1])
  {
    if s != "" && IsWhitespace(s[|s| - 1]) {
      var u := TrimEndMargin(s[..|s| - 1]);
      v := u + [s[|s| - 1]];
      ConcatAssoc(TrimEnd(s[..|s| - 1]), u, [s[|s| - 1]]);
      assert s == s[..|s| - 1] + [s[|s| - 1]];
    } else {
      v := "";
    }
  }

  /** What `Trim` leaves is trimmed, and what it drops is blank. */
  lemma {:induction false} TrimMargins(s: string) returns (w: string, v: string)
    ensures Blank(w) && Blank(v) && Trimmed(Trim(s)) && s == w + Trim(s) + v
  {
    w := TrimStartMargin(s);
    v := TrimEndMargin(TrimStart(s));
  }

  lemma {:induction false} TrimEmptyIffBlank(s: string)
    ensures Trim(s) == "" <==> Blank(s)
  {
    var w, v := TrimMargins(s);
    assert Trim(s) != "" ==> s[|w|] == Trim(s)[0];
    assert Trim(s) == "" ==> s == w + v;
  }

  lemma {:induction false} TrimKeepsTrimmed(s: string)
    requires Trimmed(s)
    ensures Trim(s) == s
  {
  }

  // ---------------------------------------------------------------- case

  function LowerChar(c: char): char {
    if 'A' <= c <= 'Z' then (c as int + 32) as char else c
  }

  function Lower(s: string): (r: string)
    ensures |r| == |s|
  {
    seq(|s|, i requires 0 <= i < |s| => LowerChar(s[i]))
  }

  lemma {:induction false} LowerConcat(x: string, y: string)
    ensures Lower(x + y) == Lower(x) + Lower(y)
  {
  }

  // ---------------------------------------------------------------- order

  /** The order of `str`: code points, left to right, a proper prefix first. */
  predicate Less(a: string, b: string) {
    if b == "" then false
    else if a == "" then true
    else a[0] < b[0] || (a[0] == b[0] && Less(a[1..], b[1..]))
  }

  lemma {:induction false} LessTransitive(a: string, b: string, c: string)
    requires Less(a, b) && Less(b, c)
    ensures Less(a, c)
  {
    if a != "" && a[0] == b[0] && b[0] == c[0] {
      LessTransitive(a[1..], b[1..], c[1..]);
    }
  }

  lemma {:induction false} LessTotal(a: string, b: string)
    ensures a == b || Less(a, b) || Less(b, a)
    ensures !(a == b && Less(a, b)) && !(Less(a, b) && Less(b, a))
  {
    if a != "" && b != "" {
      LessTotal(a[1..], b[1..]);
      assert a == [a[0]] + a[1..] && b == [b[0]] + b[1..];
    }
  }

  lemma {:induction false} LessCommonPrefix(p: string, a: string, b: string)
    ensures Less(p + a, p + b) <==> Less(a, b)
  {
    if p == "" {
      assert p + a == a && p + b == b;
    } else {
      assert (p + a)[1..] == p[1..] + a && (p + b)[1..] == p[1..] + b;
      LessCommonPrefix(p[1..], a, b);
    }
  }

  // ---------------------------------------------------------------- numbers

  predicate IsDigit(c: char) { '0' <= c <= '9' }

  predicate Digits(s: string) {
    forall k :: 0 <= k < |s| ==> IsDigit(s[k])
  }

  function DigitValue(c: char): nat
    requires IsDigit(c)
  {
    c as int - '0' as int
  }

  function NumeralValue(s: string): nat
    requires Digits(s)
  {
    if s == "" then 0 else 10 * NumeralValue(s[..|s| - 1]) + DigitValue(s[|s| - 1])
  }

  const U32_MAX: nat := 0xFFFF_FFFF
  const U64_MAX: nat := 0xFFFF_FFFF_FFFF_FFFF

  /** `str::parse` for an unsigned type with maximum `max`: an optional `+`, at
      least one digit, and no overflow. */
  function ParseUnsigned(s: string, max: nat): (r: Option<nat>)
    ensures r.Some? ==> r.value <= max
  {
    var body := if s != "" && s[0] == '+' then s[1..] else s;
    if body != "" && Digits(body) && NumeralValue(body) <= max then Some(NumeralValue(body)) else None
  }

  /** `to_string` of an unsigned number. */
  function Decimal(n: nat): (s: string)
    ensures |s| >= 1 && Digits(s)
    ensures NumeralValue(s) == n
    ensures n > 0 ==> s[0] != '0'
    ensures n < 10 <==> |s| == 1
  {
    var d := ('0' as int + n % 10) as char;
    if n < 10 then [d]
    else
      var s := Decimal(n / 10) + [d];
      assert s[..|s| - 1] == Decimal(n / 10);
      s
  }

  /** A numeral: digits after an optional `+`. */
  predicate Numeral(s: string, d: string) {
    (s == d || s == "+" + d) && d != "" && Digits(d)
  }

  /** Exactly the numerals of numbers up to `max` are parsed, to their value. */
  lemma {:induction false} ParseUnsignedIff(s: string, max: nat, n: nat)
    ensures ParseUnsigned(s, max) == Some(n) <==>
            n <= max && exists d :: Numeral(s, d) && NumeralValue(d) == n
  {
    var body := if s != "" && s[0] == '+' then s[1..] else s;
    assert s != "" && s[0] == '+' ==> s == "+" + s[1..];
    if ParseUnsigned(s, max) == Some(n) {
      assert Numeral(s, body);
    }
    if exists d :: Numeral(s, d) && NumeralValue(d) == n {
      var d :| Numeral(s, d) && NumeralValue(d) == n;
      assert IsDigit(d[0]);
      assert ("+" + d)[1..] == d;
    }
  }

  lemma {:induction false} DecimalSnoc(m: nat, c: char)
    requires IsDigit(c)
    ensures m > 0 ==> Decimal(10 * m + DigitValue(c)) == Decimal(m) + [c]
    ensures Decimal(DigitValue(c)) == [c]
  {
    var n := 10 * m + DigitValue(c);
    assert n / 10 == m && n % 10 == DigitValue(c);
  }

  /** A numeral without leading zeros is the one that is printed. */
  lemma {:induction false} CanonicalNumeral(s: string)
    requires s != "" && Digits(s) && (|s| == 1 || s[0] != '0')
    ensures Decimal(NumeralValue(s)) == s
  {
    var n := |s| - 1;
    assert IsDigit(s[n]);
    if n == 0 {
      assert s[..0] == "";
      DecimalSnoc(0, s[0]);
    } else {
      CanonicalNumeral(s[..n]);
      LeadingDigit(s[..n]);
      DecimalSnoc(NumeralValue(s[..n]), s[n]);
      TakeOneMore(s, n);
    }
  }

  lemma {:induction false} LeadingDigit(s: string)
    requires s != "" && Digits(s) && s[0] != '0'
    ensures NumeralValue(s) > 0
  {
    if |s| > 1 {
      LeadingDigit(s[..|s| - 1]);
    } else {
      assert IsDigit(s[0]) && s[..0] == "";
    }
  }

  lemma {:induction false} DecimalParses(n: nat, max: nat)
    requires n <= max
    ensures ParseUnsigned(Decimal(n), max) == Some(n)
  {
  }

}
