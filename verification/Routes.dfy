/**
 Route templates: matching a request path against a template, and the concrete
 smoke path of a template, which is made by substring replacement.
 */
module Routes {
  import opened Text

  predicate Placeholder(s: string) {
    s == "{id}" || s == "{domain}" || s == "{site_id}"
  }

  predicate SegmentMatches(t: string, p: string) {
    t == p || (Placeholder(t) && p != "")
  }

  predicate SegmentsMatch(ts: seq<string>, ps: seq<string>) {
    |ts| == |ps| && forall k :: 0 <= k < |ts| ==> SegmentMatches(ts[k], ps[k])
  }

  function Segments(path: string): (r: seq<string>)
    ensures |r| >= 1
  {
    Split(path, "/")
  }

  predicate Matches(template: string, path: string) {
    SegmentsMatch(Segments(template), Segments(path))
  }

  /** `template_matches`: both segment iterators advance in step until one ends or
      a pair fails. */
  method TemplateMatches(template: string, path: string) returns (r: bool)
    ensures r <==> Matches(template, path)
  {
    var ts, ps := Segments(template), Segments(path);
    var i := 0;
    while true
      invariant 0 <= i <= |ts| && i <= |ps|
      invariant forall k :: 0 <= k < i ==> SegmentMatches(ts[k], ps[k])
      decreases |ts| - i
    {
      if i == |ts| && i == |ps| {
        return true;
      }
      if i == |ts| || i == |ps| {
        return false;
      }
      var t, p := ts[i], ps[i];
      i := i + 1;
      if t == p {
        continue;
      }
      if Placeholder(t) && p != "" {
        continue;
      }
      return false;
    }
  }

  // ---------------------------------------------------------------- matching is substitution

  /** The segments with every placeholder segment replaced by its filler. */
  function Fill(ts: seq<string>, fillers: seq<string>): (r: seq<string>)
    requires |ts| == |fillers|
    ensures |r| == |ts| && forall k :: 0 <= k < |r| ==> r[k] == if Placeholder(ts[k]) then fillers[k] else ts[k]
  {
    seq(|ts|, k requires 0 <= k < |ts| => if Placeholder(ts[k]) then fillers[k] else ts[k])
  }

  ghost predicate Fillers(fillers: seq<string>) {
    forall k :: 0 <= k < |fillers| ==> fillers[k] != "" && '/' !in fillers[k]
  }

  /** `path` is `template` with its placeholder segments filled in. */
  ghost predicate Instance(template: string, path: string) {
    exists fillers: seq<string> ::
      |fillers| == |Segments(template)| && Fillers(fillers) && path == Join(Fill(Segments(template), fillers), "/")
  }

  lemma {:induction false} SegmentsAreSlashFree(path: string)
    ensures forall k :: 0 <= k < |Segments(path)| ==> '/' !in Segments(path)[k]
  {
    forall k | 0 <= k < |Segments(path)|
      ensures '/' !in Segments(path)[k]
    {
      SplitPiecesAreFree(path, "/", k);
      CharOccurs(Segments(path)[k], '/');
    }
  }

  lemma {:induction false} SegmentsOfJoin(parts: seq<string>)
    requires |parts| >= 1 && forall k :: 0 <= k < |parts| ==> '/' !in parts[k]
    ensures Segments(Join(parts, "/")) == parts
  {
    forall k | 0 <= k < |parts|
      ensures !Contains(parts[k], "/")
    {
      CharOccurs(parts[k], '/');
    }
    JoinThenSplit(parts, "/");
  }

  lemma {:induction false} MatchIsInstance(template: string, path: string)
    requires Matches(template, path)
    ensures Instance(template, path)
  {
    var ts, ps := Segments(template), Segments(path);
    SegmentsAreSlashFree(path);
    var fillers := seq(|ts|, k requires 0 <= k < |ts| => if Placeholder(ts[k]) then ps[k] else "x");
    forall k | 0 <= k < |ts|
      ensures fillers[k] != "" && '/' !in fillers[k] && Fill(ts, fillers)[k] == ps[k]
    {
      assert SegmentMatches(ts[k], ps[k]);
    }
    assert Fill(ts, fillers) == ps;
    SplitThenJoin(path, "/");
  }

  lemma {:induction false} InstanceMatches(template: string, fillers: seq<string>)
    requires |fillers| == |Segments(template)| && Fillers(fillers)
    ensures Matches(template, Join(Fill(Segments(template), fillers), "/"))
  {
    SegmentsAreSlashFree(template);
    SegmentsOfJoin(Fill(Segments(template), fillers));
  }

  /** A path matches a template exactly when it is the template with every
      placeholder segment replaced by some non-empty text without a slash. */
  lemma {:induction false} MatchingIsSubstitution(template: string, path: string)
    ensures Matches(template, path) <==> Instance(template, path)
  {
    if Matches(template, path) {
      MatchIsInstance(template, path);
    }
    if Instance(template, path) {
      var fillers: seq<string> :|
        |fillers| == |Segments(template)| && Fillers(fillers)
        && path == Join(Fill(Segments(template), fillers), "/");
      InstanceMatches(template, fillers);
    }
  }

  /** Templates are ordered by generality: matching composes. */
  lemma {:induction false} MatchingIsTransitive(a: string, b: string, c: string)
    requires Matches(a, b) && Matches(b, c)
    ensures Matches(a, c)
  {
  }

  // ---------------------------------------------------------------- concrete paths

  const SMOKE_SITE_ID := "smoke-site"
  const SMOKE_DOMAIN := "example.com"

  /** `browser_concrete_path`: three substring replacements in sequence. */
  function ConcretePath(template: string): string {
    Replace(Replace(Replace(template, "{id}", SMOKE_SITE_ID), "{site_id}", SMOKE_SITE_ID), "{domain}", SMOKE_DOMAIN)
  }

  lemma {:induction false} FindPast(x: string, b: string, p: string)
    requires forall i: nat :: i < |x| ==> !OccursAt(x + b, p, i)
    ensures Find(x + b, p, 0) == Shift(|x|, Find(b, p, 0))
  {
    FindSkipTo(x + b, p, 0, |x|);
    FindShift(x, b, p, 0);
  }

  lemma {:induction false} SlicesPast(x: string, b: string, i: nat, n: nat)
    requires i + n <= |b|
    ensures (x + b)[..|x| + i] == x + b[..i]
    ensures (x + b)[|x| + i + n..] == b[i + n..]
  {
  }

  /** A text with no match in front of `b` is copied. */
  lemma {:induction false} ReplaceSkips(x: string, b: string, p: string, with_: string)
    requires p != "" && forall i: nat :: i < |x| ==> !OccursAt(x + b, p, i)
    ensures Replace(x + b, p, with_) == x + Replace(b, p, with_)
  {
    FindPast(x, b, p);
    if Find(b, p, 0).Some? {
      ReplaceFoundPast(x, b, p, with_, Find(b, p, 0).value);
    }
  }

  lemma {:induction false} ReplaceFoundPast(x: string, b: string, p: string, with_: string, i: nat)
    requires p != "" && Find(b, p, 0) == Some(i) && Find(x + b, p, 0) == Some(|x| + i)
    ensures Replace(x + b, p, with_) == x + Replace(b, p, with_)
  {
    SlicesPast(x, b, i, |p|);
    ReplaceFoundAs(x + b, p, with_, |x| + i, x + b[..i], b[i + |p|..]);
    ReplaceFoundAs(b, p, with_, i, b[..i], b[i + |p|..]);
    Regroup3(x, b[..i], with_, Replace(b[i + |p|..], p, with_));
  }

  lemma {:induction false} ReplaceFoundAs(s: string, p: string, with_: string, i: nat, front: string, rest: string)
    requires p != "" && Find(s, p, 0) == Some(i) && front == s[..i] && rest == s[i + |p|..]
    ensures Replace(s, p, with_) == front + with_ + Replace(rest, p, with_)
  {
  }

  lemma {:induction false} ReplaceFound(s: string, p: string, with_: string, i: nat)
    requires p != "" && Find(s, p, 0) == Some(i)
    ensures Replace(s, p, with_) == s[..i] + with_ + Replace(s[i + |p|..], p, with_)
  {
  }

  lemma {:induction false} Regroup3(x: string, a: string, b: string, c: string)
    ensures (x + a) + b + c == x + (a + b + c)
  {
  }

  /** An occurrence of a slash-free pattern does not cover a slash. */
  lemma {:induction false} SlashBreaks(a: string, b: string, p: string, i: nat)
    requires '/' !in p && p != "" && i <= |a| < i + |p|
    ensures !OccursAt(a + "/" + b, p, i)
  {
    var s := a + "/" + b;
    assert s[|a|] == '/';
    assert i + |p| <= |s| ==> s[i..i + |p|][|a| - i] == s[|a|];
  }

  lemma {:induction false} FindBeforeSlash(a: string, b: string, p: string)
    requires '/' !in p && p != ""
    ensures Find(a, p, 0).Some? ==> Find(a + "/" + b, p, 0) == Find(a, p, 0)
    ensures Find(a, p, 0).None? ==> forall i: nat :: i < |a + "/"| ==> !OccursAt(a + "/" + b, p, i)
  {
    var s := a + "/" + b;
    assert s == a + ("/" + b);
    forall i: nat | i <= |a|
      ensures OccursAt(s, p, i) <==> OccursAt(a, p, i)
    {
      if i + |p| <= |a| {
        OccursInConcat(a, "/" + b, p, i);
      } else {
        SlashBreaks(a, b, p, i);
      }
    }
    if Find(a, p, 0).Some? {
      FindSkipTo(s, p, 0, Find(a, p, 0).value);
    }
  }

  /** Replacement works segment by segment, although it is a substring operation. */
  lemma {:induction false} ReplaceConcat(a: string, b: string, p: string, with_: string)
    requires '/' !in p && p != ""
    ensures Replace(a + "/" + b, p, with_) == Replace(a, p, with_) + "/" + Replace(b, p, with_)
    decreases |a|
  {
    FindBeforeSlash(a, b, p);
    if Find(a, p, 0).None? {
      ReplaceSkips(a + "/", b, p, with_);
    } else {
      var i := Find(a, p, 0).value;
      ReplaceConcat(a[i + |p|..], b, p, with_);
      ReplaceConcatAt(a, b, p, with_, i);
    }
  }

  lemma {:induction false} ReplaceConcatAt(a: string, b: string, p: string, with_: string, i: nat)
    requires p != "" && Find(a, p, 0) == Some(i) && Find(a + "/" + b, p, 0) == Some(i)
    requires Replace(a[i + |p|..] + "/" + b, p, with_) == Replace(a[i + |p|..], p, with_) + "/" + Replace(b, p, with_)
    ensures Replace(a + "/" + b, p, with_) == Replace(a, p, with_) + "/" + Replace(b, p, with_)
  {
    var rest := a[i + |p|..];
    SlicesOfConcat(a, "/", b, i, |p|);
    ReplaceFoundAs(a + "/" + b, p, with_, i, a[..i], rest + "/" + b);
    ReplaceFoundAs(a, p, with_, i, a[..i], rest);
    Regroup4(a[..i] + with_, Replace(rest, p, with_), Replace(b, p, with_));
  }

  lemma {:induction false} Regroup4(x: string, y: string, z: string)
    ensures x + (y + "/" + z) == x + y + "/" + z
  {
  }

  function ReplaceEach(parts: seq<string>, p: string, with_: string): (r: seq<string>)
    requires p != ""
    ensures |r| == |parts| && forall k :: 0 <= k < |r| ==> r[k] == Replace(parts[k], p, with_)
  {
    seq(|parts|, k requires 0 <= k < |parts| => Replace(parts[k], p, with_))
  }

  lemma {:induction false} ReplaceJoin(parts: seq<string>, p: string, with_: string)
    requires |parts| >= 1 && '/' !in p && p != ""
    ensures Replace(Join(parts, "/"), p, with_) == Join(ReplaceEach(parts, p, with_), "/")
  {
    if |parts| > 1 {
      ReplaceJoin(parts[1..], p, with_);
      ReplaceConcat(parts[0], Join(parts[1..], "/"), p, with_);
      assert ReplaceEach(parts, p, with_)[1..] == ReplaceEach(parts[1..], p, with_);
    }
  }

  function ConcreteEach(parts: seq<string>): (r: seq<string>)
    ensures |r| == |parts| && forall k :: 0 <= k < |r| ==> r[k] == ConcretePath(parts[k])
  {
    seq(|parts|, k requires 0 <= k < |parts| => ConcretePath(parts[k]))
  }

  lemma {:induction false} ReplaceAddsNoChar(s: string, p: string, with_: string, c: char)
    requires p != "" && c !in s && c !in with_
    ensures c !in Replace(s, p, with_)
    decreases |s|
  {
    if Find(s, p, 0).Some? {
      var i := Find(s, p, 0).value;
      ReplaceAddsNoChar(s[i + |p|..], p, with_, c);
      ReplaceFound(s, p, with_, i);
    }
  }

  lemma {:induction false} ConcreteIsSlashFree(s: string)
    requires '/' !in s
    ensures '/' !in ConcretePath(s)
  {
    assert '/' !in SMOKE_SITE_ID && '/' !in SMOKE_DOMAIN;
    var s1 := Replace(s, "{id}", SMOKE_SITE_ID);
    ReplaceAddsNoChar(s, "{id}", SMOKE_SITE_ID, '/');
    ReplaceAddsNoChar(s1, "{site_id}", SMOKE_SITE_ID, '/');
    ReplaceAddsNoChar(Replace(s1, "{site_id}", SMOKE_SITE_ID), "{domain}", SMOKE_DOMAIN, '/');
  }

  /** The concrete path has the concrete segments of the template. */
  lemma {:induction false} ConcreteSegments(template: string)
    ensures Segments(ConcretePath(template)) == ConcreteEach(Segments(template))
  {
    var parts := Segments(template);
    SplitThenJoin(template, "/");
    SegmentsAreSlashFree(template);
    var p1 := ReplaceEach(parts, "{id}", SMOKE_SITE_ID);
    var p2 := ReplaceEach(p1, "{site_id}", SMOKE_SITE_ID);
    var p3 := ReplaceEach(p2, "{domain}", SMOKE_DOMAIN);
    ReplaceJoin(parts, "{id}", SMOKE_SITE_ID);
    ReplaceJoin(p1, "{site_id}", SMOKE_SITE_ID);
    ReplaceJoin(p2, "{domain}", SMOKE_DOMAIN);
    assert p3 == ConcreteEach(parts);
    forall k | 0 <= k < |p3|
      ensures '/' !in p3[k]
    {
      ConcreteIsSlashFree(parts[k]);
    }
    SegmentsOfJoin(p3);
  }

  // ---------------------------------------------------------------- when a template matches its own path

  function Braces(s: string): nat {
    multiset(s)['{']
  }

  lemma {:induction false} BracesConcat(a: string, b: string)
    ensures Braces(a + b) == Braces(a) + Braces(b)
  {
  }

  lemma {:induction false} CutOccurrence(s: string, p: string, i: nat)
    requires OccursAt(s, p, i)
    ensures s == s[..i] + (p + s[i + |p|..])
  {
  }

  /** Each replacement of a placeholder removes a brace. */
  lemma {:induction false} ReplaceRemovesBraces(s: string, p: string, with_: string)
    requires p != "" && p[0] == '{' && '{' !in with_
    ensures Braces(Replace(s, p, with_)) <= Braces(s)
    ensures Contains(s, p) ==> Braces(Replace(s, p, with_)) < Braces(s)
    ensures !Contains(s, p) ==> Replace(s, p, with_) == s
    decreases |s|
  {
    NoFind(s, p);
    if Find(s, p, 0).Some? {
      var i := Find(s, p, 0).value;
      ReplaceRemovesBraces(s[i + |p|..], p, with_);
      BracesAtOccurrence(s, p, with_, i);
      assert '{' in p && '{' !in with_;
    }
  }

  lemma {:induction false} BracesAtOccurrence(s: string, p: string, with_: string, i: nat)
    requires p != "" && Find(s, p, 0) == Some(i)
    ensures Braces(s) == Braces(s[..i]) + Braces(p) + Braces(s[i + |p|..])
    ensures Braces(Replace(s, p, with_)) == Braces(s[..i]) + Braces(with_) + Braces(Replace(s[i + |p|..], p, with_))
  {
    var rest := s[i + |p|..];
    CutOccurrence(s, p, i);
    BracesConcat(s[..i], p + rest);
    BracesConcat(p, rest);
    ReplaceFound(s, p, with_, i);
    BracesConcat(s[..i] + with_, Replace(rest, p, with_));
    BracesConcat(s[..i], with_);
  }

  /** Some placeholder text occurs in `s`, whole segment or not. */
  predicate MentionsPlaceholder(s: string) {
    Contains(s, "{id}") || Contains(s, "{site_id}") || Contains(s, "{domain}")
  }

  lemma {:induction false} ConcreteFixedIff(s: string)
    ensures ConcretePath(s) == s <==> !MentionsPlaceholder(s)
  {
    assert '{' !in SMOKE_SITE_ID && '{' !in SMOKE_DOMAIN;
    var s1 := Replace(s, "{id}", SMOKE_SITE_ID);
    var s2 := Replace(s1, "{site_id}", SMOKE_SITE_ID);
    ReplaceRemovesBraces(s, "{id}", SMOKE_SITE_ID);
    ReplaceRemovesBraces(s1, "{site_id}", SMOKE_SITE_ID);
    ReplaceRemovesBraces(s2, "{domain}", SMOKE_DOMAIN);
  }

  lemma {:induction false} ReplaceWhole(p: string, with_: string)
    requires p != ""
    ensures Replace(p, p, with_) == with_
  {
  }

  lemma {:induction false} BraceFreeMentionsNothing(s: string)
    requires '{' !in s
    ensures !MentionsPlaceholder(s)
  {
    BraceFreeFree(s, "{id}");
    BraceFreeFree(s, "{site_id}");
    BraceFreeFree(s, "{domain}");
  }

  lemma {:induction false} BraceFreeFree(s: string, p: string)
    requires '{' !in s && p != "" && p[0] == '{'
    ensures !Contains(s, p)
  {
  }

  /** A replacement of another placeholder leaves a whole placeholder alone. */
  lemma {:induction false} ReplaceOther(s: string, p: string, with_: string)
    requires |s| >= 2 && |p| >= 2 && s[0] == p[0] == '{' && '{' !in s[1..] && s[1] != p[1]
    ensures Replace(s, p, with_) == s
  {
  }

  /** A placeholder becomes the smoke domain or the smoke site. */
  lemma {:induction false} PlaceholderConcrete(s: string)
    requires Placeholder(s)
    ensures ConcretePath(s) == if s == "{domain}" then "example.com" else "smoke-site"
  {
    BraceFreeFree(SMOKE_SITE_ID, "{site_id}");
    BraceFreeFree(SMOKE_SITE_ID, "{domain}");
    BraceFreeFree(SMOKE_DOMAIN, "{domain}");
    NoFind(SMOKE_SITE_ID, "{site_id}");
    NoFind(SMOKE_SITE_ID, "{domain}");
    if s == "{id}" {
      ReplaceWhole(s, SMOKE_SITE_ID);
    } else if s == "{site_id}" {
      ReplaceOther(s, "{id}", SMOKE_SITE_ID);
      ReplaceWhole(s, SMOKE_SITE_ID);
    } else {
      ReplaceOther(s, "{id}", SMOKE_SITE_ID);
      ReplaceOther(s, "{site_id}", SMOKE_SITE_ID);
      ReplaceWhole(s, SMOKE_DOMAIN);
    }
  }

  predicate CleanSegment(s: string) {
    Placeholder(s) || !MentionsPlaceholder(s)
  }

  lemma {:induction false} SegmentMatchesConcreteIff(s: string)
    ensures SegmentMatches(s, ConcretePath(s)) <==> CleanSegment(s)
  {
    ConcreteFixedIff(s);
    if Placeholder(s) {
      PlaceholderConcrete(s);
    }
  }

  /** A template matches its own concrete path exactly when placeholder text occurs
      in it only as whole segments. */
  lemma {:induction false} ConcretePathMatchesIff(template: string)
    ensures Matches(template, ConcretePath(template))
            <==> forall k :: 0 <= k < |Segments(template)| ==> CleanSegment(Segments(template)[k])
  {
    ConcreteSegments(template);
    var ts := Segments(template);
    forall k | 0 <= k < |ts|
      ensures SegmentMatches(ts[k], ConcreteEach(ts)[k]) <==> CleanSegment(ts[k])
    {
      SegmentMatchesConcreteIff(ts[k]);
    }
  }

  /** In particular every template whose braces are those of whole placeholder
      segments matches its own concrete path. */
  lemma {:induction false} WholePlaceholdersMatch(template: string)
    requires forall k :: 0 <= k < |Segments(template)| ==>
                           Placeholder(Segments(template)[k]) || '{' !in Segments(template)[k]
    ensures Matches(template, ConcretePath(template))
  {
    var ts := Segments(template);
    forall k | 0 <= k < |ts|
      ensures CleanSegment(ts[k])
    {
      if !Placeholder(ts[k]) {
        BraceFreeMentionsNothing(ts[k]);
      }
    }
    ConcretePathMatchesIff(template);
  }
}
