/**
 The unlabelled-input scanner of the accessibility gate: a cursor loop over
 substring searches, against the list of all reportable positions of the page.
 */
module InputScanner {
  import opened Text

  const INPUT := "<input"
  const LABEL := "<label"
  const LABEL_END := "</label>"
  const SNIPPET_LEN: nat := 80

  /** `attr_value`: the text after the first `name="`, up to the next quote. */
  function AttrValue(tag: string, name: string): Option<string> {
    var needle := name + "=\"";
    match Find(tag, needle, 0)
    case None => None
    case Some(i) =>
      var start := i + |needle|;
      match Find(tag, "\"", start)
      case None => None
      case Some(end) => Some(tag[start..end])
  }

  /** `input_tag_is_visible`. */
  predicate Visible(tag: string) {
    var kind := match AttrValue(tag, "type") case Some(k) => k case None => "text";
    kind != "hidden" && kind != "submit" && kind != "button"
  }

  predicate LabelledById(html: string, tag: string) {
    var id := AttrValue(tag, "id");
    id.Some? && Contains(html, "for=\"" + id.value + "\"")
  }

  /** `wrapped_in_label`: no `</label>` after the last `<label` before the input. */
  predicate WrappedInLabel(html: string, pos: nat)
    requires pos <= |html|
  {
    var preceding := html[..pos];
    match RFind(preceding, LABEL, |preceding| + 1)
    case None => false
    case Some(open) => !Contains(preceding[open..], LABEL_END)
  }

  // ---------------------------------------------------------------- what should be reported

  /** The first `name="` of the tag is at `i`, and `k` is what it quotes. */
  ghost predicate AttrAt(tag: string, name: string, i: nat, k: string) {
    && OccursAt(tag, name + "=\"" + k + "\"", i) && '"' !in k
    && forall j: nat :: j < i ==> !OccursAt(tag, name + "=\"", j)
  }

  ghost predicate HasAttr(tag: string, name: string, k: string) {
    exists i: nat :: AttrAt(tag, name, i, k)
  }

  ghost predicate VisibleInput(tag: string) {
    !HasAttr(tag, "type", "hidden") && !HasAttr(tag, "type", "submit") && !HasAttr(tag, "type", "button")
  }

  ghost predicate NamedByLabel(html: string, tag: string) {
    exists k :: HasAttr(tag, "id", k) && Contains(html, "for=\"" + k + "\"")
  }

  predicate EndsTag(html: string, i: nat, end: nat) {
    i <= end < |html| && html[end] == '>' && forall k :: i <= k < end ==> html[k] != '>'
  }

  /** `open` starts a label before `pos` that is not closed before `pos`. */
  ghost predicate OpenLabel(html: string, pos: nat, open: nat)
    requires pos <= |html|
  {
    OccursAt(html[..pos], "<label", open)
    && forall c: nat :: open <= c ==> !OccursAt(html[..pos], "</label>", c)
  }

  ghost predicate Wrapped(html: string, pos: nat)
    requires pos <= |html|
  {
    exists open: nat :: OpenLabel(html, pos, open)
  }

  ghost predicate Unlabelled(html: string, pos: nat, end: nat)
    requires pos <= end < |html|
  {
    var tag := html[pos..end + 1];
    VisibleInput(tag) && !NamedByLabel(html, tag) && !Wrapped(html, pos)
  }

  /** A complete, visible input tag starts at `pos`, no `for` names its id, and no
      label is open around it. */
  ghost predicate Reportable(html: string, pos: nat) {
    OccursAt(html, "<input", pos) && exists end: nat :: EndsTag(html, pos, end) && Unlabelled(html, pos, end)
  }

  function Snippet(tag: string): string {
    if |tag| <= SNIPPET_LEN then tag else tag[..SNIPPET_LEN]
  }

  /** The text from `pos` through the next `>`. */
  function TagAt(html: string, pos: nat): string
    requires pos <= |html|
  {
    match Find(html, ">", pos)
    case None => ""
    case Some(end) => html[pos..end + 1]
  }

  /** What the report says of one position. */
  ghost function Finding(html: string, pos: nat): Option<string>
    requires pos <= |html|
  {
    if Reportable(html, pos) then Some(Snippet(TagAt(html, pos))) else None
  }

  ghost function Findings(html: string): (r: seq<Option<string>>)
    ensures |r| == |html| && forall i :: 0 <= i < |r| ==> r[i] == Finding(html, i)
  {
    seq(|html|, i requires 0 <= i < |html| => Finding(html, i))
  }

  /** What is found from a position on, in order. */
  function Gather(findings: seq<Option<string>>, from: nat): seq<string>
    decreases |findings| - from
  {
    if from >= |findings| then []
    else (if findings[from].Some? then [findings[from].value] else []) + Gather(findings, from + 1)
  }

  /** The report by looking at every position of the page in turn. */
  ghost function Report(html: string): seq<string> {
    Gather(Findings(html), 0)
  }

  /** Where something is found from a position on. */
  function Places(findings: seq<Option<string>>, from: nat): seq<nat>
    decreases |findings| - from
  {
    if from >= |findings| then []
    else (if findings[from].Some? then [from] else []) + Places(findings, from + 1)
  }

  lemma {:induction false} PlacesMembers(findings: seq<Option<string>>, from: nat, i: nat)
    ensures i in Places(findings, from) <==> from <= i < |findings| && findings[i].Some?
    decreases |findings| - from
  {
    if from < |findings| {
      PlacesMembers(findings, from + 1, i);
    }
  }

  lemma {:induction false} PlacesIncrease(findings: seq<Option<string>>, from: nat, j: nat, k: nat)
    requires j < k < |Places(findings, from)|
    ensures Places(findings, from)[j] < Places(findings, from)[k]
    decreases |findings| - from
  {
    var rest := Places(findings, from + 1);
    var n := if findings[from].Some? then 1 else 0;
    assert Places(findings, from)[k] == rest[k - n] && rest[k - n] in rest;
    if n <= j {
      PlacesIncrease(findings, from + 1, j - n, k - n);
    } else {
      PlacesMembers(findings, from + 1, rest[k - n]);
    }
  }

  lemma {:induction false} GatherAtPlaces(findings: seq<Option<string>>, from: nat)
    ensures |Gather(findings, from)| == |Places(findings, from)|
    ensures forall k :: 0 <= k < |Places(findings, from)| ==>
                          && Places(findings, from)[k] < |findings|
                          && findings[Places(findings, from)[k]] == Some(Gather(findings, from)[k])
    decreases |findings| - from
  {
    if from < |findings| {
      GatherAtPlaces(findings, from + 1);
      var n := if findings[from].Some? then 1 else 0;
      forall k | 0 <= k < |Places(findings, from)|
        ensures Places(findings, from)[k] < |findings| && findings[Places(findings, from)[k]] == Some(Gather(findings, from)[k])
      {
        if n <= k {
          assert Places(findings, from)[k] == Places(findings, from + 1)[k - n];
          assert Gather(findings, from)[k] == Gather(findings, from + 1)[k - n];
        }
      }
    }
  }

  /** The report names exactly the reportable positions, each once, in order, by the
      first eighty characters of their tags. */
  lemma {:induction false} ReportIsExact(html: string)
    ensures var ps := Places(Findings(html), 0);
            && (forall i: nat :: i in ps <==> i < |html| && Reportable(html, i))
            && (forall j, k :: 0 <= j < k < |ps| ==> ps[j] < ps[k])
            && |Report(html)| == |ps|
            && (forall k :: 0 <= k < |ps| ==> Quotes(html, ps[k], Report(html)[k]))
  {
    var ps := Places(Findings(html), 0);
    forall i: nat
      ensures i in ps <==> i < |html| && Reportable(html, i)
    {
      PlacesMembers(Findings(html), 0, i);
    }
    forall j, k | 0 <= j < k < |ps|
      ensures ps[j] < ps[k]
    {
      PlacesIncrease(Findings(html), 0, j, k);
    }
    GatherAtPlaces(Findings(html), 0);
    forall k | 0 <= k < |ps|
      ensures Quotes(html, ps[k], Report(html)[k])
    {
      assert ps[k] in ps;
      FindingQuotes(html, ps[k]);
    }
  }

  /** `text` is the first eighty characters of the tag that starts at `pos`. */
  ghost predicate Quotes(html: string, pos: nat, text: string) {
    exists end: nat ::
      EndsTag(html, pos, end) && text == if end + 1 - pos <= 80 then html[pos..end + 1] else html[pos..pos + 80]
  }

  lemma {:induction false} FindingQuotes(html: string, pos: nat)
    requires pos < |html| && Reportable(html, pos)
    ensures Quotes(html, pos, Finding(html, pos).value)
  {
    var end: nat :| EndsTag(html, pos, end) && Unlabelled(html, pos, end);
    TagEndsAt(html, pos, end);
    assert end + 1 - pos > 80 ==> html[pos..end + 1][..80] == html[pos..pos + 80];
  }

  /** An input whose id a label names is not reported. */
  lemma {:induction false} NamedInputIsNotReported(html: string, pos: nat, end: nat, k: string)
    requires EndsTag(html, pos, end) && HasAttr(html[pos..end + 1], "id", k) && Contains(html, "for=\"" + k + "\"")
    ensures pos !in Places(Findings(html), 0)
  {
    assert NamedByLabel(html, html[pos..end + 1]);
    PlacesMembers(Findings(html), 0, pos);
    if OccursAt(html, INPUT, pos) {
      ReportableAt(html, pos, end);
    }
  }

  /** An input that is hidden or a button is not reported. */
  lemma {:induction false} HiddenInputIsNotReported(html: string, pos: nat, end: nat, k: string)
    requires EndsTag(html, pos, end) && HasAttr(html[pos..end + 1], "type", k)
    requires k == "hidden" || k == "submit" || k == "button"
    ensures pos !in Places(Findings(html), 0)
  {
    PlacesMembers(Findings(html), 0, pos);
    if OccursAt(html, INPUT, pos) {
      ReportableAt(html, pos, end);
    }
  }

  // ---------------------------------------------------------------- attributes

  lemma {:induction false} QuoteFind(tag: string, start: nat, k: string)
    requires start + |k| < |tag| && tag[start..start + |k|] == k && '"' !in k && tag[start + |k|] == '"'
    ensures Find(tag, "\"", start) == Some(start + |k|)
  {
    var end := start + |k|;
    assert tag[end..end + 1] == "\"";
    forall j: nat | start <= j < end
      ensures !OccursAt(tag, "\"", j)
    {
      assert tag[j] == k[j - start];
      OtherCharNoOccurrence(tag, "\"", j);
    }
    FindSkipTo(tag, "\"", start, end);
  }

  lemma {:induction false} OccursInParts(s: string, a: string, b: string, c: string, i: nat)
    ensures OccursAt(s, a + b + c, i) <==>
            OccursAt(s, a, i) && OccursAt(s, b, i + |a|) && OccursAt(s, c, i + |a| + |b|)
  {
    var j, k, l := i + |a|, i + |a| + |b|, i + |a| + |b| + |c|;
    if l <= |s| {
      assert s[i..l] == s[i..j] + s[j..k] + s[k..l];
      SameParts(s[i..j], s[j..k], s[k..l], a, b, c);
    }
  }

  lemma {:induction false} SameParts(x: string, y: string, z: string, a: string, b: string, c: string)
    requires |x| == |a| && |y| == |b| && |z| == |c|
    ensures x + y + z == a + b + c <==> x == a && y == b && z == c
  {
    if x + y + z == a + b + c {
      assert x == (x + y + z)[..|x|] && a == (a + b + c)[..|a|];
      assert y == (x + y + z)[|x|..|x| + |y|] && b == (a + b + c)[|a|..|a| + |b|];
      assert z == (x + y + z)[|x| + |y|..] && c == (a + b + c)[|a| + |b|..];
    }
  }

  /** An attribute that is there is read. */
  lemma {:induction false} AttrIsRead(tag: string, name: string, i: nat, k: string)
    requires AttrAt(tag, name, i, k)
    ensures AttrValue(tag, name) == Some(k)
  {
    var needle := name + "=\"";
    var start := i + |needle|;
    OccursInParts(tag, needle, k, "\"", i);
    FindSkipTo(tag, needle, 0, i);
    assert tag[start + |k|] == tag[start + |k|..start + |k| + 1][0];
    QuoteFind(tag, start, k);
  }

  lemma {:induction false} NoQuoteBefore(tag: string, start: nat, end: nat)
    requires start <= end < |tag| && Find(tag, "\"", start) == Some(end)
    ensures '"' !in tag[start..end]
  {
    forall j | start <= j < end
      ensures tag[j] != '"'
    {
      assert !OccursAt(tag, "\"", j);
      assert tag[j..j + 1] == [tag[j]];
    }
  }

  /** What is read is there. */
  lemma {:induction false} ReadAttrIsThere(tag: string, name: string)
    requires AttrValue(tag, name).Some?
    ensures HasAttr(tag, name, AttrValue(tag, name).value)
  {
    var needle, k := name + "=\"", AttrValue(tag, name).value;
    var i := Find(tag, needle, 0).value;
    var end := Find(tag, "\"", i + |needle|).value;
    NoQuoteBefore(tag, i + |needle|, end);
    OccursInParts(tag, needle, k, "\"", i);
    assert AttrAt(tag, name, i, k);
  }

  /** `attr_value` gives exactly the value of the attribute. */
  lemma {:induction false} AttrValueIff(tag: string, name: string, k: string)
    ensures AttrValue(tag, name) == Some(k) <==> HasAttr(tag, name, k)
  {
    if HasAttr(tag, name, k) {
      var i: nat :| AttrAt(tag, name, i, k);
      AttrIsRead(tag, name, i, k);
    }
    if AttrValue(tag, name).Some? {
      ReadAttrIsThere(tag, name);
    }
  }

  lemma {:induction false} VisibleIff(tag: string)
    ensures Visible(tag) <==> VisibleInput(tag)
  {
    AttrValueIff(tag, "type", "hidden");
    AttrValueIff(tag, "type", "submit");
    AttrValueIff(tag, "type", "button");
  }

  lemma {:induction false} LabelledIff(html: string, tag: string)
    ensures LabelledById(html, tag) <==> NamedByLabel(html, tag)
  {
    if LabelledById(html, tag) {
      ReadAttrIsThere(tag, "id");
    }
    if NamedByLabel(html, tag) {
      var k :| HasAttr(tag, "id", k) && Contains(html, "for=\"" + k + "\"");
      AttrValueIff(tag, "id", k);
    }
  }

  // ---------------------------------------------------------------- the scanner

  lemma {:induction false} EndIsUnique(html: string, i: nat, a: nat, b: nat)
    requires EndsTag(html, i, a) && EndsTag(html, i, b)
    ensures a == b
  {
  }

  lemma {:induction false} CharFind(html: string, i: nat)
    requires i <= |html|
    ensures Find(html, ">", i).Some? ==> EndsTag(html, i, Find(html, ">", i).value)
    ensures Find(html, ">", i).None? ==> forall k :: i <= k < |html| ==> html[k] != '>'
  {
    forall k: nat | k < |html|
      ensures OccursAt(html, ">", k) <==> html[k] == '>'
    {
      assert html[k..k + 1] == [html[k]];
    }
  }

  /** The `rfind` test says that some label before the input is still open. */
  lemma {:induction false} WrappedIff(html: string, pos: nat)
    requires pos <= |html|
    ensures WrappedInLabel(html, pos) <==> Wrapped(html, pos)
  {
    var pre := html[..pos];
    var last := RFind(pre, LABEL, |pre| + 1);
    if last.Some? {
      var open := last.value;
      ContainsFrom(pre, LABEL_END, open);
      if WrappedInLabel(html, pos) {
        assert OpenLabel(html, pos, open);
      }
    }
  }

  lemma {:induction false} ContainsFrom(s: string, p: string, n: nat)
    requires n <= |s|
    ensures Contains(s[n..], p) <==> exists c: nat :: n <= c && OccursAt(s, p, c)
  {
    assert s == s[..n] + s[n..];
    forall c: nat | n <= c
      ensures OccursAt(s, p, c) <==> OccursAt(s[n..], p, c - n)
    {
      OccursInConcat(s[..n], s[n..], p, c);
    }
    if Contains(s[n..], p) {
      var i: nat :| i <= |s[n..]| && OccursAt(s[n..], p, i);
      assert OccursAt(s, p, n + i);
    }
    if exists c: nat :: n <= c && OccursAt(s, p, c) {
      var c: nat :| n <= c && OccursAt(s, p, c);
      assert OccursAt(s[n..], p, c - n);
    }
  }

  lemma {:induction false} GatherSkips(findings: seq<Option<string>>, from: nat, to: nat)
    requires from <= to <= |findings| && forall i :: from <= i < to ==> findings[i].None?
    ensures Gather(findings, from) == Gather(findings, to)
    decreases |findings| - from
  {
    if from < to {
      GatherSkips(findings, from + 1, to);
    }
  }

  /** Nothing is found where no input tag starts. */
  lemma {:induction false} SkipToInput(html: string, from: nat, to: nat)
    requires from <= to <= |html| && forall i: nat :: from <= i < to ==> !OccursAt(html, INPUT, i)
    ensures Gather(Findings(html), from) == Gather(Findings(html), to)
  {
    forall i: nat | from <= i < to
      ensures Findings(html)[i].None?
    {
    }
    GatherSkips(Findings(html), from, to);
  }

  /** Past a position with no later `>` nothing is found: the early exit of the
      loop loses nothing. */
  lemma {:induction false} NothingAfterLastTag(html: string, pos: nat)
    requires pos <= |html| && forall k :: pos <= k < |html| ==> html[k] != '>'
    ensures Gather(Findings(html), pos) == []
  {
    forall i: nat | pos <= i < |html|
      ensures Findings(html)[i].None?
    {
    }
    GatherSkips(Findings(html), pos, |html|);
  }

  /** The verdict of the loop body on one complete input tag. */
  predicate Flags(html: string, pos: nat, tag: string)
    requires pos <= |html|
  {
    Visible(tag) && !LabelledById(html, tag) && !WrappedInLabel(html, pos)
  }

  lemma {:induction false} FlagsIff(html: string, pos: nat, end: nat)
    requires OccursAt(html, INPUT, pos) && EndsTag(html, pos, end)
    ensures Flags(html, pos, html[pos..end + 1]) <==> Reportable(html, pos)
  {
    UnlabelledIff(html, pos, end);
    ReportableAt(html, pos, end);
  }

  lemma {:induction false} UnlabelledIff(html: string, pos: nat, end: nat)
    requires pos <= end < |html|
    ensures Flags(html, pos, html[pos..end + 1]) <==> Unlabelled(html, pos, end)
  {
    WrappedIff(html, pos);
    VisibleIff(html[pos..end + 1]);
    LabelledIff(html, html[pos..end + 1]);
  }

  lemma {:induction false} ReportableAt(html: string, pos: nat, end: nat)
    requires OccursAt(html, INPUT, pos) && EndsTag(html, pos, end)
    ensures Reportable(html, pos) <==> Unlabelled(html, pos, end)
  {
  }

  lemma {:induction false} FindingAtTag(html: string, pos: nat, end: nat)
    requires OccursAt(html, INPUT, pos) && EndsTag(html, pos, end)
    ensures Finding(html, pos)
            == if Flags(html, pos, html[pos..end + 1]) then Some(Snippet(html[pos..end + 1])) else None
  {
    FlagsIff(html, pos, end);
    TagEndsAt(html, pos, end);
  }

  lemma {:induction false} TagEndsAt(html: string, pos: nat, end: nat)
    requires EndsTag(html, pos, end)
    ensures TagAt(html, pos) == html[pos..end + 1]
  {
    CharFind(html, pos);
    if Find(html, ">", pos).Some? {
      EndIsUnique(html, pos, end, Find(html, ">", pos).value);
    }
  }

  /** What the scanner adds for one complete tag is what is found between it and
      the next place it looks at. */
  lemma {:induction false} GatherAtTag(html: string, pos: nat, end: nat)
    requires OccursAt(html, INPUT, pos) && EndsTag(html, pos, end)
    ensures var tag := html[pos..end + 1];
            Gather(Findings(html), pos)
            == (if Flags(html, pos, tag) then [Snippet(tag)] else []) + Gather(Findings(html), pos + |INPUT|)
  {
    FindingAtTag(html, pos, end);
    assert Findings(html)[pos] == Finding(html, pos);
    NoInputInside(html, pos);
    SkipToInput(html, pos + 1, pos + |INPUT|);
  }

  lemma {:induction false} NoInputInside(html: string, pos: nat)
    requires OccursAt(html, INPUT, pos)
    ensures forall i: nat :: pos < i < pos + |INPUT| ==> !OccursAt(html, INPUT, i)
  {
    SharpTail(html, INPUT, pos);
    forall i: nat | pos < i < pos + |INPUT|
      ensures !OccursAt(html, INPUT, i)
    {
      OtherCharNoOccurrence(html, INPUT, i);
    }
  }

  /** The next complete input tag at or after `cursor`; none if the loop would stop. */
  method NextInput(html: string, cursor: nat) returns (abs: nat, end: Option<nat>)
    requires cursor <= |html|
    ensures end.None? ==> Gather(Findings(html), cursor) == []
    ensures end.Some? ==>
              && cursor <= abs && OccursAt(html, INPUT, abs) && EndsTag(html, abs, end.value)
              && Gather(Findings(html), cursor) == Gather(Findings(html), abs)
  {
    var found := Find(html, INPUT, cursor);
    if found.None? {
      SkipToInput(html, cursor, |html|);
      return cursor, None;
    }
    abs := found.value;
    SkipToInput(html, cursor, abs);
    CharFind(html, abs);
    end := Find(html, ">", abs);
    if end.None? {
      NothingAfterLastTag(html, abs);
    }
  }

  /** The body of the loop for one tag, with its early `continue`. */
  method Judge(html: string, pos: nat, tag: string) returns (flagged: bool)
    requires pos <= |html|
    ensures flagged <==> Flags(html, pos, tag)
  {
    if !Visible(tag) {
      return false;
    }
    var labelled: bool;
    match AttrValue(tag, "id") {
      case Some(id) => labelled := Contains(html, "for=\"" + id + "\"") || WrappedInLabel(html, pos);
      case None => labelled := WrappedInLabel(html, pos);
    }
    return !labelled;
  }

  /** What the loop reports for the tag from `pos` through `end`. */
  method ReportTag(html: string, pos: nat, end: nat) returns (reported: seq<string>)
    requires OccursAt(html, INPUT, pos) && EndsTag(html, pos, end)
    ensures Gather(Findings(html), pos) == reported + Gather(Findings(html), pos + |INPUT|)
  {
    var tag := html[pos..end + 1];
    GatherAtTag(html, pos, end);
    var flagged := Judge(html, pos, tag);
    reported := if flagged then [Snippet(tag)] else [];
  }

  /** One turn of the loop: what it reports and where it looks next. */
  method Turn(html: string, cursor: nat) returns (reported: seq<string>, next: Option<nat>)
    requires cursor <= |html|
    ensures next.None? ==> reported == [] && Gather(Findings(html), cursor) == []
    ensures next.Some? ==>
              && cursor < next.value <= |html|
              && Gather(Findings(html), cursor) == reported + Gather(Findings(html), next.value)
  {
    var abs, end := NextInput(html, cursor);
    if end.None? {
      return [], None;
    }
    reported := ReportTag(html, abs, end.value);
    next := Some(abs + |INPUT|);
  }

  /** `unlabelled_inputs`. */
  method UnlabelledInputs(html: string) returns (out: seq<string>)
    ensures out == Report(html)
  {
    out := [];
    var cursor: nat := 0;
    while true
      invariant cursor <= |html|
      invariant out + Gather(Findings(html), cursor) == Report(html)
      decreases |html| - cursor
    {
      var reported, next := Turn(html, cursor);
      if next.None? {
        break;
      }
      ConcatAssoc(out, reported, Gather(Findings(html), next.value));
      out, cursor := out + reported, next.value;
    }
  }
}
