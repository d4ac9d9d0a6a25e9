/**
 Reports as documents: records made of named elements with other text between,
 behind and inside them. As long as the elements that are read come first of
 their names, the substring parser reads what the document says, which gives the
 round trip from printed rows to statistics.
 */
module DmarcDocuments {
  import opened Text
  import opened IpAddresses
  import opened Dmarc

  // ---------------------------------------------------------------- tag patterns

  /** A search pattern with its only `<` in front and no `>` before its end. */
  predicate TagLike(p: string) {
    && |p| >= 2 && p[0] == '<'
    && (forall k :: 1 <= k < |p| ==> p[k] != '<')
    && (forall k :: 0 <= k < |p| - 1 ==> p[k] != '>')
  }

  lemma {:induction false} MismatchNoOccurrence(s: string, p: string, i: nat, k: nat)
    requires k < |p| && i + k < |s| && s[i + k] != p[k]
    ensures !OccursAt(s, p, i)
  {
  }

  /** No tag-like pattern straddles a seam with a `>` before or a `<` after it. */
  lemma {:induction false} Seam(x: string, y: string, p: string)
    requires TagLike(p) && !Contains(x, p) && !Contains(y, p)
    requires x == "" || y == "" || x[|x| - 1] == '>' || y[0] == '<'
    ensures !Contains(x + y, p)
  {
    forall i: nat | i <= |x + y|
      ensures !OccursAt(x + y, p, i)
    {
      OccursInConcat(x, y, p, i);
      if i < |x| < i + |p| && y != "" {
        if x[|x| - 1] == '>' {
          MismatchNoOccurrence(x + y, p, i, |x| - 1 - i);
        } else {
          MismatchNoOccurrence(x + y, p, i, |x| - i);
        }
      }
    }
  }

  lemma {:induction false} NoAngleFree(v: string, p: string)
    requires '<' !in v && TagLike(p)
    ensures !Contains(v, p)
  {
  }

  /** `p` and `q` disagree at some position both have. */
  predicate Differs(p: string, q: string) {
    exists k: nat | k < |p| && k < |q| :: p[k] != q[k]
  }

  predicate Name(n: string) {
    n != "" && forall k :: 0 <= k < |n| ==> 'a' <= n[k] <= 'z' || n[k] == '_'
  }

  lemma {:induction false} TagsAreTagLike(n: string)
    requires Name(n)
    ensures TagLike(OpenTag(n)) && TagLike(CloseTag(n))
    ensures Sharp(OpenTag(n)) && Sharp(CloseTag(n))
  {
  }

  lemma {:induction false} NamesDiffer(n: string, m: string) returns (k: nat)
    requires n != m
    requires forall i :: 0 <= i < |n| ==> n[i] != '>'
    requires forall i :: 0 <= i < |m| ==> m[i] != '>'
    ensures k <= |n| && k <= |m| && (n + ">")[k] != (m + ">")[k]
  {
    if n == "" || m == "" || n[0] != m[0] {
      k := 0;
    } else {
      assert n == [n[0]] + n[1..] && m == [m[0]] + m[1..];
      var j := NamesDiffer(n[1..], m[1..]);
      k := j + 1;
      assert n + ">" == [n[0]] + (n[1..] + ">") && m + ">" == [m[0]] + (m[1..] + ">");
    }
  }

  lemma {:induction false} TagsDiffer(n: string, m: string)
    requires Name(n) && Name(m)
    ensures Differs(OpenTag(n), CloseTag(m)) && Differs(CloseTag(n), OpenTag(m))
    ensures n != m ==> Differs(OpenTag(n), OpenTag(m)) && Differs(CloseTag(n), CloseTag(m))
  {
    assert OpenTag(n)[1] == n[0] && CloseTag(m)[1] == '/';
    assert CloseTag(n)[1] == '/' && OpenTag(m)[1] == m[0];
    if n != m {
      var k := NamesDiffer(n, m);
      assert OpenTag(n) == "<" + (n + ">") && OpenTag(m) == "<" + (m + ">");
      assert OpenTag(n)[k + 1] != OpenTag(m)[k + 1];
      assert CloseTag(n) == "</" + (n + ">") && CloseTag(m) == "</" + (m + ">");
      assert CloseTag(n)[k + 2] != CloseTag(m)[k + 2];
    }
  }

  lemma {:induction false} TagFree(q: string, p: string)
    requires TagLike(p) && TagLike(q) && Differs(p, q)
    ensures !Contains(q, p)
  {
  }

  // ---------------------------------------------------------------- documents

  function Element(name: string, value: string): string {
    OpenTag(name) + value + CloseTag(name)
  }

  /** An element of a record, and the text before it. */
  datatype Field = Field(gap: string, name: string, value: string)

  function BodyText(fields: seq<Field>, tail: string): string {
    if fields == [] then tail
    else fields[0].gap + Element(fields[0].name, fields[0].value) + BodyText(fields[1..], tail)
  }

  /** A record: its elements, the text after the last one, and the text that
      follows the record. */
  datatype Record = Record(fields: seq<Field>, tail: string, after: string)

  function Document(head: string, records: seq<Record>): string
    decreases |records|
  {
    if records == [] then head
    else
      head + Element("record", BodyText(records[0].fields, records[0].tail))
      + Document(records[0].after, records[1..])
  }

  function Lookup(fields: seq<Field>, name: string): Option<string> {
    if fields == [] then None
    else if fields[0].name == name then Some(fields[0].value)
    else Lookup(fields[1..], name)
  }

  /** An element ends at its first closing tag; other elements may be inside it. */
  ghost predicate FieldOk(f: Field) {
    Name(f.name) && !Contains(f.value, CloseTag(f.name))
  }

  ghost predicate FieldsOk(fields: seq<Field>) {
    forall k :: 0 <= k < |fields| ==> FieldOk(fields[k])
  }

  lemma {:induction false} ElementFree(name: string, value: string, p: string)
    requires TagLike(p) && Name(name) && !Contains(value, p)
    requires Differs(p, OpenTag(name)) && Differs(p, CloseTag(name))
    ensures !Contains(Element(name, value), p)
  {
    TagsAreTagLike(name);
    TagFree(OpenTag(name), p);
    TagFree(CloseTag(name), p);
    Seam(OpenTag(name), value, p);
    Seam(OpenTag(name) + value, CloseTag(name), p);
  }

  // ---------------------------------------------------------------- reading one record

  lemma {:induction false} Regroup(gap: string, open: string, value: string, close: string, rest: string)
    ensures gap + (open + value + close) + rest == gap + open + (value + close + rest)
    ensures gap + (open + value + close) + rest == (gap + open) + value + close + rest
  {
  }

  lemma {:induction false} BetweenHere(gap: string, open: string, value: string, close: string, rest: string)
    requires Sharp(open) && Sharp(close) && !Contains(gap, open) && !Contains(value, close)
    ensures Between(gap + (open + value + close) + rest, open, close) == Some(value)
  {
    OpenHere(gap, open, value, close, rest);
    ValueHere(gap, open, value, close, rest);
    BetweenFound(gap + (open + value + close) + rest, open, close, |gap|);
  }

  lemma {:induction false} OpenHere(gap: string, open: string, value: string, close: string, rest: string)
    requires Sharp(open) && !Contains(gap, open)
    ensures Find(gap + (open + value + close) + rest, open, 0) == Some(|gap|)
  {
    Regroup(gap, open, value, close, rest);
    OpenFound(gap, open, value + close + rest);
  }

  lemma {:induction false} ValueHere(gap: string, open: string, value: string, close: string, rest: string)
    requires Sharp(close) && !Contains(value, close)
    ensures UpTo(gap + (open + value + close) + rest, |gap| + |open|, close) == Some(value)
  {
    Regroup(gap, open, value, close, rest);
    CloseFollows(gap + open, value, close, rest);
  }

  lemma {:induction false} OpenFound(gap: string, open: string, more: string)
    requires Sharp(open) && !Contains(gap, open)
    ensures Find(gap + open + more, open, 0) == Some(|gap|)
  {
    NoFind(gap, open);
    FindInConcat(gap, open, more);
  }

  lemma {:induction false} CloseFollows(front: string, value: string, close: string, rest: string)
    requires Sharp(close) && !Contains(value, close)
    ensures UpTo(front + value + close + rest, |front|, close) == Some(value)
  {
    var back := value + close + rest;
    assert front + value + close + rest == front + back;
    UpToHere(value, close, rest);
    UpToShift(front, back, 0, close);
  }

  lemma {:induction false} UpToHere(value: string, close: string, rest: string)
    requires Sharp(close) && !Contains(value, close)
    ensures UpTo(value + close + rest, 0, close) == Some(value)
  {
    NoFind(value, close);
    FindInConcat(value, close, rest);
    assert (value + close + rest)[0..|value|] == value;
  }

  /** The first occurrence is not before a seam that follows a `>`. */
  lemma {:induction false} FindPastFront(x: string, y: string, p: string)
    requires TagLike(p) && !Contains(x, p) && x != "" && x[|x| - 1] == '>'
    ensures Find(x + y, p, 0) == Shift(|x|, Find(y, p, 0))
  {
    FindFromSeam(x, y, p);
    FindShift(x, y, p, 0);
  }

  lemma {:induction false} FindFromSeam(x: string, y: string, p: string)
    requires TagLike(p) && !Contains(x, p) && x != "" && x[|x| - 1] == '>'
    ensures Find(x + y, p, 0) == Find(x + y, p, |x| + 0)
  {
    NoneInFront(x, y, p);
    FindSkipTo(x + y, p, 0, |x|);
  }

  lemma {:induction false} NoneInFront(x: string, y: string, p: string)
    requires TagLike(p) && !Contains(x, p) && x != "" && x[|x| - 1] == '>'
    ensures forall i: nat :: i < |x| ==> !OccursAt(x + y, p, i)
  {
    forall i: nat | i < |x|
      ensures !OccursAt(x + y, p, i)
    {
      OccursInConcat(x, y, p, i);
      if i + |p| > |x| {
        MismatchNoOccurrence(x + y, p, i, |x| - 1 - i);
      }
    }
  }

  lemma {:induction false} BetweenSkips(x: string, y: string, open: string, close: string)
    requires TagLike(open) && !Contains(x, open) && x != "" && x[|x| - 1] == '>'
    ensures Between(x + y, open, close) == Between(y, open, close)
  {
    FindPastFront(x, y, open);
    if Find(y, open, 0).Some? {
      BetweenSkipsTo(x, y, open, close, Find(y, open, 0).value);
    }
  }

  lemma {:induction false} BetweenSkipsTo(x: string, y: string, open: string, close: string, i: nat)
    requires Find(y, open, 0) == Some(i) && Find(x + y, open, 0) == Some(|x| + i)
    ensures Between(x + y, open, close) == Between(y, open, close)
  {
    UpToShift(x, y, i + |open|, close);
    SameBetween(x + y, y, open, close, |x| + i, i);
  }

  lemma {:induction false} BetweenFound(s: string, open: string, close: string, i: nat)
    requires Find(s, open, 0) == Some(i)
    ensures Between(s, open, close) == UpTo(s, i + |open|, close)
  {
  }

  lemma {:induction false} SameBetween(s: string, t: string, open: string, close: string, i: nat, j: nat)
    requires Find(s, open, 0) == Some(i) && Find(t, open, 0) == Some(j)
    requires UpTo(s, i + |open|, close) == UpTo(t, j + |open|, close)
    ensures Between(s, open, close) == Between(t, open, close)
  {
    BetweenFound(s, open, close, i);
    BetweenFound(t, open, close, j);
  }

  lemma {:induction false} UpToShift(x: string, y: string, start: nat, close: string)
    requires start <= |y|
    ensures UpTo(x + y, |x| + start, close) == UpTo(y, start, close)
  {
    FindShift(x, y, close, start);
    if Find(y, close, start).Some? {
      SliceShift(x, y, start, Find(y, close, start).value);
    }
  }

  lemma {:induction false} SliceShift(x: string, y: string, i: nat, j: nat)
    requires i <= j <= |y|
    ensures (x + y)[|x| + i..|x| + j] == y[i..j]
  {
  }

  /** The first `name` tag of the body is that of the first element `name`, or none
      that is closed. What follows that element is free: it may open `name` again. */
  ghost predicate Readable(fields: seq<Field>, tail: string, name: string) {
    if fields == [] then FirstTag(tail, name).None?
    else
      var f := fields[0];
      && !Contains(f.gap, OpenTag(name))
      && (f.name == name || (!Contains(f.value, OpenTag(name)) && Readable(fields[1..], tail, name)))
  }

  /** `first_tag` on a record body finds the first element of that name. */
  lemma {:induction false} FirstTagIsLookup(fields: seq<Field>, tail: string, name: string)
    requires FieldsOk(fields) && Name(name) && Readable(fields, tail, name)
    ensures FirstTag(BodyText(fields, tail), name) == Lookup(fields, name)
  {
    if fields != [] {
      var f := fields[0];
      var rest := BodyText(fields[1..], tail);
      if f.name == name {
        TagsAreTagLike(name);
        BetweenHere(f.gap, OpenTag(name), f.value, CloseTag(name), rest);
      } else {
        var x := f.gap + Element(f.name, f.value);
        TagsAreTagLike(name);
        TagsDiffer(name, f.name);
        ElementFree(f.name, f.value, OpenTag(name));
        Seam(f.gap, Element(f.name, f.value), OpenTag(name));
        FirstTagIsLookup(fields[1..], tail, name);
        BetweenSkips(x, rest, OpenTag(name), CloseTag(name));
      }
    }
  }

  /** The record as its elements say it, without searching any text. */
  function ReadFields(fields: seq<Field>, v6: V6Parser): Option<SourceStat> {
    Interpret(Lookup(fields, "source_ip"), Lookup(fields, "count"), Lookup(fields, "dkim"), Lookup(fields, "spf"), v6)
  }

  /** The record does not open or close another record. */
  ghost predicate RecordTagsOk(r: Record) {
    && !Contains(BodyText(r.fields, r.tail), OpenTag("record"))
    && !Contains(BodyText(r.fields, r.tail), CloseTag("record"))
    && !Contains(r.after, OpenTag("record"))
  }

  /** A record whose read elements come before any other tag of their name. */
  ghost predicate RecordOk(r: Record) {
    && RecordTagsOk(r) && FieldsOk(r.fields)
    && Readable(r.fields, r.tail, "source_ip") && Readable(r.fields, r.tail, "count")
    && Readable(r.fields, r.tail, "dkim") && Readable(r.fields, r.tail, "spf")
  }

  lemma {:induction false} RecordReads(r: Record, v6: V6Parser)
    requires RecordOk(r)
    ensures ReadRecord(BodyText(r.fields, r.tail), v6) == ReadFields(r.fields, v6)
  {
    SameTexts(r);
  }

  lemma {:induction false} ReadNames()
    ensures Name("source_ip") && Name("count") && Name("dkim") && Name("spf")
  {
  }

  lemma {:induction false} SameTexts(r: Record)
    requires RecordOk(r)
    ensures var body := BodyText(r.fields, r.tail);
            && FirstTag(body, "source_ip") == Lookup(r.fields, "source_ip")
            && FirstTag(body, "count") == Lookup(r.fields, "count")
            && FirstTag(body, "dkim") == Lookup(r.fields, "dkim")
            && FirstTag(body, "spf") == Lookup(r.fields, "spf")
  {
    ReadNames();
    FirstTagIsLookup(r.fields, r.tail, "source_ip");
    FirstTagIsLookup(r.fields, r.tail, "count");
    FirstTagIsLookup(r.fields, r.tail, "dkim");
    FirstTagIsLookup(r.fields, r.tail, "spf");
  }

  // ---------------------------------------------------------------- reading a document

  function Chunk(r: Record): string {
    BodyText(r.fields, r.tail) + CloseTag("record") + r.after
  }

  function Chunks(records: seq<Record>): (c: seq<string>)
    ensures |c| == |records| && forall k :: 0 <= k < |c| ==> c[k] == Chunk(records[k])
  {
    seq(|records|, k requires 0 <= k < |records| => Chunk(records[k]))
  }

  lemma {:induction false} ChunkHasNoRecord(r: Record)
    requires RecordTagsOk(r)
    ensures !Contains(Chunk(r), OpenTag("record"))
  {
    var body, close, open := BodyText(r.fields, r.tail), CloseTag("record"), OpenTag("record");
    TagsAreTagLike("record");
    TagsDiffer("record", "record");
    TagFree(close, open);
    Seam(body, close, open);
    Seam(body + close, r.after, open);
  }

  lemma {:induction false} DocumentPrefix(x: string, head: string, records: seq<Record>)
    ensures x + Document(head, records) == Document(x + head, records)
  {
  }

  lemma {:induction false} DocumentUnfolds(head: string, records: seq<Record>)
    requires records != []
    ensures Document(head, records) == head + OpenTag("record") + Document(Chunk(records[0]), records[1..])
  {
    var r := records[0];
    var body, more := BodyText(r.fields, r.tail), Document(r.after, records[1..]);
    Regroup(head, OpenTag("record"), body, CloseTag("record"), more);
    DocumentPrefix(body + CloseTag("record"), r.after, records[1..]);
  }

  lemma {:induction false} SplitDocument(head: string, records: seq<Record>)
    requires forall k :: 0 <= k < |records| ==> RecordTagsOk(records[k])
    requires !Contains(head, OpenTag("record"))
    ensures Split(Document(head, records), OpenTag("record")) == [head] + Chunks(records)
    decreases |records|
  {
    NoFind(head, OpenTag("record"));
    if records != [] {
      var first, rest := records[0], records[1..];
      DocumentUnfolds(head, records);
      TagsAreTagLike("record");
      SplitConcat(head, OpenTag("record"), Document(Chunk(first), rest));
      ChunkHasNoRecord(first);
      SplitDocument(Chunk(first), rest);
      assert Chunks(records) == [Chunk(first)] + Chunks(rest);
    }
  }

  lemma {:induction false} ChunkBody(r: Record)
    requires RecordTagsOk(r)
    ensures Split(Chunk(r), CloseTag("record"))[0] == BodyText(r.fields, r.tail)
  {
    var body, close := BodyText(r.fields, r.tail), CloseTag("record");
    TagsAreTagLike("record");
    NoFind(body, close);
    SplitConcat(body, close, r.after);
  }

  /** The bodies the parser cuts out are the records of the document. */
  lemma {:induction false} DocumentBodies(head: string, records: seq<Record>)
    requires forall k :: 0 <= k < |records| ==> RecordTagsOk(records[k])
    requires !Contains(head, OpenTag("record"))
    ensures |Bodies(Document(head, records))| == |records|
    ensures forall k :: 0 <= k < |records| ==>
                          Bodies(Document(head, records))[k] == BodyText(records[k].fields, records[k].tail)
  {
    RecordTagTexts();
    SplitDocument(head, records);
    forall k | 0 <= k < |records|
      ensures Bodies(Document(head, records))[k] == BodyText(records[k].fields, records[k].tail)
    {
      ChunkBody(records[k]);
    }
  }

  lemma {:induction false} RecordTagTexts()
    ensures OpenTag("record") == "<record>" && CloseTag("record") == "</record>"
  {
  }

  // ---------------------------------------------------------------- no document type declaration

  ghost predicate LowerFree(x: string, p: string) {
    !Contains(Lower(x), p)
  }

  lemma {:induction false} LowerSeam(x: string, y: string, p: string)
    requires TagLike(p) && LowerFree(x, p) && LowerFree(y, p)
    requires x == "" || y == "" || x[|x| - 1] == '>' || y[0] == '<'
    ensures LowerFree(x + y, p)
  {
    LowerConcat(x, y);
    Seam(Lower(x), Lower(y), p);
  }

  /** A declaration pattern: `<!` and then no angle bracket. */
  predicate Declaration(p: string) {
    TagLike(p) && p[1] == '!'
  }

  lemma {:induction false} TagsAreNoDeclaration(n: string, p: string)
    requires Name(n) && Declaration(p)
    ensures LowerFree(OpenTag(n), p) && LowerFree(CloseTag(n), p)
  {
  }

  lemma {:induction false} ElementLowerFree(name: string, value: string, p: string)
    requires Name(name) && Declaration(p) && LowerFree(value, p)
    ensures LowerFree(Element(name, value), p)
  {
    TagsAreNoDeclaration(name, p);
    LowerSeam(OpenTag(name), value, p);
    LowerSeam(OpenTag(name) + value, CloseTag(name), p);
  }

  ghost predicate RecordLowerFree(r: Record, p: string) {
    LowerFree(BodyText(r.fields, r.tail), p) && LowerFree(r.after, p)
  }

  lemma {:induction false} DocumentLowerFree(head: string, records: seq<Record>, p: string)
    requires Declaration(p) && LowerFree(head, p)
    requires forall k :: 0 <= k < |records| ==> RecordLowerFree(records[k], p)
    ensures LowerFree(Document(head, records), p)
    decreases |records|
  {
    if records != [] {
      var r := records[0];
      var e := Element("record", BodyText(r.fields, r.tail));
      ElementLowerFree("record", BodyText(r.fields, r.tail), p);
      DocumentLowerFree(r.after, records[1..], p);
      LowerSeam(head, e, p);
      LowerSeam(head + e, Document(r.after, records[1..]), p);
    }
  }

  // ---------------------------------------------------------------- the round trip

  /** A report: its records in any other text that opens no record. */
  ghost predicate ReportOk(head: string, records: seq<Record>) {
    && !Contains(head, OpenTag("record"))
    && (forall k :: 0 <= k < |records| ==> RecordOk(records[k]))
  }

  function FieldReadings(records: seq<Record>, v6: V6Parser): (r: seq<Option<SourceStat>>)
    ensures |r| == |records| && forall k :: 0 <= k < |r| ==> r[k] == ReadFields(records[k].fields, v6)
  {
    seq(|records|, k requires 0 <= k < |records| => ReadFields(records[k].fields, v6))
  }

  lemma {:induction false} ReadingsAgree(head: string, records: seq<Record>, v6: V6Parser)
    requires ReportOk(head, records)
    ensures Readings(Bodies(Document(head, records)), v6) == FieldReadings(records, v6)
  {
    DocumentBodies(head, records);
    var readings := Readings(Bodies(Document(head, records)), v6);
    forall k | 0 <= k < |records|
      ensures readings[k] == ReadFields(records[k].fields, v6)
    {
      RecordReads(records[k], v6);
    }
  }

  /** The result, if the whole text is let through to the record loop. */
  function Admitted(xml: string, r: Result): Result {
    if !WithinCap(xml) then Err(ReportTooLarge) else if HasDoctype(xml) then Err(ReportDoctype) else r
  }

  /** On every report the substring parser gives what the elements of its records
      say, whatever text is around them and behind them: a text it lets through
      is accepted exactly when every record can be read. */
  lemma {:induction false} ParserReadsDocuments(head: string, records: seq<Record>, v6: V6Parser)
    requires ReportOk(head, records)
    ensures Parse(Document(head, records), v6) == Admitted(Document(head, records), Outcome(FieldReadings(records, v6)))
  {
    ReadingsAgree(head, records, v6);
  }

  /** A row of the report: who sent, how many messages, and what passed. */
  datatype SourceRow = SourceRow(a: Octet, b: Octet, c: Octet, d: Octet, count: nat, dkim: bool, spf: bool)

  function StatOf(r: SourceRow): SourceStat {
    SourceStat(V4(r.a, r.b, r.c, r.d), r.count, if r.dkim then r.count else 0, if r.spf then r.count else 0)
  }

  ghost predicate Says(fields: seq<Field>, name: string, text: string) {
    Lookup(fields, name).Some? && Trim(Lookup(fields, name).value) == text
  }

  /** The elements of a record, padded or not, state the row. */
  ghost predicate Shows(fields: seq<Field>, r: SourceRow) {
    && r.count <= U64_MAX
    && Says(fields, "source_ip", PrintV4(r.a, r.b, r.c, r.d))
    && Says(fields, "count", Decimal(r.count))
    && Lookup(fields, "dkim").Some? && (Says(fields, "dkim", "pass") <==> r.dkim)
    && Lookup(fields, "spf").Some? && (Says(fields, "spf", "pass") <==> r.spf)
  }

  lemma {:induction false} ShownRowReads(fields: seq<Field>, r: SourceRow, v6: V6Parser)
    requires Shows(fields, r)
    ensures ReadFields(fields, v6) == Some(StatOf(r))
  {
    V4RoundTrip(r.a, r.b, r.c, r.d);
    DecimalParses(r.count, U64_MAX);
  }

  function StatsOf(rows: seq<SourceRow>): (s: seq<SourceStat>)
    ensures |s| == |rows| && forall k :: 0 <= k < |s| ==> s[k] == StatOf(rows[k])
  {
    seq(|rows|, k requires 0 <= k < |rows| => StatOf(rows[k]))
  }

  /** Any report whose records state the rows is read as exactly those rows, in order. */
  lemma {:induction false} ReportRoundTrip(head: string, records: seq<Record>, rows: seq<SourceRow>, v6: V6Parser)
    requires ReportOk(head, records)
    requires |rows| == |records| > 0 && forall k :: 0 <= k < |rows| ==> Shows(records[k].fields, rows[k])
    ensures Parse(Document(head, records), v6) == Admitted(Document(head, records), Ok(StatsOf(rows)))
  {
    ParserReadsDocuments(head, records, v6);
    forall k | 0 <= k < |rows|
      ensures FieldReadings(records, v6)[k] == Some(StatsOf(rows)[k])
    {
      ShownRowReads(records[k].fields, rows[k], v6);
    }
    OutcomeOf(FieldReadings(records, v6), StatsOf(rows));
  }

  lemma {:induction false} OutcomeOf(readings: seq<Option<SourceStat>>, stats: seq<SourceStat>)
    requires |readings| == |stats| > 0 && forall k :: 0 <= k < |stats| ==> readings[k] == Some(stats[k])
    ensures Outcome(readings) == Ok(stats)
  {
  }

  function Total(stats: seq<SourceStat>): nat {
    if stats == [] then 0 else Total(stats[..|stats| - 1]) + stats[|stats| - 1].messages
  }

  function Sent(rows: seq<SourceRow>): nat {
    if rows == [] then 0 else Sent(rows[..|rows| - 1]) + rows[|rows| - 1].count
  }

  lemma {:induction false} TotalOfRows(rows: seq<SourceRow>)
    ensures Total(StatsOf(rows)) == Sent(rows)
  {
    if rows != [] {
      var n := |rows| - 1;
      assert StatsOf(rows)[..n] == StatsOf(rows[..n]);
      TotalOfRows(rows[..n]);
    }
  }

  /** What the parser returns for such a report counts every message once. */
  lemma {:induction false} MessagesConserved(head: string, records: seq<Record>, rows: seq<SourceRow>, v6: V6Parser)
    requires ReportOk(head, records) && WithinCap(Document(head, records)) && !HasDoctype(Document(head, records))
    requires |rows| == |records| > 0 && forall k :: 0 <= k < |rows| ==> Shows(records[k].fields, rows[k])
    ensures Parse(Document(head, records), v6).Ok?
    ensures Total(Parse(Document(head, records), v6).stats) == Sent(rows)
  {
    ReportRoundTrip(head, records, rows, v6);
    TotalOfRows(rows);
  }

  // ---------------------------------------------------------------- printed reports

  /** Text that neither opens nor closes a record and declares no document type. */
  ghost predicate Harmless(x: string) {
    && !Contains(x, OpenTag("record")) && !Contains(x, CloseTag("record"))
    && LowerFree(x, "<!doctype") && LowerFree(x, "<!entity")
  }

  /** Harmless text that opens no read element either. */
  ghost predicate Silent(x: string) {
    && Harmless(x)
    && !Contains(x, OpenTag("source_ip")) && !Contains(x, OpenTag("count"))
    && !Contains(x, OpenTag("dkim")) && !Contains(x, OpenTag("spf"))
  }

  lemma {:induction false} OtherTagFree(n: string, m: string)
    requires Name(n) && Name(m) && n != m
    ensures !Contains(OpenTag(n), OpenTag(m)) && !Contains(CloseTag(n), OpenTag(m))
    ensures !Contains(OpenTag(n), CloseTag(m)) && !Contains(CloseTag(n), CloseTag(m))
  {
    TagsAreTagLike(n);
    TagsAreTagLike(m);
    TagsDiffer(m, n);
    TagFree(OpenTag(n), OpenTag(m));
    TagFree(CloseTag(n), OpenTag(m));
    TagFree(OpenTag(n), CloseTag(m));
    TagFree(CloseTag(n), CloseTag(m));
  }

  lemma {:induction false} UnreadTagsAreSilent(n: string)
    requires Name(n) && n != "record" && n != "source_ip" && n != "count" && n != "dkim" && n != "spf"
    ensures Silent(OpenTag(n)) && Silent(CloseTag(n))
  {
    OtherTagFree(n, "record");
    OtherTagFree(n, "source_ip");
    OtherTagFree(n, "count");
    OtherTagFree(n, "dkim");
    OtherTagFree(n, "spf");
    TagsAreNoDeclaration(n, "<!doctype");
    TagsAreNoDeclaration(n, "<!entity");
  }

  lemma {:induction false} HarmlessSeam(x: string, y: string)
    requires Harmless(x) && Harmless(y)
    requires x == "" || y == "" || x[|x| - 1] == '>' || y[0] == '<'
    ensures Harmless(x + y)
  {
    TagsAreTagLike("record");
    Seam(x, y, OpenTag("record"));
    Seam(x, y, CloseTag("record"));
    LowerSeam(x, y, "<!doctype");
    LowerSeam(x, y, "<!entity");
  }

  lemma {:induction false} PlainIsSilent(v: string)
    requires '<' !in v
    ensures Silent(v)
  {
    NoAngleFree(v, OpenTag("record"));
    NoAngleFree(v, CloseTag("record"));
    NoAngleFree(Lower(v), "<!doctype");
    NoAngleFree(Lower(v), "<!entity");
    NoAngleFree(v, OpenTag("source_ip"));
    NoAngleFree(v, OpenTag("count"));
    NoAngleFree(v, OpenTag("dkim"));
    NoAngleFree(v, OpenTag("spf"));
  }

  lemma {:induction false} OtherTagsAreHarmless(n: string)
    requires Name(n) && n != "record"
    ensures Harmless(OpenTag(n)) && Harmless(CloseTag(n))
  {
    OtherTagFree(n, "record");
    TagsAreNoDeclaration(n, "<!doctype");
    TagsAreNoDeclaration(n, "<!entity");
  }

  lemma {:induction false} ElementIsHarmless(name: string, value: string)
    requires Name(name) && name != "record" && Harmless(value)
    ensures Harmless(Element(name, value))
  {
    OtherTagsAreHarmless(name);
    HarmlessSeam(OpenTag(name), value);
    HarmlessSeam(OpenTag(name) + value, CloseTag(name));
  }

  function VerdictText(pass: bool): string { if pass then "pass" else "fail" }

  function RowFields(ip: string, count: string, dkim: string, spf: string): seq<Field> {
    [Field(OpenTag("row"), "source_ip", ip), Field("", "count", count),
     Field(OpenTag("policy_evaluated"), "dkim", dkim), Field("", "spf", spf)]
  }

  function PrintedFields(r: SourceRow): seq<Field> {
    RowFields(PrintV4(r.a, r.b, r.c, r.d), Decimal(r.count), VerdictText(r.dkim), VerdictText(r.spf))
  }

  /** A record as it is printed for a row; `detail` is what follows the row. */
  function PrintedRecord(r: SourceRow, detail: string, after: string): Record {
    Record(PrintedFields(r), CloseTag("policy_evaluated") + CloseTag("row") + detail, after)
  }

  function PrintedRecords(rows: seq<SourceRow>, details: seq<string>): (p: seq<Record>)
    requires |rows| == |details|
    ensures |p| == |rows|
    ensures forall k :: 0 <= k < |p| ==>
                          p[k] == PrintedRecord(rows[k], details[k], if k == |rows| - 1 then CloseTag("feedback") else "")
  {
    seq(|rows|, k requires 0 <= k < |rows| =>
          PrintedRecord(rows[k], details[k], if k == |rows| - 1 then CloseTag("feedback") else ""))
  }

  /** A report as a provider prints it, one record per row. */
  function PrintReport(rows: seq<SourceRow>, details: seq<string>): string
    requires |rows| == |details|
  {
    Document(OpenTag("feedback"), PrintedRecords(rows, details))
  }

  lemma {:induction false} DottedDigits(parts: seq<string>)
    requires |parts| >= 1 && forall k :: 0 <= k < |parts| ==> parts[k] != "" && Digits(parts[k])
    ensures var t := Join(parts, ".");
            t != "" && '<' !in t && IsDigit(t[0]) && IsDigit(t[|t| - 1])
  {
    if |parts| > 1 {
      DottedDigits(parts[1..]);
    }
  }

  lemma {:induction false} PrintedV4IsPlain(a: Octet, b: Octet, c: Octet, d: Octet)
    ensures '<' !in PrintV4(a, b, c, d) && Trim(PrintV4(a, b, c, d)) == PrintV4(a, b, c, d)
  {
    DottedDigits(V4Parts(a, b, c, d));
    TrimKeepsTrimmed(PrintV4(a, b, c, d));
  }

  /** Elements as they are printed: silent text before them, no markup inside. */
  ghost predicate PlainField(f: Field) {
    Name(f.name) && f.name != "record" && Silent(f.gap) && '<' !in f.value
  }

  lemma {:induction false} PrintedFieldsArePlain(r: SourceRow)
    ensures forall k :: 0 <= k < |PrintedFields(r)| ==> PlainField(PrintedFields(r)[k])
  {
    PlainIsSilent("");
    UnreadTagsAreSilent("policy_evaluated");
    UnreadTagsAreSilent("row");
    PrintedV4IsPlain(r.a, r.b, r.c, r.d);
    RowFieldsArePlain(PrintV4(r.a, r.b, r.c, r.d), Decimal(r.count), VerdictText(r.dkim), VerdictText(r.spf));
  }

  lemma {:induction false} RowFieldsArePlain(ip: string, count: string, dkim: string, spf: string)
    requires '<' !in ip && '<' !in count && '<' !in dkim && '<' !in spf
    requires Silent("") && Silent(OpenTag("row")) && Silent(OpenTag("policy_evaluated"))
    ensures forall k :: 0 <= k < |RowFields(ip, count, dkim, spf)| ==> PlainField(RowFields(ip, count, dkim, spf)[k])
  {
  }

  lemma {:induction false} PrintedFieldsShow(r: SourceRow)
    requires r.count <= U64_MAX
    ensures Shows(PrintedFields(r), r)
  {
    PrintedV4IsPlain(r.a, r.b, r.c, r.d);
    TrimKeepsTrimmed(Decimal(r.count));
    VerdictTrims(r.dkim);
    VerdictTrims(r.spf);
    RowShows(PrintV4(r.a, r.b, r.c, r.d), Decimal(r.count), VerdictText(r.dkim), VerdictText(r.spf), r);
  }

  lemma {:induction false} RowShows(ip: string, count: string, dkim: string, spf: string, r: SourceRow)
    requires Trim(ip) == PrintV4(r.a, r.b, r.c, r.d) && Trim(count) == Decimal(r.count) && r.count <= U64_MAX
    requires (Trim(dkim) == "pass" <==> r.dkim) && (Trim(spf) == "pass" <==> r.spf)
    ensures Shows(RowFields(ip, count, dkim, spf), r)
  {
    RowLookups(ip, count, dkim, spf);
  }

  lemma {:induction false} VerdictTrims(pass: bool)
    ensures Trim(VerdictText(pass)) == "pass" <==> pass
  {
  }

  lemma {:induction false} RowLookups(ip: string, count: string, dkim: string, spf: string)
    ensures var f := RowFields(ip, count, dkim, spf);
            && Lookup(f, "source_ip") == Some(ip) && Lookup(f, "count") == Some(count)
            && Lookup(f, "dkim") == Some(dkim) && Lookup(f, "spf") == Some(spf)
  {
    var f := RowFields(ip, count, dkim, spf);
    assert |f[0].name| == 9 && |f[1].name| == 5 && |f[2].name| == 4 && |f[3].name| == 3;
    LookupAt(f, 0);
    LookupAt(f, 1);
    LookupAt(f, 2);
    LookupAt(f, 3);
  }

  lemma {:induction false} LookupAt(fields: seq<Field>, k: nat)
    requires k < |fields| && forall j :: 0 <= j < k ==> fields[j].name != fields[k].name
    ensures Lookup(fields, fields[k].name) == Some(fields[k].value)
  {
    if k > 0 {
      LookupAt(fields[1..], k - 1);
    }
  }

  /** Plain elements that include `name` make it readable, whatever the tail says. */
  lemma {:induction false} PlainFieldsAreReadable(fields: seq<Field>, tail: string, name: string)
    requires Lookup(fields, name).Some? && Name(name)
    requires forall k :: 0 <= k < |fields| ==> '<' !in fields[k].value && !Contains(fields[k].gap, OpenTag(name))
    ensures Readable(fields, tail, name)
  {
    if fields[0].name != name {
      TagsAreTagLike(name);
      NoAngleFree(fields[0].value, OpenTag(name));
      PlainFieldsAreReadable(fields[1..], tail, name);
    }
  }

  lemma {:induction false} PlainFieldsAreOk(fields: seq<Field>)
    requires forall k :: 0 <= k < |fields| ==> PlainField(fields[k])
    ensures FieldsOk(fields)
  {
    forall k | 0 <= k < |fields|
      ensures FieldOk(fields[k])
    {
      TagsAreTagLike(fields[k].name);
      NoAngleFree(fields[k].value, CloseTag(fields[k].name));
    }
  }

  lemma {:induction false} PlainBodyIsHarmless(fields: seq<Field>, tail: string)
    requires Harmless(tail) && forall k :: 0 <= k < |fields| ==> PlainField(fields[k])
    ensures Harmless(BodyText(fields, tail))
  {
    if fields != [] {
      var f := fields[0];
      PlainBodyIsHarmless(fields[1..], tail);
      PlainIsSilent(f.value);
      ElementIsHarmless(f.name, f.value);
      HarmlessSeam(f.gap, Element(f.name, f.value));
      HarmlessSeam(f.gap + Element(f.name, f.value), BodyText(fields[1..], tail));
    }
  }

  lemma {:induction false} PrintedTailIsHarmless(detail: string)
    requires Harmless(detail)
    ensures Harmless(CloseTag("policy_evaluated") + CloseTag("row") + detail)
  {
    OtherTagsAreHarmless("policy_evaluated");
    OtherTagsAreHarmless("row");
    HarmlessSeam(CloseTag("policy_evaluated"), CloseTag("row"));
    HarmlessSeam(CloseTag("policy_evaluated") + CloseTag("row"), detail);
  }

  lemma {:induction false} PlainRecordOk(r: Record)
    requires forall k :: 0 <= k < |r.fields| ==> PlainField(r.fields[k])
    requires Lookup(r.fields, "source_ip").Some? && Lookup(r.fields, "count").Some?
    requires Lookup(r.fields, "dkim").Some? && Lookup(r.fields, "spf").Some?
    requires Harmless(r.tail) && Harmless(r.after)
    ensures RecordOk(r) && Harmless(BodyText(r.fields, r.tail))
  {
    ReadNames();
    PlainFieldsAreOk(r.fields);
    PlainBodyIsHarmless(r.fields, r.tail);
    PlainFieldsAreReadable(r.fields, r.tail, "source_ip");
    PlainFieldsAreReadable(r.fields, r.tail, "count");
    PlainFieldsAreReadable(r.fields, r.tail, "dkim");
    PlainFieldsAreReadable(r.fields, r.tail, "spf");
  }

  lemma {:induction false} PrintedRecordOk(r: SourceRow, detail: string, after: string)
    requires r.count <= U64_MAX && Harmless(detail) && Harmless(after)
    ensures var record := PrintedRecord(r, detail, after);
            RecordOk(record) && Shows(record.fields, r) && Harmless(BodyText(record.fields, record.tail))
  {
    PrintedTailIsHarmless(detail);
    PrintedFieldsArePlain(r);
    PrintedFieldsShow(r);
    PlainRecordOk(PrintedRecord(r, detail, after));
  }

  /** Harmless records make a document that declares nothing. */
  lemma {:induction false} HarmlessDocument(head: string, records: seq<Record>)
    requires LowerFree(head, "<!doctype") && LowerFree(head, "<!entity")
    requires forall k :: 0 <= k < |records| ==>
                           Harmless(BodyText(records[k].fields, records[k].tail)) && Harmless(records[k].after)
    ensures !HasDoctype(Document(head, records))
  {
    DocumentLowerFree(head, records, "<!doctype");
    DocumentLowerFree(head, records, "<!entity");
  }

  /** Printing rows and reading the report gives back one statistic per row, in
      order, with no message lost, whatever harmless text follows each row. */
  lemma {:induction false} DetailedRoundTrip(rows: seq<SourceRow>, details: seq<string>, v6: V6Parser)
    requires |rows| == |details| > 0
    requires forall k :: 0 <= k < |rows| ==> rows[k].count <= U64_MAX && Harmless(details[k])
    ensures var xml := PrintReport(rows, details);
            Parse(xml, v6) == if WithinCap(xml) then Ok(StatsOf(rows)) else Err(ReportTooLarge)
    ensures var xml := PrintReport(rows, details);
            WithinCap(xml) ==> Total(Parse(xml, v6).stats) == Sent(rows)
  {
    var records := PrintedRecords(rows, details);
    OtherTagsAreHarmless("feedback");
    PlainIsSilent("");
    forall k | 0 <= k < |rows|
      ensures RecordOk(records[k]) && Shows(records[k].fields, rows[k])
      ensures Harmless(BodyText(records[k].fields, records[k].tail)) && Harmless(records[k].after)
    {
      PrintedRecordOk(rows[k], details[k], records[k].after);
    }
    HarmlessDocument(OpenTag("feedback"), records);
    ReportRoundTrip(OpenTag("feedback"), records, rows, v6);
    TotalOfRows(rows);
  }

  /** The layout with nothing after the rows. */
  lemma {:induction false} PrintedRoundTrip(rows: seq<SourceRow>, v6: V6Parser)
    requires rows != [] && forall k :: 0 <= k < |rows| ==> rows[k].count <= U64_MAX
    ensures var xml := PrintReport(rows, seq(|rows|, k => ""));
            && Parse(xml, v6) == (if WithinCap(xml) then Ok(StatsOf(rows)) else Err(ReportTooLarge))
            && (WithinCap(xml) ==> Total(Parse(xml, v6).stats) == Sent(rows))
  {
    PlainIsSilent("");
    DetailedRoundTrip(rows, seq(|rows|, k => ""), v6);
  }

  /** What the receiver found for the raw identifiers: section `auth_results`. */
  datatype AuthResults = AuthResults(
    headerFrom: string, dkimDomain: string, dkimResult: string, spfDomain: string, spfResult: string)

  function PrintAuth(a: AuthResults): string {
    Element("identifiers", Element("header_from", a.headerFrom))
    + Element("auth_results",
              Element("dkim", Element("domain", a.dkimDomain) + Element("result", a.dkimResult))
              + Element("spf", Element("domain", a.spfDomain) + Element("result", a.spfResult)))
  }

  predicate PlainAuth(a: AuthResults) {
    && '<' !in a.headerFrom && '<' !in a.dkimDomain && '<' !in a.dkimResult
    && '<' !in a.spfDomain && '<' !in a.spfResult
  }

  lemma {:induction false} VerdictElementsAreHarmless(name: string, domain: string, result: string)
    requires Name(name) && name != "record" && '<' !in domain && '<' !in result
    ensures Harmless(Element(name, Element("domain", domain) + Element("result", result)))
  {
    PlainIsSilent(domain);
    PlainIsSilent(result);
    ElementIsHarmless("domain", domain);
    ElementIsHarmless("result", result);
    HarmlessSeam(Element("domain", domain), Element("result", result));
    ElementIsHarmless(name, Element("domain", domain) + Element("result", result));
  }

  lemma {:induction false} AuthIsHarmless(a: AuthResults)
    requires PlainAuth(a)
    ensures Harmless(PrintAuth(a))
  {
    var dkim := Element("dkim", Element("domain", a.dkimDomain) + Element("result", a.dkimResult));
    var spf := Element("spf", Element("domain", a.spfDomain) + Element("result", a.spfResult));
    PlainIsSilent(a.headerFrom);
    ElementIsHarmless("header_from", a.headerFrom);
    ElementIsHarmless("identifiers", Element("header_from", a.headerFrom));
    VerdictElementsAreHarmless("dkim", a.dkimDomain, a.dkimResult);
    VerdictElementsAreHarmless("spf", a.spfDomain, a.spfResult);
    HarmlessSeam(dkim, spf);
    ElementIsHarmless("auth_results", dkim + spf);
    HarmlessSeam(Element("identifiers", Element("header_from", a.headerFrom)), Element("auth_results", dkim + spf));
  }

  function PrintAuths(auths: seq<AuthResults>): (d: seq<string>)
    ensures |d| == |auths| && forall k :: 0 <= k < |d| ==> d[k] == PrintAuth(auths[k])
  {
    seq(|auths|, k requires 0 <= k < |auths| => PrintAuth(auths[k]))
  }

  /** A report with the `auth_results` sections the schema prescribes is read by the
      verdicts of its `policy_evaluated` sections, whatever the others say. */
  lemma {:induction false} AuthResultsAreIgnored(rows: seq<SourceRow>, auths: seq<AuthResults>, v6: V6Parser)
    requires |rows| == |auths| > 0
    requires forall k :: 0 <= k < |rows| ==> rows[k].count <= U64_MAX && PlainAuth(auths[k])
    ensures var xml := PrintReport(rows, PrintAuths(auths));
            Parse(xml, v6) == if WithinCap(xml) then Ok(StatsOf(rows)) else Err(ReportTooLarge)
  {
    forall k | 0 <= k < |rows|
      ensures Harmless(PrintAuths(auths)[k])
    {
      AuthIsHarmless(auths[k]);
    }
    DetailedRoundTrip(rows, PrintAuths(auths), v6);
  }
}
