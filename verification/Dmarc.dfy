/**
 The DMARC aggregate-report reader: a substring parser for the report schema in
 Appendix C of RFC 7489.
 */
module Dmarc {
  import opened Text
  import opened IpAddresses
  import Utf8

  datatype SourceStat = SourceStat(sourceIp: Ip, messages: nat, dkimPass: nat, spfPass: nat)

  datatype ReportError = ReportTooLarge | ReportDoctype | ReportMalformed

  datatype Result = Ok(stats: seq<SourceStat>) | Err(error: ReportError)

  const REPORT_MAX_BYTES: nat := 10 * 1024 * 1024

  /** The IPv6 text grammar, which is library code outside this model. */
  type V6Parser = string -> Option<Ip>

  function OpenTag(name: string): string { "<" + name + ">" }

  function CloseTag(name: string): string { "</" + name + ">" }

  /** The text from `start` up to the next `close`. */
  function UpTo(xml: string, start: nat, close: string): Option<string>
    requires start <= |xml|
  {
    match Find(xml, close, start)
    case None => None
    case Some(end) => Some(xml[start..end])
  }

  /** The text between the first `open` and the `close` that follows it. */
  function Between(xml: string, open: string, close: string): Option<string> {
    match Find(xml, open, 0)
    case None => None
    case Some(i) => UpTo(xml, i + |open|, close)
  }

  /** `first_tag`. */
  function FirstTag(xml: string, name: string): Option<string> {
    Between(xml, OpenTag(name), CloseTag(name))
  }

  function Passed(verdict: string, count: nat): nat {
    if Trim(verdict) == "pass" then count else 0
  }

  /** The statistics of a record from the four texts it is read for. */
  function Interpret(
    ipText: Option<string>, countText: Option<string>, dkim: Option<string>, spf: Option<string>, v6: V6Parser)
    : Option<SourceStat>
  {
    if ipText.None? || countText.None? || dkim.None? || spf.None? then None
    else
      var ip, count := ParseIp(Trim(ipText.value), v6), ParseUnsigned(Trim(countText.value), U64_MAX);
      if ip.None? || count.None? then None
      else Some(SourceStat(ip.value, count.value, Passed(dkim.value, count.value), Passed(spf.value, count.value)))
  }

  /** One record body, as the loop body of the source reads it. */
  function ReadRecord(record: string, v6: V6Parser): Option<SourceStat> {
    Interpret(FirstTag(record, "source_ip"), FirstTag(record, "count"),
              FirstTag(record, "dkim"), FirstTag(record, "spf"), v6)
  }

  function Readings(bodies: seq<string>, v6: V6Parser): (r: seq<Option<SourceStat>>)
    ensures |r| == |bodies| && forall k :: 0 <= k < |r| ==> r[k] == ReadRecord(bodies[k], v6)
  {
    seq(|bodies|, k requires 0 <= k < |bodies| => ReadRecord(bodies[k], v6))
  }

  /** All readings, unless one of them failed. */
  function Collect(readings: seq<Option<SourceStat>>): (r: Option<seq<SourceStat>>)
    ensures r.Some? <==> forall k :: 0 <= k < |readings| ==> readings[k].Some?
    ensures r.Some? ==> |r.value| == |readings| && forall k :: 0 <= k < |readings| ==> readings[k] == Some(r.value[k])
  {
    if forall k :: 0 <= k < |readings| ==> readings[k].Some?
    then Some(seq(|readings|, k requires 0 <= k < |readings| => readings[k].value))
    else None
  }

  /** What lies between each `<record>` and the `</record>` or `<record>` after it. */
  function Bodies(xml: string): (r: seq<string>)
    ensures |r| == |Split(xml, "<record>")| - 1
    ensures forall k :: 0 <= k < |r| ==> r[k] == Split(Split(xml, "<record>")[k + 1], "</record>")[0]
  {
    var chunks := Split(xml, "<record>")[1..];
    seq(|chunks|, k requires 0 <= k < |chunks| => Split(chunks[k], "</record>")[0])
  }

  predicate HasDoctype(xml: string) {
    Contains(Lower(xml), "<!doctype") || Contains(Lower(xml), "<!entity")
  }

  predicate WithinCap(xml: string) {
    |Utf8.Encode(xml)| <= REPORT_MAX_BYTES
  }

  /** The result in terms of the readings of the records. */
  function Outcome(readings: seq<Option<SourceStat>>): Result {
    if readings == [] then Err(ReportMalformed)
    else
      match Collect(readings)
      case None => Err(ReportMalformed)
      case Some(stats) => Ok(stats)
  }

  function Parse(xml: string, v6: V6Parser): Result {
    if !WithinCap(xml) then Err(ReportTooLarge)
    else if HasDoctype(xml) then Err(ReportDoctype)
    else Outcome(Readings(Bodies(xml), v6))
  }

  /** `parse_dmarc_report`. */
  method ParseDmarcReport(xml: string, v6: V6Parser) returns (r: Result)
    ensures r == Parse(xml, v6)
  {
    if |Utf8.Encode(xml)| > REPORT_MAX_BYTES {
      return Err(ReportTooLarge);
    }
    var lower := Lower(xml);
    if Contains(lower, "<!doctype") || Contains(lower, "<!entity") {
      return Err(ReportDoctype);
    }
    var stats := ReadRecords(xml, v6);
    if stats.None? {
      return Err(ReportMalformed);
    }
    if stats.value == [] {
      NoFind(xml, "<record>");
      if !Contains(xml, "<record>") {
        return Err(ReportMalformed);
      }
    }
    return Ok(stats.value);
  }

  /** The loop over the pieces after each `<record>`. */
  method ReadRecords(xml: string, v6: V6Parser) returns (r: Option<seq<SourceStat>>)
    ensures r == Collect(Readings(Bodies(xml), v6))
  {
    ghost var readings := Readings(Bodies(xml), v6);
    var chunks := Split(xml, "<record>");
    var stats: seq<SourceStat> := [];
    for i := 1 to |chunks|
      invariant |stats| == i - 1
      invariant forall k :: 0 <= k < i - 1 ==> readings[k] == Some(stats[k])
    {
      var record := Split(chunks[i], "</record>")[0];
      var stat := ReadRecord(record, v6);
      assert readings[i - 1] == stat;
      if stat.None? {
        return None;
      }
      stats := stats + [stat.value];
    }
    assert Collect(readings).value == stats;
    return Some(stats);
  }

  /** How many positions of `s`, from `from` on, `p` occurs at. */
  function Occurrences(s: string, p: string, from: nat): nat
    requires from <= |s| + 1
    decreases |s| + 1 - from
  {
    if from == |s| + 1 then 0
    else (if OccursAt(s, p, from) then 1 else 0) + Occurrences(s, p, from + 1)
  }

  lemma {:induction false} NoOccurrences(s: string, p: string, from: nat, to: nat)
    requires from <= to <= |s| + 1
    requires forall j: nat :: from <= j < to ==> !OccursAt(s, p, j)
    ensures Occurrences(s, p, from) == Occurrences(s, p, to)
    decreases |s| + 1 - from
  {
    if from < to {
      NoOccurrences(s, p, from + 1, to);
    }
  }

  lemma {:induction false} OccurrencesInSuffix(s: string, p: string, k: nat, from: nat)
    requires k <= |s| && from <= |s| - k + 1
    ensures Occurrences(s[k..], p, from) == Occurrences(s, p, k + from)
    decreases |s| - k + 1 - from
  {
    if from < |s| - k + 1 {
      OccurrencesInSuffix(s, p, k, from + 1);
      assert s == s[..k] + s[k..];
      OccursInConcat(s[..k], s[k..], p, k + from);
    }
  }

  /** A sharp separator cuts once per position it occurs at. */
  lemma {:induction false} SplitCounts(s: string, sep: string)
    requires Sharp(sep)
    ensures |Split(s, sep)| == 1 + Occurrences(s, sep, 0)
    decreases |s|
  {
    if Find(s, sep, 0).None? {
      SplitNotFound(s, sep);
      NoOccurrences(s, sep, 0, |s| + 1);
    } else {
      var i := Find(s, sep, 0).value;
      SplitFound(s, sep, i);
      SplitCounts(s[i + |sep|..], sep);
      FirstCutCounts(s, sep, i);
    }
  }

  lemma {:induction false} FirstCutCounts(s: string, sep: string, i: nat)
    requires Sharp(sep) && Find(s, sep, 0) == Some(i)
    ensures Occurrences(s, sep, 0) == 1 + Occurrences(s[i + |sep|..], sep, 0)
  {
    NoOccurrences(s, sep, 0, i);
    OccurrencesPast(s, sep, i);
    OccurrencesInSuffix(s, sep, i + |sep|, 0);
  }

  lemma {:induction false} OccurrencesPast(s: string, sep: string, i: nat)
    requires Sharp(sep) && OccursAt(s, sep, i)
    ensures Occurrences(s, sep, i) == 1 + Occurrences(s, sep, i + |sep|)
  {
    SharpTail(s, sep, i);
    forall j: nat | i < j < i + |sep|
      ensures !OccursAt(s, sep, j)
    {
      OtherCharNoOccurrence(s, sep, j);
    }
    NoOccurrences(s, sep, i + 1, i + |sep|);
  }

  /** An accepted report yields one stat per `<record>` in the text, at least one,
      and each counts its messages as passing in full or not at all. */
  lemma {:induction false} AcceptedReport(xml: string, v6: V6Parser)
    requires Parse(xml, v6).Ok?
    ensures var stats := Parse(xml, v6).stats;
            && |stats| == Occurrences(xml, "<record>", 0) >= 1
            && forall k :: 0 <= k < |stats| ==>
                 && stats[k].messages <= U64_MAX
                 && (stats[k].dkimPass == 0 || stats[k].dkimPass == stats[k].messages)
                 && (stats[k].spfPass == 0 || stats[k].spfPass == stats[k].messages)
  {
    SplitCounts(xml, "<record>");
    var stats := Parse(xml, v6).stats;
    forall k | 0 <= k < |stats|
      ensures stats[k].messages <= U64_MAX
      ensures stats[k].dkimPass == 0 || stats[k].dkimPass == stats[k].messages
      ensures stats[k].spfPass == 0 || stats[k].spfPass == stats[k].messages
    {
      ReadRecordFacts(Bodies(xml)[k], v6);
    }
  }

  lemma {:induction false} ReadRecordFacts(record: string, v6: V6Parser)
    ensures var r := ReadRecord(record, v6);
            r.Some? ==>
              && r.value.messages <= U64_MAX
              && (r.value.dkimPass == 0 || r.value.dkimPass == r.value.messages)
              && (r.value.spfPass == 0 || r.value.spfPass == r.value.messages)
  {
  }

  // ---------------------------------------------------------------- which texts are refused

  /** `d` is `p` with some of its letters in upper case. */
  predicate CaseVariant(d: string, p: string) {
    |d| == |p|
    && forall k :: 0 <= k < |p| ==> d[k] == p[k] || ('A' <= d[k] <= 'Z' && d[k] as int + 32 == p[k] as int)
  }

  predicate VariantAt(xml: string, i: nat, p: string) {
    i + |p| <= |xml| && CaseVariant(xml[i..i + |p|], p)
  }

  /** A document type or an entity is declared somewhere, in any case. */
  ghost predicate Declares(xml: string) {
    exists i: nat :: VariantAt(xml, i, "<!doctype") || VariantAt(xml, i, "<!entity")
  }

  lemma {:induction false} LowerOccursIff(xml: string, p: string, i: nat)
    requires forall k :: 0 <= k < |p| ==> !('A' <= p[k] <= 'Z')
    ensures OccursAt(Lower(xml), p, i) <==> VariantAt(xml, i, p)
  {
    if i + |p| <= |xml| {
      var d, l := xml[i..i + |p|], Lower(xml)[i..i + |p|];
      assert forall k :: 0 <= k < |p| ==> l[k] == LowerChar(d[k]);
      if l == p {
        assert forall k :: 0 <= k < |p| ==> LowerChar(d[k]) == p[k];
      }
      if CaseVariant(d, p) {
        assert forall k :: 0 <= k < |p| ==> l[k] == p[k];
      }
    }
  }

  lemma {:induction false} HasDoctypeIff(xml: string)
    ensures HasDoctype(xml) <==> Declares(xml)
  {
    forall i: nat
      ensures OccursAt(Lower(xml), "<!doctype", i) <==> VariantAt(xml, i, "<!doctype")
      ensures OccursAt(Lower(xml), "<!entity", i) <==> VariantAt(xml, i, "<!entity")
    {
      LowerOccursIff(xml, "<!doctype", i);
      LowerOccursIff(xml, "<!entity", i);
    }
  }

  /** Exactly the texts of more than 10 MiB are too large. */
  lemma {:induction false} TooLargeIff(xml: string, v6: V6Parser)
    ensures Parse(xml, v6) == Err(ReportTooLarge) <==> |Utf8.Encode(xml)| > 10_485_760
  {
  }

  /** Exactly the texts within the cap that declare a document type or an entity,
      anywhere and in any case, are refused as such. */
  lemma {:induction false} DoctypeIff(xml: string, v6: V6Parser)
    ensures Parse(xml, v6) == Err(ReportDoctype) <==> |Utf8.Encode(xml)| <= 10_485_760 && Declares(xml)
  {
    HasDoctypeIff(xml);
  }

  /** In particular a declaration in front of or inside any other text. */
  lemma {:induction false} DeclarationIsRefused(x: string, d: string, y: string, v6: V6Parser)
    requires CaseVariant(d, "<!doctype") || CaseVariant(d, "<!entity")
    requires |Utf8.Encode(x + d + y)| <= 10_485_760
    ensures Parse(x + d + y, v6) == Err(ReportDoctype)
  {
    var xml := x + d + y;
    assert xml[|x|..|x| + |d|] == d;
    assert VariantAt(xml, |x|, "<!doctype") || VariantAt(xml, |x|, "<!entity");
    DoctypeIff(xml, v6);
  }

  /** Exactly the other texts without a record, or with one that cannot be read, are
      malformed. */
  lemma {:induction false} MalformedIff(xml: string, v6: V6Parser)
    ensures Parse(xml, v6) == Err(ReportMalformed) <==>
            && |Utf8.Encode(xml)| <= 10_485_760 && !Declares(xml)
            && (!Contains(xml, "<record>") || exists k :: 0 <= k < |Bodies(xml)| && ReadRecord(Bodies(xml)[k], v6).None?)
  {
    HasDoctypeIff(xml);
    NoFind(xml, "<record>");
    var readings := Readings(Bodies(xml), v6);
    assert forall k :: 0 <= k < |readings| ==> readings[k] == ReadRecord(Bodies(xml)[k], v6);
  }

  /** What a record must hold to be read, and what is read from it. */
  lemma {:induction false} RecordReadsIff(record: string, v6: V6Parser, stat: SourceStat)
    ensures ReadRecord(record, v6) == Some(stat) <==>
            var ip, count := FirstTag(record, "source_ip"), FirstTag(record, "count");
            var dkim, spf := FirstTag(record, "dkim"), FirstTag(record, "spf");
            && ip.Some? && count.Some? && dkim.Some? && spf.Some?
            && ParseIp(Trim(ip.value), v6) == Some(stat.sourceIp)
            && ParseUnsigned(Trim(count.value), 0xFFFF_FFFF_FFFF_FFFF) == Some(stat.messages)
            && stat.dkimPass == (if Trim(dkim.value) == "pass" then stat.messages else 0)
            && stat.spfPass == (if Trim(spf.value) == "pass" then stat.messages else 0)
  {
  }

  /** A record without one of the four elements makes the report malformed. */
  lemma {:induction false} MissingElementIsMalformed(xml: string, k: nat, name: string, v6: V6Parser)
    requires |Utf8.Encode(xml)| <= 10_485_760 && !Declares(xml) && k < |Bodies(xml)|
    requires name == "source_ip" || name == "count" || name == "dkim" || name == "spf"
    requires FirstTag(Bodies(xml)[k], name).None?
    ensures Parse(xml, v6) == Err(ReportMalformed)
  {
    assert ReadRecord(Bodies(xml)[k], v6).None?;
    MalformedIff(xml, v6);
  }
}
