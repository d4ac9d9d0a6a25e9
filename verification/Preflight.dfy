/**
 The release preflight: whether a binary may start on a store, decided from the
 versions in the ledger and the binary's schema ceiling, and how the decision
 fares when that binary's migrations are then applied.
 */
module Preflight {
  import opened Text
  import opened Migrations
  import opened MigrationRuns

  datatype Verdict =
    | Accepted
    | TooNewSchema(applied: string, supportedMax: string)
    | UnparseableAppliedVersion(version: string)

  datatype Evaluation = Judged(verdict: Verdict) | EmptyAppliedVersion

  /** `max_schema_version_u32`: the ceiling, 0 when it does not parse. */
  function CeilingOf(maxSchemaVersion: string): (n: nat)
    ensures n <= U32_MAX
  {
    match ParseUnsigned(Trim(maxSchemaVersion), U32_MAX)
    case Some(n) => n
    case None => 0
  }

  function VersionNumber(v: string): Option<nat> {
    ParseUnsigned(Trim(v), U32_MAX)
  }

  function Numbers(applied: seq<string>): (r: seq<Option<nat>>)
    ensures |r| == |applied| && forall i :: 0 <= i < |r| ==> r[i] == VersionNumber(applied[i])
  {
    seq(|applied|, i requires 0 <= i < |applied| => VersionNumber(applied[i]))
  }

  predicate AnyBlank(applied: seq<string>) {
    exists i :: 0 <= i < |applied| && Trim(applied[i]) == ""
  }

  predicate AllAtMost(numbers: seq<Option<nat>>, n: nat) {
    forall i :: 0 <= i < |numbers| ==> numbers[i].Some? && numbers[i].value <= n
  }

  /** Some version has number `n`, and all have a number, none above `n`. */
  predicate IsNewest(numbers: seq<Option<nat>>, n: nat) {
    Some(n) in numbers && AllAtMost(numbers, n)
  }

  predicate IsFirstUnparseable(numbers: seq<Option<nat>>, i: nat) {
    i < |numbers| && numbers[i].None? && forall j :: 0 <= j < i ==> numbers[j].Some?
  }

  /** What the preflight decides, stated by what holds of the ledger. */
  ghost predicate Decides(applied: seq<string>, ceiling: nat, r: Evaluation) {
    match r
    case EmptyAppliedVersion => AnyBlank(applied)
    case Judged(v) => !AnyBlank(applied) && Judges(applied, Numbers(applied), ceiling, v)
  }

  ghost predicate Judges(applied: seq<string>, numbers: seq<Option<nat>>, ceiling: nat, v: Verdict)
    requires |applied| == |numbers|
  {
    match v
    case Accepted => ceiling == 0 || AllAtMost(numbers, ceiling)
    case TooNewSchema(newest, supported) =>
      && 0 < ceiling && supported == Decimal(ceiling)
      && exists n: nat :: IsNewest(numbers, n) && ceiling < n && newest == Decimal(n)
    case UnparseableAppliedVersion(v) =>
      0 < ceiling && exists i: nat :: IsFirstUnparseable(numbers, i) && applied[i] == v
  }

  method FindBlank(applied: seq<string>) returns (blank: bool)
    ensures blank <==> AnyBlank(applied)
  {
    for i := 0 to |applied|
      invariant forall j :: 0 <= j < i ==> Trim(applied[j]) != ""
    {
      if Trim(applied[i]) == "" {
        return true;
      }
    }
    return false;
  }

  /** The newest version number, or where the first version without one is. */
  method ScanVersions(applied: seq<string>) returns (newest: Option<nat>, bad: Option<nat>)
    ensures bad.Some? ==> IsFirstUnparseable(Numbers(applied), bad.value)
    ensures bad.None? ==> (newest.None? <==> applied == [])
    ensures bad.None? && newest.Some? ==> IsNewest(Numbers(applied), newest.value)
  {
    ghost var numbers := Numbers(applied);
    newest := None;
    for i := 0 to |applied|
      invariant newest.None? ==> i == 0
      invariant newest.Some? ==> i > 0 && newest in numbers
      invariant forall j :: 0 <= j < i ==> numbers[j].Some? && newest.Some? && numbers[j].value <= newest.value
    {
      match VersionNumber(applied[i])
      case Some(n) =>
        assert numbers[i] == Some(n);
        newest := Some(if newest.Some? && newest.value > n then newest.value else n);
      case None =>
        assert numbers[i] == None;
        return newest, Some(i);
    }
    return newest, None;
  }

  /** A numeral for `n`, with blanks around it and an optional `+`. */
  ghost predicate NumeralText(text: string, n: nat) {
    exists w, s, d, v :: NumeralTextOf(text, w, s, d, v) && NumeralValue(d) == n
  }

  predicate NumeralTextOf(text: string, w: string, s: string, d: string, v: string) {
    text == w + s + v && Blank(w) && Blank(v) && Numeral(s, d)
  }

  /** Exactly the texts that spell a `u32` have a version number, the one they spell. */
  lemma {:induction false} VersionNumberIff(text: string, n: nat)
    ensures VersionNumber(text) == Some(n) <==> n <= 0xFFFF_FFFF && NumeralText(text, n)
  {
    if VersionNumber(text) == Some(n) {
      ParseUnsignedIff(Trim(text), U32_MAX, n);
      var d :| Numeral(Trim(text), d) && NumeralValue(d) == n;
      var w, v := TrimMargins(text);
      assert NumeralTextOf(text, w, Trim(text), d, v);
    }
    if n <= U32_MAX && NumeralText(text, n) {
      var w, s, d, v :| NumeralTextOf(text, w, s, d, v) && NumeralValue(d) == n;
      NumeralIsTrimmed(s, d);
      TrimUnique(w, s, v);
      ParseUnsignedIff(s, U32_MAX, n);
    }
  }

  lemma {:induction false} NumeralIsTrimmed(s: string, d: string)
    requires Numeral(s, d)
    ensures Trimmed(s)
  {
    assert IsDigit(d[0]) && IsDigit(d[|d| - 1]);
  }

  /** The ceiling is the number its text spells, and 0 for every other text. */
  lemma {:induction false} CeilingIs(text: string, n: nat)
    ensures n <= 0xFFFF_FFFF && NumeralText(text, n) ==> CeilingOf(text) == n
    ensures CeilingOf(text) > 0 ==> NumeralText(text, CeilingOf(text))
  {
    VersionNumberIff(text, n);
    VersionNumberIff(text, CeilingOf(text));
  }

  lemma {:induction false} CeilingIsSpelled(text: string)
    ensures forall n: nat :: n <= 0xFFFF_FFFF && NumeralText(text, n) ==> CeilingOf(text) == n
    ensures CeilingOf(text) > 0 ==> NumeralText(text, CeilingOf(text))
  {
    forall n: nat
      ensures n <= 0xFFFF_FFFF && NumeralText(text, n) ==> CeilingOf(text) == n
    {
      CeilingIs(text, n);
    }
    CeilingIs(text, 0);
  }

  /** The decision about a store with one version. */
  lemma {:induction false} OneVersionDecides(n: nat, ceiling: nat, r: Evaluation)
    requires n <= 0xFFFF_FFFF
    ensures Decides([Decimal(n)], ceiling, r) <==>
            r == Judged(if 0 < ceiling < n then TooNewSchema(Decimal(n), Decimal(ceiling)) else Accepted)
  {
    var applied := [Decimal(n)];
    NumeralVersion(Decimal(n));
    TrimKeepsTrimmed(Decimal(n));
    assert Numbers(applied)[0] == Some(n);
    var verdict := if 0 < ceiling < n then TooNewSchema(Decimal(n), Decimal(ceiling)) else Accepted;
    assert 0 < ceiling < n ==> IsNewest(Numbers(applied), n);
    assert Decides(applied, ceiling, Judged(verdict));
    if Decides(applied, ceiling, r) {
      DecisionIsUnique(applied, ceiling, r, Judged(verdict));
    }
  }

  /** `evaluate`: the loops of the source, in its order, with its early returns. */
  method Evaluate(applied: seq<string>, maxSchemaVersion: string) returns (r: Evaluation)
    ensures Decides(applied, CeilingOf(maxSchemaVersion), r)
    ensures forall n: nat :: n <= 0xFFFF_FFFF && NumeralText(maxSchemaVersion, n) ==> Decides(applied, n, r)
    ensures (forall n: nat :: 0 < n <= 0xFFFF_FFFF ==> !NumeralText(maxSchemaVersion, n)) ==> Decides(applied, 0, r)
  {
    CeilingIsSpelled(maxSchemaVersion);
    var blank := FindBlank(applied);
    if blank {
      return EmptyAppliedVersion;
    }
    var ceiling := CeilingOf(maxSchemaVersion);
    if ceiling == 0 {
      return Judged(Accepted);
    }
    var newest, bad := ScanVersions(applied);
    if bad.Some? {
      return Judged(UnparseableAppliedVersion(applied[bad.value]));
    }
    if newest.Some? && newest.value > ceiling {
      return Judged(TooNewSchema(Decimal(newest.value), Decimal(ceiling)));
    }
    return Judged(Accepted);
  }

  /** What the decision says apart from which unparseable version it names. */
  function Essence(r: Evaluation): Evaluation {
    if r.Judged? && r.verdict.UnparseableAppliedVersion? then Judged(UnparseableAppliedVersion("")) else r
  }

  /** The verdict depends only on which numbers occur. */
  lemma {:induction false} VerdictIgnoresOrder(
    a: seq<string>, na: seq<Option<nat>>, b: seq<string>, nb: seq<Option<nat>>, ceiling: nat, r: Verdict, s: Verdict)
    requires |a| == |na| && |b| == |nb| && forall n :: n in na <==> n in nb
    requires Judges(a, na, ceiling, r) && Judges(b, nb, ceiling, s)
    ensures Essence(Judged(r)) == Essence(Judged(s))
  {
    AtMostByMembers(na, nb);
    AtMostByMembers(nb, na);
    if r.TooNewSchema? && s.TooNewSchema? {
      var n: nat :| IsNewest(na, n) && ceiling < n && r.applied == Decimal(n);
      var m: nat :| IsNewest(nb, m) && ceiling < m && s.applied == Decimal(m);
      NewestIsUnique(na, n, m);
    }
  }

  lemma {:induction false} AtMostByMembers(na: seq<Option<nat>>, nb: seq<Option<nat>>)
    requires forall n :: n in na ==> n in nb
    ensures forall n: nat :: AllAtMost(nb, n) ==> AllAtMost(na, n)
  {
    assert forall i :: 0 <= i < |na| ==> na[i] in nb;
  }

  lemma {:induction false} NewestIsUnique(numbers: seq<Option<nat>>, n: nat, m: nat)
    requires IsNewest(numbers, n) && Some(m) in numbers && AllAtMost(numbers, m)
    ensures n == m
  {
  }

  /** The decision depends only on which versions are in the ledger: not on their
      order, nor on repetitions. */
  lemma {:induction false} DecisionIgnoresOrder(a: seq<string>, b: seq<string>, ceiling: nat, r: Evaluation, s: Evaluation)
    requires forall v :: v in a <==> v in b
    requires Decides(a, ceiling, r) && Decides(b, ceiling, s)
    ensures Essence(r) == Essence(s)
  {
    BlankMembers(a, b);
    BlankMembers(b, a);
    if r.Judged? && s.Judged? {
      SameNumbers(a, b);
      SameNumbers(b, a);
      VerdictIgnoresOrder(a, Numbers(a), b, Numbers(b), ceiling, r.verdict, s.verdict);
    }
  }

  lemma {:induction false} BlankMembers(a: seq<string>, b: seq<string>)
    requires forall v :: v in a ==> v in b
    ensures AnyBlank(a) ==> AnyBlank(b)
  {
    if AnyBlank(a) {
      var i :| 0 <= i < |a| && Trim(a[i]) == "";
      assert a[i] in b;
      var j :| 0 <= j < |b| && b[j] == a[i];
    }
  }

  lemma {:induction false} SameNumbers(a: seq<string>, b: seq<string>)
    requires forall v :: v in a ==> v in b
    ensures forall n :: n in Numbers(a) ==> n in Numbers(b)
  {
    forall n | n in Numbers(a)
      ensures n in Numbers(b)
    {
      var i :| 0 <= i < |a| && Numbers(a)[i] == n;
      assert a[i] in b;
      var j :| 0 <= j < |b| && b[j] == a[i];
      assert Numbers(b)[j] == n;
    }
  }

  /** The conditions leave no case out. */
  lemma {:induction false} DecisionExists(applied: seq<string>, ceiling: nat) returns (r: Evaluation)
    ensures Decides(applied, ceiling, r)
  {
    var numbers := Numbers(applied);
    if AnyBlank(applied) {
      r := EmptyAppliedVersion;
    } else if ceiling == 0 || AllAtMost(numbers, ceiling) {
      r := Judged(Accepted);
    } else if AllRead(numbers) {
      var n := Newest(numbers);
      r := Judged(TooNewSchema(Decimal(n), Decimal(ceiling)));
    } else {
      var i := FirstUnread(numbers);
      r := Judged(UnparseableAppliedVersion(applied[i]));
    }
  }

  predicate AllRead(numbers: seq<Option<nat>>) {
    forall i :: 0 <= i < |numbers| ==> numbers[i].Some?
  }

  lemma {:induction false} Newest(numbers: seq<Option<nat>>) returns (n: nat)
    requires numbers != [] && AllRead(numbers)
    ensures IsNewest(numbers, n)
  {
    var k := |numbers| - 1;
    n := numbers[k].value;
    if k > 0 {
      var m := Newest(numbers[..k]);
      n := if m < n then n else m;
      assert numbers[..k][0] == numbers[0];
    }
  }

  lemma {:induction false} FirstUnread(numbers: seq<Option<nat>>) returns (i: nat)
    requires !AllRead(numbers)
    ensures IsFirstUnparseable(numbers, i)
  {
    i := 0;
    while numbers[i].Some?
      invariant i < |numbers| && forall j :: 0 <= j < i ==> numbers[j].Some?
      decreases |numbers| - i
    {
      i := i + 1;
    }
  }

  /** The conditions are exclusive: the decision is a function of the ledger. */
  lemma {:induction false} DecisionIsUnique(applied: seq<string>, ceiling: nat, r: Evaluation, s: Evaluation)
    requires Decides(applied, ceiling, r) && Decides(applied, ceiling, s)
    ensures r == s
  {
    DecisionIgnoresOrder(applied, applied, ceiling, r, s);
    if r.Judged? && r.verdict.UnparseableAppliedVersion? {
      var n := Numbers(applied);
      var i: nat :| IsFirstUnparseable(n, i) && applied[i] == r.verdict.version;
      var j: nat :| IsFirstUnparseable(n, j) && applied[j] == s.verdict.version;
    }
  }

  ghost predicate AcceptedStore(store: Store, owner: string, ceiling: nat) {
    Decides(AppliedVersions(store.ledger, owner), ceiling, Judged(Accepted))
  }

  ghost predicate AcceptedList(migrations: seq<Migration>, ceiling: nat) {
    forall m :: m in migrations ==> Decides([m.version], ceiling, Judged(Accepted))
  }

  /** A store the binary may start on is still one after any run of its own
      migrations, whichever calls fail, for every module's ledger. */
  lemma {:induction false} StaysAccepted(store: Store, calls: seq<Call>, owner: string, ceiling: nat)
    requires AcceptedStore(store, owner, ceiling)
    requires forall k :: 0 <= k < |calls| ==> AcceptedList(calls[k].migrations, ceiling)
    ensures AcceptedStore(Run(store, calls), owner, ceiling)
  {
    if calls != [] {
      var n := |calls| - 1;
      StaysAccepted(store, calls[..n], owner, ceiling);
      CallStaysAccepted(Run(store, calls[..n]), calls[n], owner, ceiling);
    }
  }

  lemma {:induction false} CallStaysAccepted(store: Store, c: Call, owner: string, ceiling: nat)
    requires AcceptedStore(store, owner, ceiling) && AcceptedList(c.migrations, ceiling)
    ensures AcceptedStore(Perform(store, c).store, owner, ceiling)
  {
    var before := AppliedVersions(store.ledger, owner);
    var after := AppliedVersions(Perform(store, c).store.ledger, owner);
    CallExtends(store, c);
    AchievedFacts(store, c);
    forall v | v in after
      ensures v in before || Decides([v], ceiling, Judged(Accepted))
    {
      AppliedVersionsMembers(store.ledger, owner, v);
      AppliedVersionsMembers(Perform(store, c).store.ledger, owner, v);
      if v !in before {
        NewRowIsListed(store, c, owner, v);
      }
    }
    AcceptedMembers(before, after, ceiling);
  }

  lemma {:induction false} NewRowIsListed(store: Store, c: Call, owner: string, v: string)
    requires Row(owner, v) in Perform(store, c).store.ledger && Row(owner, v) !in store.ledger
    ensures exists m :: m in c.migrations && m.version == v
  {
    CallExtends(store, c);
    AchievedFacts(store, c);
    var got := Achieved(store, c);
    var rows := Rows(Tag(c.owner, got));
    var k :| 0 <= k < |rows| && rows[k] == Row(owner, v);
    assert got[k] in got;
  }

  lemma {:induction false} AcceptedMembers(before: seq<string>, after: seq<string>, ceiling: nat)
    requires Decides(before, ceiling, Judged(Accepted))
    requires forall v :: v in after ==> v in before || Decides([v], ceiling, Judged(Accepted))
    ensures Decides(after, ceiling, Judged(Accepted))
  {
    forall i | 0 <= i < |after|
      ensures Trim(after[i]) != "" && (ceiling == 0 || AllAtMost([Numbers(after)[i]], ceiling))
    {
      if after[i] in before {
        var j :| 0 <= j < |before| && before[j] == after[i];
        assert Numbers(before)[j] == Numbers(after)[i];
      } else {
        assert Numbers([after[i]])[0] == Numbers(after)[i];
      }
    }
    assert forall i :: 0 <= i < |after| ==> [Numbers(after)[i]][0] == Numbers(after)[i];
  }

  /** What the preflight reads a plain numeral as. */
  lemma {:induction false} NumeralVersion(v: string)
    requires Digits(v)
    ensures VersionNumber(v) == if v != "" && NumeralValue(v) <= U32_MAX then Some(NumeralValue(v)) else None
  {
    TrimKeepsTrimmed(v);
  }

  predicate Readable(v: string)
    requires Digits(v)
  {
    v != "" && NumeralValue(v) <= U32_MAX
  }

  /** The preflight has a number for every entry, and they increase. */
  ghost predicate InPreflightOrder(s: seq<Entry>) {
    && (forall i :: 0 <= i < |s| ==> VersionNumber(s[i].migration.version).Some?)
    && (forall i, j :: 0 <= i < j < |s| ==>
          VersionNumber(s[i].migration.version).value < VersionNumber(s[j].migration.version).value)
  }

  ghost predicate NumeralEntries(s: seq<Entry>) {
    forall i :: 0 <= i < |s| ==> Digits(s[i].migration.version)
  }

  ghost predicate AllReadable(s: seq<Entry>)
    requires NumeralEntries(s)
  {
    forall i :: 0 <= i < |s| ==> Readable(s[i].migration.version)
  }

  lemma {:induction false} NumeralsInPreflightOrder(s: seq<Entry>)
    requires NumeralEntries(s)
    ensures InPreflightOrder(s) <==> InNumericOrder(s) && AllReadable(s)
  {
    forall i | 0 <= i < |s|
      ensures var v := s[i].migration.version;
              VersionNumber(v) == if Readable(v) then Some(NumeralValue(v)) else None
    {
      NumeralVersion(s[i].migration.version);
    }
  }

  lemma {:induction false} ListedAreReadable(owner: string, migrations: seq<Migration>)
    requires OwnNumerals(owner, migrations)
    ensures NumeralEntries(Sorted(migrations))
    ensures AllReadable(Sorted(migrations)) <==> forall m :: m in migrations ==> Readable(m.version)
  {
    var s := Sorted(migrations);
    SortedIsLastWins(migrations);
    forall i | 0 <= i < |s|
      ensures s[i].migration in migrations
    {
      assert s[i] in s;
    }
    if AllReadable(s) {
      forall m | m in migrations
        ensures Readable(m.version)
      {
        var i := VersionHasPosition(owner, migrations, m);
      }
    }
  }

  /** A module with numeral versions runs its migrations in the order the preflight
      compares them in exactly when the preflight can read them all and they are
      aligned. */
  lemma {:induction false} RunOrderIsPreflightOrderIff(owner: string, migrations: seq<Migration>)
    requires OwnNumerals(owner, migrations)
    ensures InPreflightOrder(Sorted(migrations)) <==>
            AllAligned(owner, migrations) && forall m :: m in migrations ==> Readable(m.version)
  {
    ListedAreReadable(owner, migrations);
    NumeralsInPreflightOrder(Sorted(migrations));
    RunsInNumericOrderIff(owner, migrations);
  }
}
