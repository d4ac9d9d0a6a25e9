/**
 The migration runner: statement splitting, the ordered set of pending
 migrations, and `apply_module` as a transactional change of a store made of the
 committed statements and the `_migrations` ledger.
 */
module Migrations {
  import opened Text
  import Utf8

  datatype Migration = Migration(owner: string, version: string, description: string, sql: string)

  // ---------------------------------------------------------------- splitting a script

  /** `split_sql`: cut at every `;`, trim, drop what is empty. */
  function SplitSql(sql: string): seq<string> {
    Kept(Split(sql, ";"))
  }

  function Kept(pieces: seq<string>): seq<string> {
    if pieces == [] then []
    else (if Trim(pieces[0]) == "" then [] else [Trim(pieces[0])]) + Kept(pieces[1..])
  }

  lemma {:induction false} KeptConcat(x: seq<string>, y: seq<string>)
    ensures Kept(x + y) == Kept(x) + Kept(y)
  {
    if x == [] {
      assert x + y == y;
    } else {
      assert (x + y)[1..] == x[1..] + y;
      KeptConcat(x[1..], y);
    }
  }

  /** Splitting a script is a homomorphism from `;`-concatenation to lists. */
  lemma {:induction false} SplitSqlConcat(a: string, b: string)
    ensures SplitSql(a + ";" + b) == SplitSql(a) + SplitSql(b)
  {
    SplitConcat(a, ";", b);
    KeptConcat(Split(a, ";"), Split(b, ";"));
  }

  /** A single-statement script yields its trimmed text, or nothing. */
  lemma {:induction false} SplitSqlSingle(a: string)
    requires ';' !in a
    ensures SplitSql(a) == if Blank(a) then [] else [Trim(a)]
  {
    CharOccurs(a, ';');
    NoFind(a, ";");
    assert Split(a, ";") == [a];
    assert Kept([a][1..]) == [];
    TrimEmptyIffBlank(a);
  }

  predicate CleanStatement(s: string) {
    !Blank(s) && Trimmed(s) && ';' !in s
  }

  lemma {:induction false} KeptAreClean(pieces: seq<string>, k: nat)
    requires forall j :: 0 <= j < |pieces| ==> ';' !in pieces[j]
    requires k < |Kept(pieces)|
    ensures CleanStatement(Kept(pieces)[k])
  {
    var first := Trim(pieces[0]);
    if first == "" {
      KeptAreClean(pieces[1..], k);
    } else if k > 0 {
      KeptAreClean(pieces[1..], k - 1);
    } else {
      var w, v := TrimMargins(pieces[0]);
      TrimKeepsTrimmed(first);
      TrimEmptyIffBlank(first);
      assert pieces[0] == w + first + v;
    }
  }

  /** No statement is blank, padded or holds a `;`: the blank test inside the
      apply loop never fires. */
  lemma {:induction false} StatementsAreClean(sql: string)
    ensures forall k :: 0 <= k < |SplitSql(sql)| ==> CleanStatement(SplitSql(sql)[k])
  {
    var pieces := Split(sql, ";");
    forall j | 0 <= j < |pieces|
      ensures ';' !in pieces[j]
    {
      SplitPiecesAreFree(sql, ";", j);
      CharOccurs(pieces[j], ';');
    }
    forall k | 0 <= k < |SplitSql(sql)|
      ensures CleanStatement(SplitSql(sql)[k])
    {
      KeptAreClean(pieces, k);
    }
  }

  function Rejoin(statements: seq<string>): string {
    if statements == [] then "" else Join(statements, ";")
  }

  lemma {:induction false} CleanListResplits(statements: seq<string>)
    requires forall k :: 0 <= k < |statements| ==> CleanStatement(statements[k])
    ensures SplitSql(Rejoin(statements)) == statements
  {
    if statements == [] {
      SplitSqlSingle("");
    } else {
      var first := statements[0];
      SplitSqlSingle(first);
      TrimKeepsTrimmed(first);
      if |statements| > 1 {
        CleanListResplits(statements[1..]);
        SplitSqlConcat(first, Rejoin(statements[1..]));
      }
    }
  }

  /** Splitting is idempotent through `;`-joining. */
  lemma {:induction false} SplitSqlIdempotent(sql: string)
    ensures SplitSql(Rejoin(SplitSql(sql))) == SplitSql(sql)
  {
    StatementsAreClean(sql);
    CleanListResplits(SplitSql(sql));
  }

  // ---------------------------------------------------------------- the ordered set of migrations

  datatype Entry = Entry(key: string, migration: Migration)

  function Key(m: Migration): string {
    m.owner + "_" + m.version
  }

  /** `BTreeMap::insert`, the map read as its entries in key order. */
  function InsertEntry(entries: seq<Entry>, e: Entry): seq<Entry> {
    if entries == [] then [e]
    else if entries[0].key == e.key then [e] + entries[1..]
    else if Less(e.key, entries[0].key) then [e] + entries
    else [entries[0]] + InsertEntry(entries[1..], e)
  }

  function Sorted(migrations: seq<Migration>): seq<Entry> {
    if migrations == [] then []
    else
      var m := migrations[|migrations| - 1];
      InsertEntry(Sorted(migrations[..|migrations| - 1]), Entry(Key(m), m))
  }

  ghost predicate Ordered(entries: seq<Entry>) {
    forall i, j :: 0 <= i < j < |entries| ==> Less(entries[i].key, entries[j].key)
  }

  lemma {:induction false} InsertEntryContents(entries: seq<Entry>, e: Entry)
    requires Ordered(entries)
    ensures Ordered(InsertEntry(entries, e))
    ensures forall f :: f in InsertEntry(entries, e) <==> f == e || (f in entries && f.key != e.key)
  {
    if entries != [] {
      var head, tail := entries[0], entries[1..];
      assert entries == [head] + tail;
      LessTotal(e.key, head.key);
      forall f | f in tail
        ensures Less(head.key, f.key) && head.key != f.key
      {
        LessTotal(head.key, f.key);
      }
      if Less(e.key, head.key) {
        forall f | f in tail
          ensures Less(e.key, f.key) && f.key != e.key
        {
          LessTransitive(e.key, head.key, f.key);
          LessTotal(e.key, f.key);
        }
      } else if head.key != e.key {
        InsertEntryContents(tail, e);
        var r := InsertEntry(tail, e);
        forall j | 0 <= j < |r|
          ensures Less(head.key, r[j].key)
        {
          assert r[j] in r;
        }
      }
    }
  }

  /** The list position whose migration survives in the map: the last one that
      carries its key. */
  predicate LastWithKey(migrations: seq<Migration>, i: nat) {
    i < |migrations| && forall j :: i < j < |migrations| ==> Key(migrations[j]) != Key(migrations[i])
  }

  ghost predicate Survives(migrations: seq<Migration>, e: Entry) {
    exists i: nat :: LastWithKey(migrations, i) && e == Entry(Key(migrations[i]), migrations[i])
  }

  /** The loop order: keys strictly increase, and each key carries its last migration. */
  lemma {:induction false} SortedIsLastWins(migrations: seq<Migration>)
    ensures Ordered(Sorted(migrations))
    ensures forall e :: e in Sorted(migrations) <==> Survives(migrations, e)
  {
    if migrations != [] {
      var n := |migrations| - 1;
      var before, m := migrations[..n], migrations[n];
      SortedIsLastWins(before);
      var last := Entry(Key(m), m);
      InsertEntryContents(Sorted(before), last);
      forall e
        ensures e in Sorted(migrations) <==> Survives(migrations, e)
      {
        SurvivesSnoc(before, m, e);
        assert before + [m] == migrations;
      }
    }
  }

  lemma {:induction false} SurvivesSnoc(before: seq<Migration>, m: Migration, e: Entry)
    ensures Survives(before + [m], e) <==> e == Entry(Key(m), m) || (Survives(before, e) && e.key != Key(m))
  {
    var all := before + [m];
    assert LastWithKey(all, |before|);
    if Survives(all, e) {
      var i: nat :| LastWithKey(all, i) && e == Entry(Key(all[i]), all[i]);
      if i < |before| {
        assert all[|before|] == m;
        assert forall j :: i < j < |before| ==> all[j] == before[j];
        assert LastWithKey(before, i);
      }
    }
    if Survives(before, e) && e.key != Key(m) {
      var i: nat :| LastWithKey(before, i) && e == Entry(Key(before[i]), before[i]);
      assert all[i] == before[i];
      assert LastWithKey(all, i);
    }
  }

  /** An ordered list is determined by its members. */
  lemma {:induction false} OrderedIsUnique(x: seq<Entry>, y: seq<Entry>)
    requires Ordered(x) && Ordered(y)
    requires forall e :: e in x <==> e in y
    ensures x == y
  {
    if x == [] {
      assert forall k :: 0 <= k < |y| ==> y[k] in y;
    } else {
      assert x[0] in y && x[0] in x;
      assert y[0] in x;
      SmallestFirst(x, y[0]);
      SmallestFirst(y, x[0]);
      LessTotal(x[0].key, y[0].key);
      assert x[0] == y[0];
      TailMembers(x);
      TailMembers(y);
      OrderedIsUnique(x[1..], y[1..]);
    }
  }

  lemma {:induction false} SmallestFirst(x: seq<Entry>, e: Entry)
    requires Ordered(x) && e in x
    ensures e == x[0] || Less(x[0].key, e.key)
  {
  }

  lemma {:induction false} TailMembers(x: seq<Entry>)
    requires Ordered(x) && x != []
    ensures forall e :: e in x[1..] <==> e in x && e != x[0]
  {
    assert x == [x[0]] + x[1..];
    LessTotal(x[0].key, x[0].key);
    forall e | e in x[1..]
      ensures e != x[0]
    {
      var k :| 0 <= k < |x[1..]| && x[1..][k] == e;
      assert Less(x[0].key, x[k + 1].key);
    }
  }

  /** No two different migrations of the list share a key. */
  ghost predicate OnePerKey(migrations: seq<Migration>) {
    forall m, n :: m in migrations && n in migrations && Key(m) == Key(n) ==> m == n
  }

  lemma {:induction false} LastPosition(migrations: seq<Migration>, k: nat) returns (last: nat)
    requires k < |migrations|
    ensures k <= last < |migrations| && Key(migrations[last]) == Key(migrations[k]) && LastWithKey(migrations, last)
    decreases |migrations| - k
  {
    if LastWithKey(migrations, k) {
      last := k;
    } else {
      var j: nat :| k < j < |migrations| && Key(migrations[j]) == Key(migrations[k]);
      last := LastPosition(migrations, j);
    }
  }

  lemma {:induction false} SurvivorsOfOnePerKey(migrations: seq<Migration>, e: Entry)
    requires OnePerKey(migrations)
    ensures Survives(migrations, e) <==> e.migration in migrations && e.key == Key(e.migration)
  {
    if e.migration in migrations && e.key == Key(e.migration) {
      var k: nat :| k < |migrations| && migrations[k] == e.migration;
      var last := LastPosition(migrations, k);
      assert migrations[last] in migrations;
    }
  }

  /** With one migration per key the run order depends on which migrations are
      listed, not on how. */
  lemma {:induction false} SameMembersSameOrder(x: seq<Migration>, y: seq<Migration>)
    requires OnePerKey(x) && forall m :: m in x <==> m in y
    ensures Sorted(x) == Sorted(y)
  {
    SortedIsLastWins(x);
    SortedIsLastWins(y);
    forall e
      ensures e in Sorted(x) <==> e in Sorted(y)
    {
      SurvivorsOfOnePerKey(x, e);
      SurvivorsOfOnePerKey(y, e);
    }
    OrderedIsUnique(Sorted(x), Sorted(y));
  }

  /** A listed migration that another one with its key displaces. */
  lemma {:induction false} Displaced(x: seq<Migration>) returns (i: nat, last: nat)
    requires !OnePerKey(x)
    ensures i < |x| && LastWithKey(x, last) && Key(x[i]) == Key(x[last]) && x[i] != x[last]
  {
    var m, n :| m in x && n in x && Key(m) == Key(n) && m != n;
    var j: nat :| j < |x| && x[j] == m;
    last := LastPosition(x, j);
    i :| i < |x| && x[i] == if x[last] == m then n else m;
  }

  function MoveToEnd<T>(x: seq<T>, i: nat): (y: seq<T>)
    requires i < |x|
    ensures |y| == |x| && y[|y| - 1] == x[i] && multiset(y) == multiset(x)
  {
    assert x == x[..i] + [x[i]] + x[i + 1..];
    x[..i] + x[i + 1..] + [x[i]]
  }

  /** Otherwise listing a displaced migration last makes a difference. */
  lemma {:induction false} SharedKeyDependsOnListing(x: seq<Migration>, i: nat, last: nat)
    requires i < |x| && LastWithKey(x, last) && Key(x[i]) == Key(x[last]) && x[i] != x[last]
    ensures Sorted(MoveToEnd(x, i)) != Sorted(x)
  {
    var y := MoveToEnd(x, i);
    SortedIsLastWins(x);
    SortedIsLastWins(y);
    var won, lost := Entry(Key(x[last]), x[last]), Entry(Key(x[i]), x[i]);
    assert Survives(x, won);
    assert LastWithKey(y, |y| - 1);
    assert Survives(y, lost);
    OneEntryPerKey(Sorted(x), won, lost);
  }

  lemma {:induction false} OneEntryPerKey(x: seq<Entry>, e: Entry, f: Entry)
    requires Ordered(x) && e in x && f.key == e.key && f != e
    ensures f !in x
  {
    LessTotal(e.key, e.key);
  }

  /** The run order is independent of the listing order exactly when no two
      different migrations of the list share a key. */
  lemma {:induction false} ListingOrderIsIrrelevantIff(x: seq<Migration>)
    ensures (forall y :: multiset(y) == multiset(x) ==> Sorted(y) == Sorted(x)) <==> OnePerKey(x)
  {
    if OnePerKey(x) {
      forall y | multiset(y) == multiset(x)
        ensures Sorted(y) == Sorted(x)
      {
        assert forall m :: m in x <==> m in multiset(x);
        assert forall m :: m in y <==> m in multiset(y);
        SameMembersSameOrder(x, y);
      }
    } else {
      var i, last := Displaced(x);
      SharedKeyDependsOnListing(x, i, last);
      assert multiset(MoveToEnd(x, i)) == multiset(x);
    }
  }

  // ---------------------------------------------------------------- the store

  datatype Row = Row(owner: string, version: string)

  /** Committed statements in order, and the ledger rows in insertion order. */
  datatype Store = Store(log: seq<string>, ledger: seq<Row>)

  /** One committed transaction: a migration run on behalf of a module. */
  datatype Txn = Txn(owner: string, migration: Migration) {
    function ToRow(): Row { Row(owner, migration.version) }
  }

  function Statements(txns: seq<Txn>): seq<string> {
    if txns == [] then []
    else Statements(txns[..|txns| - 1]) + SplitSql(txns[|txns| - 1].migration.sql)
  }

  function Rows(txns: seq<Txn>): (r: seq<Row>)
    ensures |r| == |txns| && forall k :: 0 <= k < |r| ==> r[k] == txns[k].ToRow()
  {
    seq(|txns|, k requires 0 <= k < |txns| => txns[k].ToRow())
  }

  function Extend(store: Store, txns: seq<Txn>): Store {
    Store(store.log + Statements(txns), store.ledger + Rows(txns))
  }

  function Tag(owner: string, entries: seq<Entry>): (r: seq<Txn>)
    ensures |r| == |entries| && forall k :: 0 <= k < |r| ==> r[k] == Txn(owner, entries[k].migration)
  {
    seq(|entries|, k requires 0 <= k < |entries| => Txn(owner, entries[k].migration))
  }

  lemma {:induction false} StatementsConcat(x: seq<Txn>, y: seq<Txn>)
    ensures Statements(x + y) == Statements(x) + Statements(y)
    decreases |y|
  {
    if y == [] {
      assert x + y == x;
    } else {
      var n := |y| - 1;
      assert (x + y)[..|x| + n] == x + y[..n];
      StatementsConcat(x, y[..n]);
      ConcatAssoc(Statements(x), Statements(y[..n]), SplitSql(y[n].migration.sql));
    }
  }

  lemma {:induction false} ExtendConcat(store: Store, x: seq<Txn>, y: seq<Txn>)
    ensures Extend(Extend(store, x), y) == Extend(store, x + y)
  {
    StatementsConcat(x, y);
    ConcatAssoc(store.log, Statements(x), Statements(y));
    assert Rows(x + y) == Rows(x) + Rows(y);
    ConcatAssoc(store.ledger, Rows(x), Rows(y));
  }

  // ---------------------------------------------------------------- one call of apply_module

  /** Every interaction with the database that can fail during one call. */
  datatype Point =
    | CreateLedger
    | ReadLedger
    | Begin(key: string)
    | Execute(key: string, index: nat)
    | InsertRow(key: string)
    | Commit(key: string)

  /** Which interactions of a call fail. */
  type Faults = Point -> bool

  function NoFaults(): Faults { (p: Point) => false }

  datatype Outcome = Done | StatementFailed(path: string) | DatabaseFailed

  datatype Report = Report(outcome: Outcome, store: Store)

  /** The entries whose version the ledger does not hold for `owner`. */
  function Pending(ledger: seq<Row>, owner: string, entries: seq<Entry>): seq<Entry> {
    if entries == [] then []
    else
      var e := entries[|entries| - 1];
      Pending(ledger, owner, entries[..|entries| - 1])
      + if Row(owner, e.migration.version) in ledger then [] else [e]
  }

  predicate StatementFault(faults: Faults, e: Entry) {
    exists k: nat | k < |SplitSql(e.migration.sql)| :: faults(Execute(e.key, k))
  }

  predicate Interrupted(faults: Faults, e: Entry) {
    faults(Begin(e.key)) || StatementFault(faults, e) || faults(InsertRow(e.key)) || faults(Commit(e.key))
  }

  predicate RepeatsVersion(pending: seq<Entry>, k: nat)
    requires k < |pending|
  {
    exists j: nat | j < k :: pending[j].migration.version == pending[k].migration.version
  }

  /** Migration `k` of the pending list does not commit: the database fails
      under it, or its ledger row was inserted earlier in the same call. */
  predicate Stops(faults: Faults, pending: seq<Entry>, k: nat)
    requires k < |pending|
  {
    Interrupted(faults, pending[k]) || RepeatsVersion(pending, k)
  }

  /** How many pending migrations commit: those before the first that stops. */
  function Progress(faults: Faults, pending: seq<Entry>, from: nat): (n: nat)
    requires from <= |pending|
    ensures from <= n <= |pending|
    ensures forall k: nat :: from <= k < n ==> !Stops(faults, pending, k)
    ensures n < |pending| ==> Stops(faults, pending, n)
    decreases |pending| - from
  {
    if from == |pending| || Stops(faults, pending, from) then from else Progress(faults, pending, from + 1)
  }

  /** The error of a migration that stops, by the first interaction that fails. */
  function FailureOf(faults: Faults, owner: string, e: Entry): Outcome {
    if !faults(Begin(e.key)) && StatementFault(faults, e)
    then StatementFailed(owner + "/" + e.migration.version)
    else DatabaseFailed
  }

  /** What one call does: it commits the pending migrations in key order, up to
      the first that stops, and nothing else. */
  function Apply(store: Store, owner: string, migrations: seq<Migration>, faults: Faults): Report {
    if faults(CreateLedger) || faults(ReadLedger) then Report(DatabaseFailed, store)
    else Settle(store, owner, Sorted(migrations), faults)
  }

  function Settle(store: Store, owner: string, entries: seq<Entry>, faults: Faults): Report {
    var pending := Pending(store.ledger, owner, entries);
    var n := Progress(faults, pending, 0);
    Report(if n == |pending| then Done else FailureOf(faults, owner, pending[n]),
           Extend(store, Tag(owner, pending[..n])))
  }

  /** The apply loop as it runs, one entry at a time, against the versions read
      once before it started. */
  function Loop(store: Store, owner: string, applied: seq<string>, entries: seq<Entry>, faults: Faults): Report
    decreases |entries|
  {
    if entries == [] then Report(Done, store)
    else
      var e := entries[0];
      if e.migration.version in applied then Loop(store, owner, applied, entries[1..], faults)
      else if Interrupted(faults, e) || Row(owner, e.migration.version) in store.ledger then
        Report(FailureOf(faults, owner, e), store)
      else Loop(Extend(store, [Txn(owner, e.migration)]), owner, applied, entries[1..], faults)
  }

  function AppliedVersions(ledger: seq<Row>, owner: string): seq<string> {
    if ledger == [] then []
    else
      var row := ledger[|ledger| - 1];
      var rest := AppliedVersions(ledger[..|ledger| - 1], owner);
      if row.owner == owner then InsertVersion(rest, row.version) else rest
  }

  /** `ORDER BY version`. */
  function InsertVersion(versions: seq<string>, v: string): seq<string> {
    if versions == [] || !Less(versions[0], v) then [v] + versions
    else [versions[0]] + InsertVersion(versions[1..], v)
  }

  lemma {:induction false} InsertVersionContents(versions: seq<string>, v: string)
    ensures multiset(InsertVersion(versions, v)) == multiset(versions) + multiset{v}
  {
    if versions == [] || !Less(versions[0], v) {
    } else {
      InsertVersionContents(versions[1..], v);
      assert versions == [versions[0]] + versions[1..];
    }
  }

  lemma {:induction false} AppliedVersionsMembers(ledger: seq<Row>, owner: string, v: string)
    ensures v in AppliedVersions(ledger, owner) <==> Row(owner, v) in ledger
  {
    if ledger != [] {
      var n := |ledger| - 1;
      assert ledger == ledger[..n] + [ledger[n]];
      AppliedVersionsMembers(ledger[..n], owner, v);
      var rest := AppliedVersions(ledger[..n], owner);
      InsertVersionContents(rest, ledger[n].version);
      assert forall s: seq<string> {:trigger multiset(s)} :: v in s <==> v in multiset(s);
    }
  }

  ghost predicate Ascending(versions: seq<string>) {
    forall i, j :: 0 <= i < j < |versions| ==> !Less(versions[j], versions[i])
  }

  lemma {:induction false} NotLessTransitive(a: string, b: string, c: string)
    requires !Less(b, a) && !Less(c, b)
    ensures !Less(c, a)
  {
    LessTotal(b, c);
    if Less(c, a) && b != c {
      LessTransitive(b, c, a);
    }
  }

  lemma {:induction false} InsertVersionAscends(versions: seq<string>, v: string)
    requires Ascending(versions)
    ensures Ascending(InsertVersion(versions, v))
  {
    var r := InsertVersion(versions, v);
    if versions == [] {
    } else if !Less(versions[0], v) {
      forall j | 0 <= j < |versions|
        ensures !Less(versions[j], v)
      {
        if j > 0 {
          NotLessTransitive(v, versions[0], versions[j]);
        }
      }
    } else {
      var head, tail := versions[0], versions[1..];
      InsertVersionAscends(tail, v);
      InsertVersionContents(tail, v);
      LessTotal(head, v);
      var more := InsertVersion(tail, v);
      forall j | 0 <= j < |more|
        ensures !Less(more[j], head)
      {
        assert more[j] in multiset(more);
        assert more[j] == v || more[j] in tail;
      }
    }
  }

  lemma {:induction false} AppliedVersionsAscendAsText(ledger: seq<Row>, owner: string)
    ensures Ascending(AppliedVersions(ledger, owner))
  {
    if ledger != [] {
      var n := |ledger| - 1;
      AppliedVersionsAscendAsText(ledger[..n], owner);
      InsertVersionAscends(AppliedVersions(ledger[..n], owner), ledger[n].version);
    }
  }

  /** The versions read are in ascending order of their bytes, which is how the
      database orders text. */
  lemma {:induction false} AppliedVersionsAscend(ledger: seq<Row>, owner: string)
    ensures var versions := AppliedVersions(ledger, owner);
            forall i, j :: 0 <= i < j < |versions| ==>
              !Utf8.BytesLess(Utf8.Encode(versions[j]), Utf8.Encode(versions[i]))
  {
    AppliedVersionsAscendAsText(ledger, owner);
    var versions := AppliedVersions(ledger, owner);
    forall i, j | 0 <= i < j < |versions|
      ensures !Utf8.BytesLess(Utf8.Encode(versions[j]), Utf8.Encode(versions[i]))
    {
      Utf8.OrderIsByteOrder(versions[j], versions[i]);
    }
  }

  /** The database behind a runner, changed in place by `apply_module`. */
  class MigrationRunner {
    var log: seq<string>
    var ledger: seq<Row>

    constructor ()
      ensures log == [] && ledger == []
    {
      log, ledger := [], [];
    }

    function Contents(): Store
      reads this
    {
      Store(log, ledger)
    }

    /** Runs one migration in a transaction: its effects are held back until the
        commit, and dropped on the first failure. */
    method RunMigration(owner: string, e: Entry, faults: Faults) returns (outcome: Outcome)
      modifies this
      ensures outcome == Done <==>
              !Interrupted(faults, e) && Row(owner, e.migration.version) !in old(ledger)
      ensures outcome == Done ==> Contents() == Extend(old(Contents()), [Txn(owner, e.migration)])
      ensures outcome != Done ==> Contents() == old(Contents()) && outcome == FailureOf(faults, owner, e)
    {
      if faults(Begin(e.key)) {
        return DatabaseFailed;
      }
      var pendingLog, pendingLedger := log, ledger;
      var statements := SplitSql(e.migration.sql);
      StatementsAreClean(e.migration.sql);
      for i := 0 to |statements|
        invariant Contents() == old(Contents()) && pendingLog == log + statements[..i]
        invariant forall k: nat :: k < i ==> !faults(Execute(e.key, k))
      {
        TrimEmptyIffBlank(statements[i]);
        if Trim(statements[i]) == "" {
          continue;
        }
        var index: nat := i;
        if faults(Execute(e.key, index)) {
          assert StatementFault(faults, e);
          return StatementFailed(owner + "/" + e.migration.version);
        }
        pendingLog := pendingLog + [statements[i]];
      }
      if faults(InsertRow(e.key)) || Row(owner, e.migration.version) in pendingLedger {
        return DatabaseFailed;
      }
      pendingLedger := pendingLedger + [Row(owner, e.migration.version)];
      if faults(Commit(e.key)) {
        return DatabaseFailed;
      }
      StatementsOfOne(Txn(owner, e.migration));
      log, ledger := pendingLog, pendingLedger;
      return Done;
    }

    /** The apply loop over the ordered entries. */
    method ApplyEntries(owner: string, sorted: seq<Entry>, applied: seq<string>, faults: Faults)
      returns (outcome: Outcome)
      modifies this
      ensures Report(outcome, Contents()) == Loop(old(Contents()), owner, applied, sorted, faults)
    {
      for i := 0 to |sorted|
        invariant Loop(Contents(), owner, applied, sorted[i..], faults)
                  == Loop(old(Contents()), owner, applied, sorted, faults)
      {
        var e := sorted[i];
        if e.migration.version in applied {
          continue;
        }
        outcome := RunMigration(owner, e, faults);
        if outcome != Done {
          return;
        }
      }
      return Done;
    }

    method ApplyModule(owner: string, migrations: seq<Migration>, faults: Faults) returns (outcome: Outcome)
      modifies this
      ensures Report(outcome, Contents()) == Apply(old(Contents()), owner, migrations, faults)
    {
      if faults(CreateLedger) {
        return DatabaseFailed;
      }
      if faults(ReadLedger) {
        return DatabaseFailed;
      }
      var applied := AppliedVersions(ledger, owner);
      var sorted := SortByKey(migrations);
      LoopIsSettle(Contents(), owner, sorted, faults);
      outcome := ApplyEntries(owner, sorted, applied, faults);
    }
  }

  /** The result of a call whose loop got past `n` pending migrations and no further. */
  lemma {:induction false} SettleAt(store: Store, owner: string, entries: seq<Entry>, faults: Faults, n: nat)
    requires n <= |Pending(store.ledger, owner, entries)|
    requires forall k: nat :: k < n ==> !Stops(faults, Pending(store.ledger, owner, entries), k)
    requires n < |Pending(store.ledger, owner, entries)| ==> Stops(faults, Pending(store.ledger, owner, entries), n)
    ensures var pending := Pending(store.ledger, owner, entries);
            Settle(store, owner, entries, faults)
            == Report(if n == |pending| then Done else FailureOf(faults, owner, pending[n]),
                      Extend(store, Tag(owner, pending[..n])))
  {
  }

  /** Fills the ordered map; a repeated key keeps the last migration. */
  method SortByKey(migrations: seq<Migration>) returns (sorted: seq<Entry>)
    ensures sorted == Sorted(migrations)
  {
    sorted := [];
    for i := 0 to |migrations|
      invariant sorted == Sorted(migrations[..i])
    {
      var m := migrations[i];
      assert migrations[..i + 1][..i] == migrations[..i];
      sorted := InsertEntry(sorted, Entry(Key(m), m));
    }
    assert migrations[..|migrations|] == migrations;
  }

  lemma {:induction false} StatementsOfOne(t: Txn)
    ensures Statements([t]) == SplitSql(t.migration.sql)
  {
  }

  lemma {:induction false} ExtendOne(store: Store, owner: string, done: seq<Entry>, e: Entry)
    ensures Extend(Extend(store, Tag(owner, done)), [Txn(owner, e.migration)])
            == Extend(store, Tag(owner, done + [e]))
  {
    ExtendConcat(store, Tag(owner, done), [Txn(owner, e.migration)]);
    assert Tag(owner, done + [e]) == Tag(owner, done) + [Txn(owner, e.migration)];
  }

  lemma {:induction false} PendingPrefix(ledger: seq<Row>, owner: string, entries: seq<Entry>, i: nat)
    requires i <= |entries|
    ensures Pending(ledger, owner, entries[..i]) <= Pending(ledger, owner, entries)
    ensures i < |entries| && Row(owner, entries[i].migration.version) in ledger ==>
              Pending(ledger, owner, entries[..i + 1]) == Pending(ledger, owner, entries[..i])
    ensures i < |entries| && Row(owner, entries[i].migration.version) !in ledger ==>
              Pending(ledger, owner, entries[..i + 1]) == Pending(ledger, owner, entries[..i]) + [entries[i]]
              <= Pending(ledger, owner, entries)
    decreases |entries| - i
  {
    if i == |entries| {
      assert entries[..i] == entries;
    } else {
      assert entries[..i + 1][..i] == entries[..i];
      PendingPrefix(ledger, owner, entries, i + 1);
    }
  }

  lemma {:induction false} PendingMembers(ledger: seq<Row>, owner: string, entries: seq<Entry>)
    ensures forall e :: e in Pending(ledger, owner, entries) <==>
                        e in entries && Row(owner, e.migration.version) !in ledger
  {
    if entries != [] {
      var n := |entries| - 1;
      assert entries == entries[..n] + [entries[n]];
      PendingMembers(ledger, owner, entries[..n]);
    }
  }

  /** The repeated-version test of `Stops` is the primary key test on the ledger
      as it stands when migration `k` is reached. */
  lemma {:induction false} StopsByRow(start: Store, owner: string, pending: seq<Entry>, k: nat)
    requires k < |pending|
    requires Row(owner, pending[k].migration.version) !in start.ledger
    ensures RepeatsVersion(pending, k) <==>
            Row(owner, pending[k].migration.version) in Extend(start, Tag(owner, pending[..k])).ledger
  {
  }

  /** The loop computes what `Settle` says it does. */
  lemma {:induction false} LoopIsSettle(store: Store, owner: string, entries: seq<Entry>, faults: Faults)
    ensures Loop(store, owner, AppliedVersions(store.ledger, owner), entries, faults)
            == Settle(store, owner, entries, faults)
  {
    assert entries[..0] == [] && entries[0..] == entries;
    assert Extend(store, Tag(owner, [])) == store;
    LoopFrom(store, owner, entries, faults, 0, []);
  }

  lemma {:induction false} LoopFrom(
    start: Store, owner: string, entries: seq<Entry>, faults: Faults, i: nat, done: seq<Entry>)
    requires i <= |entries|
    requires done == Pending(start.ledger, owner, entries[..i])
    requires done <= Pending(start.ledger, owner, entries)
    requires forall k: nat :: k < |done| ==> !Stops(faults, Pending(start.ledger, owner, entries), k)
    ensures Loop(Extend(start, Tag(owner, done)), owner, AppliedVersions(start.ledger, owner), entries[i..], faults)
            == Settle(start, owner, entries, faults)
    decreases |entries| - i
  {
    var pending := Pending(start.ledger, owner, entries);
    PendingPrefix(start.ledger, owner, entries, i);
    assert pending[..|done|] == done;
    if i == |entries| {
      assert entries[..i] == entries;
      SettleAt(start, owner, entries, faults, |done|);
    } else {
      var e := entries[i];
      assert entries[i..][0] == e && entries[i..][1..] == entries[i + 1..];
      AppliedVersionsMembers(start.ledger, owner, e.migration.version);
      if Row(owner, e.migration.version) in start.ledger {
        LoopFrom(start, owner, entries, faults, i + 1, done);
      } else {
        assert (done + [e])[|done|] == e;
        StopsByRow(start, owner, pending, |done|);
        if Stops(faults, pending, |done|) {
          SettleAt(start, owner, entries, faults, |done|);
        } else {
          ExtendOne(start, owner, done, e);
          LoopFrom(start, owner, entries, faults, i + 1, done + [e]);
        }
      }
    }
  }
}
