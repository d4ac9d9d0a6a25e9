/**
 Runs of the migration runner: any sequence of calls, for any modules, with any
 interactions failing. What a run leaves is exactly once per ledger row, and an
 upgrade through releases ends where a fresh install ends.
 */
module MigrationRuns {
  import opened Text
  import opened Migrations

  datatype Call = Call(owner: string, migrations: seq<Migration>, faults: Faults)

  function Perform(store: Store, c: Call): Report {
    Apply(store, c.owner, c.migrations, c.faults)
  }

  function Run(store: Store, calls: seq<Call>): Store {
    if calls == [] then store
    else Perform(Run(store, calls[..|calls| - 1]), calls[|calls| - 1]).store
  }

  function Todo(store: Store, c: Call): seq<Entry> {
    Pending(store.ledger, c.owner, Sorted(c.migrations))
  }

  /** The entries one call commits. */
  function Achieved(store: Store, c: Call): seq<Entry> {
    if c.faults(CreateLedger) || c.faults(ReadLedger) then []
    else Todo(store, c)[..Progress(c.faults, Todo(store, c), 0)]
  }

  /** The transactions a run commits, in commit order. */
  function History(store: Store, calls: seq<Call>): seq<Txn> {
    if calls == [] then []
    else
      var c := calls[|calls| - 1];
      var before := calls[..|calls| - 1];
      History(store, before) + Tag(c.owner, Achieved(Run(store, before), c))
  }

  // ---------------------------------------------------------------- exactly once

  ghost predicate Distinct<T(!new)>(s: seq<T>) {
    forall i, j :: 0 <= i < j < |s| ==> s[i] != s[j]
  }

  lemma {:induction false} CallExtends(store: Store, c: Call)
    ensures Perform(store, c).store == Extend(store, Tag(c.owner, Achieved(store, c)))
  {
  }

  lemma {:induction false} AchievedFacts(store: Store, c: Call)
    ensures Distinct(Rows(Tag(c.owner, Achieved(store, c))))
    ensures forall r :: r in Rows(Tag(c.owner, Achieved(store, c))) ==> r.owner == c.owner && r !in store.ledger
    ensures forall e :: e in Achieved(store, c) ==> e.migration in c.migrations
  {
    var todo := Todo(store, c);
    var got := Achieved(store, c);
    PendingMembers(store.ledger, c.owner, Sorted(c.migrations));
    SortedIsLastWins(c.migrations);
    forall i, j | 0 <= i < j < |got|
      ensures got[i].migration.version != got[j].migration.version
    {
      assert !Stops(c.faults, todo, j);
      assert !RepeatsVersion(todo, j);
    }
    forall k | 0 <= k < |got|
      ensures got[k] in todo
    {
      assert got[k] == todo[k];
    }
  }

  lemma {:induction false} HistoryExplains(start: Store, calls: seq<Call>)
    ensures Run(start, calls) == Extend(start, History(start, calls))
  {
    if calls == [] {
      assert Extend(start, []) == start;
    } else {
      var n := |calls| - 1;
      HistoryExplains(start, calls[..n]);
      var mid := Run(start, calls[..n]);
      CallExtends(mid, calls[n]);
      ExtendConcat(start, History(start, calls[..n]), Tag(calls[n].owner, Achieved(mid, calls[n])));
    }
  }

  lemma {:induction false} LedgerStaysDistinct(start: Store, calls: seq<Call>)
    requires Distinct(start.ledger)
    ensures Distinct(Run(start, calls).ledger)
  {
    if calls != [] {
      var n := |calls| - 1;
      LedgerStaysDistinct(start, calls[..n]);
      var mid := Run(start, calls[..n]);
      CallExtends(mid, calls[n]);
      AchievedFacts(mid, calls[n]);
      DistinctConcat(mid.ledger, Rows(Tag(calls[n].owner, Achieved(mid, calls[n]))));
    }
  }

  ghost predicate Listed(calls: seq<Call>, t: Txn) {
    exists k :: 0 <= k < |calls| && calls[k].owner == t.owner && t.migration in calls[k].migrations
  }

  lemma {:induction false} HistoryIsListed(start: Store, calls: seq<Call>, t: Txn)
    requires t in History(start, calls)
    ensures Listed(calls, t)
  {
    var n := |calls| - 1;
    var before, c := calls[..n], calls[n];
    var got := Achieved(Run(start, before), c);
    if t in History(start, before) {
      HistoryIsListed(start, before, t);
      var k :| 0 <= k < |before| && before[k].owner == t.owner && t.migration in before[k].migrations;
      assert calls[k] == before[k];
    } else {
      AchievedFacts(Run(start, before), c);
      var k :| 0 <= k < |got| && t == Tag(c.owner, got)[k];
      assert got[k] in got;
      assert calls[n] == c;
    }
  }

  /** The statements of transaction `i` form one block of `log`, where the
      statements of the earlier transactions end. */
  ghost predicate BlockInPlace(log0: seq<string>, h: seq<Txn>, i: nat, log: seq<string>)
    requires i < |h|
  {
    OccupiesBlock(log, |log0| + |Statements(h[..i])|, SplitSql(h[i].migration.sql))
  }

  predicate OccupiesBlock(log: seq<string>, at: nat, block: seq<string>) {
    at + |block| <= |log| && log[at..at + |block|] == block
  }

  lemma {:induction false} StatementsAround(a: seq<Txn>, t: Txn, b: seq<Txn>)
    ensures Statements(a + [t] + b) == Statements(a) + SplitSql(t.migration.sql) + Statements(b)
  {
    StatementsConcat(a + [t], b);
    StatementsConcat(a, [t]);
    StatementsOfOne(t);
  }

  lemma {:induction false} BlocksInPlace(log0: seq<string>, h: seq<Txn>, i: nat)
    requires i < |h|
    ensures BlockInPlace(log0, h, i, log0 + Statements(h))
  {
    CutAt(h, i);
    BlockAround(log0, h[..i], h[i], h[i + 1..]);
  }

  lemma {:induction false} CutAt<T>(s: seq<T>, i: nat)
    requires i < |s|
    ensures s[..i] + [s[i]] + s[i + 1..] == s
  {
  }

  lemma {:induction false} BlockAround(log0: seq<string>, a: seq<Txn>, t: Txn, b: seq<Txn>)
    ensures OccupiesBlock(log0 + Statements(a + [t] + b), |log0| + |Statements(a)|, SplitSql(t.migration.sql))
  {
    StatementsAround(a, t, b);
    BlockBetween(log0, Statements(a), SplitSql(t.migration.sql), Statements(b));
  }

  lemma {:induction false} BlockBetween(w: seq<string>, x: seq<string>, y: seq<string>, z: seq<string>)
    ensures OccupiesBlock(w + (x + y + z), |w| + |x|, y)
  {
  }

  /** After any run the store is the start plus whole transactions: the ledger
      gains one row per transaction, no row twice, the log gains exactly their
      statements, each block contiguous, and every transaction was listed. */
  lemma {:induction false} ExactlyOnce(start: Store, calls: seq<Call>)
    requires Distinct(start.ledger)
    ensures var h := History(start, calls);
            var end := Run(start, calls);
            && end == Extend(start, h)
            && Distinct(end.ledger)
            && (forall i: nat :: i < |h| ==> Listed(calls, h[i]))
            && (forall i: nat :: i < |h| ==> BlockInPlace(start.log, h, i, end.log))
  {
    var h := History(start, calls);
    HistoryExplains(start, calls);
    LedgerStaysDistinct(start, calls);
    forall i: nat | i < |h|
      ensures Listed(calls, h[i]) && BlockInPlace(start.log, h, i, Run(start, calls).log)
    {
      HistoryIsListed(start, calls, h[i]);
      BlocksInPlace(start.log, h, i);
    }
  }

  lemma {:induction false} DistinctConcat<T(!new)>(x: seq<T>, y: seq<T>)
    requires Distinct(x) && Distinct(y) && forall e :: e in y ==> e !in x
    ensures Distinct(x + y)
  {
    forall i, j | 0 <= i < j < |x + y|
      ensures (x + y)[i] != (x + y)[j]
    {
      if j >= |x| {
        assert (x + y)[j] in y;
      }
    }
  }

  function RowsOf(ledger: seq<Row>, owner: string): seq<Row> {
    if ledger == [] then []
    else
      var r := ledger[|ledger| - 1];
      RowsOf(ledger[..|ledger| - 1], owner) + if r.owner == owner then [r] else []
  }

  /** No call, failing or not, changes another module's ledger rows. */
  lemma {:induction false} OtherModulesUntouched(store: Store, c: Call, other: string)
    requires other != c.owner
    ensures RowsOf(Perform(store, c).store.ledger, other) == RowsOf(store.ledger, other)
  {
    CallExtends(store, c);
    AchievedFacts(store, c);
    RowsOfForeign(store.ledger, Rows(Tag(c.owner, Achieved(store, c))), other);
  }

  lemma {:induction false} RowsOfForeign(ledger: seq<Row>, more: seq<Row>, owner: string)
    requires forall r :: r in more ==> r.owner != owner
    ensures RowsOf(ledger + more, owner) == RowsOf(ledger, owner)
    decreases |more|
  {
    if more == [] {
      assert ledger + more == ledger;
    } else {
      var n := |more| - 1;
      assert (ledger + more)[..|ledger| + n] == ledger + more[..n];
      assert more[n] in more;
      RowsOfForeign(ledger, more[..n], owner);
    }
  }

  // ---------------------------------------------------------------- distinct versions

  ghost predicate DistinctVersions(entries: seq<Entry>) {
    forall i, j :: 0 <= i < j < |entries| ==> entries[i].migration.version != entries[j].migration.version
  }

  /** A list whose migrations all belong to one module has distinct versions
      once it is ordered by key. */
  lemma {:induction false} OwnListIsDistinct(owner: string, migrations: seq<Migration>)
    requires forall m :: m in migrations ==> m.owner == owner
    ensures DistinctVersions(Sorted(migrations))
  {
    var s := Sorted(migrations);
    SortedIsLastWins(migrations);
    forall i, j | 0 <= i < j < |s|
      ensures s[i].migration.version != s[j].migration.version
    {
      assert s[i] in s && s[j] in s;
      assert Survives(migrations, s[i]) && Survives(migrations, s[j]);
      LessTotal(s[i].key, s[j].key);
      assert s[i].key == owner + "_" + s[i].migration.version;
      assert s[j].key == owner + "_" + s[j].migration.version;
    }
  }

  lemma {:induction false} PendingDistinct(ledger: seq<Row>, owner: string, entries: seq<Entry>)
    requires DistinctVersions(entries)
    ensures DistinctVersions(Pending(ledger, owner, entries))
  {
    if entries != [] {
      var n := |entries| - 1;
      PendingDistinct(ledger, owner, entries[..n]);
      PendingMembers(ledger, owner, entries[..n]);
      var p := Pending(ledger, owner, entries[..n]);
      forall i | 0 <= i < |p|
        ensures p[i].migration.version != entries[n].migration.version
      {
        assert p[i] in p;
      }
    }
  }

  /** Without faults a call succeeds exactly when no two pending migrations share
      a version, which a caller can read off the list and the ledger. */
  lemma {:induction false} CleanCallSucceedsIff(store: Store, owner: string, migrations: seq<Migration>)
    ensures Apply(store, owner, migrations, NoFaults()).outcome == Done
            <==> DistinctVersions(Pending(store.ledger, owner, Sorted(migrations)))
  {
    CallSucceedsIff(store, Call(owner, migrations, NoFaults()));
  }

  /** A run commits only rows that were not there before. */
  lemma {:induction false} HistoryRowsAreNew(start: Store, calls: seq<Call>, t: Txn)
    requires t in History(start, calls)
    ensures t.ToRow() !in start.ledger
  {
    var n := |calls| - 1;
    var before, c := calls[..n], calls[n];
    if t in History(start, before) {
      HistoryRowsAreNew(start, before, t);
    } else {
      var mid := Run(start, before);
      var got := Tag(c.owner, Achieved(mid, c));
      HistoryExplains(start, before);
      AchievedFacts(mid, c);
      var k :| 0 <= k < |got| && t == got[k];
      assert Rows(got)[k] in Rows(got);
    }
  }

  /** No run brings back an entry whose row is in the ledger. */
  lemma {:induction false} SkippedForever(store: Store, owner: string, e: Entry, calls: seq<Call>)
    requires Row(owner, e.migration.version) in store.ledger
    ensures Txn(owner, e.migration) !in History(store, calls)
    ensures forall c: Call :: c.owner == owner ==> e !in Todo(Run(store, calls), c)
  {
    HistoryExplains(store, calls);
    if Txn(owner, e.migration) in History(store, calls) {
      HistoryRowsAreNew(store, calls, Txn(owner, e.migration));
    }
    forall c: Call | c.owner == owner
      ensures e !in Todo(Run(store, calls), c)
    {
      PendingMembers(Run(store, calls).ledger, owner, Sorted(c.migrations));
    }
  }

  /** The interactions with the database that belong to one entry. */
  predicate PointOf(e: Entry, p: Point) {
    || p == Begin(e.key) || p == InsertRow(e.key) || p == Commit(e.key)
    || (p.Execute? && p.key == e.key && p.index < |SplitSql(e.migration.sql)|)
  }

  lemma {:induction false} InterruptedIff(faults: Faults, e: Entry)
    ensures Interrupted(faults, e) <==> exists p :: PointOf(e, p) && faults(p)
  {
    if StatementFault(faults, e) {
      var k: nat :| k < |SplitSql(e.migration.sql)| && faults(Execute(e.key, k));
      assert PointOf(e, Execute(e.key, k));
    }
    assert PointOf(e, Begin(e.key)) && PointOf(e, InsertRow(e.key)) && PointOf(e, Commit(e.key));
  }

  /** A call whose ledger cannot be created or read does nothing. */
  lemma {:induction false} LedgerFaultStopsCall(store: Store, c: Call)
    requires c.faults(CreateLedger) || c.faults(ReadLedger)
    ensures Perform(store, c) == Report(DatabaseFailed, store) && Achieved(store, c) == []
  {
  }

  /** Whichever interaction of a pending entry fails, the entry does not commit and
      the call reports an error. */
  lemma {:induction false} FaultStopsEntry(store: Store, c: Call, e: Entry, p: Point)
    requires e in Todo(store, c) && PointOf(e, p) && c.faults(p)
    ensures e !in Achieved(store, c) && Perform(store, c).outcome != Done
  {
    var todo, n := Todo(store, c), Progress(c.faults, Todo(store, c), 0);
    InterruptedIff(c.faults, e);
    var k: nat :| k < |todo| && todo[k] == e;
    assert Stops(c.faults, todo, k);
    if e in todo[..n] {
      var j: nat :| j < n && todo[j] == e;
      assert Stops(c.faults, todo, j);
    }
  }

  /** A call succeeds exactly when no interaction it needs fails and no two of its
      pending migrations share a version. */
  lemma {:induction false} CallSucceedsIff(store: Store, c: Call)
    ensures Perform(store, c).outcome == Done <==>
            && !c.faults(CreateLedger) && !c.faults(ReadLedger)
            && DistinctVersions(Todo(store, c))
            && forall e, p :: e in Todo(store, c) && PointOf(e, p) ==> !c.faults(p)
  {
    var todo, n := Todo(store, c), Progress(c.faults, Todo(store, c), 0);
    if Perform(store, c).outcome == Done {
      forall i, j | 0 <= i < j < |todo|
        ensures todo[i].migration.version != todo[j].migration.version
      {
        assert !Stops(c.faults, todo, j);
      }
      forall e, p | e in todo && PointOf(e, p)
        ensures !c.faults(p)
      {
        if c.faults(p) {
          FaultStopsEntry(store, c, e, p);
        }
      }
    } else if !c.faults(CreateLedger) && !c.faults(ReadLedger) {
      assert Stops(c.faults, todo, n);
      assert todo[n] in todo;
      InterruptedIff(c.faults, todo[n]);
    }
  }

  /** What a failing call reports, by what failed of the first entry that it did not
      commit: its statements, or anything else. */
  lemma {:induction false} FailureIsReported(store: Store, c: Call)
    requires !c.faults(CreateLedger) && !c.faults(ReadLedger) && Perform(store, c).outcome != Done
    ensures |Achieved(store, c)| < |Todo(store, c)|
    ensures var e := Todo(store, c)[|Achieved(store, c)|];
            var broken := exists k: nat :: k < |SplitSql(e.migration.sql)| && c.faults(Execute(e.key, k));
            Perform(store, c).outcome ==
            if !c.faults(Begin(e.key)) && broken then StatementFailed(c.owner + "/" + e.migration.version) else DatabaseFailed
  {
    AchievedPrefix(store, c);
  }

  /** Otherwise some listed migration is lost for good: it did not commit, yet its
      row is in the ledger, so that no later call with any list, after any run,
      has it to do, and no run commits it. */
  lemma {:induction false} RepeatedVersionIsLost(store: Store, owner: string, migrations: seq<Migration>) returns (lost: Entry)
    requires !DistinctVersions(Pending(store.ledger, owner, Sorted(migrations)))
    ensures var c := Call(owner, migrations, NoFaults());
            && lost in Todo(store, c) && lost !in Achieved(store, c)
            && Perform(store, c).outcome == DatabaseFailed
            && Row(owner, lost.migration.version) in Perform(store, c).store.ledger
    ensures var after := Perform(store, Call(owner, migrations, NoFaults())).store;
            forall calls: seq<Call> ::
              && Txn(owner, lost.migration) !in History(after, calls)
              && forall c: Call :: c.owner == owner ==> lost !in Todo(Run(after, calls), c)
  {
    var c := Call(owner, migrations, NoFaults());
    var pending, got := Todo(store, c), Achieved(store, c);
    CleanCallSucceedsIff(store, owner, migrations);
    AchievedPrefix(store, c);
    lost := pending[|got|];
    assert RepeatsVersion(pending, |got|);
    var j: nat :| j < |got| && pending[j].migration.version == lost.migration.version;
    CallExtends(store, c);
    assert Rows(Tag(owner, got))[j] in Rows(Tag(owner, got));
    AppearsOnce(store.ledger, owner, migrations, |got|);
    forall calls: seq<Call> {
      SkippedForever(Perform(store, c).store, owner, lost, calls);
    }
  }

  /** Two entries of one list that share a pending version. */
  lemma {:induction false} SharedVersionRepeats(
    ledger: seq<Row>, owner: string, migrations: seq<Migration>, e: Entry, f: Entry)
    requires Survives(migrations, e) && Survives(migrations, f) && e != f
    requires e.migration.version == f.migration.version && Row(owner, e.migration.version) !in ledger
    ensures !DistinctVersions(Pending(ledger, owner, Sorted(migrations)))
  {
    var pending := Pending(ledger, owner, Sorted(migrations));
    SortedIsLastWins(migrations);
    PendingMembers(ledger, owner, Sorted(migrations));
    assert e in pending && f in pending;
    TwoWithOneVersion(pending, e, f);
  }

  lemma {:induction false} TwoWithOneVersion(pending: seq<Entry>, e: Entry, f: Entry)
    requires e in pending && f in pending && e != f && e.migration.version == f.migration.version
    ensures !DistinctVersions(pending)
  {
    var i :| 0 <= i < |pending| && pending[i] == e;
    var j :| 0 <= j < |pending| && pending[j] == f;
    assert i < j || j < i;
  }

  /** Such a list exists: two modules name their first migration alike. */
  lemma {:induction false} MixedListRepeatsVersion()
    ensures var list := [Migration("a", "1", "", "x"), Migration("b", "1", "", "y")];
            !DistinctVersions(Pending([], "a", Sorted(list)))
  {
    var list := [Migration("a", "1", "", "x"), Migration("b", "1", "", "y")];
    var e, f := Entry(Key(list[0]), list[0]), Entry(Key(list[1]), list[1]);
    assert e.key[0] == 'a' && f.key[0] == 'b';
    assert LastWithKey(list, 0) && LastWithKey(list, 1);
    SharedVersionRepeats([], "a", list, e, f);
  }

  lemma {:induction false} AppearsOnce(ledger: seq<Row>, owner: string, migrations: seq<Migration>, n: nat)
    requires n < |Pending(ledger, owner, Sorted(migrations))|
    ensures Pending(ledger, owner, Sorted(migrations))[n] !in Pending(ledger, owner, Sorted(migrations))[..n]
  {
    var pending := Pending(ledger, owner, Sorted(migrations));
    SortedIsLastWins(migrations);
    PendingOrdered(ledger, owner, Sorted(migrations));
    forall k | 0 <= k < n
      ensures pending[k] != pending[n]
    {
      LessTotal(pending[k].key, pending[n].key);
    }
  }

  lemma {:induction false} PendingOrdered(ledger: seq<Row>, owner: string, entries: seq<Entry>)
    requires Ordered(entries)
    ensures Ordered(Pending(ledger, owner, entries))
  {
    if entries != [] {
      var n := |entries| - 1;
      PendingOrdered(ledger, owner, entries[..n]);
      PendingMembers(ledger, owner, entries[..n]);
      var p := Pending(ledger, owner, entries[..n]);
      forall i | 0 <= i < |p|
        ensures Less(p[i].key, entries[n].key)
      {
        assert p[i] in p;
      }
    }
  }

  // ---------------------------------------------------------------- upgrade equals fresh install

  /** The transactions of one module. */
  function Project(h: seq<Txn>, owner: string): seq<Txn> {
    if h == [] then []
    else
      var t := h[|h| - 1];
      Project(h[..|h| - 1], owner) + if t.owner == owner then [t] else []
  }

  lemma {:induction false} ProjectConcat(x: seq<Txn>, y: seq<Txn>, owner: string)
    ensures Project(x + y, owner) == Project(x, owner) + Project(y, owner)
    decreases |y|
  {
    if y == [] {
      assert x + y == x;
    } else {
      var n := |y| - 1;
      assert (x + y)[..|x| + n] == x + y[..n];
      ProjectConcat(x, y[..n], owner);
    }
  }

  lemma {:induction false} ProjectTag(owner: string, entries: seq<Entry>, other: string)
    ensures Project(Tag(owner, entries), other) == if owner == other then Tag(owner, entries) else []
  {
    ProjectOneOwner(Tag(owner, entries), owner, other);
  }

  lemma {:induction false} ProjectOneOwner(h: seq<Txn>, owner: string, other: string)
    requires forall k :: 0 <= k < |h| ==> h[k].owner == owner
    ensures Project(h, other) == if owner == other then h else []
  {
    if h != [] {
      var n := |h| - 1;
      ProjectOneOwner(h[..n], owner, other);
      assert h == h[..n] + [h[n]];
    }
  }

  /** Ledger `now` extends `ledger`, on the versions of `entries`, by `done`. */
  ghost predicate Advanced(ledger: seq<Row>, now: seq<Row>, owner: string, entries: seq<Entry>, done: seq<Entry>) {
    forall e :: e in entries ==>
                  (Row(owner, e.migration.version) in now <==> Row(owner, e.migration.version) in ledger || e in done)
  }

  /** What is still pending after a prefix of the pending list was committed. */
  lemma {:induction false} PendingAfter(
    ledger: seq<Row>, now: seq<Row>, owner: string, entries: seq<Entry>, n: nat)
    requires DistinctVersions(entries) && n <= |Pending(ledger, owner, entries)|
    requires Advanced(ledger, now, owner, entries, Pending(ledger, owner, entries)[..n])
    ensures Pending(now, owner, entries) == Pending(ledger, owner, entries)[n..]
  {
    if entries != [] {
      var m := |entries| - 1;
      var e := entries[m];
      var p0, p := Pending(ledger, owner, entries[..m]), Pending(ledger, owner, entries);
      var k := Min(n, |p0|);
      PendingMembers(ledger, owner, entries[..m]);
      LastIsNew(entries);
      PrefixOfSnoc(p0, e, p, n);
      PendingAfter(ledger, now, owner, entries[..m], k);
      assert e in entries;
    }
  }

  lemma {:induction false} LastIsNew(entries: seq<Entry>)
    requires DistinctVersions(entries) && entries != []
    ensures DistinctVersions(entries[..|entries| - 1])
    ensures entries[|entries| - 1] !in entries[..|entries| - 1]
    ensures forall e :: e in entries[..|entries| - 1] ==> e in entries
  {
  }

  lemma {:induction false} PrefixOfSnoc(p0: seq<Entry>, e: Entry, p: seq<Entry>, n: nat)
    requires (p == p0 || p == p0 + [e]) && n <= |p| && e !in p0
    ensures p0[Min(n, |p0|)..] + (if p == p0 || e in p[..n] then [] else [e]) == p[n..]
    ensures forall f :: f != e ==> (f in p[..n] <==> f in p0[..Min(n, |p0|)])
    ensures e in p[..n] ==> p == p0 + [e]
  {
    if n <= |p0| {
      assert p[..n] == p0[..n];
    } else {
      assert p[..n] == p0 + [e] && p0[..|p0|] == p0;
    }
  }

  function Min(a: nat, b: nat): nat { if a <= b then a else b }

  /** The same for a list that is a prefix of `target`, whose pending part is a
      prefix of the pending part of `target`. */
  lemma {:induction false} PrefixPendingAfter(
    ledger: seq<Row>, now: seq<Row>, owner: string, mine: seq<Entry>, target: seq<Entry>, n: nat)
    requires DistinctVersions(target) && mine <= target
    requires n <= |Pending(ledger, owner, target)|
    requires Advanced(ledger, now, owner, target, Pending(ledger, owner, target)[..n])
    ensures Pending(ledger, owner, mine) <= Pending(ledger, owner, target)
    ensures var p := Pending(ledger, owner, mine);
            Pending(now, owner, mine) == p[Min(n, |p|)..]
  {
    assert target[..|mine|] == mine;
    PendingPrefix(ledger, owner, target, |mine|);
    var p, q := Pending(ledger, owner, mine), Pending(ledger, owner, target);
    var k := Min(n, |p|);
    PendingMembers(ledger, owner, mine);
    PendingMembers(ledger, owner, target);
    assert p[..k] == q[..k];
    forall e | e in mine
      ensures e in target && (e in q[..n] <==> e in p[..k])
    {
      InPrefix(p, q, n, e);
      assert e in q[..n] ==> e in q;
    }
    PendingAfter(ledger, now, owner, mine, k);
  }

  lemma {:induction false} InPrefix(p: seq<Entry>, q: seq<Entry>, n: nat, e: Entry)
    requires p <= q && n <= |q|
    ensures e in p[..Min(n, |p|)] ==> e in q[..n]
    ensures e in q[..n] && (e in q ==> e in p) ==> e in p[..Min(n, |p|)]
  {
  }

  /** What a call for its module adds when its list is a prefix of `target` and
      the first `n` pending entries of `target` are already committed. */
  lemma {:induction false} CallAdvances(ledger: seq<Row>, now: Store, c: Call, target: seq<Entry>, n: nat) returns (n': nat)
    requires DistinctVersions(target) && Sorted(c.migrations) <= target
    requires n <= |Pending(ledger, c.owner, target)|
    requires Advanced(ledger, now.ledger, c.owner, target, Pending(ledger, c.owner, target)[..n])
    ensures n <= n' <= |Pending(ledger, c.owner, target)|
    ensures Achieved(now, c) == Pending(ledger, c.owner, target)[n..n']
    ensures Sorted(c.migrations) == target && Perform(now, c).outcome == Done ==>
              n' == |Pending(ledger, c.owner, target)|
  {
    var mine := Sorted(c.migrations);
    PrefixPendingAfter(ledger, now.ledger, c.owner, mine, target, n);
    var p, q := Pending(ledger, c.owner, mine), Pending(ledger, c.owner, target);
    var k, got := Min(n, |p|), Achieved(now, c);
    AchievedPrefix(now, c);
    n' := n + |got|;
    SliceOfPrefix(p, q, n, |got|);
  }

  lemma {:induction false} AchievedPrefix(store: Store, c: Call)
    ensures |Achieved(store, c)| <= |Todo(store, c)|
    ensures Achieved(store, c) == Todo(store, c)[..|Achieved(store, c)|]
    ensures Perform(store, c).outcome == Done ==> |Achieved(store, c)| == |Todo(store, c)|
  {
  }

  lemma {:induction false} SliceOfPrefix(p: seq<Entry>, q: seq<Entry>, n: nat, m: nat)
    requires p <= q && n <= |q| && m <= |p| - Min(n, |p|)
    ensures n + m <= |q| && p[Min(n, |p|)..][..m] == q[n..n + m]
  {
  }

  lemma {:induction false} AdvancedByRows(start: Store, h: seq<Txn>, owner: string, entries: seq<Entry>, done: seq<Entry>)
    requires Project(h, owner) == Tag(owner, done)
    requires DistinctVersions(entries) && forall e :: e in done ==> e in entries
    ensures Advanced(start.ledger, Extend(start, h).ledger, owner, entries, done)
  {
    forall e | e in entries
      ensures Row(owner, e.migration.version) in Extend(start, h).ledger
              <==> Row(owner, e.migration.version) in start.ledger || e in done
    {
      ProjectRows(h, owner, e.migration.version);
      if exists t :: t in Tag(owner, done) && t.migration.version == e.migration.version {
        var t :| t in Tag(owner, done) && t.migration.version == e.migration.version;
        var k :| 0 <= k < |done| && Tag(owner, done)[k] == t;
        assert done[k] in done && done[k] in entries;
      }
      if e in done {
        var k :| 0 <= k < |done| && done[k] == e;
        assert Tag(owner, done)[k] in Tag(owner, done);
      }
    }
  }

  lemma {:induction false} ProjectRows(h: seq<Txn>, owner: string, v: string)
    ensures Row(owner, v) in Rows(h) <==> exists t :: t in Project(h, owner) && t.migration.version == v
  {
    if h != [] {
      var n := |h| - 1;
      ProjectRows(h[..n], owner, v);
      assert Rows(h) == Rows(h[..n]) + [h[n].ToRow()];
      assert h[n].owner == owner ==> h[n] in Project(h, owner);
    }
  }

  /** One call keeps what `owner` has committed a prefix of its fresh install. */
  lemma {:induction false} UpgradeStep(start: Store, owner: string, target: seq<Entry>, h: seq<Txn>, c: Call, n: nat)
    returns (n': nat)
    requires DistinctVersions(target) && (c.owner == owner ==> Sorted(c.migrations) <= target)
    requires n <= |Pending(start.ledger, owner, target)|
    requires Project(h, owner) == Tag(owner, Pending(start.ledger, owner, target)[..n])
    ensures n <= n' <= |Pending(start.ledger, owner, target)|
    ensures Project(h + Tag(c.owner, Achieved(Extend(start, h), c)), owner)
            == Tag(owner, Pending(start.ledger, owner, target)[..n'])
    ensures c.owner == owner && Sorted(c.migrations) == target && Perform(Extend(start, h), c).outcome == Done
            ==> n' == |Pending(start.ledger, owner, target)|
  {
    var now := Extend(start, h);
    var p, got := Pending(start.ledger, owner, target), Achieved(now, c);
    ProjectConcat(h, Tag(c.owner, got), owner);
    ProjectTag(c.owner, got, owner);
    if c.owner != owner {
      n' := n;
    } else {
      PendingMembers(start.ledger, owner, target);
      AdvancedByRows(start, h, owner, target, p[..n]);
      n' := CallAdvances(start.ledger, now, c, target, n);
      TagSlices(owner, p, n, n');
    }
  }

  lemma {:induction false} TagSlices(owner: string, p: seq<Entry>, n: nat, n': nat)
    requires n <= n' <= |p|
    ensures Tag(owner, p[..n']) == Tag(owner, p[..n]) + Tag(owner, p[n..n'])
  {
  }

  /** The last of `calls` hands `owner` exactly `target`, and succeeds. */
  ghost predicate EndsInTarget(start: Store, owner: string, target: seq<Entry>, calls: seq<Call>) {
    calls != [] &&
    var c := calls[|calls| - 1];
    && c.owner == owner && Sorted(c.migrations) == target
    && Perform(Run(start, calls[..|calls| - 1]), c).outcome == Done
  }

  /** Through any run in which `owner` is only ever given prefixes of `target`
      (other modules may do anything in between), what `owner` has committed is a
      prefix of its fresh install; once a call with the full target succeeds it
      is all of it. */
  lemma {:induction false} UpgradePath(start: Store, owner: string, target: seq<Entry>, calls: seq<Call>) returns (n: nat)
    requires DistinctVersions(target)
    requires forall k :: 0 <= k < |calls| && calls[k].owner == owner ==> Sorted(calls[k].migrations) <= target
    ensures n <= |Pending(start.ledger, owner, target)|
    ensures Project(History(start, calls), owner) == Tag(owner, Pending(start.ledger, owner, target)[..n])
    ensures EndsInTarget(start, owner, target, calls) ==> n == |Pending(start.ledger, owner, target)|
  {
    if calls == [] {
      n := 0;
    } else {
      var before, c := calls[..|calls| - 1], calls[|calls| - 1];
      var n0 := UpgradePath(start, owner, target, before);
      HistoryExplains(start, before);
      n := UpgradeStep(start, owner, target, History(start, before), c, n0);
    }
  }

  lemma {:induction false} FreshInstall(start: Store, owner: string, final: seq<Migration>)
    requires DistinctVersions(Sorted(final))
    ensures Apply(start, owner, final, NoFaults())
            == Report(Done, Extend(start, Tag(owner, Pending(start.ledger, owner, Sorted(final)))))
  {
    var c := Call(owner, final, NoFaults());
    PendingDistinct(start.ledger, owner, Sorted(final));
    CleanCallSucceedsIff(start, owner, final);
    AchievedPrefix(start, c);
    CallExtends(start, c);
    assert Todo(start, c)[..|Todo(start, c)|] == Todo(start, c);
  }

  // ---------------------------------------------------------------- releases that are not prefixes

  lemma {:induction false} CleanCallAchievesAll(store: Store, owner: string, migrations: seq<Migration>)
    requires DistinctVersions(Sorted(migrations))
    ensures var c := Call(owner, migrations, NoFaults());
            Achieved(store, c) == Todo(store, c)
  {
    var c := Call(owner, migrations, NoFaults());
    FreshInstall(store, owner, migrations);
    AchievedPrefix(store, c);
    assert Todo(store, c)[..|Todo(store, c)|] == Todo(store, c);
  }

  lemma {:induction false} HistoryOfOne(start: Store, c: Call)
    ensures History(start, [c]) == Tag(c.owner, Achieved(start, c))
    ensures Run(start, [c]) == Perform(start, c).store
  {
    assert [c][..0] == [];
    assert Run(start, []) == start && History(start, []) == [];
  }

  lemma {:induction false} HistoryOfTwo(start: Store, c: Call, d: Call)
    ensures History(start, [c, d]) == Tag(c.owner, Achieved(start, c)) + Tag(d.owner, Achieved(Perform(start, c).store, d))
  {
    assert [c, d][..1] == [c];
    HistoryOfOne(start, c);
  }

  /** Entries are determined by their migrations. */
  lemma {:induction false} SameTransactions(
    ledger: seq<Row>, owner: string, x: seq<Migration>, y: seq<Migration>, more: seq<Entry>)
    requires var p, q := Pending(ledger, owner, Sorted(x)), Pending(ledger, owner, Sorted(y));
             Tag(owner, p) + Tag(owner, more) == Tag(owner, q)
    ensures Pending(ledger, owner, Sorted(x)) <= Pending(ledger, owner, Sorted(y))
  {
    var p, q := Pending(ledger, owner, Sorted(x)), Pending(ledger, owner, Sorted(y));
    assert |p| + |more| == |q|;
    forall k | 0 <= k < |p|
      ensures p[k] == q[k]
    {
      assert Tag(owner, p)[k] == (Tag(owner, p) + Tag(owner, more))[k] == Tag(owner, q)[k];
      PendingKey(ledger, owner, x, k);
      PendingKey(ledger, owner, y, k);
    }
  }

  lemma {:induction false} PendingKey(ledger: seq<Row>, owner: string, x: seq<Migration>, k: nat)
    requires k < |Pending(ledger, owner, Sorted(x))|
    ensures var e := Pending(ledger, owner, Sorted(x))[k];
            e.key == Key(e.migration)
  {
    var e := Pending(ledger, owner, Sorted(x))[k];
    PendingMembers(ledger, owner, Sorted(x));
    SortedIsLastWins(x);
    assert e in Pending(ledger, owner, Sorted(x));
    assert Survives(x, e);
  }

  /** What the second release has to do when the first did a prefix of it. */
  lemma {:induction false} RestOfRelease(start: Store, owner: string, x: seq<Entry>, y: seq<Entry>)
    requires DistinctVersions(y) && Pending(start.ledger, owner, x) <= Pending(start.ledger, owner, y)
    ensures var p, q := Pending(start.ledger, owner, x), Pending(start.ledger, owner, y);
            Pending(Extend(start, Tag(owner, p)).ledger, owner, y) == q[|p|..]
  {
    var p, q := Pending(start.ledger, owner, x), Pending(start.ledger, owner, y);
    assert q[..|p|] == p;
    ProjectTag(owner, p, owner);
    PendingMembers(start.ledger, owner, y);
    AdvancedByRows(start, Tag(owner, p), owner, y, p);
    PendingAfter(start.ledger, Extend(start, Tag(owner, p)).ledger, owner, y, |p|);
  }

  lemma {:induction false} TwoReleases(start: Store, owner: string, x: seq<Migration>, y: seq<Migration>)
    requires DistinctVersions(Sorted(x)) && DistinctVersions(Sorted(y))
    ensures var c, d := Call(owner, x, NoFaults()), Call(owner, y, NoFaults());
            && History(start, [d]) == Tag(owner, Todo(start, d))
            && History(start, [c, d]) == Tag(owner, Todo(start, c)) + Tag(owner, Todo(Perform(start, c).store, d))
  {
    var c, d := Call(owner, x, NoFaults()), Call(owner, y, NoFaults());
    CleanCallAchievesAll(start, owner, x);
    CleanCallAchievesAll(start, owner, y);
    CleanCallAchievesAll(Perform(start, c).store, owner, y);
    HistoryOfTwo(start, c, d);
    HistoryOfOne(start, d);
  }

  lemma {:induction false} PrefixRelease(start: Store, owner: string, x: seq<Migration>, y: seq<Migration>)
    requires DistinctVersions(Sorted(x)) && DistinctVersions(Sorted(y))
    requires Pending(start.ledger, owner, Sorted(x)) <= Pending(start.ledger, owner, Sorted(y))
    ensures var p, q := Pending(start.ledger, owner, Sorted(x)), Pending(start.ledger, owner, Sorted(y));
            var mid := Apply(start, owner, x, NoFaults()).store;
            Tag(owner, p) + Tag(owner, Pending(mid.ledger, owner, Sorted(y))) == Tag(owner, q)
  {
    var p, q := Pending(start.ledger, owner, Sorted(x)), Pending(start.ledger, owner, Sorted(y));
    FreshInstall(start, owner, x);
    RestOfRelease(start, owner, Sorted(x), Sorted(y));
    TagPrefix(owner, p, q);
  }

  lemma {:induction false} TagPrefix(owner: string, p: seq<Entry>, q: seq<Entry>)
    requires p <= q
    ensures Tag(owner, p) + Tag(owner, q[|p|..]) == Tag(owner, q)
  {
  }

  /** A module that goes through release `x` to release `y` commits what a fresh
      install of `y` commits exactly when what `x` has to do is a prefix of what `y`
      has to do: a migration inserted before one that was applied breaks it. */
  lemma {:induction false} TwoReleasesEqualOneIff(start: Store, owner: string, x: seq<Migration>, y: seq<Migration>)
    requires DistinctVersions(Sorted(x)) && DistinctVersions(Sorted(y))
    ensures var c, d := Call(owner, x, NoFaults()), Call(owner, y, NoFaults());
            History(start, [c, d]) == History(start, [d]) <==> Todo(start, c) <= Todo(start, d)
  {
    var c, d := Call(owner, x, NoFaults()), Call(owner, y, NoFaults());
    TwoReleases(start, owner, x, y);
    if Todo(start, c) <= Todo(start, d) {
      PrefixRelease(start, owner, x, y);
    }
    if History(start, [c, d]) == History(start, [d]) {
      SameTransactions(start.ledger, owner, x, y, Todo(Perform(start, c).store, d));
    }
  }

  // ---------------------------------------------------------------- text order and numeric order

  lemma {:induction false} LessSnoc(a: string, b: string, x: char, y: char)
    requires |a| == |b|
    ensures Less(a + [x], b + [y]) <==> Less(a, b) || (a == b && x < y)
  {
    if a == "" {
      assert a + [x] == [x] && b + [y] == [y];
    } else {
      assert (a + [x])[1..] == a[1..] + [x] && (b + [y])[1..] == b[1..] + [y];
      assert a == [a[0]] + a[1..] && b == [b[0]] + b[1..];
      LessSnoc(a[1..], b[1..], x, y);
    }
  }

  /** For digit strings of one length, text order is numeric order. */
  lemma {:induction false} TextOrderIsNumeric(a: string, b: string)
    requires Digits(a) && Digits(b) && |a| == |b|
    ensures Less(a, b) <==> NumeralValue(a) < NumeralValue(b)
    ensures a == b <==> NumeralValue(a) == NumeralValue(b)
  {
    if a != "" {
      var n := |a| - 1;
      TextOrderIsNumeric(a[..n], b[..n]);
      LessSnoc(a[..n], b[..n], a[n], b[n]);
      assert a == a[..n] + [a[n]] && b == b[..n] + [b[n]];
    }
  }

  /** A shorter text is compared with a prefix of the longer one. */
  lemma {:induction false} LessByPrefix(a: string, b: string)
    requires |a| < |b|
    ensures Less(a, b) <==> !Less(b[..|a|], a)
  {
    if a != "" {
      LessByPrefix(a[1..], b[1..]);
      assert b[..|a|][1..] == b[1..][..|a| - 1];
    }
  }

  lemma {:induction false} PrefixValue(b: string, n: nat)
    requires Digits(b) && n < |b|
    ensures Digits(b[..n]) && 10 * NumeralValue(b[..n]) <= NumeralValue(b)
  {
    var m := |b| - 1;
    if n < m {
      PrefixValue(b[..m], n);
      assert b[..m][..n] == b[..n];
    }
  }

  /** Two numerals on which text order cannot go wrong: equally long, or the longer
      one is smaller anyway, or its leading digits are not below the shorter one. */
  predicate Aligned(a: string, b: string)
    requires Digits(a) && Digits(b)
  {
    |a| < |b| ==>
      || NumeralValue(b) < NumeralValue(a)
      || (NumeralValue(a) <= NumeralValue(b[..|a|]) && 0 < NumeralValue(b))
  }

  /** Exactly when text order puts two numerals in numeric order. */
  lemma {:induction false} TextOrderIsNumericIff(a: string, b: string)
    requires Digits(a) && Digits(b) && |a| <= |b|
    ensures Aligned(a, b) <==>
            ((Less(a, b) <==> NumeralValue(a) < NumeralValue(b)) && (Less(b, a) <==> NumeralValue(b) < NumeralValue(a)))
  {
    LessTotal(a, b);
    if |a| == |b| {
      TextOrderIsNumeric(a, b);
      TextOrderIsNumeric(b, a);
    } else {
      LessByPrefix(a, b);
      PrefixValue(b, |a|);
      TextOrderIsNumeric(b[..|a|], a);
    }
  }

  predicate NumericallyBefore(e: Entry, f: Entry) {
    && Digits(e.migration.version) && Digits(f.migration.version)
    && NumeralValue(e.migration.version) < NumeralValue(f.migration.version)
  }

  ghost predicate InNumericOrder(s: seq<Entry>) {
    forall i, j :: 0 <= i < j < |s| ==> NumericallyBefore(s[i], s[j])
  }

  ghost predicate OwnNumerals(owner: string, migrations: seq<Migration>) {
    forall m :: m in migrations ==> m.owner == owner && Digits(m.version)
  }

  ghost predicate AllAligned(owner: string, migrations: seq<Migration>)
    requires OwnNumerals(owner, migrations)
  {
    forall m, m' :: m in migrations && m' in migrations ==> Aligned(m.version, m'.version)
  }

  /** Two positions of the loop order are in numeric order exactly when their
      versions are aligned, both ways round. */
  lemma {:induction false} PairInNumericOrder(owner: string, migrations: seq<Migration>, i: nat, j: nat)
    requires OwnNumerals(owner, migrations) && i < j < |Sorted(migrations)|
    ensures var e, f := Sorted(migrations)[i], Sorted(migrations)[j];
            && e.migration in migrations && f.migration in migrations
            && (NumericallyBefore(e, f) <==>
                Aligned(e.migration.version, f.migration.version) && Aligned(f.migration.version, e.migration.version))
  {
    var s := Sorted(migrations);
    SortedIsLastWins(migrations);
    assert s[i] in s && s[j] in s;
    assert Survives(migrations, s[i]) && Survives(migrations, s[j]);
    var a, b := s[i].migration.version, s[j].migration.version;
    assert s[i].key == owner + "_" + a && s[j].key == owner + "_" + b;
    LessCommonPrefix(owner + "_", a, b);
    LessTotal(a, b);
    if |a| <= |b| {
      TextOrderIsNumericIff(a, b);
    } else {
      TextOrderIsNumericIff(b, a);
    }
  }

  lemma {:induction false} VersionHasPosition(owner: string, migrations: seq<Migration>, m: Migration) returns (i: nat)
    requires OwnNumerals(owner, migrations) && m in migrations
    ensures i < |Sorted(migrations)| && Sorted(migrations)[i].migration.version == m.version
  {
    var k: nat :| k < |migrations| && migrations[k] == m;
    var last := LastPosition(migrations, k);
    SortedIsLastWins(migrations);
    var e := Entry(Key(migrations[last]), migrations[last]);
    assert Survives(migrations, e);
    i :| i < |Sorted(migrations)| && Sorted(migrations)[i] == e;
    assert Key(m) == owner + "_" + m.version && e.key == owner + "_" + e.migration.version;
    assert Key(m)[|owner| + 1..] == m.version && e.key[|owner| + 1..] == e.migration.version;
  }

  /** A module with numeral versions runs its migrations in strictly increasing
      numeric order, the order the preflight compares in, exactly when its
      versions are aligned. */
  lemma {:induction false} RunsInNumericOrderIff(owner: string, migrations: seq<Migration>)
    requires OwnNumerals(owner, migrations)
    ensures InNumericOrder(Sorted(migrations)) <==> AllAligned(owner, migrations)
  {
    var s := Sorted(migrations);
    if InNumericOrder(s) {
      forall m, m' | m in migrations && m' in migrations
        ensures Aligned(m.version, m'.version)
      {
        var i := VersionHasPosition(owner, migrations, m);
        var j := VersionHasPosition(owner, migrations, m');
        if i < j {
          PairInNumericOrder(owner, migrations, i, j);
        } else if j < i {
          PairInNumericOrder(owner, migrations, j, i);
        }
      }
    }
    if AllAligned(owner, migrations) {
      forall i, j | 0 <= i < j < |s|
        ensures NumericallyBefore(s[i], s[j])
      {
        PairInNumericOrder(owner, migrations, i, j);
      }
    }
  }

  /** In particular when all versions are equally long, as zero-padded ones are. */
  lemma {:induction false} PaddedVersionsRunInOrder(owner: string, migrations: seq<Migration>, width: nat)
    requires OwnNumerals(owner, migrations) && forall m :: m in migrations ==> |m.version| == width
    ensures InNumericOrder(Sorted(migrations))
  {
    RunsInNumericOrderIff(owner, migrations);
  }

  /** A list that is not aligned: version `10` runs before version `9`. */
  lemma {:induction false} UnpaddedVersionsRunOutOfOrder(owner: string)
    ensures !InNumericOrder(Sorted([Migration(owner, "9", "", ""), Migration(owner, "10", "", "")]))
  {
    var nine, ten := Migration(owner, "9", "", ""), Migration(owner, "10", "", "");
    assert "10"[..1] == "1" && "1"[..0] == "" && "9"[..0] == "";
    assert !Aligned("9", "10");
    assert nine in [nine, ten] && ten in [nine, ten];
    RunsInNumericOrderIff(owner, [nine, ten]);
  }

}
