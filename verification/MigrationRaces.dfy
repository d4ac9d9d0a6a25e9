/**
 Several processes applying migrations to one database at a time. Each call reads
 the applied versions once and then runs its transactions one by one, with those
 of other calls in between, against a list that may be stale by then. Only the
 primary key of the ledger guards against a migration running twice.
 */
module MigrationRaces {
  import opened Text
  import opened Migrations
  import opened MigrationRuns

  /** A call under way: the versions it read, its entries in key order, and how many
      of them it is past. */
  datatype Worker = Worker(owner: string, applied: seq<string>, entries: seq<Entry>, next: nat)

  datatype Race = Race(store: Store, workers: seq<Worker>)

  datatype Move =
    | Enter(owner: string, migrations: seq<Migration>)  // a call reads the applied versions
    | Turn(index: nat, faults: Faults)                  // a call handles its next entry, or returns
    | Crash(index: nat)                                 // the process of a call dies

  predicate Skips(w: Worker) {
    w.next < |w.entries| && w.entries[w.next].migration.version in w.applied
  }

  /** The next transaction of the call goes through on this store. */
  predicate Succeeds(store: Store, w: Worker, faults: Faults) {
    && w.next < |w.entries| && !Skips(w)
    && !Interrupted(faults, w.entries[w.next])
    && Row(w.owner, w.entries[w.next].migration.version) !in store.ledger
  }

  function Committed(race: Race, move: Move): seq<Txn> {
    match move
    case Turn(i, faults) =>
      if i < |race.workers| && Succeeds(race.store, race.workers[i], faults)
      then [Txn(race.workers[i].owner, race.workers[i].entries[race.workers[i].next].migration)]
      else []
    case Enter(_, _) => []
    case Crash(_) => []
  }

  function Without(workers: seq<Worker>, i: nat): (r: seq<Worker>)
    ensures forall w :: w in r ==> w in workers
  {
    if i < |workers| then workers[..i] + workers[i + 1..] else workers
  }

  function Workers(race: Race, move: Move): seq<Worker> {
    match move
    case Enter(owner, migrations) =>
      race.workers + [Worker(owner, AppliedVersions(race.store.ledger, owner), Sorted(migrations), 0)]
    case Turn(i, faults) =>
      if i >= |race.workers| then race.workers
      else
        var w := race.workers[i];
        if Skips(w) || Succeeds(race.store, w, faults) then race.workers[i := w.(next := w.next + 1)]
        else Without(race.workers, i)
    case Crash(i) => Without(race.workers, i)
  }

  function Next(race: Race, move: Move): Race {
    Race(Extend(race.store, Committed(race, move)), Workers(race, move))
  }

  function Play(race: Race, moves: seq<Move>): Race {
    if moves == [] then race
    else Next(Play(race, moves[..|moves| - 1]), moves[|moves| - 1])
  }

  /** The transactions of a race, in commit order. */
  function RaceHistory(race: Race, moves: seq<Move>): seq<Txn> {
    if moves == [] then []
    else
      var before := moves[..|moves| - 1];
      RaceHistory(race, before) + Committed(Play(race, before), moves[|moves| - 1])
  }

  lemma {:induction false} PlayMore(race: Race, x: seq<Move>, y: seq<Move>)
    ensures Play(race, x + y) == Play(Play(race, x), y)
    decreases |y|
  {
    if y == [] {
      assert x + y == x;
    } else {
      var n := |y| - 1;
      PlayMore(race, x, y[..n]);
      PlayOneMore(race, x, y[..n], y[n]);
      TakeOneMore(y, n);
      assert y[..n + 1] == y;
    }
  }

  lemma {:induction false} PlayOneMore(race: Race, x: seq<Move>, y: seq<Move>, move: Move)
    requires Play(race, x + y) == Play(Play(race, x), y)
    ensures Play(race, x + (y + [move])) == Play(Play(race, x), y + [move])
  {
    ConcatAssoc(x, y, [move]);
    PlaySnoc(race, x + y, move);
    PlaySnoc(Play(race, x), y, move);
  }

  lemma {:induction false} PlaySnoc(race: Race, x: seq<Move>, move: Move)
    ensures Play(race, x + [move]) == Next(Play(race, x), move)
  {
    assert (x + [move])[..|x|] == x;
  }

  lemma {:induction false} PlayCons(race: Race, move: Move, more: seq<Move>)
    ensures Play(race, [move] + more) == Play(Next(race, move), more)
  {
    PlaySnoc(race, [], move);
    assert [] + [move] == [move];
    PlayMore(race, [move], more);
  }

  // ---------------------------------------------------------------- exactly once

  lemma {:induction false} RaceExplains(race: Race, moves: seq<Move>)
    ensures Play(race, moves).store == Extend(race.store, RaceHistory(race, moves))
  {
    if moves == [] {
      assert Extend(race.store, []) == race.store;
    } else {
      var n := |moves| - 1;
      RaceExplains(race, moves[..n]);
      ExtendConcat(race.store, RaceHistory(race, moves[..n]), Committed(Play(race, moves[..n]), moves[n]));
    }
  }

  lemma {:induction false} RaceKeepsDistinct(race: Race, moves: seq<Move>)
    requires Distinct(race.store.ledger)
    ensures Distinct(Play(race, moves).store.ledger)
  {
    if moves != [] {
      var n := |moves| - 1;
      var mid := Play(race, moves[..n]);
      RaceKeepsDistinct(race, moves[..n]);
      DistinctConcat(mid.store.ledger, Rows(Committed(mid, moves[n])));
    }
  }

  ghost predicate Entered(moves: seq<Move>, owner: string, entries: seq<Entry>) {
    exists k :: 0 <= k < |moves| && moves[k].Enter? && moves[k].owner == owner && entries == Sorted(moves[k].migrations)
  }

  ghost predicate Applied(ledger: seq<Row>, owner: string, entries: seq<Entry>, n: nat) {
    n <= |entries| && forall k :: 0 <= k < n ==> Row(owner, entries[k].migration.version) in ledger
  }

  /** A call under way was entered, what it read still holds, and what it is past
      has been applied, by itself or by another. */
  ghost predicate WorkerOk(moves: seq<Move>, ledger: seq<Row>, w: Worker) {
    && Entered(moves, w.owner, w.entries)
    && (forall v :: v in w.applied ==> Row(w.owner, v) in ledger)
    && Applied(ledger, w.owner, w.entries, w.next)
  }

  lemma {:induction false} EnteredStays(moves: seq<Move>, move: Move, owner: string, entries: seq<Entry>)
    requires Entered(moves, owner, entries)
    ensures Entered(moves + [move], owner, entries)
  {
    var k :| 0 <= k < |moves| && moves[k].Enter? && moves[k].owner == owner && entries == Sorted(moves[k].migrations);
    assert (moves + [move])[k] == moves[k];
  }

  lemma {:induction false} WorkerStaysOk(moves: seq<Move>, move: Move, ledger: seq<Row>, more: seq<Row>, w: Worker)
    requires WorkerOk(moves, ledger, w)
    ensures WorkerOk(moves + [move], ledger + more, w)
  {
    EnteredStays(moves, move, w.owner, w.entries);
  }

  lemma {:induction false} NewWorkerOk(moves: seq<Move>, ledger: seq<Row>, owner: string, migrations: seq<Migration>)
    ensures WorkerOk(moves + [Enter(owner, migrations)], ledger,
                     Worker(owner, AppliedVersions(ledger, owner), Sorted(migrations), 0))
  {
    var longer := moves + [Enter(owner, migrations)];
    assert longer[|moves|] == Enter(owner, migrations);
    forall v | v in AppliedVersions(ledger, owner)
      ensures Row(owner, v) in ledger
    {
      AppliedVersionsMembers(ledger, owner, v);
    }
  }

  /** A call that moves on has its entry applied. */
  lemma {:induction false} WorkerMovesOn(moves: seq<Move>, race: Race, i: nat, faults: Faults)
    requires i < |race.workers| && WorkerOk(moves, race.store.ledger, race.workers[i])
    requires Skips(race.workers[i]) || Succeeds(race.store, race.workers[i], faults)
    ensures var w := race.workers[i];
            WorkerOk(moves + [Turn(i, faults)], Next(race, Turn(i, faults)).store.ledger, w.(next := w.next + 1))
  {
    var w, move := race.workers[i], Turn(i, faults);
    var more := Rows(Committed(race, move));
    WorkerStaysOk(moves, move, race.store.ledger, more, w);
    var row := Row(w.owner, w.entries[w.next].migration.version);
    assert Skips(w) ==> row in race.store.ledger;
    assert !Skips(w) ==> more == [row];
  }

  lemma {:induction false} NextWorkersOk(moves: seq<Move>, race: Race, move: Move)
    requires forall w :: w in race.workers ==> WorkerOk(moves, race.store.ledger, w)
    ensures forall w :: w in Next(race, move).workers ==> WorkerOk(moves + [move], Next(race, move).store.ledger, w)
  {
    var more := Rows(Committed(race, move));
    forall w | w in Next(race, move).workers
      ensures WorkerOk(moves + [move], Next(race, move).store.ledger, w)
    {
      if w in race.workers {
        WorkerStaysOk(moves, move, race.store.ledger, more, w);
      } else if move.Enter? {
        NewWorkerOk(moves, race.store.ledger, move.owner, move.migrations);
      } else {
        WorkerMovesOn(moves, race, move.index, move.faults);
      }
    }
  }

  lemma {:induction false} WorkersOk(start: Store, moves: seq<Move>)
    ensures forall w :: w in Play(Race(start, []), moves).workers ==>
                          WorkerOk(moves, Play(Race(start, []), moves).store.ledger, w)
  {
    if moves != [] {
      var n := |moves| - 1;
      WorkersOk(start, moves[..n]);
      NextWorkersOk(moves[..n], Play(Race(start, []), moves[..n]), moves[n]);
      assert moves[..n] + [moves[n]] == moves;
    }
  }

  ghost predicate ListedIn(moves: seq<Move>, t: Txn) {
    exists k :: 0 <= k < |moves| && moves[k].Enter? && moves[k].owner == t.owner && t.migration in moves[k].migrations
  }

  lemma {:induction false} EntryIsListed(moves: seq<Move>, owner: string, entries: seq<Entry>, i: nat)
    requires Entered(moves, owner, entries) && i < |entries|
    ensures ListedIn(moves, Txn(owner, entries[i].migration))
  {
    var k :| 0 <= k < |moves| && moves[k].Enter? && moves[k].owner == owner && entries == Sorted(moves[k].migrations);
    SortedIsLastWins(moves[k].migrations);
    assert entries[i] in entries;
    assert Survives(moves[k].migrations, entries[i]);
  }

  /** What a move commits is the next entry of a call under way. */
  lemma {:induction false} CommittedBy(race: Race, move: Move, t: Txn) returns (w: Worker)
    requires t in Committed(race, move)
    ensures w in race.workers && w.next < |w.entries| && t == Txn(w.owner, w.entries[w.next].migration)
  {
    w := race.workers[move.index];
  }

  lemma {:induction false} RaceIsListed(start: Store, moves: seq<Move>, t: Txn)
    ensures t in RaceHistory(Race(start, []), moves) ==> ListedIn(moves, t)
  {
    if moves != [] && t in RaceHistory(Race(start, []), moves) {
      var n := |moves| - 1;
      var before := moves[..n];
      RaceIsListed(start, before, t);
      if t !in RaceHistory(Race(start, []), before) {
        WorkersOk(start, before);
        var w := CommittedBy(Play(Race(start, []), before), moves[n], t);
        EntryIsListed(before, w.owner, w.entries, w.next);
      }
      var k :| 0 <= k < |before| && before[k].Enter? && before[k].owner == t.owner && t.migration in before[k].migrations;
      assert moves[k] == before[k];
    }
  }

  /** However the transactions of any calls interleave, and whichever fail or die:
      the store is the start plus whole transactions, no ledger row twice, each
      migration as one block of the log, and every one of them was listed. */
  lemma {:induction false} RaceIsExactlyOnce(start: Store, moves: seq<Move>)
    requires Distinct(start.ledger)
    ensures var h := RaceHistory(Race(start, []), moves);
            var end := Play(Race(start, []), moves).store;
            && end == Extend(start, h)
            && Distinct(end.ledger)
            && (forall i: nat :: i < |h| ==> ListedIn(moves, h[i]))
            && (forall i: nat :: i < |h| ==> BlockInPlace(start.log, h, i, end.log))
  {
    var race := Race(start, []);
    var h := RaceHistory(race, moves);
    RaceExplains(race, moves);
    RaceKeepsDistinct(race, moves);
    forall i: nat | i < |h|
      ensures ListedIn(moves, h[i]) && BlockInPlace(start.log, h, i, Play(race, moves).store.log)
    {
      RaceIsListed(start, moves, h[i]);
      BlocksInPlace(start.log, h, i);
    }
  }

  /** The ledger only grows. */
  lemma {:induction false} LedgerGrows(race: Race, x: seq<Move>, y: seq<Move>)
    ensures Play(race, x).store.ledger <= Play(race, x + y).store.ledger
  {
    PlayMore(race, x, y);
    RaceExplains(Play(race, x), y);
  }

  /** A call that is past all its entries at some moment, and so returns without an
      error, has every version it listed in the ledger from then on, whatever moves
      follow. */
  lemma {:induction false} FinishedCallIsApplied(start: Store, before: seq<Move>, after: seq<Move>, w: Worker)
    ensures w in Play(Race(start, []), before).workers && w.next == |w.entries| ==>
              Applied(Play(Race(start, []), before + after).store.ledger, w.owner, w.entries, |w.entries|)
  {
    WorkersOk(start, before);
    LedgerGrows(Race(start, []), before, after);
  }
}
