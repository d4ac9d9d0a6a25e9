/**
 Upgrades as races: a module that is only ever given prefixes of one list, by any
 number of calls at a time, never commits anything but its fresh install, in order.
 A call with nothing in between is a race of its own, so that the same holds for
 upgrades one call at a time.
 */
module RaceUpgrades {
  import opened Text
  import opened Migrations
  import opened MigrationRuns
  import opened MigrationRaces

  // ---------------------------------------------------------------- racing upgrades

  /** The first entry the ledger does not have is the first pending one. */
  lemma {:induction false} FirstPending(ledger: seq<Row>, owner: string, entries: seq<Entry>, i: nat)
    requires i < |entries| && Applied(ledger, owner, entries, i)
    requires Row(owner, entries[i].migration.version) !in ledger
    ensures Pending(ledger, owner, entries) != [] && Pending(ledger, owner, entries)[0] == entries[i]
  {
    var n := |entries| - 1;
    if i < n {
      FirstPending(ledger, owner, entries[..n], i);
    } else {
      NothingPending(ledger, owner, entries[..n]);
    }
  }

  lemma {:induction false} NothingPending(ledger: seq<Row>, owner: string, entries: seq<Entry>)
    requires Applied(ledger, owner, entries, |entries|)
    ensures Pending(ledger, owner, entries) == []
  {
    if entries != [] {
      NothingPending(ledger, owner, entries[..|entries| - 1]);
    }
  }

  ghost predicate OnlyPrefixes(moves: seq<Move>, owner: string, target: seq<Entry>) {
    forall k :: 0 <= k < |moves| && moves[k].Enter? && moves[k].owner == owner ==> Sorted(moves[k].migrations) <= target
  }

  /** What is still pending of `target` once `owner` has committed `n` of it. */
  lemma {:induction false} PendingInRace(start: Store, owner: string, target: seq<Entry>, h: seq<Txn>, n: nat)
    requires DistinctVersions(target) && n <= |Pending(start.ledger, owner, target)|
    requires Project(h, owner) == Tag(owner, Pending(start.ledger, owner, target)[..n])
    ensures Pending(Extend(start, h).ledger, owner, target) == Pending(start.ledger, owner, target)[n..]
  {
    var p := Pending(start.ledger, owner, target);
    PendingMembers(start.ledger, owner, target);
    AdvancedByRows(start, h, owner, target, p[..n]);
    PendingAfter(start.ledger, Extend(start, h).ledger, owner, target, n);
  }

  /** A commit for `owner` is the next entry of its fresh install. */
  lemma {:induction false} CommitIsNext(start: Store, owner: string, target: seq<Entry>, h: seq<Txn>, n: nat, w: Worker)
    requires DistinctVersions(target) && n <= |Pending(start.ledger, owner, target)|
    requires Project(h, owner) == Tag(owner, Pending(start.ledger, owner, target)[..n])
    requires w.owner == owner && w.entries <= target && w.next < |w.entries|
    requires Applied(Extend(start, h).ledger, owner, w.entries, w.next)
    requires Row(owner, w.entries[w.next].migration.version) !in Extend(start, h).ledger
    ensures n < |Pending(start.ledger, owner, target)|
    ensures Pending(start.ledger, owner, target)[n] == w.entries[w.next]
  {
    PendingInRace(start, owner, target, h, n);
    FirstPending(Extend(start, h).ledger, owner, target, w.next);
  }

  lemma {:induction false} ProjectCommit(h: seq<Txn>, owner: string, p: seq<Entry>, n: nat)
    requires n < |p| && Project(h, owner) == Tag(owner, p[..n])
    ensures Project(h + [Txn(owner, p[n].migration)], owner) == Tag(owner, p[..n + 1])
  {
    var t := Txn(owner, p[n].migration);
    assert (h + [t])[..|h|] == h;
    assert Tag(owner, p[..n + 1]) == Tag(owner, p[..n]) + [t];
  }

  lemma {:induction false} ProjectForeign(h: seq<Txn>, done: seq<Txn>, owner: string)
    requires |done| <= 1 && forall t :: t in done ==> t.owner != owner
    ensures Project(h + done, owner) == Project(h, owner)
  {
    ProjectConcat(h, done, owner);
    if done != [] {
      ProjectOneOwner(done, done[0].owner, owner);
    }
  }

  /** One move keeps what `owner` has committed a prefix of its fresh install. */
  lemma {:induction false} RaceStep(
    start: Store, owner: string, target: seq<Entry>, moves: seq<Move>, race: Race, h: seq<Txn>, move: Move, n: nat)
    returns (n': nat)
    requires DistinctVersions(target) && OnlyPrefixes(moves, owner, target)
    requires race.store == Extend(start, h) && forall w :: w in race.workers ==> WorkerOk(moves, race.store.ledger, w)
    requires n <= |Pending(start.ledger, owner, target)|
    requires Project(h, owner) == Tag(owner, Pending(start.ledger, owner, target)[..n])
    ensures n <= n' <= |Pending(start.ledger, owner, target)|
    ensures Project(h + Committed(race, move), owner) == Tag(owner, Pending(start.ledger, owner, target)[..n'])
  {
    var done := Committed(race, move);
    if done == [] || done[0].owner != owner {
      n' := n;
      ProjectForeign(h, done, owner);
    } else {
      var w := race.workers[move.index];
      assert WorkerOk(moves, race.store.ledger, w);
      CommitIsNext(start, owner, target, h, n, w);
      n' := n + 1;
      ProjectCommit(h, owner, Pending(start.ledger, owner, target), n);
    }
  }

  /** A call of `owner` with the entries `target` that is past all of them. */
  predicate Through(w: Worker, owner: string, target: seq<Entry>) {
    w.owner == owner && w.entries == target && w.next == |target|
  }

  /** At some moment of the race, now or after a later move, the call at position `i`
      is through. */
  predicate PassesAt(race: Race, moves: seq<Move>, i: nat, owner: string, target: seq<Entry>)
    decreases |moves|
  {
    || ThroughAt(race, i, owner, target)
    || (moves != [] && PassesAt(Next(race, moves[0]), moves[1..], i, owner, target))
  }

  predicate ThroughAt(race: Race, i: nat, owner: string, target: seq<Entry>) {
    i < |race.workers| && Through(race.workers[i], owner, target)
  }

  /** At some moment of the race a call of `owner` with the list `target` is through,
      whether or not it has returned since. */
  ghost predicate GotThrough(race: Race, moves: seq<Move>, owner: string, target: seq<Entry>) {
    exists i: nat :: PassesAt(race, moves, i, owner, target)
  }

  lemma {:induction false} PassingMoment(race: Race, moves: seq<Move>, i: nat, owner: string, target: seq<Entry>)
    returns (before: seq<Move>, after: seq<Move>)
    requires PassesAt(race, moves, i, owner, target)
    ensures moves == before + after && ThroughAt(Play(race, before), i, owner, target)
    decreases |moves|
  {
    if ThroughAt(race, i, owner, target) {
      before, after := [], moves;
    } else {
      var first := moves[0];
      var x;
      assert moves == [first] + moves[1..];
      x, after := PassingMoment(Next(race, first), moves[1..], i, owner, target);
      before := [first] + x;
      ConcatAssoc([first], x, after);
      LaterMoment(race, first, x, i, owner, target);
    }
  }

  lemma {:induction false} LaterMoment(race: Race, move: Move, more: seq<Move>, i: nat, owner: string, target: seq<Entry>)
    requires ThroughAt(Play(Next(race, move), more), i, owner, target)
    ensures ThroughAt(Play(race, [move] + more), i, owner, target)
  {
    PlayCons(race, move, more);
  }

  /** Once a call is through, all of its list is applied for good. */
  lemma {:induction false} ThroughMeansApplied(start: Store, moves: seq<Move>, owner: string, target: seq<Entry>)
    requires GotThrough(Race(start, []), moves, owner, target)
    ensures Applied(Play(Race(start, []), moves).store.ledger, owner, target, |target|)
  {
    var race := Race(start, []);
    var i: nat :| PassesAt(race, moves, i, owner, target);
    var before, after := PassingMoment(race, moves, i, owner, target);
    FinishedCallIsApplied(start, before, after, Play(race, before).workers[i]);
  }

  /** Through any race in which `owner` is only ever given prefixes of `target`, by
      any number of calls at a time, what `owner` has committed is a prefix of its
      fresh install, and all of it once a call with the full target got through. */
  lemma {:induction false} RacePath(start: Store, owner: string, target: seq<Entry>, moves: seq<Move>) returns (n: nat)
    requires DistinctVersions(target) && OnlyPrefixes(moves, owner, target)
    ensures n <= |Pending(start.ledger, owner, target)|
    ensures Project(RaceHistory(Race(start, []), moves), owner) == Tag(owner, Pending(start.ledger, owner, target)[..n])
    ensures GotThrough(Race(start, []), moves, owner, target) ==> n == |Pending(start.ledger, owner, target)|
  {
    var race := Race(start, []);
    if moves == [] {
      n := 0;
    } else {
      var k := |moves| - 1;
      var before := RacePath(start, owner, target, moves[..k]);
      WorkersOk(start, moves[..k]);
      RaceExplains(race, moves[..k]);
      n := RaceStep(start, owner, target, moves[..k], Play(race, moves[..k]), RaceHistory(race, moves[..k]), moves[k], before);
    }
    if GotThrough(race, moves, owner, target) {
      RaceExplains(race, moves);
      PendingInRace(start, owner, target, RaceHistory(race, moves), n);
      ThroughMeansApplied(start, moves, owner, target);
      NothingPending(Play(race, moves).store.ledger, owner, target);
    }
  }

  /** If all calls are of one module, a race in which a call with the final list got
      through is in the store of one clean call with that list, from then on. */
  lemma {:induction false} RaceEqualsFreshInstall(start: Store, owner: string, final: seq<Migration>, moves: seq<Move>)
    requires DistinctVersions(Sorted(final)) && OnlyPrefixes(moves, owner, Sorted(final))
    requires forall k :: 0 <= k < |moves| && moves[k].Enter? ==> moves[k].owner == owner
    requires GotThrough(Race(start, []), moves, owner, Sorted(final))
    ensures Apply(start, owner, final, NoFaults()) == Report(Done, Play(Race(start, []), moves).store)
  {
    var h, p := RaceHistory(Race(start, []), moves), Pending(start.ledger, owner, Sorted(final));
    var n := RacePath(start, owner, Sorted(final), moves);
    assert p[..n] == p;
    forall k | 0 <= k < |h|
      ensures h[k].owner == owner
    {
      RaceIsListed(start, moves, h[k]);
    }
    ProjectOneOwner(h, owner, owner);
    RaceExplains(Race(start, []), moves);
    FreshInstall(start, owner, final);
  }

  // ---------------------------------------------------------------- a call on its own

  lemma {:induction false} PassesUnfolds(race: Race, move: Move, more: seq<Move>, i: nat, owner: string, target: seq<Entry>)
    ensures PassesAt(race, [move] + more, i, owner, target) <==>
            ThroughAt(race, i, owner, target) || PassesAt(Next(race, move), more, i, owner, target)
  {
    assert ([move] + more)[1..] == more;
  }

  lemma {:induction false} PassesLater(race: Race, x: seq<Move>, y: seq<Move>, i: nat, owner: string, target: seq<Entry>)
    requires PassesAt(Play(race, x), y, i, owner, target)
    ensures PassesAt(race, x + y, i, owner, target)
    decreases |x|
  {
    if x == [] {
      assert x + y == y;
    } else {
      assert x == [x[0]] + x[1..] && x + y == [x[0]] + (x[1..] + y);
      PlayCons(race, x[0], x[1..]);
      PassesLater(Next(race, x[0]), x[1..], y, i, owner, target);
      PassesUnfolds(race, x[0], x[1..] + y, i, owner, target);
    }
  }

  /** A call in a race with nothing in between: it enters behind `i` others and has
      all the turns it may need; turns after it has left do nothing. */
  function Turns(i: nat, faults: Faults, n: nat): (moves: seq<Move>)
    ensures |moves| == n && forall k :: 0 <= k < n ==> moves[k] == Turn(i, faults)
  {
    if n == 0 then [] else [Turn(i, faults)] + Turns(i, faults, n - 1)
  }

  function CallMoves(i: nat, c: Call): seq<Move> {
    if c.faults(CreateLedger) || c.faults(ReadLedger) then []
    else [Enter(c.owner, c.migrations)] + Turns(i, c.faults, |Sorted(c.migrations)| + 1)
  }

  function RunMoves(i: nat, calls: seq<Call>): seq<Move> {
    if calls == [] then [] else RunMoves(i, calls[..|calls| - 1]) + CallMoves(i, calls[|calls| - 1])
  }

  lemma {:induction false} IdleTurns(race: Race, i: nat, faults: Faults, n: nat, owner: string, target: seq<Entry>)
    requires i >= |race.workers|
    ensures Play(race, Turns(i, faults, n)) == race
    ensures !PassesAt(race, Turns(i, faults, n), i, owner, target)
  {
    if n > 0 {
      var more := Turns(i, faults, n - 1);
      assert Extend(race.store, []) == race.store;
      IdleTurns(race, i, faults, n - 1, owner, target);
      PlayCons(race, Turn(i, faults), more);
      PassesUnfolds(race, Turn(i, faults), more, i, owner, target);
    }
  }

  /** One turn of the last call is one round of its loop. */
  lemma {:induction false} TurnIsRound(race: Race, others: seq<Worker>, w: Worker, faults: Faults)
    requires race.workers == others + [w] && w.next <= |w.entries|
    ensures var after := Next(race, Turn(|others|, faults));
            var loop := Loop(race.store, w.owner, w.applied, w.entries[w.next..], faults);
            if Skips(w) || Succeeds(race.store, w, faults)
            then
              && after.workers == others + [w.(next := w.next + 1)]
              && loop == Loop(after.store, w.owner, w.applied, w.entries[w.next + 1..], faults)
            else after == Race(loop.store, others) && (loop.outcome == Done <==> w.next == |w.entries|)
  {
    assert Extend(race.store, []) == race.store;
    if w.next < |w.entries| {
      assert w.entries[w.next..][1..] == w.entries[w.next + 1..];
    }
  }

  /** The turns of a call that nothing comes between are its loop; it gets through
      exactly when the loop ends without an error. */
  lemma {:induction false} TurnsAreLoop(race: Race, others: seq<Worker>, w: Worker, faults: Faults, n: nat)
    requires race.workers == others + [w] && w.next <= |w.entries| < w.next + n
    ensures var loop := Loop(race.store, w.owner, w.applied, w.entries[w.next..], faults);
            && Play(race, Turns(|others|, faults, n)) == Race(loop.store, others)
            && (loop.outcome == Done <==> PassesAt(race, Turns(|others|, faults, n), |others|, w.owner, w.entries))
    decreases n
  {
    var turn, more := Turn(|others|, faults), Turns(|others|, faults, n - 1);
    TurnIsRound(race, others, w, faults);
    PlayCons(race, turn, more);
    PassesUnfolds(race, turn, more, |others|, w.owner, w.entries);
    if Skips(w) || Succeeds(race.store, w, faults) {
      TurnsAreLoop(Next(race, turn), others, w.(next := w.next + 1), faults, n - 1);
    } else {
      IdleTurns(Next(race, turn), |others|, faults, n - 1, w.owner, w.entries);
    }
  }

  /** A call with nothing in between, beside any calls that wait, does what `Perform`
      says, and gets through exactly when it returns without an error. */
  lemma {:induction false} CallIsRace(race: Race, c: Call)
    ensures var moves := CallMoves(|race.workers|, c);
            && Play(race, moves) == Race(Perform(race.store, c).store, race.workers)
            && (Perform(race.store, c).outcome == Done <==>
                PassesAt(race, moves, |race.workers|, c.owner, Sorted(c.migrations)))
  {
    var i := |race.workers|;
    if c.faults(CreateLedger) || c.faults(ReadLedger) {
      IdleTurns(race, i, c.faults, 0, c.owner, Sorted(c.migrations));
    } else {
      var enter, turns := Enter(c.owner, c.migrations), Turns(i, c.faults, |Sorted(c.migrations)| + 1);
      var w := Worker(c.owner, AppliedVersions(race.store.ledger, c.owner), Sorted(c.migrations), 0);
      assert Extend(race.store, []) == race.store;
      PlayCons(race, enter, turns);
      PassesUnfolds(race, enter, turns, i, c.owner, Sorted(c.migrations));
      TurnsAreLoop(Next(race, enter), race.workers, w, c.faults, |w.entries| + 1);
      assert w.entries[0..] == w.entries;
      LoopIsSettle(race.store, c.owner, Sorted(c.migrations), c.faults);
    }
  }

  /** Every run of calls one after the other is the race of these calls. */
  lemma {:induction false} RunIsRace(race: Race, calls: seq<Call>)
    ensures Play(race, RunMoves(|race.workers|, calls)) == Race(Run(race.store, calls), race.workers)
  {
    if calls != [] {
      var i, n := |race.workers|, |calls| - 1;
      RunIsRace(race, calls[..n]);
      CallIsRace(Race(Run(race.store, calls[..n]), race.workers), calls[n]);
      PlayMore(race, RunMoves(i, calls[..n]), CallMoves(i, calls[n]));
    }
  }

  /** In whatever state a race is, whatever failed before and whichever calls are
      under way, a call that enters now, meets no fault and is left alone gets
      through exactly when no two migrations it has to do share a version. */
  lemma {:induction false} RetryGetsThroughIff(race: Race, owner: string, migrations: seq<Migration>)
    ensures PassesAt(race, [Enter(owner, migrations)] + Turns(|race.workers|, NoFaults(), |Sorted(migrations)| + 1),
                     |race.workers|, owner, Sorted(migrations))
            <==> DistinctVersions(Pending(race.store.ledger, owner, Sorted(migrations)))
  {
    CallIsRace(race, Call(owner, migrations, NoFaults()));
    CleanCallSucceedsIff(race.store, owner, migrations);
  }

  // ---------------------------------------------------------------- upgrades one call at a time

  /** The calls of a run are the only ones that enter its race. */
  lemma {:induction false} RunEnters(i: nat, calls: seq<Call>, k: nat)
    requires k < |RunMoves(i, calls)| && RunMoves(i, calls)[k].Enter?
    ensures exists j :: 0 <= j < |calls| && RunMoves(i, calls)[k] == Enter(calls[j].owner, calls[j].migrations)
  {
    var n := |calls| - 1;
    var before := RunMoves(i, calls[..n]);
    if k < |before| {
      RunEnters(i, calls[..n], k);
      var j :| 0 <= j < n && before[k] == Enter(calls[..n][j].owner, calls[..n][j].migrations);
      assert calls[..n][j] == calls[j];
    } else {
      assert RunMoves(i, calls)[k] == CallMoves(i, calls[n])[k - |before|];
    }
  }

  lemma {:induction false} RunGetsThrough(start: Store, owner: string, target: seq<Entry>, calls: seq<Call>)
    requires EndsInTarget(start, owner, target, calls)
    ensures GotThrough(Race(start, []), RunMoves(0, calls), owner, target)
  {
    var race, n := Race(start, []), |calls| - 1;
    RunIsRace(race, calls[..n]);
    CallIsRace(Race(Run(start, calls[..n]), []), calls[n]);
    PassesLater(race, RunMoves(0, calls[..n]), CallMoves(0, calls[n]), 0, owner, target);
  }

  /** Upgrading through any releases, in any order and with any failed calls
      retried in between, ends in the store of one clean call with the final
      list, once a call with the final list succeeds. */
  lemma {:induction false} UpgradeEqualsFreshInstall(start: Store, owner: string, final: seq<Migration>, calls: seq<Call>)
    requires DistinctVersions(Sorted(final))
    requires forall k :: 0 <= k < |calls| ==>
                           calls[k].owner == owner && Sorted(calls[k].migrations) <= Sorted(final)
    requires EndsInTarget(start, owner, Sorted(final), calls)
    ensures Apply(start, owner, final, NoFaults()) == Report(Done, Run(start, calls))
  {
    var moves := RunMoves(0, calls);
    forall k | 0 <= k < |moves| && moves[k].Enter?
      ensures moves[k].owner == owner && Sorted(moves[k].migrations) <= Sorted(final)
    {
      RunEnters(0, calls, k);
    }
    RunGetsThrough(start, owner, Sorted(final), calls);
    RaceEqualsFreshInstall(start, owner, final, moves);
    RunIsRace(Race(start, []), calls);
  }
}
