/**
 The listing of one address on one blocklist: what a history of observations
 leaves in its three time stamps.
 */
module Listings {
  import opened Text
  import opened IpAddresses

  datatype Stamps = Stamps(firstSeen: int, lastSeen: int, resolvedAt: Option<int>)

  datatype Observation = Observation(listed: bool, at: int)

  function Observe(s: Stamps, o: Observation): Stamps {
    Stamps(s.firstSeen, o.at,
           if o.listed then None else if s.resolvedAt.None? then Some(o.at) else s.resolvedAt)
  }

  class Listing {
    const ip: Ip
    const zone: string
    var firstSeen: int
    var lastSeen: int
    var resolvedAt: Option<int>

    /** `Listing::listed`. */
    constructor Listed(ip: Ip, zone: string, now: int)
      ensures this.ip == ip && this.zone == zone && Current() == Stamps(now, now, None)
    {
      this.ip, this.zone := ip, zone;
      firstSeen, lastSeen, resolvedAt := now, now, None;
    }

    function Current(): Stamps
      reads this
    {
      Stamps(firstSeen, lastSeen, resolvedAt)
    }

    method Upsert(listedNow: bool, now: int)
      modifies this
      ensures Current() == Observe(old(Current()), Observation(listedNow, now))
    {
      lastSeen := now;
      if listedNow {
        resolvedAt := None;
      } else if resolvedAt.None? {
        resolvedAt := Some(now);
      }
    }
  }

  /** The stamps after a listing created at `start` and a history of observations. */
  function After(start: int, history: seq<Observation>): Stamps {
    if history == [] then Stamps(start, start, None)
    else Observe(After(start, history[..|history| - 1]), history[|history| - 1])
  }

  /** Observation `i` is the first clear since the listing was last seen listed:
      it and all after it are clear, and what precedes it is listed. */
  predicate FirstClear(history: seq<Observation>, i: nat) {
    && i < |history|
    && (forall j :: i <= j < |history| ==> !history[j].listed)
    && (i == 0 || history[i - 1].listed)
  }

  lemma {:induction false} SeenStamps(start: int, history: seq<Observation>)
    ensures var s := After(start, history);
            && s.firstSeen == start
            && s.lastSeen == (if history == [] then start else history[|history| - 1].at)
            && (s.resolvedAt.None? <==> history == [] || history[|history| - 1].listed)
  {
    if history != [] {
      SeenStamps(start, history[..|history| - 1]);
    }
  }

  lemma {:induction false} ResolvedAtFirstClear(start: int, history: seq<Observation>, i: nat)
    requires FirstClear(history, i)
    ensures After(start, history).resolvedAt == Some(history[i].at)
  {
    var n := |history| - 1;
    var before := history[..n];
    SeenStamps(start, before);
    if i < n {
      ResolvedAtFirstClear(start, before, i);
    }
  }

  /** The closed form of the stamps over every history. */
  lemma {:induction false} StampsClosedForm(start: int, history: seq<Observation>)
    ensures var s := After(start, history);
            && s.firstSeen == start
            && s.lastSeen == (if history == [] then start else history[|history| - 1].at)
            && (s.resolvedAt.None? <==> history == [] || history[|history| - 1].listed)
            && (forall i: nat :: FirstClear(history, i) ==> s.resolvedAt == Some(history[i].at))
            && (s.resolvedAt.Some? ==> exists i: nat :: FirstClear(history, i))
  {
    SeenStamps(start, history);
    forall i: nat | FirstClear(history, i)
      ensures After(start, history).resolvedAt == Some(history[i].at)
    {
      ResolvedAtFirstClear(start, history, i);
    }
    if After(start, history).resolvedAt.Some? {
      var i := ClearSince(history);
    }
  }

  /** Where the run of clear observations at the end of a history starts. */
  lemma {:induction false} ClearSince(history: seq<Observation>) returns (i: nat)
    requires history != [] && !history[|history| - 1].listed
    ensures FirstClear(history, i)
  {
    i := |history| - 1;
    while i > 0 && !history[i - 1].listed
      invariant i < |history|
      invariant forall j :: i <= j < |history| ==> !history[j].listed
    {
      i := i - 1;
    }
  }

  ghost predicate InOrder(start: int, history: seq<Observation>) {
    && (forall i :: 0 <= i < |history| ==> start <= history[i].at)
    && (forall i, j :: 0 <= i < j < |history| ==> history[i].at <= history[j].at)
  }

  /** With times that do not decrease, a resolved listing was resolved between its
      first and its last observation. */
  lemma {:induction false} StampsInOrder(start: int, history: seq<Observation>)
    requires InOrder(start, history)
    ensures var s := After(start, history);
            && s.firstSeen <= s.lastSeen
            && (s.resolvedAt.Some? ==> s.firstSeen <= s.resolvedAt.value <= s.lastSeen)
  {
    StampsClosedForm(start, history);
    if After(start, history).resolvedAt.Some? {
      var i: nat :| FirstClear(history, i);
    }
  }
}
