/**
 Feedback submissions: the validated entry, the service that counts and then
 inserts, and the rolling-window budget over every run, first with whole
 submissions and then with counting and inserting as separate steps of requests
 that overlap.
 */
module Feedback {
  import opened Text
  import Utf8

  datatype Sentiment = Up | Down

  datatype Error = InvalidComment | InvalidSentiment | RateLimited | Persistence

  datatype Result<+T> = Ok(value: T) | Err(error: Error)

  const MAX_COMMENT_LEN := 2000
  const RATE_LIMIT: nat := 5
  const RATE_WINDOW_SECS := 24 * 60 * 60

  /** `char::is_control`: the Unicode category Cc. */
  predicate IsControl(c: char) {
    c as int < 0x20 || 0x7F <= c as int < 0xA0
  }

  datatype Entry = Entry(id: int, account: int, sentiment: Sentiment, comment: Option<string>, createdAt: int)

  function ValidateComment(raw: string): Result<string> {
    var trimmed := Trim(raw);
    if trimmed == "" then Err(InvalidComment)
    else if |Utf8.Encode(trimmed)| > MAX_COMMENT_LEN then Err(InvalidComment)
    else if exists k | 0 <= k < |trimmed| :: IsControl(trimmed[k]) then Err(InvalidComment)
    else Ok(trimmed)
  }

  /** `FeedbackEntry::new`: a blank comment is dropped, any other is validated. */
  function NewEntry(id: int, account: int, sentiment: Sentiment, comment: Option<string>, createdAt: int): Result<Entry> {
    match comment
    case Some(raw) =>
      if Trim(raw) == "" then Ok(Entry(id, account, sentiment, None, createdAt))
      else
        (match ValidateComment(raw)
         case Err(e) => Err(e)
         case Ok(text) => Ok(Entry(id, account, sentiment, Some(text), createdAt)))
    case None => Ok(Entry(id, account, sentiment, None, createdAt))
  }

  /** No comment, a blank one, or one of at most 2000 bytes without control characters
      once its margins are cut. */
  ghost predicate AcceptableComment(comment: Option<string>) {
    comment.Some? && !Blank(comment.value) ==>
      && |Utf8.Encode(Trim(comment.value))| <= 2000
      && forall c: char :: c in Trim(comment.value) ==> 31 < c as int < 127 || 159 < c as int
  }

  /** An acceptable comment is stored without its margins, a blank one not at all, and
      every other one is refused. */
  lemma {:induction false} EntryStoresComment(
    id: int, account: int, sentiment: Sentiment, comment: Option<string>, createdAt: int)
    ensures var stored := if comment.Some? && !Blank(comment.value) then Some(Trim(comment.value)) else None;
            NewEntry(id, account, sentiment, comment, createdAt)
            == if AcceptableComment(comment) then Ok(Entry(id, account, sentiment, stored, createdAt)) else Err(InvalidComment)
  {
    if comment.Some? {
      var t := Trim(comment.value);
      TrimEmptyIffBlank(comment.value);
      assert forall k :: 0 <= k < |t| ==> t[k] in t;
      assert (exists k | 0 <= k < |t| :: IsControl(t[k])) <==> exists c :: c in t && IsControl(c);
    }
  }

  function SentimentText(s: Sentiment): string {
    match s case Up => "up" case Down => "down"
  }

  function ParseSentiment(t: string): Result<Sentiment> {
    if t == "up" then Ok(Up) else if t == "down" then Ok(Down) else Err(InvalidSentiment)
  }

  /** A stored row, and `row_entry`, which validates it again on the way out. */
  datatype StoredRow = StoredRow(id: int, account: int, sentiment: string, comment: Option<string>, createdAt: int)

  function ToRow(e: Entry): StoredRow {
    StoredRow(e.id, e.account, SentimentText(e.sentiment), e.comment, e.createdAt)
  }

  function RowEntry(r: StoredRow): Result<Entry> {
    match ParseSentiment(r.sentiment)
    case Err(e) => Err(e)
    case Ok(s) => NewEntry(r.id, r.account, s, r.comment, r.createdAt)
  }

  /** Whatever the service stores, the repository reads back unchanged: the second
      validation accepts every entry the first one built. */
  lemma {:induction false} StoredEntryReloads(
    id: int, account: int, sentiment: Sentiment, comment: Option<string>, createdAt: int)
    ensures var r := NewEntry(id, account, sentiment, comment, createdAt);
            r.Ok? ==> RowEntry(ToRow(r.value)) == r
  {
    if comment.Some? {
      var w, v := TrimMargins(comment.value);
      TrimKeepsTrimmed(Trim(comment.value));
    }
    assert "up" != "down";
  }

  /** A row with any other sentiment than the two that are stored is refused. */
  lemma {:induction false} UnknownSentimentIsRefused(r: StoredRow)
    ensures r.sentiment != "up" && r.sentiment != "down" <==> RowEntry(r) == Err(InvalidSentiment)
    ensures forall e: Entry :: ToRow(e).sentiment == if e.sentiment.Up? then "up" else "down"
  {
    EntryStoresComment(r.id, r.account, Up, r.comment, r.createdAt);
    EntryStoresComment(r.id, r.account, Down, r.comment, r.createdAt);
  }

  // ---------------------------------------------------------------- counting

  predicate Within(e: Entry, account: int, lo: int, hi: int) {
    e.account == account && lo <= e.createdAt <= hi
  }

  /** Entries of `account` stamped in the closed window from `lo` to `hi`. */
  function CountBetween(table: seq<Entry>, account: int, lo: int, hi: int): nat {
    if table == [] then 0
    else
      CountBetween(table[..|table| - 1], account, lo, hi)
      + if Within(table[|table| - 1], account, lo, hi) then 1 else 0
  }

  /** `count_in_window`: no upper bound on the time. */
  function CountSince(table: seq<Entry>, account: int, since: int): nat {
    if table == [] then 0
    else
      var e := table[|table| - 1];
      CountSince(table[..|table| - 1], account, since)
      + if e.account == account && e.createdAt >= since then 1 else 0
  }

  predicate RateLimitExceeded(count: nat, limit: nat) { count >= limit }

  /** A window is counted in full from any clock reading that is not past it. */
  lemma {:induction false} WindowIsCounted(table: seq<Entry>, account: int, lo: int, hi: int, since: int)
    requires since <= lo
    ensures CountBetween(table, account, lo, hi) <= CountSince(table, account, since)
  {
    if table != [] {
      WindowIsCounted(table[..|table| - 1], account, lo, hi, since);
    }
  }

  /** Up to the latest stamp, what is counted is the window from `since`. */
  lemma {:induction false} CountIsWindow(table: seq<Entry>, account: int, since: int, hi: int)
    requires forall e :: e in table ==> e.createdAt <= hi
    ensures CountSince(table, account, since) == CountBetween(table, account, since, hi)
  {
    if table != [] {
      CountIsWindow(table[..|table| - 1], account, since, hi);
      assert table[|table| - 1] in table;
    }
  }

  lemma {:induction false} CountSinceConcat(x: seq<Entry>, y: seq<Entry>, account: int, since: int)
    ensures CountSince(x + y, account, since) == CountSince(x, account, since) + CountSince(y, account, since)
    decreases |y|
  {
    if y == [] {
      assert x + y == x;
    } else {
      var n := |y| - 1;
      assert (x + y)[..|x| + n] == x + y[..n];
      CountSinceConcat(x, y[..n], account, since);
    }
  }

  /** One entry counts if it is of the account and not older than `since`, wherever it
      is in the table. */
  lemma {:induction false} EntryCounts(x: seq<Entry>, e: Entry, y: seq<Entry>, account: int, since: int)
    ensures CountSince(x + [e] + y, account, since)
            == CountSince(x + y, account, since) + if e.account == account && since <= e.createdAt then 1 else 0
  {
    CountSinceConcat(x + [e], y, account, since);
    CountSinceConcat(x, [e], account, since);
    CountSinceConcat(x, y, account, since);
    assert [e][..0] == [];
    assert CountSince([], account, since) == 0;
  }

  // ---------------------------------------------------------------- the service

  /** One call of `submit`: its arguments, the clock reading, the fresh id, and
      which of its two database calls fail. */
  datatype Submission = Submission(
    account: int, sentiment: Sentiment, comment: Option<string>, now: int, id: int, countFails: bool, insertFails: bool)

  datatype Reply = Reply(result: Result<Entry>, table: seq<Entry>)

  /** The entry a submission would store, or the error that prevents it, read off
      the table it is counted against. */
  function Decide(table: seq<Entry>, limit: nat, window: int, s: Submission): Result<Entry> {
    if s.countFails then Err(Persistence)
    else if RateLimitExceeded(CountSince(table, s.account, s.now - window), limit) then Err(RateLimited)
    else
      var entry := NewEntry(s.id, s.account, s.sentiment, s.comment, s.now);
      if entry.Ok? && s.insertFails then Err(Persistence) else entry
  }

  function Submitted(table: seq<Entry>, limit: nat, window: int, s: Submission): Reply {
    var r := Decide(table, limit, window, s);
    Reply(r, if r.Ok? then table + [r.value] else table)
  }

  /** Entries of other accounts, and entries older than the window, do not change the
      reply. */
  lemma {:induction false} ReplyIgnoresEntry(
    x: seq<Entry>, e: Entry, y: seq<Entry>, limit: nat, window: int, s: Submission)
    requires e.account != s.account || e.createdAt < s.now - window
    ensures Submitted(x + [e] + y, limit, window, s).result == Submitted(x + y, limit, window, s).result
  {
    EntryCounts(x, e, y, s.account, s.now - window);
  }

  /** When a submission is refused for its account's budget, and when it is stored, on
      a table with no stamp after now. */
  lemma {:induction false} SubmissionOutcomes(table: seq<Entry>, limit: nat, window: int, s: Submission)
    requires forall e :: e in table ==> e.createdAt <= s.now
    ensures var reply := Submitted(table, limit, window, s);
            var full := limit <= CountBetween(table, s.account, s.now - window, s.now);
            && (reply.result == Err(RateLimited) <==> !s.countFails && full)
            && (reply.result.Ok? <==> !s.countFails && !full && AcceptableComment(s.comment) && !s.insertFails)
            && (reply.result == Err(InvalidComment) <==> !s.countFails && !full && !AcceptableComment(s.comment))
            && (reply.result.Ok? ==> reply.table == table + [reply.result.value])
            && (reply.result.Err? ==> reply.table == table)
  {
    CountIsWindow(table, s.account, s.now - window, s.now);
    EntryStoresComment(s.id, s.account, s.sentiment, s.comment, s.now);
  }

  class FeedbackService {
    const limit: nat
    const window: int
    var table: seq<Entry>

    /** A service over a repository, with the default budget. */
    constructor (stored: seq<Entry>)
      ensures limit == 5 && window == 86_400 && table == stored
    {
      limit, window, table := RATE_LIMIT, RATE_WINDOW_SECS, stored;
    }

    method CountInWindow(account: int, since: int) returns (count: nat)
      ensures count == CountSince(table, account, since)
    {
      count := 0;
      for i := 0 to |table|
        invariant count == CountSince(table[..i], account, since)
      {
        assert table[..i + 1][..i] == table[..i];
        if table[i].account == account && table[i].createdAt >= since {
          count := count + 1;
        }
      }
      assert table[..|table|] == table;
    }

    method Insert(entry: Entry)
      modifies this
      ensures table == old(table) + [entry]
    {
      table := table + [entry];
    }

    method Submit(s: Submission) returns (r: Result<Entry>)
      modifies this
      ensures Reply(r, table) == Submitted(old(table), limit, window, s)
    {
      var since := s.now - window;
      if s.countFails {
        return Err(Persistence);
      }
      var count := CountInWindow(s.account, since);
      if RateLimitExceeded(count, limit) {
        return Err(RateLimited);
      }
      var entry := NewEntry(s.id, s.account, s.sentiment, s.comment, s.now);
      if entry.Err? {
        return entry;
      }
      if s.insertFails {
        return Err(Persistence);
      }
      Insert(entry.value);
      return entry;
    }
  }

  function SubmitAll(table: seq<Entry>, limit: nat, window: int, subs: seq<Submission>): seq<Entry> {
    if subs == [] then table
    else Submitted(SubmitAll(table, limit, window, subs[..|subs| - 1]), limit, window, subs[|subs| - 1]).table
  }

  // ---------------------------------------------------------------- requests in flight

  /** The stored table, and the entries of the requests that have been counted
      and let through but have not inserted yet. */
  datatype System = System(table: seq<Entry>, inFlight: seq<Entry>)

  datatype Step =
    | Count(entry: Entry)    // a request stamped `entry.createdAt` runs its count
    | Store(index: nat)      // a request in flight inserts
    | Abandon(index: nat)    // a request in flight fails before inserting

  function Remove(s: seq<Entry>, k: nat): (r: seq<Entry>)
    requires k < |s|
    ensures |r| == |s| - 1
  {
    s[..k] + s[k + 1..]
  }

  function Next(sys: System, limit: nat, window: int, step: Step): System {
    match step
    case Count(e) =>
      if RateLimitExceeded(CountSince(sys.table, e.account, e.createdAt - window), limit) then sys
      else sys.(inFlight := sys.inFlight + [e])
    case Store(k) =>
      if k < |sys.inFlight| then System(sys.table + [sys.inFlight[k]], Remove(sys.inFlight, k)) else sys
    case Abandon(k) =>
      if k < |sys.inFlight| then sys.(inFlight := Remove(sys.inFlight, k)) else sys
  }

  function Execute(sys: System, limit: nat, window: int, steps: seq<Step>): System {
    if steps == [] then sys
    else Next(Execute(sys, limit, window, steps[..|steps| - 1]), limit, window, steps[|steps| - 1])
  }

  function Held(s: seq<Entry>, account: int): nat {
    if s == [] then 0 else Held(s[..|s| - 1], account) + if s[|s| - 1].account == account then 1 else 0
  }

  /** The requests in flight are counted one by one, whatever their stamps. */
  lemma {:induction false} HeldIsCount(s: seq<Entry>, account: int, lo: int, hi: int)
    requires forall e :: e in s ==> lo <= e.createdAt <= hi
    ensures Held(s, account) == CountBetween(s, account, lo, hi)
  {
    if s != [] {
      HeldIsCount(s[..|s| - 1], account, lo, hi);
      assert s[|s| - 1] in s;
    }
  }

  /** At no point of the run are more than `n` requests of `account` in flight. */
  ghost predicate AtMostInFlight(start: System, limit: nat, window: int, steps: seq<Step>, account: int, n: nat) {
    forall i :: 0 <= i <= |steps| ==> Held(Execute(start, limit, window, steps[..i]).inFlight, account) <= n
  }

  lemma {:induction false} CountConcat(x: seq<Entry>, y: seq<Entry>, account: int, lo: int, hi: int)
    ensures CountBetween(x + y, account, lo, hi) == CountBetween(x, account, lo, hi) + CountBetween(y, account, lo, hi)
    decreases |y|
  {
    if y == [] {
      assert x + y == x;
    } else {
      var n := |y| - 1;
      assert (x + y)[..|x| + n] == x + y[..n];
      CountConcat(x, y[..n], account, lo, hi);
    }
  }

  lemma {:induction false} CountOne(e: Entry, account: int, lo: int, hi: int)
    ensures CountBetween([e], account, lo, hi) == if Within(e, account, lo, hi) then 1 else 0
  {
  }

  lemma {:induction false} CountRemove(s: seq<Entry>, k: nat, account: int, lo: int, hi: int)
    requires k < |s|
    ensures CountBetween(s, account, lo, hi)
            == CountBetween(Remove(s, k), account, lo, hi) + if Within(s[k], account, lo, hi) then 1 else 0
  {
    assert s == s[..k] + [s[k]] + s[k + 1..];
    CountConcat(s[..k] + [s[k]], s[k + 1..], account, lo, hi);
    CountConcat(s[..k], [s[k]], account, lo, hi);
    CountConcat(s[..k], s[k + 1..], account, lo, hi);
    CountOne(s[k], account, lo, hi);
  }

  lemma {:induction false} CountAtMostHeld(s: seq<Entry>, account: int, lo: int, hi: int)
    ensures CountBetween(s, account, lo, hi) <= Held(s, account)
  {
    if s != [] {
      CountAtMostHeld(s[..|s| - 1], account, lo, hi);
    }
  }

  /** Stored plus in-flight entries in one window. */
  function Load(sys: System, account: int, lo: int, hi: int): nat {
    CountBetween(sys.table, account, lo, hi) + CountBetween(sys.inFlight, account, lo, hi)
  }

  function Bound(limit: nat, n: nat): nat
    requires n >= 1
  {
    if limit == 0 then 0 else limit + n - 1
  }

  function Max(a: nat, b: nat): nat { if a <= b then b else a }

  /** No step raises the load past the bound, nor at all where it is past it already. */
  lemma {:induction false} LoadStep(sys: System, limit: nat, window: int, step: Step, account: int, n: nat, lo: int)
    requires n >= 1 && Held(Next(sys, limit, window, step).inFlight, account) <= n
    ensures Load(Next(sys, limit, window, step), account, lo, lo + window)
            <= Max(Load(sys, account, lo, lo + window), Bound(limit, n))
  {
    var hi := lo + window;
    match step
    case Count(e) =>
      CountConcat(sys.inFlight, [e], account, lo, hi);
      CountOne(e, account, lo, hi);
      if Within(e, account, lo, hi) {
        WindowIsCounted(sys.table, account, lo, hi, e.createdAt - window);
        CountAtMostHeld(sys.inFlight + [e], account, lo, hi);
      }
    case Store(k) =>
      if k < |sys.inFlight| {
        CountConcat(sys.table, [sys.inFlight[k]], account, lo, hi);
        CountOne(sys.inFlight[k], account, lo, hi);
        CountRemove(sys.inFlight, k, account, lo, hi);
      }
    case Abandon(k) =>
      if k < |sys.inFlight| {
        CountRemove(sys.inFlight, k, account, lo, hi);
      }
  }

  lemma {:induction false} LoadBound(
    start: System, limit: nat, window: int, steps: seq<Step>, account: int, n: nat, lo: int)
    requires n >= 1 && AtMostInFlight(start, limit, window, steps, account, n)
    ensures Load(Execute(start, limit, window, steps), account, lo, lo + window)
            <= Max(Load(start, account, lo, lo + window), Bound(limit, n))
  {
    if steps != [] {
      var k := |steps| - 1;
      assert forall i :: 0 <= i <= k ==> steps[..k][..i] == steps[..i];
      LoadBound(start, limit, window, steps[..k], account, n, lo);
      assert steps[..k + 1] == steps;
      LoadStep(Execute(start, limit, window, steps[..k]), limit, window, steps[k], account, n, lo);
    }
  }

  /** With counting and inserting interleaved in any way, and clock readings of any
      kind, a closed window holds at most `limit + n - 1` entries of an account
      that never has more than `n` requests between their count and their insert,
      or what it held at the start if that was more. */
  lemma {:induction false} ConcurrentWindowBound(
    start: System, limit: nat, window: int, steps: seq<Step>, account: int, n: nat, lo: int)
    requires n >= 1 && AtMostInFlight(start, limit, window, steps, account, n)
    ensures CountBetween(Execute(start, limit, window, steps).table, account, lo, lo + window)
            <= Max(Load(start, account, lo, lo + window), Bound(limit, n))
  {
    LoadBound(start, limit, window, steps, account, n, lo);
  }

  // ---------------------------------------------------------------- the bound is reached

  lemma {:induction false} PushStep(
    start: System, limit: nat, window: int, steps: seq<Step>, step: Step, account: int, n: nat)
    requires AtMostInFlight(start, limit, window, steps, account, n)
    requires Held(Next(Execute(start, limit, window, steps), limit, window, step).inFlight, account) <= n
    ensures AtMostInFlight(start, limit, window, steps + [step], account, n)
    ensures Execute(start, limit, window, steps + [step]) == Next(Execute(start, limit, window, steps), limit, window, step)
  {
    var longer := steps + [step];
    assert longer[..|steps|] == steps;
    forall i | 0 <= i <= |longer|
      ensures Held(Execute(start, limit, window, longer[..i]).inFlight, account) <= n
    {
      if i <= |steps| {
        assert longer[..i] == steps[..i];
      } else {
        assert longer[..i] == longer;
      }
    }
  }

  function Copies(e: Entry, k: nat): (r: seq<Entry>)
    ensures |r| == k
  {
    seq(k, i => e)
  }

  lemma {:induction false} CountCopies(e: Entry, k: nat, lo: int, hi: int)
    requires lo <= e.createdAt <= hi
    ensures CountBetween(Copies(e, k), e.account, lo, hi) == k
    ensures CountSince(Copies(e, k), e.account, lo) == k
    ensures Held(Copies(e, k), e.account) == k
  {
    if k > 0 {
      assert Copies(e, k)[..k - 1] == Copies(e, k - 1);
      CountCopies(e, k - 1, lo, hi);
    }
  }

  lemma {:induction false} NextCount(limit: nat, window: int, e: Entry, stored: nat, held: nat)
    requires window >= 0 && stored < limit
    ensures Next(System(Copies(e, stored), Copies(e, held)), limit, window, Count(e))
            == System(Copies(e, stored), Copies(e, held + 1))
  {
    CountCopies(e, stored, e.createdAt - window, e.createdAt);
    assert Copies(e, held) + [e] == Copies(e, held + 1);
  }

  lemma {:induction false} NextStore(limit: nat, window: int, e: Entry, stored: nat, held: nat)
    requires held >= 1
    ensures Next(System(Copies(e, stored), Copies(e, held)), limit, window, Store(0))
            == System(Copies(e, stored + 1), Copies(e, held - 1))
  {
  }

  /** A run that keeps to `n` in flight has reached `stored` and `held` copies of `e`. */
  ghost predicate Reaches(limit: nat, window: int, n: nat, e: Entry, steps: seq<Step>, stored: nat, held: nat) {
    && AtMostInFlight(System([], []), limit, window, steps, e.account, n)
    && Execute(System([], []), limit, window, steps) == System(Copies(e, stored), Copies(e, held))
  }

  lemma {:induction false} PushCount(limit: nat, window: int, n: nat, e: Entry, steps: seq<Step>, stored: nat, held: nat)
    requires window >= 0 && stored < limit && held < n && Reaches(limit, window, n, e, steps, stored, held)
    ensures Reaches(limit, window, n, e, steps + [Count(e)], stored, held + 1)
  {
    NextCount(limit, window, e, stored, held);
    CountCopies(e, held + 1, e.createdAt, e.createdAt);
    PushStep(System([], []), limit, window, steps, Count(e), e.account, n);
  }

  lemma {:induction false} PushStore(limit: nat, window: int, n: nat, e: Entry, steps: seq<Step>, stored: nat, held: nat)
    requires 1 <= held <= n && Reaches(limit, window, n, e, steps, stored, held)
    ensures Reaches(limit, window, n, e, steps + [Store(0)], stored + 1, held - 1)
  {
    NextStore(limit, window, e, stored, held);
    CountCopies(e, held - 1, e.createdAt, e.createdAt);
    PushStep(System([], []), limit, window, steps, Store(0), e.account, n);
  }

  /** Undisturbed requests fill the table up to the limit. */
  lemma {:induction false} Fill(limit: nat, window: int, n: nat, e: Entry, k: nat) returns (steps: seq<Step>)
    requires window >= 0 && n >= 1 && k <= limit
    ensures Reaches(limit, window, n, e, steps, k, 0)
  {
    if k == 0 {
      steps := [];
      assert Copies(e, 0) == [];
    } else {
      steps := Fill(limit, window, n, e, k - 1);
      PushCount(limit, window, n, e, steps, k - 1, 0);
      PushStore(limit, window, n, e, steps + [Count(e)], k - 1, 1);
      steps := steps + [Count(e)] + [Store(0)];
    }
  }

  /** Requests that all count before any of them inserts. */
  lemma {:induction false} Crowd(limit: nat, window: int, n: nat, e: Entry, k: nat) returns (steps: seq<Step>)
    requires window >= 0 && limit >= 1 && k <= n && n >= 1
    ensures Reaches(limit, window, n, e, steps, limit - 1, k)
  {
    if k == 0 {
      steps := Fill(limit, window, n, e, limit - 1);
    } else {
      steps := Crowd(limit, window, n, e, k - 1);
      PushCount(limit, window, n, e, steps, limit - 1, k - 1);
      steps := steps + [Count(e)];
    }
  }

  lemma {:induction false} Drain(limit: nat, window: int, n: nat, e: Entry, k: nat) returns (steps: seq<Step>)
    requires window >= 0 && limit >= 1 && k <= n && n >= 1
    ensures Reaches(limit, window, n, e, steps, limit - 1 + k, n - k)
  {
    if k == 0 {
      steps := Crowd(limit, window, n, e, n);
    } else {
      steps := Drain(limit, window, n, e, k - 1);
      PushStore(limit, window, n, e, steps, limit - 1 + k - 1, n - k + 1);
      steps := steps + [Store(0)];
    }
  }

  /** The bound is exact: some interleaving with `n` requests in flight stores
      `limit + n - 1` entries in one window. */
  lemma {:induction false} ConcurrentBoundIsReached(limit: nat, window: int, n: nat, e: Entry) returns (steps: seq<Step>)
    requires limit >= 1 && n >= 1 && window >= 0
    ensures AtMostInFlight(System([], []), limit, window, steps, e.account, n)
    ensures CountBetween(Execute(System([], []), limit, window, steps).table, e.account, e.createdAt, e.createdAt + window)
            == Bound(limit, n)
  {
    steps := Drain(limit, window, n, e, n);
    CountCopies(e, limit + n - 1, e.createdAt, e.createdAt + window);
  }

  // ---------------------------------------------------------------- whole submissions

  /** The entry a submission is counted for. */
  function Stamp(s: Submission): Entry {
    var entry := NewEntry(s.id, s.account, s.sentiment, s.comment, s.now);
    if entry.Ok? then entry.value else Entry(s.id, s.account, s.sentiment, None, s.now)
  }

  /** How a submission ends if its count lets it through. */
  function Finish(s: Submission): Step {
    if NewEntry(s.id, s.account, s.sentiment, s.comment, s.now).Ok? && !s.insertFails then Store(0) else Abandon(0)
  }

  /** A whole submission is its count followed at once by its insert. */
  lemma {:induction false} SubmissionIsTwoSteps(table: seq<Entry>, limit: nat, window: int, s: Submission)
    ensures var mid := if s.countFails then System(table, []) else Next(System(table, []), limit, window, Count(Stamp(s)));
            var end := if s.countFails then mid else Next(mid, limit, window, Finish(s));
            && end == System(Submitted(table, limit, window, s).table, [])
            && forall account :: Held(mid.inFlight, account) <= 1
  {
    var e := Stamp(s);
    assert Remove([e], 0) == [];
    assert [] + [e] == [e] && [e][..0] == [];
  }

  /** The steps of a submission that nothing comes between. */
  function StepsOfOne(s: Submission): seq<Step> {
    if s.countFails then [] else [Count(Stamp(s)), Finish(s)]
  }

  function StepsOf(subs: seq<Submission>): seq<Step> {
    if subs == [] then [] else StepsOf(subs[..|subs| - 1]) + StepsOfOne(subs[|subs| - 1])
  }

  lemma {:induction false} OneMoreSubmission(
    start: System, limit: nat, window: int, steps: seq<Step>, table: seq<Entry>, s: Submission, account: int)
    requires AtMostInFlight(start, limit, window, steps, account, 1)
    requires Execute(start, limit, window, steps) == System(table, [])
    ensures AtMostInFlight(start, limit, window, steps + StepsOfOne(s), account, 1)
    ensures Execute(start, limit, window, steps + StepsOfOne(s)) == System(Submitted(table, limit, window, s).table, [])
  {
    SubmissionIsTwoSteps(table, limit, window, s);
    if s.countFails {
      assert steps + StepsOfOne(s) == steps;
    } else {
      PushStep(start, limit, window, steps, Count(Stamp(s)), account, 1);
      PushStep(start, limit, window, steps + [Count(Stamp(s))], Finish(s), account, 1);
      ConcatAssoc(steps, [Count(Stamp(s))], [Finish(s)]);
      assert [Count(Stamp(s))] + [Finish(s)] == StepsOfOne(s);
    }
  }

  /** Submissions that follow one another are a run with one request in flight. */
  lemma {:induction false} SubmissionsAreSteps(
    table: seq<Entry>, limit: nat, window: int, subs: seq<Submission>, account: int)
    ensures AtMostInFlight(System(table, []), limit, window, StepsOf(subs), account, 1)
    ensures Execute(System(table, []), limit, window, StepsOf(subs)) == System(SubmitAll(table, limit, window, subs), [])
  {
    if subs != [] {
      var before, s := subs[..|subs| - 1], subs[|subs| - 1];
      SubmissionsAreSteps(table, limit, window, before, account);
      OneMoreSubmission(System(table, []), limit, window, StepsOf(before), SubmitAll(table, limit, window, before), s, account);
    }
  }

  /** If submissions do not overlap, every closed window holds at most `limit`
      entries of an account, or what was stored in it before if that was more, over
      every run, even when the clock goes backwards. */
  lemma {:induction false} SequentialWindowBound(
    table: seq<Entry>, limit: nat, window: int, subs: seq<Submission>, account: int, lo: int)
    ensures CountBetween(SubmitAll(table, limit, window, subs), account, lo, lo + window)
            <= Max(CountBetween(table, account, lo, lo + window), limit)
  {
    SubmissionsAreSteps(table, limit, window, subs, account);
    ConcurrentWindowBound(System(table, []), limit, window, StepsOf(subs), account, 1, lo);
  }
}
