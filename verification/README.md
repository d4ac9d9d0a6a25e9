# Verified model of openpanel's core logic

A Dafny model of the parts of openpanel whose promises span many calls or many
branches, with proofs of those promises. `dafny verify dfyconfig.toml` checks the
whole project.

What is modelled:

- **Migrations** (`Migrations.dfy`, `MigrationRuns.dfy`, `MigrationRaces.dfy`,
  `RaceUpgrades.dfy`). A module's migrations are
  applied in key order, one transaction each, against a ledger keyed by module and
  version. Every database interaction of a call may fail. Proved over all runs of
  calls: exactly-once, all-or-nothing, isolation between modules, and that any
  upgrade path ends where a fresh install ends. The same for races, in which the
  transactions of several calls interleave and each call goes by what it once read.
- **Release preflight** (`Preflight.dfy`). The decision whether a binary may start on
  a store, as a declarative statement about the ledger, and its agreement with the
  migration runner.
- **DMARC reports** (`Dmarc.dfy`, `DmarcDocuments.dfy`). A parser that only searches
  for substrings, proved to read a structured document correctly with other text
  around, behind and inside its elements, `auth_results` sections included.
- **DNSBL names and listing state** (`Dnsbl.dfy`, `Listings.dfy`).
- **Feedback rate limit** (`Feedback.dfy`). The check-then-insert protocol as a state
  machine over interleaved requests, with an exact bound.
- **Routes** (`Routes.dfy`, `Registry.dfy`). Template matching, smoke paths, and the
  route inventory.
- **Unlabelled inputs** (`InputScanner.dfy`). A substring scanner over HTML.
- **Config overrides** (`Overrides.dfy`, `OverrideWalk.dfy`). A mutable cursor walk
  over a heap of nodes, proved equal to a pure tree update with the laws of a lens.
- **Percent-encoding** (`PercentEncoding.dfy`, `Utf8.dfy`).

`Text.dfy` and `IpAddresses.dfy` hold the string and address functions the rest uses:
`find`, `rfind`, `split`, `replace`, `trim`, number parsing, ordering.

Code that changes state is a class or a method with a loop, proved against a function
on values; the promises are lemmas about that function. Every lemma switches automatic
induction off, so that each induction is written out in its body.

Where the code and its own words disagree, the model follows the code:

- The comment at `crates/openpanel-domain/src/feedback.rs:30-31` says the `limit`-th
  submission is rejected. The code accepts it and rejects the next one:
  `Feedback.SequentialWindowBound`, and `Feedback.ConcurrentBoundIsReached` with `n = 1`.
- The message at `crates/openpanel-domain/src/feedback.rs:131-134` speaks of
  characters; the code measures UTF-8 bytes.
- The window budget holds only for requests that do not overlap, because counting and
  inserting are two database calls. `Feedback.ConcurrentWindowBound` has the exact
  bound.
- Migrations run in text order and the preflight compares numbers. For versions that
  are plain numerals the two agree exactly when the versions are aligned and the
  preflight can read them: `Preflight.RunOrderIsPreflightOrderIff`. The preflight also
  reads `+1` and padded text, which that theorem does not cover.
- A migration listed twice under one key counts as its last listing, so the run order
  depends on the listing order exactly when two different migrations share a key:
  `Migrations.ListingOrderIsIrrelevantIff`.
- The call key is built from the module named in each migration, while the ledger row
  carries the module the call was made for. A list that mixes modules can therefore
  repeat a version. `MigrationRuns.CleanCallSucceedsIff` has the exact condition.
- `with_overrides` creates only the last key of a path: an intermediate key it inserts
  is null, which is not an object, so the next segment fails.
- The `None` arm at `crates/openpanel-domain/src/deliverability.rs:260` and the blank
  test at `crates/openpanel-core/src/migration.rs:104-106` can never be taken.

## Model

| member | source | states |
|---|---|---|
| `Migrations.SplitSqlConcat` | crates/openpanel-core/src/migration.rs:140-145 | cutting a script is a homomorphism: the statements of `a;b` are those of `a` followed by those of `b` |
| `Migrations.SplitSqlSingle` | crates/openpanel-core/src/migration.rs:140-145 | a script without `;` yields its trimmed text, or nothing when it is blank |
| `Migrations.StatementsAreClean` | crates/openpanel-core/src/migration.rs:103-106 | no statement is blank, padded or holds a `;`, so the blank test inside the loop never fires |
| `Migrations.SplitSqlIdempotent` | crates/openpanel-core/src/migration.rs:140-145 | joining the statements with `;` and cutting again gives the same statements |
| `Migrations.SortByKey` | crates/openpanel-core/src/migration.rs:90-93 | the loop that fills the ordered map leaves `Sorted(migrations)` |
| `Migrations.SortedIsLastWins` | crates/openpanel-core/src/migration.rs:90-95 | the loop order has strictly increasing keys and holds, for each key, exactly the last migration listed under it |
| `Migrations.OrderedIsUnique` | crates/openpanel-core/src/migration.rs:90-95 | an ordered entry list is determined by its members |
| `Migrations.SameMembersSameOrder` | crates/openpanel-core/src/migration.rs:90-95 | with one migration per key, lists with the same members run in the same order |
| `Migrations.ListingOrderIsIrrelevantIff` | crates/openpanel-core/src/migration.rs:90-95 | the run order is the same for every reordering of the list exactly when no two different migrations in it share a key; otherwise the last one listed wins |
| `Migrations.AppliedVersionsMembers` | crates/openpanel-core/src/migration.rs:128-137 | the versions read are exactly those the ledger holds for the module |
| `Migrations.AppliedVersionsAscend` | crates/openpanel-core/src/migration.rs:127-131 | the versions read are in ascending byte order, as the query promises |
| `Migrations.MigrationRunner.RunMigration` | crates/openpanel-core/src/migration.rs:102-121 | one migration commits its statements and its row together, or leaves the store untouched and reports the first interaction that failed; it commits exactly when nothing failed and its row is new |
| `Migrations.MigrationRunner.ApplyEntries` | crates/openpanel-core/src/migration.rs:95-123 | the loop over the entries leaves the outcome and store of `Loop`, against versions read once before it |
| `Migrations.MigrationRunner.ApplyModule` | crates/openpanel-core/src/migration.rs:73-125 | one call, under any choice of failing database interactions, commits the pending migrations in key order up to the first that stops and nothing else |
| `Migrations.StopsByRow` | crates/openpanel-core/src/migration.rs:114-120 | a repeated version is rejected exactly by the primary key on the ledger as it stands at that point |
| `Migrations.LoopIsSettle` | crates/openpanel-core/src/migration.rs:95-124 | the step-by-step loop and the closed form (first stopping entry of the pending list) agree on every store, list and fault choice |
| `Migrations.Progress` | crates/openpanel-core/src/migration.rs:95-124 | how many pending migrations commit: none before that count stops, and the one at it does |
| `MigrationRuns.ExactlyOnce` | crates/openpanel-core/src/migration.rs:71-125 | over every run of calls of any modules with any failures: the ledger gains one row per committed migration and never a row twice, the log gains exactly their statements, each migration as one contiguous block, and only listed migrations are committed |
| `MigrationRuns.HistoryExplains` | crates/openpanel-core/src/migration.rs:71-125 | the store after any run is the start plus whole transactions |
| `MigrationRuns.LedgerStaysDistinct` | crates/openpanel-core/src/migration.rs:78-83 | the ledger key stays unique over every run |
| `MigrationRuns.OtherModulesUntouched` | crates/openpanel-core/src/migration.rs:73-137 | no call changes the rows of another module |
| `MigrationRuns.OwnListIsDistinct` | crates/openpanel-core/src/migration.rs:90-93 | a list of one module has no version twice after the map is filled |
| `MigrationRuns.CleanCallSucceedsIff` | crates/openpanel-core/src/migration.rs:95-124 | without failures a call succeeds exactly when no two pending migrations share a version |
| `MigrationRuns.CallSucceedsIff` | crates/openpanel-core/src/migration.rs:73-125 | a call succeeds exactly when the ledger can be created and read, no begin, statement, row insert or commit of a pending migration fails, and no two pending migrations share a version |
| `MigrationRuns.FaultStopsEntry` | crates/openpanel-core/src/migration.rs:102-121 | whichever of these interactions of a pending migration fails, that migration does not commit and the call reports an error |
| `MigrationRuns.LedgerFaultStopsCall` | crates/openpanel-core/src/migration.rs:74-88 | if the ledger cannot be created or read, nothing changes and the database error is reported |
| `MigrationRuns.FailureIsReported` | crates/openpanel-core/src/migration.rs:102-121 | a failing call reports a migration error with module, slash and version exactly when the first migration it did not commit began and one of its statements failed, and a database error otherwise |
| `MigrationRuns.RepeatedVersionIsLost` | crates/openpanel-core/src/migration.rs:90-120 | otherwise a listed migration did not commit although its row is in the ledger: after any later run no call of the module with any list has it to do, and no run commits it |
| `MigrationRuns.SkippedForever` | crates/openpanel-core/src/migration.rs:97-101 | no run commits, and no later call has to do, an entry whose row is in the ledger |
| `MigrationRuns.MixedListRepeatsVersion` | crates/openpanel-core/src/migration.rs:90-120 | such a list: two modules that both number a migration `1`, applied for one of them on an empty ledger |
| `MigrationRuns.UpgradeStep` | crates/openpanel-core/src/migration.rs:73-125 | one call, of the module or another, failing or not, keeps what the module has committed a prefix of its fresh install |
| `MigrationRuns.UpgradePath` | crates/openpanel-core/src/migration.rs:73-125 | so does any run with any other modules in between; after a successful call with the final list it is all of it |
| `RaceUpgrades.UpgradeEqualsFreshInstall` | crates/openpanel-core/src/migration.rs:73-125 | any releases, failed calls and retries one after the other end in the same store as one clean call with the final list; proved as a race of these calls |
| `MigrationRuns.TwoReleasesEqualOneIff` | crates/openpanel-core/src/migration.rs:90-123 | two clean calls with lists `x` and then `y` commit what a fresh install of `y` commits exactly when what `x` has to do is a prefix of what `y` has to do |
| `MigrationRuns.TextOrderIsNumericIff` | crates/openpanel-core/src/migration.rs:90-95 | exactly when the text order of two numerals is their numeric order |
| `MigrationRuns.RunsInNumericOrderIff` | crates/openpanel-core/src/migration.rs:71-95 | a module with numeral versions runs them in increasing numeric order exactly when its versions are aligned |
| `MigrationRuns.PaddedVersionsRunInOrder` | crates/openpanel-core/src/migration.rs:71-95 | in particular when the versions are equally long |
| `MigrationRuns.UnpaddedVersionsRunOutOfOrder` | crates/openpanel-core/src/migration.rs:71-95 | a module with versions `9` and `10` does not run them in numeric order |
| `MigrationRaces.RaceIsExactlyOnce` | crates/openpanel-core/src/migration.rs:73-125 | with the transactions of any number of calls interleaved, each call against the versions it read when it started, and any of them failing or dying: no ledger row twice, each migration one contiguous block of the log, only listed migrations, nothing else |
| `MigrationRaces.FinishedCallIsApplied` | crates/openpanel-core/src/migration.rs:95-124 | a call that is through its list at any moment, amid any others, has every version it listed in the ledger then and after any further moves |
| `RaceUpgrades.RaceStep` | crates/openpanel-core/src/migration.rs:95-124 | one move of a race keeps what a module has committed a prefix of its fresh install |
| `RaceUpgrades.RacePath` | crates/openpanel-core/src/migration.rs:95-124 | over every race of a module with prefixes of one list what it has committed is a prefix of its fresh install, and all of it from the moment a call with the full list got through, returned or not |
| `RaceUpgrades.RaceEqualsFreshInstall` | crates/openpanel-core/src/migration.rs:73-125 | a race of one module in which a call with the final list got through is in the same store as one clean call with that list, whatever moves followed |
| `RaceUpgrades.RetryGetsThroughIff` | crates/openpanel-core/src/migration.rs:73-125 | from every state of a race, whatever failed before, a call that enters, meets no fault and is left alone gets through exactly when no two migrations it has to do share a version |
| `RaceUpgrades.CallIsRace` | crates/openpanel-core/src/migration.rs:73-125 | entering and taking its turns with nothing in between, beside any waiting calls, a call does what `Perform` says under every fault choice, and gets through exactly when it returns without an error |
| `RaceUpgrades.RunIsRace` | crates/openpanel-core/src/migration.rs:73-125 | the moves of the calls of a run, in order, are a race with the same end |
| `Utf8.OrderIsByteOrder` | crates/openpanel-core/src/migration.rs:129-131 | comparing by code point is comparing UTF-8 bytes, so the map order and `ORDER BY version` are one order |
| `Preflight.FindBlank` | crates/openpanel-app/src/release_preflight.rs:97-101 | finds whether some applied version is blank |
| `Preflight.ScanVersions` | crates/openpanel-app/src/release_preflight.rs:108-118 | the loop finds the largest version number, or the first version without one |
| `Preflight.Evaluate` | crates/openpanel-app/src/release_preflight.rs:93-127 | the loops decide by what holds of the ledger: blank version, no ceiling, first unparseable version, newest version above the ceiling (reported as number), accepted otherwise; the ceiling is the number the metadata text spells, and 0 if it spells no `u32` |
| `Preflight.CeilingIs` | crates/openpanel-core/src/release_metadata.rs:118-120 | the ceiling is the number its text spells, with blanks around it and an optional `+`, and 0 for every other text |
| `Preflight.VersionNumberIff` | crates/openpanel-app/src/release_preflight.rs:110 | exactly the texts that spell a `u32` have a version number, the one they spell |
| `Preflight.OneVersionDecides` | crates/openpanel-app/src/release_preflight.rs:120-126 | a store with one version is refused exactly when the ceiling is positive and below it, and the refusal names both |
| `Preflight.DecisionExists` | crates/openpanel-app/src/release_preflight.rs:93-127 | the stated conditions leave no case out |
| `Preflight.DecisionIsUnique` | crates/openpanel-app/src/release_preflight.rs:93-127 | those conditions are exclusive: they fix one decision |
| `Preflight.DecisionIgnoresOrder` | crates/openpanel-app/src/release_preflight.rs:93-127 | the decision depends on which versions occur, not on their order or repetition, except for which unparseable version is named |
| `Preflight.StaysAccepted` | crates/openpanel-app/src/release_preflight.rs:76-127 | a store the binary accepts is still accepted, for every module, after any run of calls, failing or not, with migrations the binary accepts |
| `Preflight.RunOrderIsPreflightOrderIff` | crates/openpanel-app/src/release_preflight.rs:108-126 | for versions that are plain numerals, a module runs its migrations in the order the preflight compares them in exactly when the preflight can read all of them and they are aligned |
| `Dmarc.ParseDmarcReport` | crates/openpanel-domain/src/deliverability.rs:248-293 | the parser computes `Parse`: cap in bytes, declaration check, one reading per record body, failure if any record cannot be read or there is none |
| `Dmarc.TooLargeIff` | crates/openpanel-domain/src/deliverability.rs:249-251 | exactly the texts of more than 10485760 bytes are too large |
| `Dmarc.DoctypeIff` | crates/openpanel-domain/src/deliverability.rs:252-255 | exactly the texts within the cap with `<!doctype` or `<!entity` somewhere, in any mixture of cases, are refused for it |
| `Dmarc.DeclarationIsRefused` | crates/openpanel-domain/src/deliverability.rs:252-255 | a declaration in any case inside any text is refused |
| `Dmarc.MalformedIff` | crates/openpanel-domain/src/deliverability.rs:257-291 | exactly the other texts without a record or with a record that cannot be read are malformed |
| `Dmarc.RecordReadsIff` | crates/openpanel-domain/src/deliverability.rs:262-284 | a record is read exactly when its four elements are there and address and count can be parsed; a verdict counts all messages if it is `pass` and none otherwise |
| `Dmarc.MissingElementIsMalformed` | crates/openpanel-domain/src/deliverability.rs:262-278 | a record without one of the four elements makes the report malformed |
| `Dmarc.ReadRecords` | crates/openpanel-domain/src/deliverability.rs:256-285 | the loop with its early returns gives all readings, or none if one failed |
| `Dmarc.SplitCounts` | crates/openpanel-domain/src/deliverability.rs:257 | cutting at a pattern that cannot overlap itself gives one piece more than it occurs |
| `Dmarc.AcceptedReport` | crates/openpanel-domain/src/deliverability.rs:248-293 | an accepted report, whatever its text, yields exactly one stat per `<record>` in it, at least one, with each pass count 0 or the full message count |
| `DmarcDocuments.FirstTagIsLookup` | crates/openpanel-domain/src/deliverability.rs:237-243 | on a record body made of elements, with other text between, behind and inside them, `first_tag` gives the first element of the name, provided no earlier text opens that name; later text may |
| `DmarcDocuments.DocumentBodies` | crates/openpanel-domain/src/deliverability.rs:257-261 | the bodies cut out of a document are its records, in order, if no record opens or closes another one |
| `DmarcDocuments.ParserReadsDocuments` | crates/openpanel-domain/src/deliverability.rs:248-293 | on every document whose read elements come first of their names in each record, the substring parser gives what those elements say: a text let through by the cap and the declaration check is accepted exactly when there is a record and every record can be read |
| `DmarcDocuments.ReportRoundTrip` | crates/openpanel-domain/src/deliverability.rs:248-293 | such a document whose records state the given rows is read as exactly those rows, in order |
| `DmarcDocuments.MessagesConserved` | crates/openpanel-domain/src/deliverability.rs:248-293 | the message counts the parser returns for it add up to the messages of the rows |
| `DmarcDocuments.DetailedRoundTrip` | crates/openpanel-domain/src/deliverability.rs:463-505 | printing any rows, each followed by any text that opens or closes no record and declares nothing, and parsing gives one stat per row, in order, with equal totals, unless the text exceeds the cap |
| `DmarcDocuments.AuthResultsAreIgnored` | crates/openpanel-domain/src/deliverability.rs:272-284 | reports with `identifiers` and `auth_results` sections are read by the `policy_evaluated` verdicts, whatever results those sections hold |
| `DmarcDocuments.PrintedRoundTrip` | crates/openpanel-domain/src/deliverability.rs:463-505 | the layout of the property test: parsing what is printed gives one stat per row, in order, and the totals of the parsed stats equal those of the rows |
| `IpAddresses.V4RoundTrip` | crates/openpanel-domain/src/deliverability.rs:262-266 | a printed IPv4 address parses back to itself |
| `IpAddresses.V4ParsesIff` | crates/openpanel-domain/src/deliverability.rs:262-266 | exactly the printed form of an address is parsed as that IPv4 address |
| `IpAddresses.OtherTextIsV6` | crates/openpanel-domain/src/deliverability.rs:262-266 | any other text is read as the IPv6 grammar reads it |
| `Text.ParseUnsignedIff` | crates/openpanel-domain/src/deliverability.rs:267-271 | exactly the digit strings with an optional `+` and a value up to the maximum are parsed, to their value |
| `Text.TrimUnique` | crates/openpanel-domain/src/deliverability.rs:264 | trimming a text with blank margins gives its middle |
| `Text.WhitespaceIs` | crates/openpanel-core/src/migration.rs:142 | what is trimmed are the 25 code points with the Unicode property `White_Space` |
| `Dnsbl.BuildV6` | crates/openpanel-domain/src/deliverability.rs:33-46 | the nested loops over segments and shifts build the name of the 128-bit address |
| `Dnsbl.LabelIsNibble` | crates/openpanel-domain/src/deliverability.rs:36-43 | label `i` of the name is nibble `i` of the address, counted from the low end |
| `Dnsbl.NibbleOfAddress` | crates/openpanel-domain/src/deliverability.rs:39-42 | nibble `4k + j` of the address is nibble `j` of the `k`-th segment from the end |
| `Dnsbl.V4NameDecodes` | crates/openpanel-domain/src/deliverability.rs:29-32 | a decoder recovers address and zone from every IPv4 name |
| `Dnsbl.V6NameDecodes` | crates/openpanel-domain/src/deliverability.rs:33-46 | a decoder recovers address and zone from every IPv6 name |
| `Dnsbl.QueryNameInjective` | crates/openpanel-domain/src/deliverability.rs:27-48 | within one family a name determines address and zone |
| `Dnsbl.FamiliesDisjoint` | crates/openpanel-domain/src/deliverability.rs:27-48 | within one zone no IPv4 name is an IPv6 name |
| `Dnsbl.NamesCoincideIff` | crates/openpanel-domain/src/deliverability.rs:27-48 | exactly when an IPv4 name in one zone equals an IPv6 name in another |
| `Listings.Listing.Listed` | crates/openpanel-domain/src/deliverability.rs:62-70 | a new listing has both times set to now and is not resolved |
| `Listings.Listing.Upsert` | crates/openpanel-domain/src/deliverability.rs:91-98 | one observation updates the stamps as `Observe` does, in place |
| `Listings.StampsClosedForm` | crates/openpanel-domain/src/deliverability.rs:89-98 | over every history: first seen is the creation, last seen the latest observation, unresolved exactly when that was listed, resolved at the first clear of the run of clears at the end |
| `Listings.StampsInOrder` | crates/openpanel-domain/src/deliverability.rs:89-98 | if times do not decrease, first seen <= resolved <= last seen |
| `Feedback.StoredEntryReloads` | crates/openpanel-app/src/feedback.rs:83-100 | every entry the constructor builds survives storing and the second validation on reload unchanged |
| `Feedback.EntryStoresComment` | crates/openpanel-domain/src/feedback.rs:79-98 | a comment of at most 2000 bytes without control characters is stored without its margins, a blank one not at all, every other one is refused |
| `Feedback.UnknownSentimentIsRefused` | crates/openpanel-domain/src/feedback.rs:48-62 | entries store `up` or `down`, and a row with anything else is refused |
| `Feedback.FeedbackService.constructor` | crates/openpanel-app/src/feedback.rs:115-121 | a service over the stored entries with a budget of 5 in 86400 seconds |
| `Feedback.FeedbackService.CountInWindow` | crates/openpanel-app/src/feedback.rs:48-63 | counts the entries of the account stamped at or after the given time |
| `Feedback.EntryCounts` | crates/openpanel-app/src/feedback.rs:54 | an entry adds one to the count exactly when it is of the account and not older than the given time, wherever it is in the table |
| `Feedback.CountIsWindow` | crates/openpanel-app/src/feedback.rs:48-63 | with no stamp after `hi` the count is that of the closed window up to `hi` |
| `Feedback.FeedbackService.Insert` | crates/openpanel-app/src/feedback.rs:33-46 | appends the entry |
| `Feedback.FeedbackService.Submit` | crates/openpanel-app/src/feedback.rs:124-147 | count, limit, validation and insert in that order: the reply and the new table for every input and every failing database call |
| `Feedback.ReplyIgnoresEntry` | crates/openpanel-app/src/feedback.rs:124-147 | entries of other accounts and entries older than the window change no reply |
| `Feedback.SubmissionOutcomes` | crates/openpanel-app/src/feedback.rs:124-147 | on a table with no stamp after now: refused for the budget, refused for the comment, or stored, exactly when the count of the account in the closed window, the comment and the database say so |
| `Feedback.WindowIsCounted` | crates/openpanel-app/src/feedback.rs:130-136 | any window that starts at or after the counted time is counted in full |
| `Feedback.LoadStep` | crates/openpanel-app/src/feedback.rs:124-147 | no step of any interleaving raises stored plus in-flight entries of a window past `limit + n - 1`, nor at all where they are past it already |
| `Feedback.HeldIsCount` | crates/openpanel-app/src/feedback.rs:132-145 | requests in flight are counted one by one, whatever their stamps |
| `Feedback.ConcurrentWindowBound` | crates/openpanel-app/src/feedback.rs:124-147 | from every start, with counting and inserting interleaved in any way and any clock readings, every closed window holds at most `limit + n - 1` entries of an account with at most `n` requests in flight, or what it held at the start if that was more |
| `Feedback.ConcurrentBoundIsReached` | crates/openpanel-app/src/feedback.rs:124-147 | the bound is exact: for every limit and `n` some interleaving stores that many |
| `Feedback.SubmissionIsTwoSteps` | crates/openpanel-app/src/feedback.rs:124-147 | a whole submission is one count step followed by its insert step |
| `Feedback.SubmissionsAreSteps` | crates/openpanel-app/src/feedback.rs:124-147 | the steps of submissions in order are a run of the step machine with at most one request in flight and the same table at the end |
| `Feedback.SequentialWindowBound` | crates/openpanel-domain/src/feedback.rs:28-34 | if submissions do not overlap, every closed window holds at most `limit` entries of an account, or what was stored in it before if that was more, over every run, even with a clock that goes backwards |
| `Routes.TemplateMatches` | crates/openpanel-web/src/capability_registry.rs:594-613 | the two segment iterators in step decide `Matches` |
| `Routes.MatchingIsSubstitution` | crates/openpanel-web/src/capability_registry.rs:592-613 | a path matches exactly when it is the template with each placeholder segment replaced by some non-empty text without a slash |
| `Routes.MatchingIsTransitive` | crates/openpanel-web/src/capability_registry.rs:594-613 | matching composes: templates are ordered by generality |
| `Routes.ConcreteSegments` | crates/openpanel-web/src/browser_ui_quality.rs:40-45 | three substring replacements on a path act segment by segment |
| `Routes.PlaceholderConcrete` | crates/openpanel-web/src/browser_ui_quality.rs:29-45 | a domain placeholder becomes `example.com` and the two site placeholders become `smoke-site` |
| `Routes.ConcreteFixedIff` | crates/openpanel-web/src/browser_ui_quality.rs:40-45 | a text is left alone exactly when no placeholder text occurs in it |
| `Routes.ConcretePathMatchesIff` | crates/openpanel-web/src/browser_ui_quality.rs:39-45 | a template matches its own concrete path exactly when placeholder text occurs only as whole segments |
| `Routes.WholePlaceholdersMatch` | crates/openpanel-web/src/browser_ui_quality.rs:39-45 | in particular when every brace belongs to a whole placeholder segment |
| `Registry.InventoryIsUnambiguous` | crates/openpanel-web/src/capability_registry.rs:57-540 | no request path matches two registered routes |
| `Registry.SmokePathFindsItsEntry` | crates/openpanel-web/src/browser_ui_quality.rs:39-45 | the concrete path of a registered route is matched by that route and no other |
| `InputScanner.UnlabelledInputs` | crates/openpanel-web/src/browser_ui_quality.rs:372-398 | the cursor loop, with its `continue` and early `break`, returns the report of looking at every position of the page |
| `InputScanner.ReportIsExact` | crates/openpanel-web/src/browser_ui_quality.rs:372-398 | that report names exactly the positions of complete visible inputs that no `for` names and no open label wraps, each once, in order, by the first 80 characters of the tag |
| `InputScanner.AttrValueIff` | crates/openpanel-web/src/browser_ui_quality.rs:364-370 | `attr_value` gives exactly the quote-free text between the first `name="` and the next quote |
| `InputScanner.NamedInputIsNotReported` | crates/openpanel-web/src/browser_ui_quality.rs:386-391 | an input whose id some `for` names is never reported |
| `InputScanner.HiddenInputIsNotReported` | crates/openpanel-web/src/browser_ui_quality.rs:359-362 | an input of type hidden, submit or button is never reported |
| `InputScanner.WrappedIff` | crates/openpanel-web/src/browser_ui_quality.rs:400-406 | the `rfind` test holds exactly when some label opened before the input is not closed before it |
| `InputScanner.NothingAfterLastTag` | crates/openpanel-web/src/browser_ui_quality.rs:378-380 | the `break` on a missing `>` loses no finding |
| `InputScanner.GatherAtTag` | crates/openpanel-web/src/browser_ui_quality.rs:381-395 | what one tag adds is what is found between it and the next place looked at |
| `OverrideWalk.Descend` | crates/openpanel-core/src/config.rs:238-246 | at an object node: a missing key is inserted as null, nothing beside it changes, and the cursor moves to the child |
| `OverrideWalk.Overwrite` | crates/openpanel-core/src/config.rs:248 | the cursor node takes the value |
| `OverrideWalk.Walk` | crates/openpanel-core/src/config.rs:233-247 | the loop leads along the path, or stops at a non-object when no write to that path can succeed |
| `OverrideWalk.WithOverrides` | crates/openpanel-core/src/config.rs:230-248 | the in-place walk succeeds exactly when `Override` is defined and then leaves the tree `Override` describes |
| `Overrides.OverrideByKeys` | crates/openpanel-core/src/config.rs:231 | a path of dot-free keys joined by dots writes at those keys |
| `Overrides.GetAfterSet` | crates/openpanel-core/src/config.rs:230-248 | reading the written path gives the written value |
| `Overrides.SetTwice` | crates/openpanel-core/src/config.rs:230-248 | a second write to a path overwrites the first |
| `Overrides.SetWhatIsThere` | crates/openpanel-core/src/config.rs:230-248 | writing back what is there changes nothing |
| `Overrides.SetsCommute` | crates/openpanel-core/src/config.rs:230-248 | writes to paths neither of which is a prefix of the other commute, failures included |
| `Overrides.GetElsewhere` | crates/openpanel-core/src/config.rs:230-248 | what is read at such another path is unchanged |
| `Overrides.SetSucceedsIff` | crates/openpanel-core/src/config.rs:234-247 | a write succeeds exactly when every node above its last segment exists and is an object |
| `PercentEncoding.UrlEscape` | crates/openpanel-web/src/audit.rs:115-128 | the loop builds `Escape(value)` |
| `PercentEncoding.EscapeRoundTrip` | crates/openpanel-web/src/audit.rs:114-128 | percent-decoding and then UTF-8 decoding gives back the value, for every string |
| `PercentEncoding.EscapeInjective` | crates/openpanel-web/src/audit.rs:114-128 | different values have different escapes |
| `PercentEncoding.EscapeConcat` | crates/openpanel-web/src/audit.rs:115-128 | escaping is a homomorphism |
| `PercentEncoding.EscapeIsSafe` | crates/openpanel-web/src/audit.rs:114-128 | the output holds only unreserved characters and `%` with two uppercase hex digits |
| `PercentEncoding.EscapeHasNoDelimiters` | crates/openpanel-web/src/audit.rs:114-128 | no ampersand, equals sign, hash, plus or space survives |
| `PercentEncoding.KeptCharacters` | crates/openpanel-web/src/audit.rs:118-120 | exactly the ASCII letters and digits and four marks are kept as they are |
| `PercentEncoding.EscapeFixedIff` | crates/openpanel-web/src/audit.rs:119 | exactly the unreserved strings are left as they are |
| `Utf8.DecodesIff` | crates/openpanel-web/src/audit.rs:121 | exactly the UTF-8 encoding of a string is decoded to it: overlong forms, surrogates and stray bytes are not |

## Left out

- Time: clock readings, `applied_at` and RFC 3339 text are integers or absent. In particular the text comparison of `created_at` is modelled as comparison of times.
- Identifiers: UUIDs are integers, and a fresh one is a parameter of the submission.
- SQLite: a transaction is atomic by assumption, and a failed commit is a rollback. A statement that itself writes to `_migrations` is not modelled; statements are opaque texts. Transactions of concurrent calls take effect one after the other.
- IPv6 text: the grammar of `IpAddr` parsing for IPv6 is a function parameter of the report parser; the IPv4 grammar is modelled in full.
- Positions in strings are counted in characters, not bytes. Where the source limits bytes (report cap, comment length) the model counts UTF-8 bytes.
- Bit shifts and masks of segments are division and remainder.
- Numbers in configuration values are integers.
- OverrideWalk.WithOverrides: does not model the conversion of the configuration to and from JSON, nor the tree a failed walk leaves, which the source drops.
- OverrideWalk.Walk: says nothing of the tree after a failed walk, which the source drops.
- Error texts: messages are left out; the kind of the error, and the path of a failed migration statement, are kept.
- `MigrationRunner::run`, which only creates the ledger.
- `find_recent`, the feedback widget's eligibility rules, and the HTTP handlers: easy members over the same state.
- The other page checks of `browser_ui_quality.rs` (interactives without a name, fixed widths, bare tables) and the report built from them: the same kind of scanner with simpler conditions.
- Registry metadata other than the route (keys, scopes, roles, icons) and lookups by it.
- The overlay of release metadata from the environment, and operator hints.
- The mail-authentication audit of the deliverability module.
- Services that are mostly orchestration of external programs (sites, containers, databases, backups, certificates).
