# Company Brain: proofs about the permission core, the ledger and the planner

A Dafny model of the parts of Company Brain where one mistake shows somebody what they may not see,
loses part of the record, or tells a reader the wrong figure, with proofs of what those parts are
for. `dafny verify dfyconfig.toml` checks all of it.

| modules | what they model |
|---|---|
| `Reach`, `Delegation` | capabilities, covering, scopes; `gate.delegated_reach` in SQL and `EntitlementSet.intersect` in Python, and that both are the exact meet |
| `DelegationBefore` | the body migration 0028 installed, and exactly where it differs from the rule |
| `DelegationTable` | `gate.narrowing_refusals`, the `gate.delegation` table with its trigger and constraints, and chains of delegations |
| `Text`, `Utf8`, `AuditHash` | numbers and instants as text, UTF-8 order, and `obs.audit_entry_hash` |
| `Ledger`, `LedgerProtocol`, `LedgerCommits` | the hash chain, the walk that verifies it, concurrent transactions appending to it, and what of theirs is committed |
| `Entitlements`, `Resolver`, `Upkeep`, `Coherence`, `Replay` | the permission tables, the resolver and every trigger as one state machine; what the resolver gives and when; what statements keep and leave alone; the cache key; the ledger against the rows |
| `Forwarding`, `Merges` | `er.resolved_alias` against `current_id`, and the pointers as merges rewrite them |
| `Workdays`, `Windows` | `wd`, wave sizing, the window loop and leaf dates |
| `Numbering`, `Counting`, `Progress`, `Totals` | the two numberings of the breakdown, the flags, the walk's tables and the page's figures |
| `OneTimeCode` | `codeAt` and `freshCode` |
| `Template` | the check constraints of the fast-path rule against the application's own checks |
| `Vocabulary` | check constraints that widen, roll back and widen again |

Code that computes a value is a function; code that changes state step by step is a class or a
method, whose contract equates the new state with a function of the old one, and the theorems are
about that function. The digest, the keyed hash and the clock are parameters. Where a theorem needs
the digest not to collide, it says so of the byte strings actually hashed.

## Where the code and its documentation part

Each of these is proved, with the exact condition where there is one.

- The body 0028 installed also loses a *ceiling's* clause, which the docstring of 0029 does not
  mention (`DelegationBefore.ACeilingClauseWasLost`).
- A retired grant or assignment that is brought back writes no ledger entry. The ledger does not
  replay to the live rows for as long as such a row is live, and does again once every one of them has
  been retired again (`Replay.TheLedgerReplaysToTheTruth`, `Replay.TheReplayIsTrueIff`,
  `Replay.ReplayLostAndMended`).
- Moving to another principal a row that gives its holder something leaves the key of the holder's
  cached reach alone, and nothing else that takes anything does (`Coherence.AKeptVersionIsWrongIff`,
  `Coherence.AStaleReachIsNeverWide`). Editing a principal's own expiry leaves it alone too, and is all
  that changes the expiry (`Coherence.AnEditedBoundIsNotCaught`, `Coherence.OnlyAnEditChangesTheBound`).
- The entry hash reads details as text, so a JSON number and its numeral hash alike; the triggers
  write strings only (`AuditHash.ANumberAndItsNumeralCollide`).
- Seventeen legal merges carry an issued id out of the view, though its pointers still reach a
  survivor (`Merges.ALongHistoryLeavesTheView`).
- The guard in `export.js` stops a node with children in both `s` and `k`. The two programs also part
  on an empty `k` beside `s`, on an entry of `k` that is itself a group, on an empty group, and on a
  task's own `k`, and nothing is thrown (`Numbering.NumberedAlike`, `Numbering.TaskNumberedAlike`).
- The application measures a template's text with its outer spaces off and the table with them on, so
  the table keeps rows the application refuses to load (`Template.TheTableIsWeakerByItsSpaces`).
- 0026 says the next upgrade after a rollback is satisfied by every row. That needs the database to be
  no more than one revision below the highest it reached; two back, and with an append-only table,
  the upgrade can be refused for good (`Vocabulary.AnUpgradeSucceedsIff`,
  `Vocabulary.AnAppendOnlyTableIsStuck`).
- A code ledger file that `Number` reads as no number, or as infinity, makes `freshCode` wait for
  ever, and no other file does (`OneTimeCode.ASpoiltFileStopsEveryCall`).

## Model

| member | source | states |
|---|---|---|
| `Reach.CoversTransitive` | src/brain/core/scope_sql.py:719-728 | Covering carries over: a pattern covering a pattern covers all that one covers. |
| `Reach.CoversChain` | src/brain/core/scope_sql.py:719-728 | Any two patterns covering one capability cover one another one way or the other; `covers` is what makes the meet exact. |
| `Reach.Narrowest` | src/brain/core/entitlement.py:128-145 | Among the grants covering a capability one is covered by all the others, so asking the scope at its name asks it at the capability. |
| `Reach.CoversExactly` | src/brain/core/entitlement.py:73-84 | A pattern covers itself, and one ending in `.*` exactly what starts with its stem and a dot. |
| `Reach.AnEntityIsNotItsFields` | src/brain/core/entitlement.py:73-84 | Holding an entity covers none of its fields, and holding its wildcard covers each. |
| `Reach.WhatAClauseAdmits` | src/brain/core/scope.py:119-132 | Each kind of clause on a record: equal, among, prefixed, anything; an absent field satisfies only the last. |
| `Reach.AProjectionNeverWidens` | src/brain/core/scope.py:119-132 | A scope that admits a record with fields left out admits it whole. |
| `Reach.AdmitsFromTheGrants` | src/brain/core/entitlement.py:128-145 | Admission is being before the bound, with some grant covering and every clause of every covering grant matched. |
| `Delegation.DelegatedScope` | src/brain/core/scope_sql.py:806-853 | At any capability whatever, named or not, the corrected reach holds the conjunction of all three sides' scopes, or nothing where one side holds nothing. |
| `Delegation.DelegatedReachIsTheMeet` | migrations/versions/0029_delegation_wildcard.py:3-15 | For every capability, record and instant the child admits iff parent, agent ceiling and subtask ceiling all admit, wildcards and overlapping grants included, and no ceiling had lapsed at the decision; the expiry is the least of the three. |
| `Delegation.DelegatedReachIsTheMeetFromItsDecision` | migrations/versions/0029_delegation_wildcard.py:3-15 | From the decision on, the meet holds with no proviso. |
| `Delegation.IntersectScope` | src/brain/core/entitlement.py:150-231 | One `intersect` holds, at any capability, both sides' scopes conjoined. |
| `Delegation.IntersectIsTheMeet` | src/brain/core/entitlement.py:150-231 | One `intersect` admits exactly what both sides admit, the ceiling not having lapsed when it was taken. |
| `Delegation.DelegatedReachIsTheFold` | src/brain/core/scope_sql.py:771-853 | The flattened SQL pass equals `intersect` folded twice: same grants, scopes, order and bound. |
| `DelegationBefore.BeforeIsNeverNarrowerWhereItReaches` | migrations/versions/0029_delegation_wildcard.py:54-93 | Where the body 0028 installed reaches at all, the rule reaches too, under at least its clauses: its errors there are only ever widenings. |
| `DelegationBefore.BeforeLosesAParentClause` | migrations/versions/0029_delegation_wildcard.py:9-13 | It loses a parent clause at a capability iff one covering parent grant survives both ceilings, another carrying the clause does not, and nothing surviving supplies it. |
| `DelegationBefore.BeforeIsExactIff` | migrations/versions/0029_delegation_wildcard.py:54-93 | It equals the rule at a capability iff it neither drops the reach, nor loses a parent clause, nor loses a ceiling clause. |
| `DelegationBefore.BeforeIsExactWithoutWildcards` | migrations/versions/0029_delegation_wildcard.py:54-93 | With no wildcard among the parent's grants, duplicates allowed, it was exact. |
| `DelegationBefore.AWildcardWasDropped` | migrations/versions/0029_delegation_wildcard.py:7-11 | First documented failure: a wildcard through a one-column ceiling computed no grants. |
| `DelegationBefore.ADepartmentWasLost` | migrations/versions/0029_delegation_wildcard.py:11-13 | Second documented failure: the Web clause is lost and rows outside Web are admitted. |
| `DelegationBefore.ACeilingClauseWasLost` | migrations/versions/0029_delegation_wildcard.py:54-93 | A third failure the docstring does not name: a ceiling's own clause on one column is lost beside its wildcard, and every row outside it is admitted where the corrected reach admits none. |
| `DelegationTable.NoRefusalsMeansWithin` | src/brain/core/scope_sql.py:921-976 | The containment check, which asks only about named capabilities, finds nothing iff the child is the same principal's, outlives nothing and is within the parent at every capability. |
| `DelegationTable.WithinAdmitsNoMore` | src/brain/core/scope_sql.py:898-976 | A child with no finding admits nothing its parent does not, at any instant. |
| `DelegationTable.Delegations.Find` | src/brain/core/scope_sql.py:997-1061 | The trigger's one read: the first row with an id, or the end of the table. |
| `DelegationTable.Delegations.Insert` | src/brain/core/scope_sql.py:997-1061 | An insert is refused or appended exactly as trigger and constraints say, and a refused one changes nothing; a table built by inserts stays one. |
| `DelegationTable.AnInsertIsAcceptedIff` | src/brain/core/scope_sql.py:997-1061 | An insert is accepted iff its row is well formed and its child's reach narrows what the recorded reach, or the named earlier row's child, and both ceilings allow. |
| `DelegationTable.OutlivesMeans` | src/brain/core/scope_sql.py:930-976 | One reach outlives another iff at some moment it is live and the other has ended. |
| `DelegationTable.NoRowTwice` | migrations/versions/0028_delegation_narrowing.py:125-127 | In every table that inserts build, and so after every run, no two rows share an id and no child of a run has two rows. |
| `DelegationTable.EveryRowHasOneSource` | migrations/versions/0028_delegation_narrowing.py:115-124 | Every row has a parent row or a recorded reach and not both, names its run and its child, and is not its own parent. |
| `DelegationTable.RowWasAdmitted` | migrations/versions/0028_delegation_narrowing.py:94-127 | Every stored row was admitted against the rows before it, and its parent is one of those. |
| `DelegationTable.ParentOf` | migrations/versions/0028_delegation_narrowing.py:97-102 | A parent row stands strictly earlier, so parent links are well founded. |
| `DelegationTable.RootOf` | migrations/versions/0028_delegation_narrowing.py:16-21 | Walking up ends at a row with no parent and a recorded asker's reach. |
| `DelegationTable.NoChainWidens` | migrations/versions/0028_delegation_narrowing.py:16-21 | Whatever a row's child admits, the root's reach and every reach and ceiling on the way up admit. |
| `DelegationTable.ChainKeepsPrincipalOrderAndExpiry` | src/brain/core/scope_sql.py:997-1061 | A chain is one principal's, is decided in order, and outlives its root's reach nowhere. |
| `DelegationTable.ChainsStay` | migrations/versions/0028_delegation_narrowing.py:77-82 | Later inserts change no chain already there. |
| `DelegationTable.After` | src/brain/core/scope_sql.py:997-1070 | After any run of inserts and attempted updates the table is one that inserts alone could have built. |
| `DelegationTable.RowsStand` | src/brain/core/scope_sql.py:1010-1018 | Over every such run no row is changed or removed: a row's recorded reach bounds its children for good. |
| `DelegationTable.NoRunWidens` | migrations/versions/0028_delegation_narrowing.py:16-21 | Over every such run and at any later time a row keeps its root, and what its child admits the asker's reach there admits. |
| `Text.StampInjective` | migrations/versions/0003_resolver_and_tables.py:270-274 | The stamp, with whole-second microseconds dropped, tells any two instants apart. |
| `Text.StampReadsBack` | migrations/versions/0003_resolver_and_tables.py:270-274 | The stamp's places read back as the year, month, day, hour, minute and second it was written from, and it ends in the zone. |
| `Utf8.ByteOrderIsCodePointOrder` | migrations/versions/0003_resolver_and_tables.py:242-245 | Order by UTF-8 bytes is order by code point, for all strings. |
| `Utf8.EncodeInjective` | migrations/versions/0003_resolver_and_tables.py:298 | No two strings have the same UTF-8 bytes. |
| `Utf8.EncodedAsTheTable` | migrations/versions/0003_resolver_and_tables.py:298 | Each code point is encoded in the number of bytes, under the lead byte and with the bits of the table in section 3 of RFC 3629. |
| `AuditHash.SqlAndPythonSortAlike` | src/brain/audit/ledger.py:888-893 | `COLLATE "C"` and Python's `sorted` put the detail keys in one order. |
| `AuditHash.KeysAreCanonical` | migrations/versions/0003_resolver_and_tables.py:290-292 | The sorted keys depend on which keys there are, not on how they are stored. |
| `AuditHash.JoinedInjective` | src/brain/audit/ledger.py:841-852 | Length-prefixed parts decode one way only: two lists of parts with the same joined text are the same list. |
| `AuditHash.JoinedLooksLike` | src/brain/audit/ledger.py:841-852 | The encoding by an example: length, colon, text, one after another. |
| `AuditHash.TheNineParts` | src/brain/audit/ledger.py:872-887 | The nine parts ahead of the details, by place: schema, parent, number, stamp, actor, action, subject, entitlement digest, trace. |
| `AuditHash.AuditEntryHash` | migrations/versions/0003_resolver_and_tables.py:251-301 | The two accumulating loops digest exactly the specified material, or yield nothing when a detail is JSON null. |
| `AuditHash.MaterialDecidesTheEntry` | migrations/versions/0003_resolver_and_tables.py:251-301 | Two entries have the same material iff they agree on every field and on every detail's text. |
| `AuditHash.StringMaterialIsInjective` | migrations/versions/0003_resolver_and_tables.py:251-301 | With string-valued details the material determines the entry. |
| `AuditHash.ANumberAndItsNumeralCollide` | migrations/versions/0003_resolver_and_tables.py:294 | With other values it does not: `1` and `"1"` are hashed alike. |
| `Ledger.SignedByIsEntryHash` | src/brain/audit/ledger.py:855-894 | Signing an entry's bytes by a digest is what `obs.audit_entry_hash` returns. |
| `Ledger.FirstBreak` | src/brain/audit/ledger.py:1177-1213 | The walk finds nothing iff the ledger verifies, and otherwise the first entry that does not hold, with its reason, after a verified prefix. |
| `Ledger.OneSignatureOneHistory` | src/brain/audit/ledger.py:1177-1213 | For any signing that tells contents apart, two verified ledgers with one final digest agree entry for entry. |
| `Ledger.OneHeadOneHistory` | src/brain/audit/ledger.py:841-852 | With a digest free of collisions on what is hashed, two ledgers that verify and end in one `entry_hash` are equal entry for entry. |
| `Ledger.ChainsAreWhatVerifies` | migrations/versions/0003_resolver_and_tables.py:388-410 | A ledger the trigger could have written is exactly one that verifies from the genesis digest and from number 0, and its last entry is numbered one less than its length. |
| `Ledger.HeadOfChain` | migrations/versions/0003_resolver_and_tables.py:389-393 | The two head reads give the next free number and the last digest. |
| `Ledger.ChainGrows` | migrations/versions/0003_resolver_and_tables.py:399-410 | The entry the trigger appends keeps the chain. |
| `LedgerProtocol.TakeIsSound` | migrations/versions/0003_resolver_and_tables.py:388-419 | Every statement of every transaction keeps the chain, for what is committed and for what each transaction adds, whatever snapshot its reads were of. |
| `LedgerProtocol.EveryInterleavingIsOneChain` | migrations/versions/0003_resolver_and_tables.py:388-419 | Under every interleaving, and with reads from snapshots however stale, the committed entries are numbered 0..n-1, each naming its predecessor's digest. |
| `LedgerProtocol.CommittedOnlyGrows` | migrations/versions/0002_core_tables.py:181-217 | Each committed ledger is a prefix of every later one. |
| `LedgerCommits.TheLedgerIsWhatWasCommitted` | migrations/versions/0003_resolver_and_tables.py:403-410 | Under every interleaving the committed ledger is, in commit order, exactly what the committed transactions had let in: an entry for each, saying all its payload says, and none of any transaction that ended otherwise. |
| `LedgerCommits.NoTwoEntriesShare` | migrations/versions/0002_core_tables.py:623-638 | Over every run, whatever digest signs it, no two committed entries share a number, a digest or a parent, and none is its own parent. |
| `LedgerCommits.AnAppendLands` | migrations/versions/0003_resolver_and_tables.py:388-410 | From any state a run reaches with the lock free, a transaction that locks, reads all that is committed, appends and commits leaves the ledger one entry longer, the lock free and everything else as it was. |
| `LedgerProtocol.TheNumberIsFree` | migrations/versions/0003_resolver_and_tables.py:403-419 | A transaction whose reads were of all that is committed appends a number greater than that of every row any index knows. |
| `LedgerProtocol.AnAppendIsAcceptedIff` | migrations/versions/0002_core_tables.py:629-638 | Without a digest collision an append is let in iff both its reads were of the current head: the unique indexes refuse every fork, gap and reused number. |
| `LedgerProtocol.AcceptedIsNext` | migrations/versions/0002_core_tables.py:632-638 | Whatever was read, an append the constraints let in was read from the current head. |
| `LedgerProtocol.NoAppendIsRefused` | migrations/versions/0003_resolver_and_tables.py:412-419 | Where every read is of all that is committed, no append of a run is refused: not by the row count, and without a digest collision not by the unique indexes or the own-parent check. |
| `LedgerProtocol.AStaleHeadIsAFork` | migrations/versions/0002_core_tables.py:632-638 | An entry written on an older head repeats a number and a parent, which the unique parent index exists to refuse. |
| `Entitlements.Gate.constructor` | migrations/versions/0003_resolver_and_tables.py:426-434 | A fresh state: no rows, counters at nought, an empty ledger. |
| `Entitlements.Gate.MergeVersion` | migrations/versions/0003_resolver_and_tables.py:441-447 | A version is created at one or moved on by one, and no other moves. |
| `Entitlements.Gate.BumpGrantsVersion` | migrations/versions/0003_resolver_and_tables.py:435-460 | The row's principal and the epoch move on by one. |
| `Entitlements.Gate.BumpGrantsVersionForPack` | migrations/versions/0003_resolver_and_tables.py:462-490 | Every distinct principal holding the pack through an unretired assignment moves on by exactly one, and the epoch by one. |
| `Entitlements.Gate.EndSessions` | migrations/versions/0003_resolver_and_tables.py:502-511 | Every open session of the principal ends with the instant and the reason, and no other changes. |
| `Entitlements.Gate.CascadePrincipalState` | migrations/versions/0003_resolver_and_tables.py:498-527 | Retiring goes before disabling; either ends the sessions and moves the version; anything else does nothing. |
| `Entitlements.Gate.RecordEntitlementChange` | migrations/versions/0003_resolver_and_tables.py:326-424 | A live insert leaves a `grant` entry, a retirement a `revoke` entry, and anything else none, linked to the head and saying what is held. |
| `Entitlements.Gate.WriteGrant` | migrations/versions/0003_resolver_and_tables.py:534-543 | Row, counters and ledger entry of a grant written, in trigger order, as the specification has them. |
| `Entitlements.Gate.WriteAssignment` | migrations/versions/0003_resolver_and_tables.py:544-553 | The same for a pack assignment. |
| `Entitlements.Gate.Run` | migrations/versions/0003_resolver_and_tables.py:533-564 | A statement and all it fires, in place, leave the state the specification gives, and a refused one leaves everything. |
| `Resolver.WhatAGrantGives` | migrations/versions/0003_resolver_and_tables.py:202-209 | Of the row's columns: a grant gives its capability in its scope to its standing principal, while it is unretired and its bound has not come. |
| `Resolver.WhatAnAssignmentGives` | migrations/versions/0003_resolver_and_tables.py:211-222 | An assignment gives each capability of its pack in its own scope, while neither is retired and its bound has not come. |
| `Resolver.ABoundIsWhereAGrantEnds` | migrations/versions/0003_resolver_and_tables.py:207 | An unretired grant gives its capability at every moment before its bound, and nothing from its bound on. |
| `Resolver.TimeTakesWhatLapses` | migrations/versions/0003_resolver_and_tables.py:207-220 | Between two moments, what is held loses exactly what has its bound after the first and by the second, and gains nothing. |
| `Resolver.WhatIsRetiredGivesNothing` | migrations/versions/0003_resolver_and_tables.py:206-219 | Nothing held comes from a retired grant, a retired assignment or a retired pack. |
| `Resolver.HeldSinceTime` | migrations/versions/0003_resolver_and_tables.py:207-220 | The same as one set: later grants are the earlier ones less those that lapse between. |
| `Resolver.WhoeverDoesNotStandHoldsNothing` | migrations/versions/0003_resolver_and_tables.py:204-222 | A principal who is not there, or is disabled or retired, resolves to nothing. |
| `Resolver.WhoseBoundItIs` | migrations/versions/0003_resolver_and_tables.py:187-192 | A principal who is not retired has their own bound, and a retired one none. |
| `Upkeep.EveryRunIsKeptUp` | migrations/versions/0002_core_tables.py:388-395 | Over every run there is one live grant of a capability to a principal, one live assignment of a pack to a principal and one live pack of a name, and no row names anybody or any pack that is not there. |
| `Upkeep.AGrantIsRefusedIff` | migrations/versions/0002_core_tables.py:388-395 | Exactly when a grant is refused: its key is taken, its principal is not there, or it would be a second live one. |
| `Upkeep.AVersionMovesIff` | migrations/versions/0003_resolver_and_tables.py:435-527 | Each statement moves by one the versions of exactly those it touches, and the epoch exactly if it writes policy. |
| `Upkeep.AStatementWritesItsRow` | migrations/versions/0003_resolver_and_tables.py:533-564 | A statement writes the row it names, if it is accepted and finds it, and no other row of any table. |
| `Coherence.StatementMovesTheVersion` | migrations/versions/0003_resolver_and_tables.py:435-527 | No statement moves a version back; one that leaves an active principal's version alone leaves them active, with the same rows unless it was accepted and rewrote whose a row is. |
| `Coherence.AKeptVersionIsWrongIff` | migrations/versions/0003_resolver_and_tables.py:435-527 | A statement leaves a version alone and takes something its principal holds iff it is accepted and moves to somebody else a grant that counts, or an assignment that counts of a pack with something in it: the exact condition. |
| `Coherence.RunMovesTheVersion` | migrations/versions/0003_resolver_and_tables.py:435-527 | Over a run that leaves an active principal's version alone they stay active and hold nothing new, and hold all they held iff no step took a row that counts. |
| `Coherence.AStaleReachIsNeverWide` | src/brain/gate/resolve.py:152-159 | At the same version, over every run, an earlier state's grants at a fixed time are among the later ones iff the principal was inactive or no step took a row that counts; then they are the later ones or none, and admit no record the later ones do not. |
| `Coherence.AdmitsThroughIsAdmits` | src/brain/core/entitlement.py:128-145 | What those grants admit is what an entitlement set of them admits. |
| `Coherence.OnlyAnEditChangesTheBound` | migrations/versions/0003_resolver_and_tables.py:187-192 | A principal active before and after a statement has the same bound iff the statement does not edit it. |
| `Coherence.AStaleBoundIsTheBound` | migrations/versions/0003_resolver_and_tables.py:187-192 | Over a run at one version that never edits an active principal's `not_after`, the bound is the same. |
| `Coherence.ARewrittenPrincipalIsNotCaught` | migrations/versions/0003_resolver_and_tables.py:439 | A live grant moved to another principal: the first is left with nothing, at the version they had. |
| `Coherence.AMovedGrantIsNotCaught` | migrations/versions/0003_resolver_and_tables.py:439 | In any state, a counting grant moved to a principal without one like it is gone from its holder at an unmoved version. |
| `Coherence.AMovedAssignmentIsNotCaught` | migrations/versions/0003_resolver_and_tables.py:439 | In any state, so is all that a counting assignment of a pack with something in it gave. |
| `Coherence.AnEditedBoundIsNotCaught` | migrations/versions/0003_resolver_and_tables.py:560-563 | Editing a principal's `not_after` changes the bound and moves no version. |
| `Coherence.TheCascadeEndsEverySession` | migrations/versions/0003_resolver_and_tables.py:498-527 | After a disable or retirement no session of the principal is open, each open one has the instant and stronger reason, and the version moved by one. |
| `Upkeep.ASessionEndsOnlyWithItsPrincipal` | migrations/versions/0003_resolver_and_tables.py:502-511 | A statement ends a session iff it is open and its own principal is newly disabled or retired, and leaves every other session as it is. |
| `Upkeep.AnOpenSessionEndsIff` | migrations/versions/0003_resolver_and_tables.py:498-527 | Over every run an open session is ended iff some step newly disabled or retired its own principal. |
| `Coherence.AnEndedSessionStaysEnded` | migrations/versions/0003_resolver_and_tables.py:493-497 | No run of statements reopens an ended session or rewrites its end. |
| `Replay.EachTransitionLeavesOneEntry` | migrations/versions/0003_resolver_and_tables.py:343-424 | Each transition of a grant or assignment leaves exactly one entry naming it, and nothing else leaves any. |
| `Replay.OnlyBringingBackBreaksTheReplay` | migrations/versions/0003_resolver_and_tables.py:349-353 | A ledger that replays to the live rows goes on doing so after a statement iff the statement brings no retired row back: the exact condition. |
| `Replay.TheLedgerReplaysToTheTruth` | migrations/versions/0003_resolver_and_tables.py:326-424 | Over every run whatever, a row has a `grant` and no `revoke` entry iff it is live and no step of the run ever brought it back. |
| `Replay.TheReplayIsTrueIff` | migrations/versions/0003_resolver_and_tables.py:326-424 | After a run the ledger replays to the live rows iff no live row was ever brought back: the exact condition. |
| `Replay.BringingBackLosesTheReplay` | migrations/versions/0003_resolver_and_tables.py:349-353 | After any run, a statement that brings a row back leaves a ledger that does not replay. |
| `Replay.ReplayLostAndMended` | migrations/versions/0003_resolver_and_tables.py:349-353 | A run from nothing brings a row back and the ledger does not replay; retiring the row again mends it. |
| `Replay.EveryRunWritesAChain` | migrations/versions/0003_resolver_and_tables.py:388-419 | Over every run the triggers' ledger is one chain from the genesis digest and verifies. |
| `Replay.HoldsNoneMeansResolvesNothing` | migrations/versions/0003_resolver_and_tables.py:378-386 | The entry says `holds: none` iff the resolver returns no grants after the write it records. |
| `Replay.AGrantsEntry` | migrations/versions/0003_resolver_and_tables.py:356-410 | The entry of a grant made or retired names its actor or its granter, its row, capability, table, entitlement digest and trace, whether the actor was supplied, and whether anything is still held. |
| `Replay.AnAssignmentsEntry` | migrations/versions/0003_resolver_and_tables.py:356-410 | The entry of a pack assigned or taken back says the same with the pack's name. |
| `Forwarding.SurvivorRelation` | migrations/versions/0020_entity_resolution.py:129-143 | Running the recursion round by round ends on any pointer graph and gives the rows of sixteen rounds. |
| `Forwarding.TheViewIsTheChase` | migrations/versions/0020_entity_resolution.py:131-140 | (e, c, d) is produced iff following the pointer d times, at most 16, takes e to the unmerged c; no entity is produced twice. |
| `Forwarding.AnAliasResolvesOnceOrNotAtAll` | migrations/versions/0020_entity_resolution.py:141-151 | An alias has exactly one resolved row iff its chain ends within 16, and none otherwise. |
| `Forwarding.RoundsEnd` | migrations/versions/0020_entity_resolution.py:119 | The round past the bound is empty on any graph, cycles included. |
| `Forwarding.ACycleReachesNothing` | migrations/versions/0020_entity_resolution.py:29-35 | An entity whose chain comes back on itself reaches no survivor at any depth. |
| `Forwarding.CurrentId` | src/brain/resolution/canonical.py:534-589 | The application's chase, in which an empty pointer is none, answers c iff following the pointers so read reaches the unmerged c within 16. |
| `Forwarding.TheViewIsWhatIsRead` | migrations/versions/0020_entity_resolution.py:119-143 | On every graph without an empty pointer, which the table cannot hold, the view has a row taking an id to c iff the application answers c. |
| `Merges.AMergeKeepsTheForest` | src/brain/resolution/merge.py:684-796 | A merge keeps every entity on a chain that ends, and removes exactly one survivor. |
| `Merges.AMergeMovesTheLosersOnly` | src/brain/resolution/merge.py:684-796 | It moves what the loser stood for, and nothing else, to the other's survivor, at the sum of the distances and one. |
| `Merges.InViewWhileShort` | migrations/versions/0020_entity_resolution.py:115-119 | The view has an entity iff its chain is at most 16 long, and then at its survivor. |
| `Merges.AMergeDropsWhatItMakesLong` | migrations/versions/0020_entity_resolution.py:115-119 | A merge drops an entity from the view iff it makes that entity's chain longer than 16. |
| `Merges.Canonical.Mint` | migrations/versions/0020_entity_resolution.py:257-296 | A new id is refused if taken; otherwise it is its own survivor and the pointers stay a forest. |
| `Merges.Canonical.Merge` | src/brain/resolution/merge.py:717-764 | The refusals in order; otherwise one pointer and its moment, one survivor fewer, and the invariant kept. |
| `Merges.AMergeIsRefusedIff` | src/brain/resolution/merge.py:731-753 | Of two different current entities a merge is refused iff their kinds differ. |
| `Merges.AnIdKeepsItsKind` | src/brain/resolution/merge.py:747-753 | Over every run of mints and merges an issued id stays of its kind and resolves to an entity of that kind. |
| `Merges.CurrentIntoCurrent` | src/brain/resolution/merge.py:731-746 | The rule `merge` follows, two current entities, is a case of what the forest needs. |
| `Merges.EveryIssuedIdKeepsResolving` | migrations/versions/0020_entity_resolution.py:37-40 | Over every run every id ever issued goes on reaching exactly one unmerged entity, and its chain only lengthens. |
| `Merges.ALongHistoryLeavesTheView` | migrations/versions/0020_entity_resolution.py:115-119 | Seventeen legal merges make an issued id reach its survivor and leave the view. |
| `Merges.AHistoryStaysInTheViewIff` | migrations/versions/0020_entity_resolution.py:115-119 | A history that merges each entity into the next keeps its first id in the view iff it has at most sixteen merges. |
| `Workdays.Wd` | docs/wbs/render.js:12-15 | `wd` ends, refuses exactly the counts it could not reach, and lands on the nth working day. |
| `Workdays.WalkCounts` | docs/wbs/render.js:12-15 | It passes exactly n working days and for n of 1 or more lands on one. |
| `Workdays.TheWeek` | docs/wbs/render.js:12-15 | The calendar the walk is on: day nought was a Thursday, and in every week all but Saturday and Sunday are working days. |
| `Workdays.WalkIsEarliest` | docs/wbs/render.js:12-15 | It lands no later than a day iff n working days have passed by that day. |
| `Workdays.WalksAdd` | docs/wbs/render.js:12-15 | wd(wd(d, a), b) = wd(d, a + b). |
| `Windows.Biggest` | docs/wbs/render.js:144-148 | The longest split track: an upper bound that some module, or the floor, attains. |
| `Windows.SizeWave` | docs/wbs/render.js:121-150 | Days less integration is the least number covering both the longest split track and all leaves over capped concurrency. |
| `Windows.PlanWaves` | docs/wbs/render.js:119-160 | Every wave's window is sized right and starts where the cursor was left. |
| `Windows.WindowsFollowOn` | docs/wbs/render.js:152-159 | Windows are disjoint and in order, with only weekend days between two of them. |
| `Windows.WindowsInOrder` | docs/wbs/render.js:119-160 | Any earlier window ends before any later one starts. |
| `Windows.EveryWorkdayIsInOneWindow` | docs/wbs/render.js:152-159 | From a start on a working day, the working days up to a window's end are exactly the windows' days. |
| `Windows.LeafDates` | docs/wbs/render.js:163-173 | The ith leaf of a module is dated on the window's day it falls on at so many leaves a day, capped at the last. |
| `Windows.WhichDayALeafFallsOn` | docs/wbs/render.js:169 | Leaf i is on day k, short of the last, iff k days' worth come before it and it is within one day's worth more; the last day takes the rest. |
| `Windows.LeafDatesAreInside` | docs/wbs/render.js:163-173 | Dates are inside the window and never go back, and no day but the last has more leaves than a track does. |
| `Numbering.Leaves` | docs/wbs/export.js:23-38 | `leaves` pushes exactly the specified pairs in order onto the list it is given, or throws where a node has both kinds of children. |
| `Numbering.KidsLeaves` | docs/wbs/export.js:32-36 | The loop over `s`. |
| `Numbering.PushKeys` | docs/wbs/export.js:37 | The loop over `k`, numbered after the `s` children. |
| `Numbering.NumberedAlike` | docs/wbs/export.js:28-31 | The two programs give one ordered list of ids and sentences iff the breakdown is well numbered: the exact condition. |
| `Numbering.SilentlyDivergent` | docs/wbs/export.js:28-31 | Two breakdowns with no node carrying children in both fields that the two number differently, with nothing thrown. |
| `Numbering.TaskNumberedAlike` | docs/wbs/render.js:25-28 | A task, of which one program reads `s` alone, is numbered alike iff it has `s` children, no `k` ones and all are well numbered. |
| `Numbering.ModuleNumberedAlike` | docs/wbs/export.js:59-67 | A module is numbered alike iff each of its tasks is. |
| `Numbering.UnderOneChild` | docs/wbs/render.js:44 | An id is below one child of a place only: M1.2 and M1.20 are told apart. |
| `Numbering.ChildIdsFromOne` | docs/wbs/export.js:33 | Children are numbered from one, in decimal. |
| `Numbering.LeafIdsAreDistinct` | docs/wbs/render.js:43-46 | No two leaves of a module share an id, whatever the breakdown. |
| `Counting.Check` | docs/wbs/acts.js:1212-1238 | Passes iff every flag names a leaf that reads as flagged, has a known kind, a reason where one is due, and gates nothing decided; otherwise names exactly the wrong flags; and gives the two counts. |
| `Counting.AFlagIsRightIff` | docs/wbs/acts.js:1215-1232 | What makes a flag right, in so many words; a reason is one that is not all white space. |
| `Counting.FaultsOf` | docs/wbs/acts.js:1215-1232 | Each of the five faults is pushed exactly when its own condition holds. |
| `Counting.TakingTheFlagsAway` | docs/wbs/render.js:52-59 | Leaves less flags is the number of unflagged leaves iff every flag names a leaf, and less otherwise. |
| `Counting.EachIsCountedOnce` | docs/wbs/render.js:64-90 | However what is counted is split by a key, the parts add up to the whole. |
| `Progress.AGroupsPrefixPicksItsLeaves` | docs/wbs/render.js:505-510 | The dotted-prefix test picks exactly a group's descendants, in order, from anywhere in the tree. |
| `Progress.Walk.WalkIds` | docs/wbs/render.js:77-90 | One subtree adds to each table exactly its leaves, each in its own wave. |
| `Progress.Walk.WalkTree` | docs/wbs/render.js:77-90 | After the whole tree the three tables count every leaf in its wave, its module, and among the buildable. |
| `Progress.TheTablesAddUp` | docs/wbs/render.js:67-90 | Over the waves the tables sum to all leaves and to the unflagged ones, and over the modules to a wave's leaves. |
| `Progress.Refresh` | docs/wbs/render.js:433-473 | One pass gives every figure as a count of boxes: done, built, acts left, per status, per wave and per module. |
| `Progress.GroupProgress` | docs/wbs/render.js:505-512 | A group's figure counts the unflagged boxes its prefix picks out, and the closed ones among them. |
| `Totals.TheLinesAddUp` | docs/wbs/render.js:463-472 | The wave lines and the module lines each share out the total, what is done and what is built. |
| `Totals.DoneAndOpenAreAll` | docs/wbs/render.js:466-471 | In each wave done and the open statuses come to the total. |
| `Totals.EveryBoxIsOneThing` | docs/wbs/render.js:433-473 | The boxes are the done, the open, the acts left, the acts closed and the decided, each box one of them. |
| `Totals.AllIdsAreDistinct` | docs/wbs/render.js:43-46 | No two leaves of the breakdown share an id, within a module or across modules. |
| `Totals.BoxAgreesWithLeaf` | docs/wbs/render.js:186-201 | The box of a leaf carries the wave and module the walk counted it in, and a mark iff it is flagged. |
| `Totals.ALeafsOwnWave` | docs/wbs/render.js:61-66 | A leaf with a wave of its own is counted in that one, and any other in its module's. |
| `Totals.AnUnmarkedLeafIsOpen` | docs/wbs/render.js:199-201 | A leaf nobody has given a status counts as open, and any other by its own. |
| `Totals.TextTable.ReadIds` | docs/wbs/render.js:43-46 | Reading one subtree puts each of its leaves' sentences under its id. |
| `Totals.TextTable.ReadTree` | docs/wbs/render.js:42-47 | After the whole tree the text table is that of all its leaves. |
| `Totals.TheTableIsOfTheLeaves` | docs/wbs/render.js:43-49 | The text table has an entry for each leaf the walk counts and for nothing else, so the flags are checked against this page's leaves. |
| `Totals.BuildableIsThePagesTotal` | docs/wbs/render.js:59 | With the flags checked against the tree's own text table, `BUILDABLE` is the total the page divides by, and each wave's line has as many items as the walk counted buildable. |
| `Totals.ThePageHasTheFlags` | docs/wbs/render.js:50-53 | Once the flags are checked the page has as many decided boxes and as many acts as the check counted. |
| `Totals.Buildable` | docs/wbs/render.js:42-59 | Reading the sentences, checking the flags and subtracting: refused iff some flag is wrong, and else the page's total. |
| `Totals.AGroupsFigureIsItsSubtree` | docs/wbs/render.js:505-512 | On a whole page, a group's total is the unflagged leaves drawn below it and no other. |
| `OneTimeCode.CodeHasItsDigits` | e2e/lib/totp.ts:29-37 | A code is the truncated digest modulo a power of ten in exactly `digits` decimal characters, for one digit or more. |
| `OneTimeCode.AFreshCodeHasSixDigits` | e2e/lib/totp.ts:26-36 | The codes `freshCode` gives have six digits. |
| `OneTimeCode.TruncatedByItsBytes` | e2e/lib/totp.ts:33-36 | The truncation by the digest's bytes: the low nibble of the last byte says where, four bytes from there, the top bit off. |
| `OneTimeCode.TheExampleIsTruncated` | e2e/lib/totp.ts:33-36 | The worked example of section 5.4 of RFC 4226 truncates to 872921. |
| `OneTimeCode.TheMessageIsThePeriod` | e2e/lib/totp.ts:30-32 | What is hashed is the same for two times iff they share a period. |
| `OneTimeCode.Authenticator.FreshCode` | e2e/lib/totp.ts:50-63 | The first usable reading gives the code and its period is what the ledger file then holds; otherwise nothing changes. |
| `OneTimeCode.PeriodsOnlyIncrease` | e2e/lib/totp.ts:13-18 | Over any sequence of calls sharing the file, the periods used strictly increase, past the one the file began with. |
| `OneTimeCode.AFreshCodeWithinThirtyWaits` | e2e/lib/totp.ts:50-63 | With the file not ahead of the clock and 1 to 28 seconds a pass, a code comes within 30 waits. |
| `OneTimeCode.ThirtyWaitsAreNeeded` | e2e/lib/totp.ts:52-61 | A second a pass from just after a used period needs all thirty. |
| `OneTimeCode.TwentyNineIsTooFar` | e2e/lib/totp.ts:55-57 | At 29 seconds a pass no number of readings need be enough. |
| `OneTimeCode.ASpoiltFileStopsEveryCall` | e2e/lib/totp.ts:41-47 | No call ever returns, on any clock, iff the ledger file holds what `Number` reads as no number or as positive infinity. |
| `OneTimeCode.SpacesSpoilNothing` | e2e/lib/totp.ts:41-47 | Digits with white space around them are read as the number they are. |
| `OneTimeCode.OtherNumerals` | e2e/lib/totp.ts:41-47 | Exponents, signs, fractions, radix literals and infinity are read as what they denote. |
| `OneTimeCode.ALetterIsNoNumber` | e2e/lib/totp.ts:41-47 | A file holding a single letter past `e` is one that stops every call. |
| `OneTimeCode.WrittenIsRead` | e2e/lib/totp.ts:41-60 | The period a call writes down is the period the next call reads. |
| `OneTimeCode.NoFileBarsNothing` | e2e/lib/totp.ts:41-47 | Where there is no file yet every period is late enough. |
| `Template.TheCountsAreTheGrammar` | migrations/versions/0019_fast_path_rule.py:75-102 | The counting constraints hold iff the template is A, `{`, slot, `}`, B, with A and B brace-free, the slot a name, 12 characters around it and at most 200 in all. |
| `Template.OneCut` | migrations/versions/0019_fast_path_rule.py:97-102 | There is one such cut, slot included. |
| `Template.SplitOfRebuilt` | src/brain/core/fast_path.py:57-67 | Splitting a rebuilt template gives back its parts. |
| `Template.RebuildOfSplit` | src/brain/core/fast_path.py:57-67 | Rebuilding a split template gives it back. |
| `Template.TheLengthFloorIsImplied` | migrations/versions/0019_fast_path_rule.py:77-79 | The lower length bound of 15 asks nothing the other constraints do not. |
| `Template.TheTableIsWeakerByItsSpaces` | src/brain/core/fast_path.py:70-109 | The application loads exactly the accepted rows whose text is 12 characters long once stripped: the exact condition under which the two agree. |
| `Template.OnlySpacesAreStripped` | src/brain/core/fast_path.py:104 | What is stripped off is white space at the two ends and nothing else. |
| `Template.SpacesAreText` | migrations/versions/0019_fast_path_rule.py:81-85 | A hole after nothing but twelve or more spaces is kept by the table and refused by the application. |
| `Vocabulary.Database.Widen` | migrations/versions/0013_teams_channel.py:77-85 | An upgrade, table by table, is taken iff every row is in the wider list, and otherwise changes nothing. |
| `Vocabulary.Database.Narrow` | migrations/versions/0013_teams_channel.py:88-94 | A downgrade reads no row, keeps them all, and narrows the list in every table. |
| `Vocabulary.EveryRunKeeps` | migrations/versions/0012_telegram_channel.py:70-86 | Over every run the list in force is the revision's and every row is of some revision reached. |
| `Vocabulary.AnUpgradeSucceedsIff` | migrations/versions/0026_record_read_action.py:81-94 | After any run the next upgrade is taken iff no row carries a value introduced above it. |
| `Vocabulary.OneBackAlwaysComesForward` | migrations/versions/0026_record_read_action.py:41-52 | The documented claim holds for a database at most one revision below the highest it reached. |
| `Vocabulary.TwoBackMayNotComeForward` | migrations/versions/0026_record_read_action.py:41-52 | For every chain and every place on it, a row of the newest value and two revisions back make the next upgrade fail. |
| `Vocabulary.AnAppendOnlyTableIsStuck` | migrations/versions/0026_record_read_action.py:41-52 | In a table that only grows such a row holds the database back whatever is done afterwards. |
| `Vocabulary.DeletingLetsItForward` | migrations/versions/0007_widget_channel.py:26-32 | Where rows may be deleted, deleting the one row in the way lets the upgrade be taken. |
| `Vocabulary.ARecordedReadBlocksTheWayForward` | migrations/versions/0023_approval_action.py:64-77 | The ledger's own case: one recorded read and two revisions back, and 0023 is never taken again. |
| `Vocabulary.ADowngradeKeepsTheRows` | migrations/versions/0007_widget_channel.py:90-101 | A rollback keeps every row and refuses the rolled-back value to the next write. |
| `Vocabulary.TheChannelLists` | migrations/versions/0013_teams_channel.py:61-71 | The list in force before 0007 and after each of 0007, 0011, 0012 and 0013, as those files write it. |
| `Vocabulary.TheActionLists` | migrations/versions/0026_record_read_action.py:65-75 | The list in force before 0022 and after each of 0022, 0023 and 0026, as those files write it. |

## Left out

- Ledger.OneHeadOneHistory: assumes the digest free of collisions on the byte strings of the two ledgers, since sha256 is a parameter here, and string-valued details, which the triggers and the application both write.
- LedgerProtocol.NoAppendIsRefused: is of transactions whose reads see all that is committed, as under read committed; of the constraints, those on digests and parents need the absence of collisions.
- DelegationTable.RowsStand: deletes are not statements of the model; no role is granted one.
- Entitlements.Gate.Run: a statement writes one row. A statement that writes several fires its row triggers when all of them are written, so each entry's `holds` is of the state after the whole statement.
- Coherence.AStaleReachIsNeverWide: compares two states at one fixed time; the cache entry's own lifetime, and its check against the next grant to lapse, are not modelled.
- AuditHash.AuditEntryHash: instants before the common era, whose years `to_char` and Python write differently, are outside the model.
- Windows.PlanWaves: each wave has a leaf, as a wave is only listed for having one; a module whose wave has no window, where the script stops with a type error, is not modelled.
- Progress.Refresh: the overdue count, the percentages and everything written into the page are not modelled.
- OneTimeCode.Authenticator.FreshCode: two workers between reading and writing the file are not modelled; a numeral in the file is the number it denotes, without the rounding and overflow of a double.
- Later migrations that replace these objects, and the later links of the two vocabularies.
- The shape checks on delegation documents (`gate.entitlement_document_faults`): single-branch checks on JSON.
- Column widths, name grammars and the vocabularies on their own, and foreign keys beyond those named: one-branch checks.
- Row-level security, roles and privileges: the model's statements are those somebody may make.
- The bodies of sha256 and HMAC, time zones, and the trace id's default, which is taken as given.
- Sign-out and expiry of sessions, unmerging, and the pre-images merges keep.
- The launch windows of `render.js`, which no module uses, and its HTML.
- The hand-set statuses of `docs/wbs/progress.js`: the same check as the flags', with other faults.
- The order of resolved grants: the resolver sorts them, and no reader of a reach depends on it.
