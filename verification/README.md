# Tiding's table protocols, verified

Tiding's server keeps seats, mail, watch leases, project memory and principals as rows of a few
tables, and runs small concurrent protocols over them. This project models those protocols in
Dafny and proves what they promise: safety over whole runs, under interleavings of the SQL
statements where the code splits reads from writes, and the exact conditions where a promise
depends on something.

| files | what they model |
|---|---|
| `SeatLadder`, `SeatClaim`, `SeatRelease`, `SeatRegistry` | unique addresses: the decision ladder, `seat_claim`, presence beats, certificates on seat rows, the fenced release; the class `Registry` works on the tables in place |
| `SeatHistory`, `SeatRaces` | runs of the registry: calls atomic (claim stability, the one-way door, releases), and claims split into their statements (no stolen address and the door, exactly when) |
| `PresenceRaces` | presence beats split into their reads and their write |
| `LaneInheritance`, `LaneCursor` | death certificates, lane read-cursors and inherited read marks; the cursor's reads and writes interleaved |
| `TreePasses` | the address tree, the climb pass and the sweep pass |
| `WatchClaim`, `WatchStore`, `WatchCatchUp` | the single-holder watch lease, its statements under interference, and its catch-up chain |
| `ProjectMerge`, `ProjectAlias`, `ProjectStore` | the project rename: merge plan, undo, alias map, mailbox expansion |
| `MemoryRows`, `MemoryCollapse`, `MemoryStore` | conditional writes under row locks, the cross-writer collapse outside the transaction, and the row lifecycle verbs |
| `PrincipalCache` | token lookup through a digest index and a verdict cache |

A table is a map from the columns of its unique constraint to a row. One SQL statement is one
atomic step; a `FOR UPDATE` transaction is a lock; its last write and commit are one step. Time is
an integer on one clock, in microseconds except in `PrincipalCache`, which counts seconds. Nonces
are strings. A bcrypt hash and a SHA-256 digest are symbolic and accept one token each. The
content hash of a memory value is a parameter that may be any function.

Functions specify what a call does; each class method is proved to do exactly that, and the
lemmas are about the functions.

## Where the code does less than its comments say

Each is a lemma with a concrete run or an exact condition.

- `SeatRaces`: the continuity branch (session_registry.py:1012-1064) reads its key's rows and then
  updates and deletes by name, without a guard. `NoStolenAddressIff` says over all runs that the
  no-steal property fails exactly when such a write lands on another key's row, and one that does
  has straddled a change of hands (`TrespassStraddles`). `DoorHoldsIff` does the same for the
  one-way door: it fails exactly when the row is updated by the displaced process or by a claimant
  whose read does not remember it, which takes a straddling refresh, a deliberate re-seat, or the
  ninth displacement (`ForgettingTakes`).
  `DyingHeartbeatRetakes` is the restart race that the comment at 867-880 means to exclude,
  `SplitRefreshSteals` a name taken from another key's brand-new holder.
- `SeatClaim.OneWayDoor`: even as one call, "a process displaced from a seat can never take it
  back" holds for ordinary claims only. A deliberate re-seat onto the name from another row of the
  same session key takes it, because that branch compares session keys, not processes.
- `SeatHistory.InferredReleaseParksIff`: a beat prunes what is 300 seconds old while the ladder
  looks 600 seconds back, so after a wrong inferred release a newcomer that beats at its declared
  name first can be granted it (`NewcomerOutwaitsTheLiving`).
- `SeatRelease.StrayCertificateIsInertIff`: the certificate mark is overwritten, so a stray
  certificate can undo what the occupant's own one had freed.
- `SeatLadder.FreePassesGuardIff`: a certified row touched at the very instant of the claim is
  answered free and then not taken over.
- `LaneCursor.CursorKeepsAllIffSerial`: the cursor is the union of all harvests, whatever they
  are, only when no call writes back a list it read before another certificate wrote.
- `LaneInheritance.SeatMarkIsLatestIff`: the certificate row is monotonic in the time of death, the
  mark it leaves on the seat row is not. `CollectsOwnIff`: a certificate without a host goes by a
  LIKE pattern, in which characters of the seat name can be wildcards.
- `ProjectMerge.UndoExactly`: undo is exact under three conditions, all needed; a suffix in an
  archive name is not stripped and a key that already looked archived is.
- `ProjectAlias.RelabelMailboxIff`: relabelling a name that is already an alias takes it out of
  its old family.
- `WatchCatchUp.ClaimTimeHandoverIff`: a takeover from a holder's claim time is safe exactly when
  that holder had emitted what lay between its own starting point and its claim time. A holder
  displaced before its first report leaves a gap otherwise. And "a stale read here is harmless" is
  not so: a claim time read before a first report below it narrows the window
  (`StaleClaimTimeNarrows`).
- `MemoryRows.OwnershipHoldsIff`: ownership is judged when the writer reads. Where it read an empty
  slot there is nothing to lock, and its upsert goes over a row another principal put there since.
- `MemoryCollapse.BothWritesCanDrain`: "the later write's stamp wins" is not what happens when both
  upserts come before both stamps; then no live row is left. `LastWriteSurvivesIff` is the exact
  condition.
- `MemoryStore.FlaggedStaysHiddenIff`: a flagged row's exposure is meant to end at the flag, but
  superseding it afterwards makes it readable by exact key again (`SupersedeUnhidesIff`).
- `PrincipalCache.RotatedDuringBackfill` and `SplitReadsAgreeIff`: the legacy backfill is not
  atomic with the match. A rotation in between leaves the new token refused; two simultaneous
  first logins with one legacy token refuse one of them.


## Model

| member | source | states |
|---|---|---|
| `SeatLadder.Decide` | server/services/session_registry.py:193-279 | A name is free exactly when it is neither root nor lane, has no open mail, and its last holder is certified dead, or left no row and nobody answers there, or has been silent on both clocks for seven days |
| `SeatLadder.WhoMayTake` | server/services/session_registry.py:1165-1221 | From the rows alone, when a name that is no lane and no root is freed: without open mail, its holder is certified dead or silent for seven days, or there is no row and nobody else answers; with open mail only to the launch naming it, and not while anybody answers unless the holder is certified dead |
| `SeatLadder.DistinctMeans` | server/services/session_registry.py:739-773 | A preference sets a claim apart exactly when it is not the base name and, unless it is a runtime re-seat, not a reserved lane or the project's root |
| `SeatLadder.RegisterAgrees` | server/services/session_registry.py:2055-2125 | For a seat row (not an exempt role, not a person's, no @) the register and the allocator answer alike to everyone but a launch naming the seat, and for the same reason unless the name is a lane and a root at once |
| `SeatLadder.LaunchSeesMore` | server/services/session_registry.py:1165-1204 | A launch naming the seat can be given it where the register shows it parked, and then only because mail is open there; what the register shows free is never refused |
| `SeatLadder.FreePassesGuardIff` | server/services/session_registry.py:1226-1253 | A free answer passes the takeover's age guard except for a certified row touched at that very instant |
| `SeatLadder.OpenMailGoesToTheNamedHeir` | server/services/session_registry.py:1154-1204 | An address with open mail is freed only for a launch that named this distinctive seat, and only when its holder is certified dead, or silent for seven days on both clocks, or rowless, with nobody else breathing there |
| `SeatLadder.RecentRowIsKept` | server/services/session_registry.py:193-279 | Whatever the mail, presence and preference, an uncertified row touched within seven days is never freed |
| `SeatLadder.NoRowAllocation` | server/services/session_registry.py:249-263 | A name without a row: free without mail exactly when no other process is breathing there; with mail, only for the launch that named it |
| `SeatClaim.FindGrant` | server/services/session_registry.py:1101-1260 | The allocation loop grants the first candidate that the ladder frees and the write then gets, or nothing when there is none |
| `SeatClaim.ClaimIsHeld` | server/services/session_registry.py:694-1269 | Every answered claim leaves the claiming process holding the seat it was told; an unanswered one changes nothing |
| `SeatClaim.ClaimAddsAtMostOne` | server/services/session_registry.py:828-1269 | One claim adds at most one row, the one it is answered with, and an ordinary claim of a process that has a seat adds none |
| `SeatClaim.NewSeatIsLawful` | server/services/session_registry.py:1101-1260 | A newly granted seat is one of the claimant's own candidates, no lane and no root; what stood there was certified dead or silent for seven days; open mail goes along only to the launch that named it |
| `SeatClaim.NewSeatIsLowest` | server/services/session_registry.py:338-350 | A new seat is the distinctive preference if that is grantable, and else the lowest grantable one of base and base-2 to base-64; a claim is exhausted exactly when it has no row to continue and none of these is grantable |
| `SeatClaim.NewRowHolds` | server/services/session_registry.py:1128-1260 | The new row holds the claimant and what it asked for, remembers nobody, carries no certificate and keeps the age of a row it took over; no other row changes, and a skipped preference is reported with its reason |
| `SeatClaim.RefreshHolds` | server/services/session_registry.py:1012-1038 | A refresh writes the claimant's process over the row, keeps its age, its deliberate choice and the preference first recorded, and remembers the last eight displaced processes in order |
| `SeatClaim.HoldingIsLowest` | server/services/session_registry.py:828-880 | Of the rows it may continue, its own process's before others, a claim takes a deliberately chosen one first and else the lowest numbered |
| `SeatClaim.SharedRoleIsAnswered` | server/services/session_registry.py:725-738 | Exactly the shared role is answered with itself, without a row and without any change |
| `SeatClaim.OneSeatPerProcess` | server/services/session_registry.py:1039-1064 | After an ordinary claim a process holds the seat it was told and otherwise only old rows that still have open mail |
| `SeatClaim.ReseatIsExactOrRefused` | server/services/session_registry.py:908-1010 | A deliberate re-seat gets exactly the name, on a row written out field by field, and frees the old one unless mail waits there, or is refused, keeps what it had and evicts nobody |
| `SeatClaim.OthersRowsAreSafe` | server/services/session_registry.py:694-1269 | A claim changes no row of another session key, except a takeover of a row certified dead or silent for seven days, which it reports as reclaimed |
| `SeatClaim.OneWayDoor` | server/services/session_registry.py:848-911 | With the claim as one call: a displaced process is answered with that seat again if and only if it deliberately re-seats onto it by name from another row of its own; otherwise the successor's row is untouched |
| `SeatHistory.ClaimsAreStable` | server/services/session_registry.py:828-846 | Over any run, once an ordinary claim of a process is answered with a seat, each later one that finds the row still its own is answered with the same seat and leaves it its own |
| `SeatHistory.OneRowPerLoss` | server/services/session_registry.py:828-911 | Over any run the rows a process's ordinary claims add number at most the times it lost its seat, plus one if it began without |
| `SeatHistory.DisplacementIsRecorded` | server/services/session_registry.py:893-911 | A newest-wins claim records the displaced process as the last one the row remembers, and the row is fresh and uncertified |
| `SeatHistory.DisplacedStaysOut` | server/services/session_registry.py:848-911 | With calls atomic, over any run after a displacement: while the successor's row stands and fewer than eight more displacements happen there, no ordinary claim returns the seat to the displaced process and no beat puts it back into the map collisions are counted from |
| `SeatHistory.ReleasedNameIsNext` | server/services/session_registry.py:572-616 | After a stamped release of an unreserved name, and any run without a beat or mail there, the next claim that reaches the rowless name is granted it |
| `SeatHistory.StampedReleaseFreesIff` | server/services/session_registry.py:572-616 | After a stamped release and any run in which the name has no row, it is refused to a claimant if and only if a beat or a newer watcher's beat voided the goodbye and the latest beat of anyone else on record is under 600 seconds old and has not lapsed |
| `SeatHistory.InferredReleaseParksIff` | server/services/session_registry.py:530-616 | After an inferred release where another process still beats, for 600 seconds from its recorded beat the rowless, mailless name is parked to a claimant if and only if no beat of the claimant's own, or an anonymous one, came 300 seconds after everyone else's last |
| `SeatHistory.NewcomerOutwaitsTheLiving` | server/services/memory_service.py:1943-1967 | It does lapse: a newcomer's beat prunes a live process's entry that is 300 to 600 seconds old, and the name parked a moment before is grantable to it |
| `SeatRaces.NoStolenAddressIff` | server/services/session_registry.py:643-663 | With every statement of a claim a step of its own and truthful certificates: over any run each live process's seat touched within seven days keeps its session key, and its process unless that key or process acted, if and only if no write by name lands on such a seat of another key; the guarded takeover never does it |
| `SeatRaces.TrespassStraddles` | server/services/session_registry.py:960-1064 | Every write by name that lands on another key's row, refresh, re-seat or delete, has straddled a change of hands since its read |
| `SeatRaces.DoorHoldsIff` | server/services/session_registry.py:867-911 | With whatever claims in flight, for as long as the successor's row stands: a displaced process stays out and remembered if and only if no claimant updates the row by name that is that process itself or whose read of the row does not remember it among the last eight |
| `SeatRaces.ForgettingTakes` | server/services/session_registry.py:1012-1038 | Such an update is a refresh that straddled a change of hands, a deliberate re-seat onto the name, or the displacement that pushes the process off the eight a row remembers |
| `SeatRaces.StraddlingRefreshBreaksTheDoor` | server/services/session_registry.py:1012-1038 | Every refresh that straddled a displacement breaks the door: the newcomer is displaced unremembered, and a displaced process's own refresh gives it the seat and its old list back |
| `SeatRaces.DyingHeartbeatRetakes` | server/services/session_registry.py:867-880 | For any restart of a key's one row onto a process the row has not displaced: the predecessor reads, the successor's ordinary claim displaces it, the predecessor's refresh lands; it has the seat back with its old list, the successor is not remembered, and the next two beats report a collision unless that list named the predecessor already |
| `SeatRaces.AloneIsTheCall` | server/services/session_registry.py:828-1067 | Left alone, the statements of an ordinary continuity claim leave the tables as the whole call does |
| `SeatRaces.SplitRefreshSteals` | server/services/session_registry.py:1012-1038 | Whenever another key's claim may be granted a name whose holder has just read it: look, guarded write, refresh is a run whose last step trespasses and takes the name from its brand-new holder |
| `SeatRelease.Merged` | server/services/memory_service.py:1943-1967 | A beat's stored map holds exactly the undisplaced sessions fresh within 300 seconds and the beater unless it is displaced |
| `SeatRelease.WatcherBeatVoidsGoodbye` | server/services/memory_service.py:2207-2299 | The watcher's beat adds no row and changes no nonce map, but a goodbye stamped before it no longer counts: the name is breathing again exactly when somebody else's recorded beat is under 600 seconds old |
| `SeatRelease.DisplacedIsNeverCounted` | server/services/memory_service.py:2035-2056 | Whatever the presence row held and whoever beats, a beat that reads the displacement on the seat row stores and counts what it would without that process's entry and beat |
| `SeatRelease.SuccessionIsNoCollision` | server/services/memory_service.py:2201-2203 | When everyone recorded but the successor has been displaced, no beat of any of them reports a collision |
| `SeatRelease.UnrecordedPredecessorCollides` | server/services/memory_service.py:2201-2203 | Without the record of displacement the same beats do report one |
| `PresenceRaces.BeatCountsIff` | server/services/memory_service.py:2010-2056 | With a beat's reads and its write as separate steps of any run: it counts a process if and only if the seat row did not remember displacing it when the beat read that row, and the beat is the process's own or the presence row read recorded it under 300 seconds ago |
| `PresenceRaces.OnlyEarlyReadersCollide` | server/services/memory_service.py:2201-2203 | Over any run in which only a predecessor and its successor beat, no beat reports a collision if it read the seat row when that row remembered the displacement |
| `SeatRelease.StrayCertificateIsInert` | server/services/session_registry.py:459-527 | On a row not certified dead, a certificate about another process, or about a death before the row began, changes no allocation answer and opens no takeover |
| `SeatRelease.StrayCertificateIsInertIff` | server/services/session_registry.py:1366-1380 | On any row a stray certificate leaves who may be granted what unchanged if and only if the row was not certified dead before or its name is settled without any certificate; otherwise it takes back what the occupant's own certificate gave |
| `SeatRelease.OwnCertificateFrees` | server/services/session_registry.py:1238-1245 | A certificate about the occupant makes an unreserved name without open mail grantable at once, however lately it beat |
| `SeatRelease.ReleaseIsFenced` | server/services/session_registry.py:1665-1769 | A release with a nonce removes exactly the rows of that key and process, and stamps at most the reported name, only when certain and only if every session recorded there, and the row's own nonce, is that process |
| `SeatRelease.StaleReleaseIsANoOp` | server/services/session_registry.py:1665-1694 | A release by a process that no longer has a row changes nothing |
| `SeatRegistry.Registry.FirstOf` | server/services/session_registry.py:828-846 | The loop finds the first row of the continuity order: taken names, then ordinal, then name |
| `SeatRegistry.Registry.Claim` | server/services/session_registry.py:694-1276 | The call's answer and new tables are those of the specification proved above, through every branch |
| `SeatRegistry.Registry.Continue` | server/services/session_registry.py:848-1067 | Continuity: keep, move or refuse, as specified |
| `SeatRegistry.Registry.Allocate` | server/services/session_registry.py:1069-1276 | The candidate loop grants what the specification says and reports why the asked-for name was passed over |
| `SeatRegistry.Registry.Release` | server/services/session_registry.py:1567-1694 | The fenced release, in place |
| `SeatRegistry.Registry.Beat` | server/services/memory_service.py:1983-2204 | The presence beat rebuilds its row, moves the clocks of presence and seat to the call's time, drops a goodbye, changes no other row, and reports a collision exactly when more than one session is counted and the name is not the shared role |
| `LaneInheritance.MarksAreEarnedOrInherited` | server/services/session_registry.py:1483-1542 | Over any run a reader is in a letter's read_by only if it acked or resolved it, or inherited it through its lane's cursor |
| `LaneInheritance.CursorsAreHarvested` | server/services/session_registry.py:1382-1456 | A letter is in a lane's cursor only because a certificate for that lane named a reader that had the mark |
| `LaneInheritance.EveryMarkHasARealAck` | server/services/memory_service.py:2997-3103 | Every read mark, however often inherited, goes back to a real ack or resolve of that letter |
| `LaneInheritance.CollectsOwnIff` | server/services/session_registry.py:1386-1413 | With a host a certificate collects its own reader's letters; without one, over all inboxes, only the seat's own readers' if and only if the seat name has no pattern character |
| `LaneInheritance.CertificateCollectsIff` | server/services/session_registry.py:1382-1456 | After a certificate an id is in the lane's cursor if and only if it was before or it is a letter, neither at the dead seat's own address nor at a machine's, that the dead one had read: seat@host with a host, any reader beginning seat@ without one when the seat name has no wildcard; no other lane changes |
| `LaneInheritance.InheritanceIsSuccession` | server/services/session_registry.py:1483-1542 | A fresh peer on the lane blocks inheritance unless the claimant's key is certified; otherwise the occupant is marked on exactly the cursor's letters, and cursors never change by it |
| `LaneInheritance.SuccessorIsMarked` | server/services/session_registry.py:1461-1553 | Over any run after a certificate, the next occupant of the lane that claims with a host is marked on every letter the dead one had read at an address that outlives it, if no fresh colleague contests it; a contested one changes nothing |
| `LaneInheritance.InheritanceIsRecorded` | server/services/session_registry.py:1539-1553 | An inheritance records its reader and the certificate it came by as the last of at most sixteen |
| `LaneInheritance.CursorIsUnionOfHarvests` | server/services/session_registry.py:1385-1456 | With calls atomic a lane's cursor is the union of all its harvests |
| `LaneInheritance.LatestDeathIsKept` | server/services/session_registry.py:1345-1362 | Whatever the order and repeats, the certificate row holds a delivered certificate and none delivered for it names a later death |
| `LaneInheritance.MarkIsLastDelivered` | server/services/session_registry.py:1366-1380 | Over any run the mark on the seat row is the last certificate delivered for it |
| `LaneInheritance.SeatMarkIsLatestIff` | server/services/session_registry.py:1345-1380 | Over any run certificate row and seat mark tell the same death if and only if the last certificate delivered is a latest one |
| `LaneCursor.CursorKeepsAllIffSerial` | server/services/session_registry.py:1416-1456 | With every read and write of a lane's list a step of its own: nothing gathered is ever missing, whatever the harvests, if and only if no certificate or inheritance writes back a list it read before another certificate wrote |
| `LaneCursor.UnserialLoses` | server/services/session_registry.py:1496-1553 | For every plan that is not serial there are harvests that are lost from a list that was not empty |
| `LaneInheritance.Lanes.AckLetter` | server/services/memory_service.py:2997-3023 | An ack adds the reader to that letter and nothing else, idempotently, and reports whether the letter exists |
| `LaneInheritance.Lanes.FileDeath` | server/services/session_registry.py:1283-1458 | The letters the cursor gains, exactly; the certificate it names last; whether the record is new or replaced, and by which death; the mark on the seat row |
| `LaneInheritance.Lanes.Inherit` | server/services/session_registry.py:1461-1553 | The peer loop and the marking, in place |
| `TreePasses.ParentsParse` | server/services/session_registry.py:2367-2390 | With fixed roots the parent of an incarnation parses as a lane, and of a lane as the root, of the same project |
| `TreePasses.ParseMeans` | server/services/session_registry.py:2367-2390 | Which addresses are what under their longest root: the root itself, a lane when a hyphen and a provider follow, an incarnation when a hyphen and digits follow that, whatever the host suffix |
| `TreePasses.NoRootNoNode` | server/services/session_registry.py:2367-2390 | An address under no known root is no part of the tree |
| `TreePasses.ClimbsOnEvidenceOnly` | server/services/session_registry.py:2463-2505 | An ask climbs if and only if it is known unhandled, not exempt, and its incarnation's holder is dead or gone with nothing beating, or its lane is dormant in a live project; and it climbs to the parent |
| `TreePasses.WhyAnAskStays` | server/services/session_registry.py:2440-2510 | The one reason an ask stays, or the evidence by which it climbs, case by case |
| `TreePasses.SweepsSpentChatterOnly` | server/services/session_registry.py:2570-2595 | A letter is swept if and only if it is no ask, not exempt, below a root, and its incarnation is dead or it is older than 72 hours |
| `TreePasses.WhyALetterIsSpared` | server/services/session_registry.py:2570-2595 | The one reason a letter is spared, or by what a swept one was spent, case by case |
| `TreePasses.NeverBoth` | server/services/session_registry.py:2572-2574 | No letter is both selected by the climb pass and swept |
| `TreePasses.AskClimbsIffUnpadded` | server/services/session_registry.py:2431-2431 | An open ask is selected for climbing exactly when its intent has no blanks around it |
| `TreePasses.NoAcceptedLetterIsStranded` | server/models.py:736-743 | No accepted intent is padded, so every open letter falls to exactly one pass |
| `TreePasses.AtMostTwoClimbs` | server/services/session_registry.py:2393-2527 | Over any run a letter keeps its id and project, each climb takes it up exactly one level, and it climbs at most twice |
| `TreePasses.Post.QuietSince` | server/services/session_registry.py:2451-2461 | The loop's newest age decides exactly whether anything in the lane's subtree is younger than the dwell |
| `TreePasses.Post.Judge` | server/services/session_registry.py:2463-2510 | The pass's branches give the specified outcome |
| `TreePasses.Post.ClimbPass` | server/services/session_registry.py:2393-2527 | Every selected letter ends in exactly one place: climbed to its parent, its old address kept, or one skip count; the counts are the sizes of the outcome classes, and no other letter changes |
| `TreePasses.Post.SweepPass` | server/services/session_registry.py:2536-2612 | Exactly the sweepable letters are closed, every other selected letter is counted once under its own reason, and nothing the climb pass would take, nor any other field of any letter, is touched |
| `WatchClaim.OwnKeyMatches` | server/services/watch_claim.py:82-107 | A watcher's beats and releases match the key its own claim was filed under |
| `WatchClaim.OneKeyPerBox` | server/services/watch_claim.py:82-93 | An ordinary seat has one key wherever it is watched from; a shared role has one for each machine its watcher listens on, so two watchers of it contend exactly on one box |
| `WatchClaim.BoxWithoutMachine` | server/services/watch_claim.py:82-93 | Without a machine address a shared role's box is its own name at the first host it listens on, else the short name of the host given, else none |
| `WatchClaim.GrantsAreSeparated` | server/services/watch_claim.py:189-268 | Two successive grants of a key are separated by the first holder's release, or the second is a steal whose guard held against the first holder's row at that instant |
| `WatchClaim.LostStaysLost` | server/services/watch_claim.py:347-389 | After losing its row a nonce's later beats and releases match nothing and change nothing, on every run |
| `WatchClaim.DiligentIffSafe` | server/services/watch_claim.py:230-268 | No claimant can steal from a holder if and only if its last beat is at most 150 s old, its seat nonce is the one on every seat row that names a process, and its watermark covers the listened mail older than 600 s |
| `WatchClaim.OverdueMailIff` | server/services/watch_claim.py:241-262 | A holder that beats in time and is the register's is displaceable exactly when an unarchived letter it listens for, newer than its watermark or else its claim time, is between ten minutes and six hours old |
| `WatchClaim.NewLeaseHolds` | server/services/watch_claim.py:113-128 | Until 150 seconds after a claim, while no listened letter newer than it waits 600 seconds and the register names no other process, nobody's statement takes the new lease |
| `WatchClaim.BeatsKeepTheLease` | server/services/watch_claim.py:230-268 | A holder that beats at least every 150 seconds, each beat reporting a watermark that covers the listened mail older than 450 seconds, is displaced by nobody through any run, and every beat is answered holder |
| `WatchClaim.RetryAfter` | server/services/watch_claim.py:306-321 | What a refused claimant is told lies between 5 and 150 seconds |
| `WatchClaim.TakeoverBound` | server/services/watch_claim.py:289-332 | If the holder goes silent, a claimant retrying when told is granted at its first or second retry, within 155 s of its first refusal |
| `WatchClaim.TakeoverBoundIsTight` | server/services/watch_claim.py:289-332 | The 155 seconds are reached when the first attempt lands at the instant of a beat |
| `WatchClaim.StatusAgrees` | server/services/watch_claim.py:392-463 | A seat reads covered exactly when its claim has not expired, and one that reads silent is granted to whoever claims next |
| `WatchStore.Store.Claim` | server/services/watch_claim.py:131-332 | Whatever statements others run between its own, a granted call leaves a row that begins at the call's time with the caller's nonce, seat nonce and listen set, its last beat at its claim and no watermark; the verdict, the prior watermark and the retry time are what its statements met; a partial listener is refused without effect |
| `WatchStore.GrantIsKept` | server/services/watch_claim.py:131-332 | A granted claim begins a lease that its own beats keep, through any run in which it beats every 150 seconds and reports what is older than 450; nothing about the row is assumed |
| `WatchStore.HeldIff` | server/services/watch_claim.py:230-268 | A claim is held off exactly when a row was there at its insert, and at its steal none was or none of the three conditions held; it is told how old the holder's beat is and when to retry, and a grant tells whether it was stolen |
| `WatchStore.CatchUpIsAMark` | server/services/watch_claim.py:218-229 | The catch-up point of a granted steal is the watermark, or else the claim time, of the row its own read met, and so one the key's row has shown up to the steal |
| `WatchStore.Store.Beat` | server/services/watch_claim.py:335-369 | Holder is answered exactly when a row of the seat carries the caller's nonce at that instant; otherwise nothing changes |
| `WatchStore.Store.Release` | server/services/watch_claim.py:372-389 | Released is answered exactly when the caller still holds the row; otherwise nothing changes |
| `WatchCatchUp.NothingIsLost` | server/services/watch_claim.py:218-287 | Over any chain of takeovers, with the prior watermark read at any earlier time: if nobody is displaced before its first report and reports wait for the mail up to the holder's own claim, every message up to the reported watermark has been emitted by some holder; mail past the watermark need not be |
| `WatchCatchUp.MarksAreShown` | server/services/watch_claim.py:218-229 | The marks a takeover may carry are exactly the watermarks the row has shown |
| `WatchCatchUp.ReportIsTrueIff` | server/services/watch_claim.py:218-287 | A report at or past the point a holder was given is true, everything up to it emitted, if and only if everything up to that point had been emitted at its takeover |
| `WatchCatchUp.EveryReportTrueIff` | server/services/watch_claim.py:218-287 | Over a whole run every such report is true if and only if each handover followed by one gave a point up to which everything had been emitted |
| `WatchCatchUp.ClaimTimeHandoverIff` | server/services/watch_claim.py:212-229 | When a takeover starts from the displaced holder's claim time, the successor's report is true if and only if that holder had emitted what lay between its own point and its claim time |
| `WatchCatchUp.StaleClaimTimeNarrows` | server/services/watch_claim.py:212-229 | A stale read can lose mail: a claim time read before a first report that lies below it narrows the successor's window past an unemitted message, although everybody reported first |
| `WatchCatchUp.DisplacedBeforeReporting` | server/services/watch_claim.py:218-287 | The first-report condition is needed: a holder displaced before reporting leaves a gap |
| `ProjectMerge.KeeperIsOne` | server/services/project_alias.py:181-206 | Of two involved rows with one key at most one keeps it |
| `ProjectMerge.KeepersByPosition` | server/services/project_alias.py:181-206 | In each slot the target's row keeps its key, or without one the row of the first listed source that has one there; every other involved row is renamed under archive/, its own project and its own key |
| `ProjectMerge.FinalSlotsDistinct` | server/services/project_alias.py:181-206 | The final keys of the merged rows are pairwise distinct within namespace and user |
| `ProjectMerge.RekeyKeepsUnique` | server/services/project_alias.py:268-275 | Every single key update keeps the unique constraint, whichever have already run |
| `ProjectMerge.MoveKeepsUnique` | server/services/project_alias.py:276-282 | The project update keeps the unique constraint row by row, in any order |
| `ProjectMerge.ReversibleIff` | server/services/project_alias.py:191-201 | Every involved row comes back exactly when no target row was stamped from a source, no kept key was under its own archive prefix, and no archive name was already taken |
| `ProjectMerge.UndoExactly` | server/services/project_alias.py:310-337 | Relabel followed by the reverses in any order restores every row's project and key if and only if those conditions held before the relabel |
| `ProjectMerge.UndoKeepsUnique` | server/services/project_alias.py:310-337 | Under those conditions every stage of the undo keeps the unique constraint |
| `ProjectMerge.UndoCanLose` | server/services/project_alias.py:325-327 | A key that already looked archived is damaged by relabel and reverse |
| `ProjectAlias.RunKeepsFlat` | server/services/project_alias.py:222-225 | Every run of relabel and reverse keeps the alias map flat |
| `ProjectAlias.Canonical` | server/services/project_alias.py:81-98 | The loop terminates; on a flat map it takes at most one hop, never the cycle branch, and its answer is a fixed point |
| `ProjectAlias.CanonicalAfterRelabel` | server/services/project_alias.py:283-298 | What a relabel does to the canonical name of every name |
| `ProjectAlias.ExpandListenSet` | server/services/project_alias.py:142-169 | The additions are exactly the missing family addresses, each once |
| `ProjectAlias.MailboxIsFamily` | server/services/project_alias.py:110-139 | Two names with one qualifier share a mailbox, for stored and for new mail, if and only if they have the same canonical name |
| `ProjectAlias.StoredUnderCanonicalName` | server/services/project_alias.py:129-139 | Mail is stored under the canonical name, qualifier kept, whatever family name it was sent to |
| `ProjectAlias.RelabelMailboxIff` | server/services/project_alias.py:283-298 | Which names share a mailbox after any relabel: two that both end at the target, or two untouched ones that shared one before |
| `ProjectAlias.RelabelJoinsMailboxes` | server/services/project_alias.py:283-298 | After a relabel whose sources were no aliases, all names of all the families involved are one mailbox |
| `ProjectAlias.RelabelSplitsMailbox` | server/services/project_alias.py:283-298 | A source that was already an alias leaves the rest of its family behind |
| `ProjectStore.CollectSources` | server/services/project_alias.py:214-225 | The loop keeps each valid source once and drops the target, or names a bad one |
| `ProjectStore.SourcesInOrder` | server/services/project_alias.py:214-225 | The sources are the listed names other than the target, each once, in the order first listed |
| `ProjectStore.FreeName` | server/services/project_alias.py:191-201 | The suffix loop terminates with the first candidate that is free |
| `ProjectStore.Plan` | server/services/project_alias.py:181-206 | The planning loops rename exactly the rows that lose their key, to free archive names, and list those renames |
| `ProjectStore.Total` | server/services/project_alias.py:244-262 | The counts add up to the number of source rows |
| `ProjectStore.Store.Relabel` | server/services/project_alias.py:209-302 | Accepted exactly when every name is well formed, some name is not the target, the target is no alias and no source a person; a refusal or dry run changes nothing; otherwise the first listed source keeps each contested key, the report lists every change and count, every row lands where it says, and the table constraint and flatness survive |
| `ProjectStore.Store.Reverse` | server/services/project_alias.py:305-344 | The stamped rows go home with their archive prefix gone and the alias is dropped, no other row or alias changes; or, when the constraint forbids it or a name is malformed, nothing changes |
| `MemoryRows.RejectUndoesFlag` | server/services/memory_service.py:879-1022 | Rejecting a deletion request gives back the status the row was flagged with |
| `MemoryRows.ConditionalWriteReplacesWhatItNamed` | server/services/memory_service.py:353-375 | Under any interleaving a conditional write that goes through replaces a value whose version it named |
| `MemoryRows.WinnersWrote` | server/services/memory_service.py:264-375 | A writer is told it won only after its own write went through |
| `MemoryRows.ExactlyOneCreates` | server/services/memory_service.py:304-352 | Of any number of concurrent create-only writers on an absent or drained key exactly one succeeds |
| `MemoryRows.OwnershipHoldsIff` | server/services/memory_service.py:264-303 | Under any interleaving an owner-checked upsert goes over another principal's live row if and only if the writer's own read found the slot empty, such a row is there at the upsert, and nobody has it locked |
| `MemoryRows.RivalsOverwrite` | server/services/memory_service.py:264-303 | It happens: two principals read the slot empty and the second overwrites the first's live row |
| `MemoryCollapse.AtMostOneLiveRow` | server/services/memory_service.py:376-421 | With upsert and stamp as interleaved steps, once all project writes of a key have finished at most one live row remains, if there was at most one before or some write went through |
| `MemoryCollapse.LastWriteSurvivesIff` | server/services/memory_service.py:376-421 | Once everything has finished no twin of the last write is live, and the last write's own row is live if and only if no twin's writer was still waiting to stamp when it landed |
| `MemoryCollapse.BothWritesCanDrain` | server/services/memory_service.py:376-421 | Two successful writes, interleaved, can leave no live row at all |
| `MemoryStore.Store.Set` | server/services/memory_service.py:197-422 | As one call: it succeeds exactly when ownership allows it and its condition matches; the row is then stored field by field and only live twins change; a refusal changes nothing and carries the owner or the current value |
| `MemoryStore.SetIsRead` | server/services/memory_service.py:565-583 | What was stored is read back by exact key for as long as it has not expired |
| `MemoryStore.Store.GetAny` | server/services/memory_service.py:541-558 | An all-writers read returns the newest created live unexpired row, and nothing only when there is none |
| `MemoryStore.Store.Supersede` | server/services/memory_service.py:1115-1201 | Only project and shared rows, only with a reason, in all the namespaces given; each sought row's status changes and nothing else |
| `MemoryStore.OneNamespaceIsOneRow` | server/services/memory_service.py:1180-1201 | With one namespace a correction supersedes that row, if it is there, and nothing else |
| `MemoryStore.Store.Flag` | server/services/memory_service.py:879-946 | Only data scopes, only with a reason; the first flag stands and keeps the prior status |
| `MemoryStore.Store.Reject` | server/services/memory_service.py:969-1022 | The prior status comes back, only from a flagged row |
| `MemoryStore.Store.Forget` | server/services/memory_service.py:820-876 | A delete is denied exactly when a named, non-admin caller is not the row's recorded controller, its custodian or only without one its owner; otherwise exactly that row goes |
| `MemoryStore.LastWriterIsCurrent` | server/services/memory_service.py:541-553 | With calls atomic the last project writer's row is the one live row of the key, and the all-writers read returns it while it is unexpired |
| `MemoryStore.CreateOnlyKeepsTwins` | server/services/memory_service.py:330-352 | A create-only write leaves every other live row of the key live |
| `MemoryStore.FlaggedStaysHiddenIff` | server/services/memory_service.py:879-1022 | Over any run a flagged row stays unreadable if and only if no write, correction or rejection of it goes through |
| `MemoryStore.SupersedeUnhidesIff` | server/services/memory_service.py:1180-1201 | A correction of a flagged row gives it back to the exact read exactly while it has not expired |
| `MemoryStore.CallIsARun` | server/services/memory_service.py:197-422 | A writer running alone through the statements ends in the table and verdict of the whole call |
| `PrincipalCache.LookupIsScan` | server/services/principal_service.py:170-218 | With a sound index and cache the lookup answers what checking every active principal would, and keeps both sound |
| `PrincipalCache.CarrierOpens` | server/services/principal_service.py:188-218 | The one row that carries a token is the one it opens when active, and nobody's when not |
| `PrincipalCache.RotationTakes` | server/services/principal_service.py:246-303 | After a rotation the new token opens that principal if it is active, and the token it had opens nobody |
| `PrincipalCache.VerdictLasts` | server/services/principal_service.py:150-163 | A verdict is reused for 300 seconds after its check, for that stored hash only, and remembering one keeps the others while there are fewer than 1024 |
| `PrincipalCache.AgreesIffIndexed` | server/services/principal_service.py:170-218 | Lookup and plain check agree on every token if and only if each active row's digest is that of the token its hash accepts |
| `PrincipalCache.BackfillSafeIff` | server/services/principal_service.py:206-217 | A backfill keeps the index sound if and only if the row it lands on still accepts the token |
| `PrincipalCache.RotatedDuringBackfill` | server/services/principal_service.py:206-217 | A rotation between match and backfill leaves the new token refused although the plain check accepts it |
| `PrincipalCache.SplitReadsAgreeIff` | server/services/principal_service.py:183-206 | With the two reads split by backfills, the principal is found if and only if that very row was not backfilled in between |
| `PrincipalCache.CacheRefinesScan` | server/services/principal_service.py:150-218 | On every run of create, rotate, deactivate, edit, lookup and time steps the lookup equals the plain check and the cache holds at most 1024 verdicts |
| `PrincipalCache.Service.GetByToken` | server/services/principal_service.py:170-218 | The call answers what the plain check of the table answers |
| `PrincipalCache.Service.CreatePrincipal` | server/services/principal_service.py:83-123 | Created exactly when the name is new; the new row is last and active with the given grants, and the plain check of its token answers it |
| `PrincipalCache.Service.UpdatePrincipal` | server/services/principal_service.py:246-303 | Only the given fields of the named principal change, to what was given; its new token then opens it when active, and its old one nobody |
| `PrincipalCache.Service.DeactivatePrincipal` | server/services/principal_service.py:306-315 | Done exactly when an active principal had the name; afterwards none is active under it |

## Left out

- Trimming, lower-casing and Unicode normalisation of names, keys and addresses: they are taken as already normalised.
- Requests, routers, models, logging, audit, dashboards, deployment flags other than lane reservation, migrations, warning and guidance texts.
- Embeddings, search, tags and the `last_used_at` touches of reads; key generation, bcrypt and SHA-256 themselves.
- Claims, beats and releases without a process nonce, and rows written before nonces or certificate times existed.
- SeatClaim.ClaimIsHeld: the shared role `admin` is answered without a row, so it is excluded; the census upsert and the texts of warnings are not modelled, only which reason parked the asked-for name.
- SeatLadder.Decide: does not return the time the grace window ends, which is only displayed.
- SeatHistory.ReleasedNameIsNext: a release that removes several rows of one process reports and stamps one of them, any; the theorem is about the one reported.
- SeatRaces.NoStolenAddressIff: certificates are assumed to carry the nonce of a dead process; the mail check and the DELETE that follows it are one step.
- LaneInheritance.CollectsOwnIff: a backslash in a seat name, LIKE's escape, is taken literally.
- LaneInheritance.EveryMarkHasARealAck: letters are never deleted and re-created under one id; archiving with a reader is an ack.
- The register's own facts (deaths voided by later life, farewells, watchers) and the handled verdict are inputs of the tree passes.
- `seat_list`, the roster, person and group addresses, and the advisories about unknown roots.
- WatchClaim.StatusAgrees: the per-box answer for shared roles is not modelled; the explanation of why a holder was displaced is text only.
- WatchClaim.RetryAfter: rounds half up to a tenth of a second, where the source's rounding sends ties to even.
- The role half of the listen-set expansion, and the thirty-second cache of the alias table.
- ProjectStore.Store.Relabel: the transaction runs alone; rows written into a source between its fetch and its update are not modelled.
- MemoryStore.Store.Set: caller metadata that itself sets a lifecycle status is not modelled, so a written row is live; create-only and unconditional writes by other scopes share the machine but have no collapse.
- MemoryCollapse.AtMostOneLiveRow: create-only writers, which return before the stamp, and rejected deletion requests are outside the claim, as the code intends.
- `estate_transfer`, key listing, and the deletion queue's listing.
- WatchClaim.BeatsKeepTheLease: mail is assumed to be stamped on arrival; a letter that a climb readdresses to a listened address keeps its old time and could make a punctual holder look mute.
- TreePasses.AskClimbsIffUnpadded: intents that no request can carry are covered, but the model has no row with one unless something else writes it.
