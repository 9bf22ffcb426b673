# Gift box core, modelled in Dafny

RangGiftBox is a Minecraft server plugin that keeps a mailbox of item gifts per player.
Another plugin (or an operator command) sends a gift through the public API. The gift
becomes a row of the `present` table and stays there until the player claims it in the
gift box GUI, or until a periodic sweep removes it once its expiry stamp has passed.
Every send, claim and expiry is appended to the `present_log` audit table, with a result
code, and announced on the server's event bus.

The repository holds two generations of the same plugin:

- the legacy one (`rang.games.rangGiftBox`), and
- the newer one (`wiki.creeper.*`).

Both run the same SQL text. They differ in how they treat failures and edge cases.

- **The legacy generation** swallows every database error. A failed read looks like a
  short or empty answer, and a failed write looks like nothing. `sendGift` checks
  nothing and computes the expiry stamp with wrapping 64-bit arithmetic. The claim
  workflows log CLAIMED and EXPIRED whether or not the matching delete took.
- **The newer generation** reports every failure as a failed future. It refuses all work
  once closed. It deletes id lists in batches of 100 inside one transaction. Its API
  validates its arguments and uses overflow-checked arithmetic. A single claim credits
  the gift only when `deleteGift` reports that a row went.

The claim listener of both generations guards each player with a "claiming" flag (the
`GIFTBOX_ACTION` metadata):

- A click while the flag is up only draws a "please wait" notice, at most once per
  cooldown.
- Otherwise the click raises the flag and starts a single-claim or claim-all workflow.
- The workflow's callbacks lower the flag again.

The model has one module per component:

| module | what it holds |
|---|---|
| `GiftModel` | the gift record and the three time predicates |
| `LogResults` | the audit result codes |
| `GiftTable` | the two tables, the listing and sweep predicates, and the ResultSet loops |
| `CreeperStore`, `LegacyStore` | the two stores, as classes over the tables |
| `ClaimModel` | what both listeners share |
| `CreeperClaims`, `LegacyClaims` | the two listeners, as classes |
| `CreeperApi`, `LegacyApi` | the two APIs |
| `ConfigModel` | the configuration map and message substitution |
| `CreeperConfig`, `LegacyConfig` | the two configuration managers |
| `JavaText` | `String.trim` and `String.replace` |
| `Wrappers` | `Option`, `Result` and `Outcome` |

The things the model takes as parameters:

- **The clock.** Each operation takes the time it reads as `now`. The expiry sweep takes
  one reading for its SELECT and one for its DELETE. A claim takes one for its listing and
  one for its callback. Other repeated readings share one `now`; "## Left out" lists them.
- **Backend faults.** Each possible fault is a boolean or `Option` parameter, so every
  failure path is a case of the contract.
- **The inventory.** It is a count of free slots per player.
- **Messages and deliveries.** They are recorded as sequences of `Notice` and `Delivery`.

Each asynchronous workflow is modelled as one sequential completion step.

Where the interface documentation and the code disagree, the model follows the code:

- A newer `sendGift` with `expireSeconds == 0` stores `-1`, so the gift never expires.
  The API documentation says a count of 0 or more expires after that many seconds.
- The legacy `getGifts` answers with whatever rows it had read when a decode or cursor
  error stopped it. A bad payload is not propagated.
- A failed claim sends no retry notice in either generation. A failed listing releases
  the flag and, in the newer generation, reopens the GUI for an online player.
- The legacy listener drops the flag without reopening the GUI in two cases: when the
  inventory is full on a single claim, and when the claim-all listing is empty.

## Model

| member | source | states |
|---|---|---|
| `GiftModel.LiveIsComplementOfSweepable` | src/main/java/wiki/creeper/creeperGiftBox/database/DatabaseManager.java:418 | the sweep's WHERE clause is the exact complement of the listing's, so at one instant no gift is both listable and sweepable |
| `GiftModel.SweepableIsMonotone` | src/main/java/wiki/creeper/creeperGiftBox/database/DatabaseManager.java:458-461 | a gift sweepable at one instant stays sweepable later, and a gift live later was live before |
| `GiftModel.ExpiredIsNotLive` | src/main/java/wiki/creeper/rangGiftBox/listener/GUIListener.java:103 | the listeners' staleness test never fires on a gift the listing query would return at the same instant |
| `LogResults.LogResult.Value` | src/main/java/wiki/creeper/rangGiftBox/database/LogResult.java:4-16 | EXPIRED, CLAIMED and SENT are written as 0, 1 and 2, each code naming exactly one result |
| `GiftTable.RowRoundTrip` | src/main/java/wiki/creeper/creeperGiftBox/database/DatabaseManager.java:194-201 | the row INSERT binds for a gift is read back by the SELECT loops as the same gift |
| `GiftTable.UnsweptRemovesSweepable` | src/main/java/wiki/creeper/creeperGiftBox/database/DatabaseManager.java:458-462 | the sweep's DELETE removes exactly the rows sweepable at its clock reading and keeps every other row unchanged |
| `GiftTable.SweepWindow` | src/main/java/wiki/creeper/creeperGiftBox/database/DatabaseManager.java:421-461 | with the clock read for the SELECT and again for the DELETE, the DELETE removes the selected gifts plus exactly those that expired between the two readings |
| `GiftTable.SweepAtSelectTimeRemovesOnlySelected` | src/main/java/wiki/creeper/creeperGiftBox/database/DatabaseManager.java:418-462 | with one clock reading, the DELETE removes exactly the gifts the SELECT read, and no gift falls between the two |
| `GiftTable.TwoClockSweepDeletesUnloggedGift` | src/main/java/wiki/creeper/creeperGiftBox/database/DatabaseManager.java:421-461 | a concrete table where the second clock reading deletes a gift the SELECT never read, so it is neither logged nor announced |
| `GiftTable.ListingIsLiveAndOwned` | src/main/java/wiki/creeper/creeperGiftBox/database/DatabaseManager.java:235 | every listed gift belongs to the player and is live, never sweepable, at the query time |
| `GiftTable.ListingCoversCount` | src/main/java/wiki/creeper/creeperGiftBox/database/DatabaseManager.java:276 | a listing whose LIMIT covers the count query's answer lists exactly the player's live gifts |
| `GiftTable.EarliestExists` | src/main/java/wiki/creeper/creeperGiftBox/database/DatabaseManager.java:235 | every non-empty set of candidate rows has one with the smallest TimeStamp, so ORDER BY can always produce a next row |
| `GiftTable.ReadLive` | src/main/java/wiki/creeper/creeperGiftBox/database/DatabaseManager.java:235-252 | the listing cursor yields live rows of the player in ascending TimeStamp order, without repeats, at most LIMIT of them; completed, it is the full listing; a fault stops it at the failing fetch, short of the LIMIT and of the live rows; a decode failure stops it short of the LIMIT at an unreadable row that is the earliest of the remaining live ones; so it fails only when a fault or an unreadable row falls within the first LIMIT live rows |
| `GiftTable.NextUnreadableIsWithin` | src/main/java/wiki/creeper/creeperGiftBox/database/DatabaseManager.java:235-249 | an unreadable row fetched next, with fewer than LIMIT rows read, has fewer than LIMIT older live rows, so it lies within the rows the query fetches |
| `GiftTable.ReadSweepable` | src/main/java/wiki/creeper/creeperGiftBox/database/DatabaseManager.java:418-433 | the sweep cursor yields each sweepable gift exactly once when it completes; it fails exactly when the query fails, and otherwise stops early exactly when some sweepable row is unreadable |
| `CreeperStore.SuccessCountBounds` | src/main/java/wiki/creeper/creeperGiftBox/database/DatabaseManager.java:474-482 | a batch credits between none and all of its entries: none when every entry failed, all when every one succeeded |
| `CreeperStore.CountSuccessfulUpdates` | src/main/java/wiki/creeper/creeperGiftBox/database/DatabaseManager.java:474-482 | the count is the number of entries that are positive or SUCCESS_NO_INFO |
| `CreeperStore.ExecuteDelete` | src/main/java/wiki/creeper/creeperGiftBox/database/DatabaseManager.java:343-344 | one batched single-id DELETE removes that row if present and reports 1, otherwise 0 |
| `CreeperStore.ExecuteDeleteBatch` | src/main/java/wiki/creeper/creeperGiftBox/database/DatabaseManager.java:348 | one executeBatch removes every id of the batch, and the credited count equals the number of rows that went |
| `CreeperStore.Flush` | src/main/java/wiki/creeper/creeperGiftBox/database/DatabaseManager.java:348 | a flush of the next ids extends the deleted prefix and credits the rows it removed |
| `CreeperStore.FlushFullBatches` | src/main/java/wiki/creeper/creeperGiftBox/database/DatabaseManager.java:342-351 | the id loop flushes every full batch of 100, unless one of those flushes throws |
| `CreeperStore.DeleteInBatches` | src/main/java/wiki/creeper/creeperGiftBox/database/DatabaseManager.java:338-364 | the transaction commits exactly when no flush throws; it then removes every listed id and totals the rows removed |
| `CreeperStore.FlushCountOf` | src/main/java/wiki/creeper/creeperGiftBox/database/DatabaseManager.java:347-355 | n ids take the full batches plus one more flush for a non-empty remainder |
| `CreeperStore.GiftStore.constructor` | src/main/java/wiki/creeper/creeperGiftBox/database/DatabaseManager.java:57-88 | a store opens over existing tables, neither closed nor initialised |
| `CreeperStore.GiftStore.Initialize` | src/main/java/wiki/creeper/creeperGiftBox/database/DatabaseManager.java:90-151 | only the first call runs the DDL; every later call reports how the first one ended, and the store is initialised exactly when that succeeded |
| `CreeperStore.GiftStore.Close` | src/main/java/wiki/creeper/creeperGiftBox/database/DatabaseManager.java:167-178 | closing marks the store shut down and no longer initialised |
| `CreeperStore.GiftStore.LogAction` | src/main/java/wiki/creeper/creeperGiftBox/database/DatabaseManager.java:380-403 | one audit row with the gift's fields, the result code and the logging time is appended unless the store is closed or the insert fails; a failure is never reported |
| `CreeperStore.GiftStore.AddGift` | src/main/java/wiki/creeper/creeperGiftBox/database/DatabaseManager.java:188-218 | the call succeeds exactly when the store is open, the SQL works and the id is new; only then is the row stored, SENT logged and the sent event published; on failure nothing changes |
| `CreeperStore.GiftStore.GetGifts` | src/main/java/wiki/creeper/creeperGiftBox/database/DatabaseManager.java:229-262 | a success is the full ordered listing; a decode error means an unreadable live row lies within the first LIMIT live rows; an SQL error means a negative LIMIT or a cursor fault before the listing was complete; on an open store with a non-negative limit, when no fault and no unreadable row falls within the first LIMIT live rows, the call succeeds |
| `CreeperStore.GiftStore.GetGiftCount` | src/main/java/wiki/creeper/creeperGiftBox/database/DatabaseManager.java:271-292 | the call succeeds exactly when the store is open and the SQL works, and answers the number of the player's live gifts |
| `CreeperStore.GiftStore.DeleteGift` | src/main/java/wiki/creeper/creeperGiftBox/database/DatabaseManager.java:301-316 | a successful delete removes the row and reports whether it was there; a failed one changes nothing |
| `CreeperStore.GiftStore.DeleteGifts` | src/main/java/wiki/creeper/creeperGiftBox/database/DatabaseManager.java:326-370 | an empty list gives 0; otherwise the call fails exactly when some flush throws, and then nothing is removed; a success removes every listed id and reports the number of rows that went |
| `CreeperStore.GiftStore.FindAndRemoveExpiredGifts` | src/main/java/wiki/creeper/creeperGiftBox/database/DatabaseManager.java:412-471 | a closed store or failed select fails the sweep with nothing done, and an unreadable row ends it quietly; otherwise each sweepable gift is read once, logged EXPIRED and announced, then the DELETE at the second clock reading removes what is sweepable then, and a failed DELETE fails the sweep |
| `ClaimModel.FindGift` | src/main/java/wiki/creeper/rangGiftBox/listener/GUIListener.java:94-101 | the lookup returns the first listed gift with the tile's id, and nothing exactly when no listed gift has it |
| `ClaimModel.WalkPartition` | src/main/java/wiki/creeper/rangGiftBox/listener/GUIListener.java:173-199 | every walked gift is either handed out (not expired) or found expired, never both, and the two counts add up to the walk |
| `ClaimModel.NothingExpiresAtListingTime` | src/main/java/wiki/creeper/rangGiftBox/listener/GUIListener.java:161-199 | a walk at the listing's own time finds nothing expired and offers every listed gift |
| `ClaimModel.ListingPrefix` | src/main/java/wiki/creeper/rangGiftBox/listener/GUIListener.java:91 | a prefix of a listing is the listing with the smaller limit |
| `ClaimModel.WalkStep` | src/main/java/wiki/creeper/rangGiftBox/listener/GUIListener.java:174-198 | one step of the walk extends either the handed-out or the expired gifts by the walked one |
| `ClaimModel.IndexOf` | src/main/java/wiki/creeper/rangGiftBox/listener/GUIListener.java:94-101 | a listed gift has a position in the listing |
| `CreeperClaims.ClaimListener.constructor` | src/main/java/wiki/creeper/rangGiftBox/listener/GUIListener.java:39-43 | a listener starts with no flags, no pending workflows and no throttle times |
| `CreeperClaims.ClaimListener.OnInventoryClick` | src/main/java/wiki/creeper/rangGiftBox/listener/GUIListener.java:46-83 | a flagged player starts nothing and gets the concurrent-claim notice only when the cooldown has passed since the last one; an unflagged click on a gift tile or the claim-all button raises the flag for that workflow |
| `CreeperClaims.ClaimListener.Release` | src/main/java/wiki/creeper/rangGiftBox/listener/GUIListener.java:139-144 | the flag and the pending workflow go, and the GUI reopens exactly for a player still online |
| `CreeperClaims.ClaimListener.DeleteExpired` | src/main/java/wiki/creeper/rangGiftBox/listener/GUIListener.java:105-110 | EXPIRED is logged only after a delete that completed, whether or not it found the row |
| `CreeperClaims.ClaimListener.DiscardExpired` | src/main/java/wiki/creeper/rangGiftBox/listener/GUIListener.java:103-112 | an expired target is never delivered: the player is told, the row is deleted and EXPIRED logged once the delete completes |
| `CreeperClaims.ClaimListener.DeliverAndCredit` | src/main/java/wiki/creeper/rangGiftBox/listener/GUIListener.java:119-135 | the item takes one free slot and the player is told before the delete is asked; CLAIMED, the claimed event and the row's removal follow exactly when the delete succeeds and reports that the row was still stored, and a claim whose row has already gone credits nothing |
| `CreeperClaims.ClaimListener.CompleteSingleClaim` | src/main/java/wiki/creeper/rangGiftBox/listener/GUIListener.java:85-156 | the flag is always released; an expired target is deleted, not delivered; with no free slot only a notice goes out; a delivered gift that the listing showed is credited (logged, announced, removed) exactly when its delete succeeds; the listing fails only on a closed store or when a cursor fault or an unreadable row falls within the first LIMIT live rows |
| `CreeperClaims.ClaimListener.ClaimFound` | src/main/java/wiki/creeper/rangGiftBox/listener/GUIListener.java:102-136 | after the lookup: an expired target is discarded, a full inventory only notified, and otherwise the item is delivered and credited exactly when the delete reports that the row went |
| `CreeperClaims.ClaimListener.ClaimTwice` | src/main/java/wiki/creeper/rangGiftBox/listener/GUIListener.java:119-141 | two claims of one gift whose listings both show it credit it at most once: at most one claimed event and one CLAIMED entry, none if the row was already gone; with room for both, the item is still delivered twice |
| `CreeperClaims.ClaimListener.DeleteThenDeliver` | src/main/java/wiki/creeper/rangGiftBox/listener/GUIListener.java:119-135 | with the delete asked first, the item is delivered, the player told, CLAIMED logged and the event fired exactly when the delete reports that the row went, and nothing happens otherwise |
| `CreeperClaims.ClaimListener.ClaimTwiceDeleteFirst` | src/main/java/wiki/creeper/rangGiftBox/listener/GUIListener.java:119-135 | with the delete first, two claims of one gift deliver it exactly once when a delete finds the row and never otherwise, with one claimed event to match |
| `CreeperClaims.ClaimListener.WalkGifts` | src/main/java/wiki/creeper/rangGiftBox/listener/GUIListener.java:173-199 | the walk hands out exactly the non-expired gifts before where it stopped, at most one per free slot, stops only at a live gift that finds no slot, and deletes and logs the expired ones it passed |
| `CreeperClaims.ClaimListener.HandOut` | src/main/java/wiki/creeper/rangGiftBox/listener/GUIListener.java:185-194 | each handed-out gift's item goes into the inventory, one slot each, and a walk that stopped for room says so |
| `CreeperClaims.ClaimListener.WalkAndHandOut` | src/main/java/wiki/creeper/rangGiftBox/listener/GUIListener.java:173-199 | the walk and the hand-out together: deliveries are exactly the handed-out gifts, and no event is published yet |
| `CreeperClaims.ClaimListener.RecordClaims` | src/main/java/wiki/creeper/rangGiftBox/listener/GUIListener.java:205-210 | CLAIMED is logged and the claimed event fired for every delivered gift, in order |
| `CreeperClaims.ClaimListener.SettleClaims` | src/main/java/wiki/creeper/rangGiftBox/listener/GUIListener.java:203-218 | after a successful batch delete every delivered gift is logged and announced, whatever count it returned; after a failed one nothing is credited and nothing removed |
| `CreeperClaims.ClaimListener.SettleAndReport` | src/main/java/wiki/creeper/rangGiftBox/listener/GUIListener.java:201-223 | the delivered amount is reported whether or not the delete succeeded; with nothing delivered and no free slot a full inventory is reported |
| `CreeperClaims.ClaimListener.ClaimListed` | src/main/java/wiki/creeper/rangGiftBox/listener/GUIListener.java:168-223 | for a non-empty listing, the table loses the expired gifts whose delete worked, and the delivered ones only if the batch delete worked; the log and events record exactly that |
| `CreeperClaims.ClaimListener.CompleteClaimAll` | src/main/java/wiki/creeper/rangGiftBox/listener/GUIListener.java:158-241 | the flag is always released; a failed listing changes nothing and tells nothing, and it happens only on a closed store or when a cursor fault or an unreadable row falls within the first LIMIT live rows; an empty listing draws only the no-gifts notice; a non-empty one is claimed: the walk stops only at a live gift with no slot, the table loses the expired gifts whose delete worked and the delivered ones if the batch delete worked, and the log, events and notices record exactly that |
| `CreeperClaims.ClaimListener.ListAndClaimAll` | src/main/java/wiki/creeper/rangGiftBox/listener/GUIListener.java:161-223 | the same outcome as the whole claim-all, for the listing and what follows it, before the flag is released |
| `CreeperClaims.ExpiredStep` | src/main/java/wiki/creeper/rangGiftBox/listener/GUIListener.java:174-182 | deleting one more expired gift keeps the table and the log in step with the expired gifts walked so far |
| `LegacyStore.Repeat` | src/main/java/rang/games/rangGiftBox/database/DatabaseManager.java:165 | `s.repeat(n)` has n times the length of s |
| `LegacyStore.InListDelete` | src/main/java/rang/games/rangGiftBox/database/DatabaseManager.java:165 | the IN-list statement for n ids grows by two characters per id |
| `LegacyStore.InListDeletePlaceholders` | src/main/java/rang/games/rangGiftBox/database/DatabaseManager.java:165-170 | the statement has exactly one placeholder per id, so binding parameters 1..n leaves none unbound or out of range |
| `LegacyStore.BindIds` | src/main/java/rang/games/rangGiftBox/database/DatabaseManager.java:168-170 | parameter i+1 is bound to id i for every id, and the bound values are exactly the listed ids |
| `LegacyStore.LegacyGiftStore.constructor` | src/main/java/rang/games/rangGiftBox/database/DatabaseManager.java:28-40 | a store opens over existing tables |
| `LegacyStore.LegacyGiftStore.Close` | src/main/java/rang/games/rangGiftBox/database/DatabaseManager.java:77-81 | the pool is marked closed, so every later operation behaves as if its connection failed |
| `LegacyStore.LegacyGiftStore.LogAction` | src/main/java/rang/games/rangGiftBox/database/DatabaseManager.java:178-195 | one audit row is appended unless the pool is closed or the insert fails; failures are swallowed |
| `LegacyStore.LegacyGiftStore.AddGift` | src/main/java/rang/games/rangGiftBox/database/DatabaseManager.java:83-101 | with an open pool, working SQL and a new id, the row is stored, SENT logged and the sent event published; otherwise nothing changes and nothing is reported |
| `LegacyStore.LegacyGiftStore.GetGifts` | src/main/java/rang/games/rangGiftBox/database/DatabaseManager.java:103-129 | the answer is always an ordered prefix of the listing; it is the whole listing unless the cursor failed after that many rows, short of the listing, or stopped short of the LIMIT at an unreadable row that is the earliest remaining live one; with no fault and no unreadable row within the first LIMIT live rows it is the whole listing |
| `LegacyStore.LegacyGiftStore.GetGiftCount` | src/main/java/rang/games/rangGiftBox/database/DatabaseManager.java:131-148 | the number of the player's live gifts, and 0 on any failure |
| `LegacyStore.LegacyGiftStore.DeleteGift` | src/main/java/rang/games/rangGiftBox/database/DatabaseManager.java:150-160 | the row goes unless the pool is closed or the SQL fails |
| `LegacyStore.LegacyGiftStore.DeleteGifts` | src/main/java/rang/games/rangGiftBox/database/DatabaseManager.java:162-176 | an empty list does nothing; otherwise one statement with a placeholder per id removes every listed id unless it fails |
| `LegacyStore.LegacyGiftStore.FindAndRemoveExpiredGifts` | src/main/java/rang/games/rangGiftBox/database/DatabaseManager.java:197-237 | a failed select or an unreadable row ends the sweep with nothing done; otherwise each sweepable gift is logged EXPIRED and announced, and the DELETE at the second clock reading removes what is sweepable then unless it fails |
| `LegacyClaims.LegacyClaimListener.constructor` | src/main/java/rang/games/rangGiftBox/listener/GUIListener.java:37-41 | a listener starts with no flags, no pending workflows and no throttle times |
| `LegacyClaims.LegacyClaimListener.OnInventoryClick` | src/main/java/rang/games/rangGiftBox/listener/GUIListener.java:43-81 | a flagged player starts nothing and is told at most once per cooldown; an unflagged click on a gift tile or the claim-all button raises the flag for that workflow |
| `LegacyClaims.LegacyClaimListener.Release` | src/main/java/rang/games/rangGiftBox/listener/GUIListener.java:129-132 | the flag and the pending workflow go, and the GUI reopens on the paths that schedule it |
| `LegacyClaims.LegacyClaimListener.DeleteAndLog` | src/main/java/rang/games/rangGiftBox/listener/GUIListener.java:102-103 | the log entry is written whether or not the delete took |
| `LegacyClaims.LegacyClaimListener.DeliverTarget` | src/main/java/rang/games/rangGiftBox/listener/GUIListener.java:117-124 | the item takes a slot, the player is told, and CLAIMED and the claimed event follow whether or not the delete took |
| `LegacyClaims.LegacyClaimListener.CompleteSingleClaim` | src/main/java/rang/games/rangGiftBox/listener/GUIListener.java:83-135 | the flag is always released; an unlisted id changes nothing; an expired target is deleted and logged; a full inventory only draws a notice and does not reopen the GUI; otherwise the gift is delivered and always credited; with an open store and no fault or unreadable row within the first LIMIT live rows, the listing it worked from is the full one |
| `LegacyClaims.LegacyClaimListener.WalkGifts` | src/main/java/rang/games/rangGiftBox/listener/GUIListener.java:151-172 | the walk hands out exactly the non-expired gifts before where it stopped, at most one per free slot, and logs every expired one it passed whether or not its delete took |
| `LegacyClaims.LegacyClaimListener.HandOut` | src/main/java/rang/games/rangGiftBox/listener/GUIListener.java:158-168 | each handed-out gift takes one slot, and a walk that stopped for room says so |
| `LegacyClaims.LegacyClaimListener.WalkAndHandOut` | src/main/java/rang/games/rangGiftBox/listener/GUIListener.java:151-172 | the walk and the hand-out together: deliveries are exactly the handed-out gifts |
| `LegacyClaims.LegacyClaimListener.RecordClaims` | src/main/java/rang/games/rangGiftBox/listener/GUIListener.java:176-179 | CLAIMED is logged and the claimed event fired for every delivered gift, in order |
| `LegacyClaims.LegacyClaimListener.SettleAndReport` | src/main/java/rang/games/rangGiftBox/listener/GUIListener.java:174-185 | every delivered gift is logged and announced even if the batch delete failed; with nothing delivered and no free slot a full inventory is reported |
| `LegacyClaims.LegacyClaimListener.CompleteClaimAll` | src/main/java/rang/games/rangGiftBox/listener/GUIListener.java:137-192 | the flag is always released; with an open store and no fault or unreadable row within the first LIMIT live rows, the listing is the full one; an empty listing only draws a notice and does not reopen; otherwise the walk stops only at a live gift with no slot, the table loses the expired gifts whose delete took and the delivered ones unless the batch delete failed, every expired and delivered gift is logged, each delivered gift announced, and the notices end with the delivered amount or a full inventory |
| `LegacyClaims.LegacyClaimListener.ListAndClaimAll` | src/main/java/rang/games/rangGiftBox/listener/GUIListener.java:140-185 | the same outcome as the whole claim-all, for the listing and what follows it, before the flag is released |
| `LegacyClaims.LoggedExpiredStep` | src/main/java/rang/games/rangGiftBox/listener/GUIListener.java:152-155 | logging one more expired gift keeps the log in step with the walk, independently of its delete |
| `JavaText.TrimStart` | src/main/java/wiki/creeper/rangGiftBox/api/GiftBoxAPIImpl.java:53 | a suffix of the text that starts on a character trim keeps, with only trimmable characters cut |
| `JavaText.TrimEnd` | src/main/java/wiki/creeper/rangGiftBox/api/GiftBoxAPIImpl.java:53 | a prefix of the text that ends on a character trim keeps, with only trimmable characters cut |
| `JavaText.TrimIsInnerSlice` | src/main/java/wiki/creeper/rangGiftBox/api/GiftBoxAPIImpl.java:53 | trim keeps one contiguous slice and strips only trimmable characters around it |
| `JavaText.TrimBounds` | src/main/java/wiki/creeper/rangGiftBox/api/GiftBoxAPIImpl.java:40 | a trimmed name starts and ends on a kept character, and is empty exactly when the name is blank |
| `JavaText.TrimIdempotent` | src/main/java/wiki/creeper/rangGiftBox/api/GiftBoxAPIImpl.java:53 | trimming twice is trimming once |
| `JavaText.InsertEverywhere` | src/main/java/wiki/creeper/rangGiftBox/config/ConfigManager.java:152 | replacing the empty target never shortens the text |
| `JavaText.InsertEverywhereLength` | src/main/java/wiki/creeper/rangGiftBox/config/ConfigManager.java:152 | replacing the empty target adds one copy of the replacement per character plus one at the end |
| `JavaText.InsertEverywhereStartsWith` | src/main/java/wiki/creeper/rangGiftBox/config/ConfigManager.java:152 | replacing the empty target puts the replacement first |
| `JavaText.InsertEverywhereKeepsChar` | src/main/java/wiki/creeper/rangGiftBox/config/ConfigManager.java:152 | after replacing the empty target, character k of the text sits right behind the (k+1)-th copy of the replacement |
| `JavaText.InsertEverywhereKeepsText` | src/main/java/wiki/creeper/rangGiftBox/config/ConfigManager.java:152 | replacing the empty target starts with the replacement and keeps every character, in order, each behind its own copy |
| `JavaText.InsertNothing` | src/main/java/wiki/creeper/rangGiftBox/config/ConfigManager.java:152 | replacing the empty target by nothing changes nothing |
| `JavaText.ReplaceBySelf` | src/main/java/wiki/creeper/rangGiftBox/config/ConfigManager.java:152 | replacing a placeholder by itself leaves the text as it was |
| `JavaText.ReplaceAbsent` | src/main/java/wiki/creeper/rangGiftBox/config/ConfigManager.java:152 | a text without the target comes back unchanged |
| `ConfigModel.OnePairSubstitution` | src/main/java/wiki/creeper/rangGiftBox/config/ConfigManager.java:150-152 | with one pair of replacements, a line without the placeholder is left as it was and a line that is exactly the placeholder becomes the value |
| `JavaText.WholeTextReplaced` | src/main/java/wiki/creeper/rangGiftBox/config/ConfigManager.java:152 | a text that is exactly the placeholder becomes exactly the replacement |
| `ConfigModel.GetString` | src/main/java/rang/games/rangGiftBox/config/ConfigManager.java:27 | the configured text at the path, or the default when there is none |
| `ConfigModel.TruncateMilli` | src/main/java/rang/games/rangGiftBox/config/ConfigManager.java:31 | a fractional number read as an integer is truncated toward zero, keeping its sign |
| `ConfigModel.GetWhole` | src/main/java/rang/games/rangGiftBox/config/ConfigManager.java:31 | the configured whole number, a configured fractional number truncated toward zero, or the default when the path is missing |
| `ConfigModel.GetMilli` | src/main/java/rang/games/rangGiftBox/config/ConfigManager.java:51 | the configured number in thousandths, or the default when the path is missing |
| `ConfigModel.GetStringList` | src/main/java/rang/games/rangGiftBox/config/ConfigManager.java:73 | the configured lines, or none |
| `ConfigModel.PairsSnoc` | src/main/java/rang/games/rangGiftBox/config/ConfigManager.java:59-63 | reading two more elements adds exactly one substitution pair |
| `ConfigModel.PairsComplete` | src/main/java/wiki/creeper/rangGiftBox/config/ConfigManager.java:151 | once the index passes the last full pair every pair has been applied |
| `ConfigModel.PairsIgnoreTrailing` | src/main/java/wiki/creeper/rangGiftBox/config/ConfigManager.java:148-153 | an unpaired last replacement is ignored |
| `ConfigModel.NoPairsNoChange` | src/main/java/wiki/creeper/rangGiftBox/config/ConfigManager.java:147 | with fewer than two replacements the message is unchanged |
| `ConfigModel.IdentityPairsChangeNothing` | src/main/java/wiki/creeper/rangGiftBox/config/ConfigManager.java:151-153 | pairs that map each placeholder to itself leave the message as it was |
| `CreeperConfig.WithDefaultsOnlyAdds` | src/main/java/wiki/creeper/rangGiftBox/config/ConfigManager.java:67-72 | filling in defaults never overwrites or removes a value, and adds exactly the missing checked keys that have a default text |
| `CreeperConfig.ValidationFillsPrefix` | src/main/java/wiki/creeper/rangGiftBox/config/ConfigManager.java:67-93 | after validation a configuration always has a prefix and a no-permission text |
| `CreeperConfig.LoadingErrorDefaultIsDead` | src/main/java/wiki/creeper/rangGiftBox/config/ConfigManager.java:88-90 | the loading-error default is never applied: validation leaves that key as it found it |
| `CreeperConfig.UncheckedKeyUntouched` | src/main/java/wiki/creeper/rangGiftBox/config/ConfigManager.java:67-72 | a key validation does not check is neither added nor removed |
| `CreeperConfig.ReplacePairs` | src/main/java/wiki/creeper/rangGiftBox/config/ConfigManager.java:147-154 | the loop applies the replacement pairs in order, ignoring an unpaired last element |
| `CreeperConfig.MessageCases` | src/main/java/wiki/creeper/rangGiftBox/config/ConfigManager.java:137-161 | a missing message names its path behind the prefix; the prefix itself comes back without a second copy; an unpaired last replacement changes nothing |
| `CreeperConfig.ConfigManager.constructor` | src/main/java/wiki/creeper/rangGiftBox/config/ConfigManager.java:15-20 | the loaded configuration is kept with its missing defaults filled in |
| `CreeperConfig.ConfigManager.ReloadConfig` | src/main/java/wiki/creeper/rangGiftBox/config/ConfigManager.java:95-100 | the reloaded configuration is validated again, with its missing defaults filled in |
| `CreeperConfig.ConfigManager.TrimmedSettingIsStable` | src/main/java/wiki/creeper/rangGiftBox/config/ConfigManager.java:102-118 | a trimmed setting is left unchanged by a second trim |
| `CreeperConfig.ConfigManager.TrimmedSetting` | src/main/java/wiki/creeper/rangGiftBox/config/ConfigManager.java:102-118 | a text setting is the configured text trimmed, or the trimmed default when there is none; it starts and ends on a kept character and is empty exactly when the configured text is blank |
| `CreeperConfig.ConfigManager.GetDbHost` | src/main/java/wiki/creeper/rangGiftBox/config/ConfigManager.java:102-104 | the configured host trimmed, defaulting to localhost |
| `CreeperConfig.ConfigManager.GetDbPort` | src/main/java/wiki/creeper/rangGiftBox/config/ConfigManager.java:106-110 | the port is always in 1..65535: the configured one if valid, otherwise 3306 |
| `CreeperConfig.ConfigManager.GetDbName` | src/main/java/wiki/creeper/rangGiftBox/config/ConfigManager.java:112-114 | the configured database name trimmed, defaulting to giftbox |
| `CreeperConfig.ConfigManager.GetDbUser` | src/main/java/wiki/creeper/rangGiftBox/config/ConfigManager.java:116-118 | the configured user trimmed, defaulting to root |
| `CreeperConfig.ConfigManager.GetDbPassword` | src/main/java/wiki/creeper/rangGiftBox/config/ConfigManager.java:120-123 | the password is returned exactly as configured, untrimmed, defaulting to password |
| `CreeperConfig.ConfigManager.GetExpirationCheckInterval` | src/main/java/wiki/creeper/rangGiftBox/config/ConfigManager.java:125-129 | the sweep interval is the configured one (600 by default) but never below 60 seconds |
| `CreeperConfig.ConfigManager.GetGuiMessageCooldown` | src/main/java/wiki/creeper/rangGiftBox/config/ConfigManager.java:131-135 | the notice cooldown is the configured one (0.2 s by default) but never negative |
| `CreeperConfig.ConfigManager.GetRawMessage` | src/main/java/wiki/creeper/rangGiftBox/config/ConfigManager.java:163-166 | the coloured text at the message path, or the coloured empty text |
| `CreeperConfig.ConfigManager.SetDefaultMessage` | src/main/java/wiki/creeper/rangGiftBox/config/ConfigManager.java:79-93 | only the prefix, no-permission and loading-error keys get a default text; every other key is left alone |
| `CreeperConfig.ConfigManager.ValidateConfig` | src/main/java/wiki/creeper/rangGiftBox/config/ConfigManager.java:22-77 | a critical error is reported exactly when host, database name or user is blank; the result is the configuration with missing defaults filled in |
| `CreeperConfig.ConfigManager.CheckDatabaseSettings` | src/main/java/wiki/creeper/rangGiftBox/config/ConfigManager.java:26-44 | an error exactly when host, name or user is blank; the port check never fires |
| `CreeperConfig.ConfigManager.ResetNegativeCooldown` | src/main/java/wiki/creeper/rangGiftBox/config/ConfigManager.java:52-55 | the cooldown reset never changes the configuration |
| `CreeperConfig.ConfigManager.FillMissingMessages` | src/main/java/wiki/creeper/rangGiftBox/config/ConfigManager.java:67-72 | each missing required message with a default text gets it, in order |
| `CreeperConfig.ConfigManager.GetMessage` | src/main/java/wiki/creeper/rangGiftBox/config/ConfigManager.java:137-161 | the message is the coloured, substituted text behind the prefix, with no prefix for the prefix itself |
| `CreeperConfig.ConfigManager.GetMessageList` | src/main/java/wiki/creeper/rangGiftBox/config/ConfigManager.java:168-187 | one output line per configured line, in order, each coloured and substituted |
| `LegacyConfig.LegacyReplacePairs` | src/main/java/rang/games/rangGiftBox/config/ConfigManager.java:58-64 | the guarded loop applies the same pairs as the newer one, skipping an unpaired last element |
| `LegacyConfig.MessageGenerationsAgree` | src/main/java/rang/games/rangGiftBox/config/ConfigManager.java:54-66 | both generations build the same message for every path but the prefix, which the legacy one returns behind a second copy of itself |
| `LegacyConfig.LegacyPrefixDoubled` | src/main/java/rang/games/rangGiftBox/config/ConfigManager.java:65 | a concrete configuration whose prefix message comes back doubled |
| `LegacyConfig.LegacyConfigManager.constructor` | src/main/java/rang/games/rangGiftBox/config/ConfigManager.java:15-19 | the configuration is kept as loaded, unvalidated |
| `LegacyConfig.LegacyConfigManager.ReloadConfig` | src/main/java/rang/games/rangGiftBox/config/ConfigManager.java:21-24 | the reloaded configuration is kept as it is |
| `LegacyConfig.LegacyConfigManager.Setting` | src/main/java/rang/games/rangGiftBox/config/ConfigManager.java:26-44 | a text setting is returned as configured, untrimmed, or its default |
| `LegacyConfig.LegacyConfigManager.GetDbHost` | src/main/java/rang/games/rangGiftBox/config/ConfigManager.java:26-28 | the host defaults to localhost |
| `LegacyConfig.LegacyConfigManager.GetDbPort` | src/main/java/rang/games/rangGiftBox/config/ConfigManager.java:30-32 | the port is returned as configured, even out of range, defaulting to 3306 |
| `LegacyConfig.LegacyConfigManager.GetDbName` | src/main/java/rang/games/rangGiftBox/config/ConfigManager.java:34-36 | the database name defaults to giftbox |
| `LegacyConfig.LegacyConfigManager.GetDbUser` | src/main/java/rang/games/rangGiftBox/config/ConfigManager.java:38-40 | the user defaults to root |
| `LegacyConfig.LegacyConfigManager.GetDbPassword` | src/main/java/rang/games/rangGiftBox/config/ConfigManager.java:42-44 | the password defaults to password |
| `LegacyConfig.LegacyConfigManager.GetExpirationCheckInterval` | src/main/java/rang/games/rangGiftBox/config/ConfigManager.java:46-48 | the interval is returned as configured, even below 60, defaulting to 600 |
| `LegacyConfig.LegacyConfigManager.GetGuiMessageCooldown` | src/main/java/rang/games/rangGiftBox/config/ConfigManager.java:50-52 | the cooldown is returned as configured, even negative, defaulting to 0.2 s |
| `LegacyConfig.LegacyConfigManager.GetRawMessage` | src/main/java/rang/games/rangGiftBox/config/ConfigManager.java:68-70 | the coloured text at the message path, or the coloured empty text |
| `LegacyConfig.LegacyConfigManager.GetMessage` | src/main/java/rang/games/rangGiftBox/config/ConfigManager.java:54-66 | the coloured, substituted message always behind the prefix, the prefix included |
| `LegacyConfig.LegacyConfigManager.GetMessageList` | src/main/java/rang/games/rangGiftBox/config/ConfigManager.java:72-85 | one output line per configured line, in order, each coloured and substituted |
| `LegacyConfig.GettersCompared` | src/main/java/rang/games/rangGiftBox/config/ConfigManager.java:26-52 | on one configuration the generations' getters agree wherever the newer one has nothing to repair, and the newer one repairs the port, interval, cooldown and trimming otherwise |
| `CreeperApi.SanitizeSender` | src/main/java/wiki/creeper/rangGiftBox/api/GiftBoxAPIImpl.java:53-54 | the stored sender is the first min(length, 100) characters of the trimmed name, the whole trimmed name when it fits, and non-empty when the name is not blank |
| `CreeperApi.CheckedExpiry` | src/main/java/wiki/creeper/rangGiftBox/api/GiftBoxAPIImpl.java:56-67 | the stamp is computed exactly when neither product nor sum overflows a long, and then lies that many seconds after now; otherwise the call fails as too large |
| `CreeperApi.ExpiryStamp` | src/main/java/wiki/creeper/rangGiftBox/api/GiftBoxAPIImpl.java:46-67 | below -1 is refused, -1 and 0 never expire, a positive count goes through the overflow check |
| `CreeperApi.PrepareGift` | src/main/java/wiki/creeper/rangGiftBox/api/GiftBoxAPIImpl.java:28-76 | an accepted call builds the gift from its arguments with the sanitised sender, the current time and the computed stamp |
| `CreeperApi.PrepareGiftRefusals` | src/main/java/wiki/creeper/rangGiftBox/api/GiftBoxAPIImpl.java:30-50 | which check refuses a call, in source order: nulls throw; an air or empty item, then a blank sender, then a bad expiry fail the future |
| `CreeperApi.PreparedGiftIsListable` | src/main/java/wiki/creeper/rangGiftBox/api/GiftBoxAPIImpl.java:34-76 | an accepted gift is live and not sweepable when made, has a real item, and a non-blank sender of at most 100 characters |
| `CreeperApi.ZeroSecondsNeverExpires` | src/main/java/wiki/creeper/rangGiftBox/api/GiftBoxAPIImpl.java:57-58 | a count of 0 seconds stores the never-expires stamp, like -1 |
| `CreeperApi.SendGift` | src/main/java/wiki/creeper/rangGiftBox/api/GiftBoxAPIImpl.java:28-83 | a refused call changes nothing; an accepted one succeeds exactly when the store accepts the row, and a store failure is passed on with nothing stored, logged or announced |
| `CreeperApi.GetPlayerGifts` | src/main/java/wiki/creeper/rangGiftBox/api/GiftBoxAPIImpl.java:86-105 | a limit below 1 is refused, a larger one capped at 100; the answer is the listing or, on a store failure, empty; with an open store and no fault or unreadable row within the first capped-LIMIT live rows, it is the full listing |
| `CreeperApi.GetPlayerGiftCount` | src/main/java/wiki/creeper/rangGiftBox/api/GiftBoxAPIImpl.java:108-118 | the number of live gifts, or 0 on a store failure |
| `LegacyApi.Wrap64` | src/main/java/rang/games/rangGiftBox/api/GiftBoxAPIImpl.java:25 | a value reduced into the long range, unchanged if it already fits, and congruent modulo 2^64 |
| `LegacyApi.LegacyExpiry` | src/main/java/rang/games/rangGiftBox/api/GiftBoxAPIImpl.java:25 | a count that is not positive never expires; a positive one gives the intended stamp up to a multiple of 2^64 |
| `LegacyApi.ExpiryGenerationsAgree` | src/main/java/rang/games/rangGiftBox/api/GiftBoxAPIImpl.java:25 | without overflow both generations compute the same stamp; -1 and 0 never expire in both; below -1 the legacy API keeps the gift forever where the newer one refuses |
| `LegacyApi.WrappedExpiryIsSweptAtOnce` | src/main/java/rang/games/rangGiftBox/api/GiftBoxAPIImpl.java:25 | a concrete long expiry whose stamp wraps into the past, so the gift is never listed and the next sweep deletes it |
| `LegacyApi.GiftGenerationsAgree` | src/main/java/rang/games/rangGiftBox/api/GiftBoxAPIImpl.java:22-36 | on a call the newer API accepts, with a trimmed short sender, both generations build the same gift |
| `LegacyApi.LegacyAcceptsWhatNewerRefuses` | src/main/java/rang/games/rangGiftBox/api/GiftBoxAPIImpl.java:22-36 | the legacy API builds gifts from an air stack and a blank sender, which the newer one refuses |
| `LegacyApi.LegacySendGift` | src/main/java/rang/games/rangGiftBox/api/GiftBoxAPIImpl.java:22-36 | the gift built from the arguments with the wrapped stamp is stored, logged and announced when the store takes it; otherwise nothing changes and nothing is reported |
| `LegacyApi.LegacyGetPlayerGifts` | src/main/java/rang/games/rangGiftBox/api/GiftBoxAPIImpl.java:38-41 | the store's answer with the limit unchecked and uncapped: nothing for a limit of 0 or less, otherwise an ordered prefix of the listing, which is the full listing when the store is open and no fault or unreadable row falls within the first LIMIT live rows |
| `LegacyApi.LegacyGetPlayerGiftCount` | src/main/java/rang/games/rangGiftBox/api/GiftBoxAPIImpl.java:43-46 | the number of live gifts, or 0 on any failure |

## Left out

- JDBC, the Hikari pool and its settings, and the table DDL are not modelled. The
  tables are a map and a sequence; the DDL has no effect on them.
- The legacy `initialize` only runs that DDL and swallows its errors, so it changes
  nothing the model tracks. It is not modelled.
- The newer `whenReady` only hands out the initialisation future. That future is the
  `initResult` field of `CreeperStore.GiftStore`.
- The unreachable `isInitialized` re-check inside the newer `initialize` is not modelled,
  because `initializationStarted` already guards it.
- `CompletableFuture`, the query executor and the Bukkit scheduler are not modelled.
  Each asynchronous workflow runs as one step, so interleavings with other workflows are
  not captured. Two examples: two sweeps running at once, or a click landing between a
  callback's steps.
- The item codec (`ItemSerializer`) is a stand-in. It is not part of this model; a stored
  item is either readable or not.
- `UUID.fromString` failures on a malformed UUID column are not modelled. Player ids are
  their text.
- The Bukkit inventory is a count of free slots. `addItem` stacking onto partial stacks
  is not modelled.
- In a claim-all, the deliveries are recorded after the walk rather than during it; the
  order of items within the walk is kept.
- The claim-all `try`/`catch` around `addItem` is not modelled: `addItem` is taken
  never to throw.
- Click events for non-players, wrong titles, empty slots and missing item metadata are
  not modelled. They return before any state changes.
- `ChatColor.translateAlternateColorCodes` is the function parameter `colorize`.
- Bukkit's `getString` renders a non-text value as text; here such a value reads as
  absent.
- `getInt` wrap-around on values beyond 32 bits is not modelled. Neither are Bukkit's
  separate defaults section or `saveDefaultConfig`.
- Doubles are integer thousandths (`Decimal(milli)`), and times are integer
  milliseconds. Fractions of a millisecond in the cooldown are not modelled.
- Strings are sequences of `char`, so UTF-16 surrogate pairs in `trim` and `substring`
  are not distinguished.
- Logging through `plugin.getLogger()`, the `DebugLogger` and warning-only branches are
  not modelled. One example: the newer low-interval warning.
- The GUI rendering, commands, the expiration task and player listeners are not modelled.
- The newer listener and the newer API call `wiki.creeper.rangGiftBox`'s own
  `DatabaseManager`, which is not part of this model. Both are modelled against the
  `creeperGiftBox` store, whose operations have the same signatures.
- Null arguments to the legacy API are not modelled: its parameters are never null here.
- The claim-all walk reads the clock once per gift, and every `logAction` reads its own
  time for the audit entry. The model uses one `now` for the whole walk and for each entry
  it writes. A gift that expires part-way through a walk is therefore not modelled, and
  neither is an audit timestamp that differs from the walk's.
- `CreeperStore.ExecuteDeleteBatch`: the driver is taken to report 1 or 0 for each
  statement, never `SUCCESS_NO_INFO`. A driver that does not report counts has every
  statement counted as a success; the count then bounds the rows that went from above
  rather than equalling it. `GiftStore.DeleteGifts` reports the number of rows that went
  only under this assumption.
- `CreeperApi.ExpiryStamp`: for counts -1 and 0 it states only the forward direction
  (they give the never-expires stamp). It does not state that no other count does.
- An INSERT of an id that is already stored fails, whether the database refuses the
  duplicate key or reports no affected rows. The model treats both as one failure.

## Findings

| source | as written | input that shows it | evidently intended | confidence | as-written member | corrected member |
|---|---|---|---|---|---|---|
| src/main/java/rang/games/rangGiftBox/api/GiftBoxAPIImpl.java:25 | `currentTime + (expireSeconds * 1000)` on `long`s wraps around on overflow | now = 1 700 000 000 000 ms and expireSeconds = 9 223 372 036 854 775 give the stamp -9 223 370 336 854 776 616, which lies in the past: the gift is never listed, and the next sweep deletes it as expired | an expiry too large for a `long` is refused, as the newer API does with `multiplyExact` and `addExact` | not executed | `LegacyApi.WrappedExpiryIsSweptAtOnce` | `CreeperApi.PreparedGiftIsListable` |
| src/main/java/wiki/creeper/rangGiftBox/listener/GUIListener.java:119-135 | the item is added to the inventory before `deleteGift` reports whether the row went, and the flag is lowered in `finally` before that delete completes | a never-expiring gift and a player with two free slots; a second click lists the gift before the first claim's delete has run; the first delete reports true, the second false: the item is delivered twice, and CLAIMED and the claimed event appear once | the item is handed out only when the delete reports that this claim removed the row, so each gift is delivered at most once | not executed | `CreeperClaims.ClaimListener.ClaimTwice` | `CreeperClaims.ClaimListener.ClaimTwiceDeleteFirst` |
| src/main/java/wiki/creeper/creeperGiftBox/database/DatabaseManager.java:421-461 | the expiry sweep's SELECT and its DELETE each read the clock | gifts "a" expiring at 5 and "b" expiring at 7; the SELECT runs at 6 and the DELETE at 7: "b" is deleted but never logged EXPIRED or announced | the DELETE uses the SELECT's reading, so every deleted gift was logged and announced | not executed | `GiftTable.TwoClockSweepDeletesUnloggedGift` | `GiftTable.SweepAtSelectTimeRemovesOnlySelected` |
