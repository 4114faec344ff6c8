# Kryxivia auth loader: login queue, presence table and temporary tokens

This project models the stateful core of the Kryxivia authentication loader
API and proves properties about it. It covers four parts:

- **The ticket queue (`ChainQueue`).** A FIFO of login tickets kept as a
  doubly linked chain of nodes. A dictionary indexes the nodes by key, and
  every node stores its own position. The queue supports enqueue, dequeue,
  position lookup (which also refreshes the ticket's time) and a
  garbage-collection walk that evicts tickets untouched for too long.
- **The login queue service.** It pushes login requests, answers status
  polls and runs two background loops. The reaper evicts stale tickets
  every second. The drainer admits up to `Prefetch` requests per tick and
  marks their accounts as logged in.
- **The player presence table.** Heartbeats refresh or create records. An
  analyzer merges in the logged-in accounts from the store, drops records
  whose last ping is older than the timeout, and reports those keys to the
  store as logged off in one bulk call.
- **The temporary token service.** A token is generated, then validated
  (a JWT is attached), then verified (handed out and forgotten). A sweep
  forgets tokens by age.

Files:

- `common.dfy`: the `Option` type and the `RemovedAt` relation between a
  sequence and the same sequence with one element cut out.
- `tickets.dfy`: the abstract queue, a sequence of `Ticket`s from head to
  tail. It defines positions, staleness, and the survivors and evicted keys
  of a sweep.
- `chain_queue.dfy`: the linked implementation. `ChainElement` and
  `ChainQueue` are classes with the source's fields. A ghost sequence of
  nodes ties the chain to the abstract tickets (`Contents`). `Valid()`
  states that the `previous`/`next` links, the stored positions, the key
  index, `Count`, `IsEmpty`, `head` and `last` all agree with that
  sequence.
- `login_queue.dfy`: `LoginQueueService`. The account store is a ghost map
  from public key to account.
- `player_state.dfy`: `PlayerStateService`, with the table as a sequence of
  records.
- `temporary_token.dfy`: `TemporaryAuthToken` objects and
  `TemporaryTokenService`.

Times are integer milliseconds, and every operation that reads the clock
takes it as a `now` parameter. The random generator is a sequence of draws
supplied by the caller. Store reads are parameters. Store writes are ghost
state: an account map for the login drainer, and a log of bulk "logged
off" calls for the presence analyzer.

## Model

| member | source | states |
|---|---|---|
| Utilities.ChainElement.constructor | Utilities/ChainQueue.cs:167-173 | A new node carries the given key, value, time and position, and is unlinked. |
| Utilities.ChainElement.AttachToTheEndOfChain | Utilities/ChainQueue.cs:198-205 | With a current tail, the node becomes the tail's `previous` and the tail becomes the node's `next`. Without one, nothing changes. |
| Utilities.ChainElement.Unlink | Utilities/ChainQueue.cs:177-184 | Pointing the node's neighbours at each other leaves the chain without the node correctly linked in both directions. The node keeps its own links. |
| Utilities.ChainElement.RenumberNewer | Utilities/ChainQueue.cs:186-195 | The walk toward the tail gives every node behind the removed one its index minus one. Nodes ahead keep their positions. |
| Utilities.ChainElement.Remove | Utilities/ChainQueue.cs:175-196 | Removing the node at index k leaves the other nodes linked and numbered by their new index. The removed node keeps its `previous` and `next`, so a walk can continue from it. |
| Utilities.ChainQueue.constructor | Utilities/ChainQueue.cs:13-22 | A new queue is valid and empty. |
| Utilities.ChainQueue.Enqueue | Utilities/ChainQueue.cs:24-40 | The abstract queue gains exactly `Ticket(key, element, now)` at the tail. `Count` grows by one, the queue is no longer empty, and every invariant of the chain is kept. |
| Utilities.ChainQueue.Push | Utilities/ChainQueue.cs:30-38 | Linking a fresh node at position `Count` behind the tail and filing it keeps the chain well formed, with the node appended. |
| Utilities.ChainQueue.Adopt | Utilities/ChainQueue.cs:31-38 | Making a node linked behind the tail the new `last` (and `head` when there was none), filing it, incrementing `Count` and clearing `IsEmpty` leaves the chain well formed with the node appended. |
| Utilities.ChainQueue.Dequeue | Utilities/ChainQueue.cs:42-68 | An empty queue answers None and changes nothing. Otherwise it answers the head ticket's payload and the queue becomes its tail, with `Count` one less. |
| Utilities.ChainQueue.MoveHead | Utilities/ChainQueue.cs:54-64 | Moving `head` to the removed head's successor, clearing `last` when the head was also the tail, setting `IsEmpty` when no node is left, unfiling the key and decrementing `Count` leaves the remaining nodes well formed, with `Count` one less. |
| Utilities.ChainQueue.Pop | Utilities/ChainQueue.cs:52-64 | Unlinking the head, moving `head` to its successor, clearing `last` and setting `IsEmpty` when it was the only node, and unfiling its key leaves the remaining nodes well formed. |
| Utilities.ChainQueue.GetPosition | Utilities/ChainQueue.cs:70-80 | Answers the ticket's index from the head (`PositionOf`), or -1 when the key is unknown. A found ticket's time is set to `now`, and nothing else changes. |
| Utilities.ChainQueue.RemoveTimeOut | Utilities/ChainQueue.cs:82-121 | After the walk the queue is exactly the non-stale tickets in their original order. The reported keys are exactly the stale ones, oldest first. All invariants hold, and every remaining node is one of the old nodes. |
| Utilities.ChainQueue.Visit | Utilities/ChainQueue.cs:144-153 | One step of the walk carries the sweep invariant from ticket i to ticket i + 1. The walk's cursor moves to the evicted node's `previous`. |
| Utilities.ChainQueue.TryEvict | Utilities/ChainQueue.cs:84-93 | A ticket is evicted if and only if it is stale. An evicted ticket is cut out of the chain and the abstract queue at its index. A kept one changes nothing. |
| Utilities.ChainQueue.Unhook | Utilities/ChainQueue.cs:146-151 | Removing any node, fixing `head` and `last`, decrementing `Count` and unfiling the key leaves a well-formed chain without that node. |
| Utilities.ChainQueue.Detach | Utilities/ChainQueue.cs:94-119 | The head/last clean-up keeps `head`, `last` and `IsEmpty` in step with the remaining nodes. |
| Utilities.ChainQueue.ToString | Utilities/ChainQueue.cs:123-135 | The walk from head to tail lists every ticket once, as (index, key), in queue order. |
| Utilities.ChainQueue.KeysAreDistinct | Utilities/ChainQueue.cs:18 | The key index makes every queued key distinct. |
| Utilities.ChainQueue.KeysOfContents | Utilities/ChainQueue.cs:18 | The dictionary's keys are exactly the queued keys. |
| Utilities.MirroredKeys | Utilities/ChainQueue.cs:18 | The node keys and the abstract ticket keys are the same set. |
| Tickets.PositionOf | Utilities/ChainQueue.cs:70-80 | The position is -1 exactly when the key is not queued. Otherwise the ticket there carries the key and none ahead of it does. |
| Tickets.PositionOfIndex | Utilities/ChainQueue.cs:70-80 | With distinct keys, the ticket at index i reports position i. |
| Tickets.PositionAfterEnqueue | Utilities/ChainQueue.cs:24-40 | A newly enqueued key sits at the old count, and every other key keeps its position. |
| Tickets.PositionAfterDequeue | Utilities/ChainQueue.cs:42-68 | After a dequeue every remaining ticket moves one place forward, and the dequeued key is gone. |
| Tickets.PositionAfterRemoveAt | Utilities/ChainQueue.cs:175-196 | Evicting the ticket at p keeps the positions ahead of p and moves those behind p forward by exactly one. |
| Tickets.Stale | Utilities/ChainQueue.cs:86 | Under a non-negative timeout, a ticket touched at or after `now` is not stale. |
| Tickets.EvictedKeys | Utilities/ChainQueue.cs:146-150 | A sweep reports at most one key per ticket. Its exact content is stated by `EvictedKeysAreStale`. |
| Tickets.Survivors | Utilities/ChainQueue.cs:82-121 | The kept tickets are none of them stale, and their keys are among the original keys. |
| Tickets.SurvivorsAreTickets | Utilities/ChainQueue.cs:82-121 | Every kept ticket is one of the original tickets. |
| Tickets.EvictionCount | Utilities/ChainQueue.cs:82-121 | Every ticket the sweep looks at is kept or evicted: the two counts add up to the queue length. |
| Tickets.EvictedKeysDistinct | Utilities/ChainQueue.cs:146-150 | With distinct queued keys, no key is reported twice, so the eviction callback runs once per evicted ticket. |
| Tickets.EvictedKeysAreStale | Utilities/ChainQueue.cs:86 | A key is evicted if and only if some ticket carrying it is stale. |
| Tickets.SurvivorKeys | Utilities/ChainQueue.cs:82-121 | The survivors keep distinct keys and hold exactly the queued keys minus the evicted ones. |
| Tickets.SurvivorPosition | Utilities/ChainQueue.cs:186-195 | After a sweep, each survivor's position drops by exactly the number of tickets evicted ahead of it. |
| Tickets.KeysOfSnoc | Utilities/ChainQueue.cs:36 | Enqueuing adds exactly the new key to the key set. |
| Tickets.KeysOfRemoveAt | Utilities/ChainQueue.cs:150 | Removing a ticket with a unique key removes exactly that key. |
| Tickets.DistinctAfterRemoveAt | Utilities/ChainQueue.cs:175-196 | Removing any ticket keeps the keys distinct. |
| Tickets.SweepStep | Utilities/ChainQueue.cs:144-153 | Dropping a stale ticket or keeping a live one carries the walk invariant one ticket further and extends the evicted keys accordingly. |
| LoginQueue.Admit | Services/LoginQueue/LoginQueueService.cs:78-94 | An unknown public key gets a new logged account with the request's key and signature. A known one keeps its signature and becomes logged. No other account changes. |
| LoginQueue.AdmitAllLogsIn | Services/LoginQueue/LoginQueueService.cs:67-97 | After admitting a sequence, every admitted key has a logged account, the store has gained exactly those keys, and every other account is unchanged. |
| LoginQueue.DrainCount | Services/LoginQueue/LoginQueueService.cs:67-73 | One tick takes `Prefetch` requests, or all of them when fewer are queued, and none when `Prefetch` is not positive. |
| LoginQueue.LoginQueueService.constructor | Services/LoginQueue/LoginQueueService.cs:23-32 | The service starts with an empty queue and an empty membership set. |
| LoginQueue.LoginQueueService.PushLogin | Services/LoginQueue/LoginQueueService.cs:117-131 | The request is queued at the tail under its id, the id is marked as queued, and the id is returned. The chain keeps its old nodes and gains one fresh node at the tail. |
| LoginQueue.LoginQueueService.IsInQueue | Services/LoginQueue/LoginQueueService.cs:133-136 | True if and only if some queued ticket carries the id. |
| LoginQueue.LoginQueueService.GetLoginStatus | Services/LoginQueue/LoginQueueService.cs:138-156 | The state is "Logged" exactly when the id is not queued and "Waiting" exactly when it is. The position is the id's position and the total is the queue length. Polling a queued id sets its ticket's time to `now`, so the reaper keeps it for another 10000 ms, and leaves every other ticket and the order unchanged. Polling an id that is not queued changes nothing. |
| LoginQueue.LoginQueueService.ReaperStep | Services/LoginQueue/LoginQueueService.cs:47-51 | The queue keeps exactly the non-stale tickets after a 10000 ms timeout. The evicted ids are reported and leave the membership set. Every remaining node is one of the old nodes. |
| LoginQueue.LoginQueueService.Forget | Services/LoginQueue/LoginQueueService.cs:47-51 | Each reported key is dropped from the membership set. |
| LoginQueue.LoginQueueService.DrainerTick | Services/LoginQueue/LoginQueueService.cs:67-97 | The first `DrainCount` requests are taken in FIFO order and returned. They leave the queue and the membership set, and their accounts are admitted in order. The chain's nodes lose exactly their first `DrainCount` entries. |
| LoginQueue.LoginQueueService.DrainNext | Services/LoginQueue/LoginQueueService.cs:67-97 | One iteration extends the admitted prefix by the next queued request, if one is left. |
| LoginQueue.LoginQueueService.DrainOne | Services/LoginQueue/LoginQueueService.cs:71-94 | An empty queue changes nothing. Otherwise the head request is dequeued, unmarked and admitted, since a queued id is always marked. |
| LoginQueue.LoginQueueService.Mark | Services/LoginQueue/LoginQueueService.cs:122 | The id joins the membership set, and the queue is unchanged. |
| LoginQueue.LoginQueueService.LogIn | Services/LoginQueue/LoginQueueService.cs:73-94 | The dequeued id leaves the membership set and its account is admitted as `Admit` states. The queue is unchanged. |
| LoginQueue.SurvivorsAreFiled | Services/LoginQueue/LoginQueueService.cs:121 | Tickets kept by the reaper are still filed under their requests' ids. |
| PlayerState.FindIndex | Services/LoginQueue/PlayerStateService.cs:79 | Gives the index of the first record with the key, or -1 exactly when no record has it. |
| PlayerState.FetchAlivesPlayers | Services/LoginQueue/PlayerStateService.cs:51-56 | One record per logged-in account, in the store's order: alive, pinged now, carrying the account's public key. |
| PlayerState.Heartbeat | Services/LoginQueue/PlayerStateService.cs:58-71 | An unknown key gains one record pinged now. A known key's first record gets `lastPing = now` and nothing else changes. Either way the key is connected. |
| PlayerState.HeartbeatKeepsUnique | Services/LoginQueue/PlayerStateService.cs:58-71 | A heartbeat keeps keys unique and grows the table by at most one record. |
| PlayerState.Disconnect | Services/LoginQueue/PlayerStateService.cs:73-82 | An unknown key changes nothing. A known key's first record is cut out, with all others kept in order. |
| PlayerState.DisconnectForgetsKey | Services/LoginQueue/PlayerStateService.cs:73-82 | With unique keys, a disconnect removes that key entirely, keeps every other key, and keeps keys unique. |
| PlayerState.NewArrivals | Services/LoginQueue/PlayerStateService.cs:137-145 | The appended records are exactly the incoming ones whose key is not already in the table. |
| PlayerState.MergeKeepsUnique | Services/LoginQueue/PlayerStateService.cs:137-145 | Merging incoming records with unique keys keeps the table's keys unique. |
| PlayerState.IsAlive | Services/LoginQueue/PlayerStateService.cs:164 | Under a non-negative timeout, a record pinged at or after `now` is alive. |
| PlayerState.Kept | Services/LoginQueue/PlayerStateService.cs:162-173 | The kept records are no more than the snapshot's, each taken from the snapshot and alive. |
| PlayerState.Expired | Services/LoginQueue/PlayerStateService.cs:162-173 | At most one expired key per record. Its exact content is stated by `PartitionExact`. |
| PlayerState.PartitionExact | Services/LoginQueue/PlayerStateService.cs:156-173 | Kept and expired split the snapshot: a record is kept if and only if it is alive, a key is expired if and only if a record with it is not alive, and the two counts add up to the snapshot's length. |
| PlayerState.KeptAppend | Services/LoginQueue/PlayerStateService.cs:162-173 | Keeping distributes over concatenation, so kept records stay in their original order. |
| PlayerState.KeptKeepsUnique | Services/LoginQueue/PlayerStateService.cs:162-178 | Keeping only the alive records of a table with unique keys leaves the keys unique. |
| PlayerState.NoneExpiredKeepsAll | Services/LoginQueue/PlayerStateService.cs:175-181 | When nothing expired, the kept records are the whole table. |
| PlayerState.PlayerStateService.constructor | Services/LoginQueue/PlayerStateService.cs:29-37 | The service starts with an empty table and no logged-off calls. |
| PlayerState.PlayerStateService.Start | Services/LoginQueue/PlayerStateService.cs:39-49 | The table becomes the records of the logged-in accounts. |
| PlayerState.PlayerStateService.UpdateAlivePlayer | Services/LoginQueue/PlayerStateService.cs:58-71 | The table becomes its heartbeat for the key at `now`. |
| PlayerState.PlayerStateService.DisconnectPlayer | Services/LoginQueue/PlayerStateService.cs:73-82 | The table becomes its disconnect for the key. |
| PlayerState.PlayerStateService.GetConnectedCount | Services/LoginQueue/PlayerStateService.cs:84-92 | Answers the number of records. |
| PlayerState.PlayerStateService.CountAlivePlayers | Services/LoginQueue/PlayerStateService.cs:109-117 | Answers the number of records, the same as `GetConnectedCount`. |
| PlayerState.PlayerStateService.IsAlreadyConnected | Services/LoginQueue/PlayerStateService.cs:94-102 | True if and only if some record carries the key. |
| PlayerState.PlayerStateService.GetMaxPlayers | Services/LoginQueue/PlayerStateService.cs:104-107 | Answers the configured `MaxPlayersOnline`. |
| PlayerState.PlayerStateService.SetAlivePlayers | Services/LoginQueue/PlayerStateService.cs:129-135 | The table is replaced by the given records. |
| PlayerState.PlayerStateService.MergeAlivePlayers | Services/LoginQueue/PlayerStateService.cs:137-145 | Existing records are untouched, and only the incoming records with new keys are appended. |
| PlayerState.PlayerStateService.Partition | Services/LoginQueue/PlayerStateService.cs:156-173 | The walk collects exactly the alive records, and the keys of the expired ones, in snapshot order. |
| PlayerState.PlayerStateService.AliveAnalyzerStep | Services/LoginQueue/PlayerStateService.cs:147-181 | After merging the store's logged-in accounts, the table is exactly the alive records of the merged table. One bulk logged-off call with the expired keys is logged if any expired, and none otherwise. When the table and the fetched records each have unique keys, so does the new table. |
| TemporaryToken.CharsSpelled | Services/TemporaryToken/TemporaryTokenService.cs:124 | The alphabet is the 26 capital letters followed by the 10 digits. |
| TemporaryToken.RandomAlphaNumeric | Services/TemporaryToken/TemporaryTokenService.cs:122-127 | The string has exactly the requested length, and every character is the alphabet character named by its draw. |
| TemporaryToken.AlphaNumericInjective | Services/TemporaryToken/TemporaryTokenService.cs:122-127 | Different draws give different strings. |
| TemporaryToken.MinutesComponent | Services/TemporaryToken/TemporaryTokenService.cs:55-57 | The minutes component lies in -59..59 and has the sign of the span. |
| TemporaryToken.ExpiredIsMinutesComponent | Services/TemporaryToken/TemporaryTokenService.cs:55-57 | An age from one minute up to one hour is expired. An age from one hour up to one hour and a minute is not, and neither is an age under a minute. |
| TemporaryToken.Except | Services/TemporaryToken/TemporaryTokenService.cs:72 | Keeps exactly the listed hashes not in the drop list, each as often as it is listed. |
| TemporaryToken.Expired | Services/TemporaryToken/TemporaryTokenService.cs:55-57 | No age under a minute is expired. |
| TemporaryToken.Swept | Services/TemporaryToken/TemporaryTokenService.cs:49-68 | A sweep forgets at most one hash per listed entry, and only listed hashes that have a token. |
| TemporaryToken.SweptSnoc | Services/TemporaryToken/TemporaryTokenService.cs:49-68 | Sweeping one more listed hash adds it exactly when it has an expired token not yet forgotten. |
| TemporaryToken.SweptExact | Services/TemporaryToken/TemporaryTokenService.cs:49-68 | A sweep forgets exactly the listed hashes whose tokens are expired, each once. |
| TemporaryToken.SweepKeepsListed | Services/TemporaryToken/TemporaryTokenService.cs:53-67 | A listed hash stays listed if and only if it has no token or its token is not expired. |
| TemporaryToken.TemporaryAuthToken.constructor | Services/TemporaryToken/TemporaryTokenService.cs:112 | A new token carries its hash and date, is not validated, and has no JWT. |
| TemporaryToken.TemporaryTokenService.constructor | Services/TemporaryToken/TemporaryTokenService.cs:22-33 | The service starts with no tokens and no listed hashes. |
| TemporaryToken.TemporaryTokenService.ValidateTemporaryAuthToken | Services/TemporaryToken/TemporaryTokenService.cs:93-104 | A known hash's token gets the JWT, `validated` and a date of `now`. An unknown hash changes nothing, and the answer is always false. |
| TemporaryToken.TemporaryTokenService.GenerateTemporaryAuthToken | Services/TemporaryToken/TemporaryTokenService.cs:106-120 | The retry loop runs once. The fresh token has the drawn hash, the date `now`, is not validated and has no JWT. It is filed unless the hash is already filed, and the hash is listed either way. |
| TemporaryToken.TemporaryTokenService.VerifyTemporaryAuthToken | Services/TemporaryToken/TemporaryTokenService.cs:129-142 | Returns the filed token or None. Only a validated token with a JWT is unfiled and unlisted. Otherwise nothing changes. |
| TemporaryToken.TemporaryTokenService.SweepStep | Services/TemporaryToken/TemporaryTokenService.cs:47-72 | The forgotten hashes are exactly the `Swept` ones. The table keeps every other token, and the list keeps every other hash. |
| TemporaryToken.TemporaryTokenService.SweepHash | Services/TemporaryToken/TemporaryTokenService.cs:53-67 | A hash is unfiled and recorded exactly when its token is filed and expired. A hash whose token is already gone, including a repeat of one just forgotten, is passed over. |

## Left out

- Concurrency. The locks, the `ConcurrentDictionary` and `Task.Run` loops are not modelled. Each operation runs atomically, and a background loop is modelled as one iteration (`ReaperStep`, `DrainerTick`, `AliveAnalyzerStep`, `SweepStep`). The delays between iterations are left out.
- Logging (Serilog) and the catch-all exception handlers. `PushLogin` returning the empty string and `GetLoginStatus` returning null on an exception are not modelled. The only exception path modelled is the token sweep's per-hash handler, for a listed hash with no token.
- The clock. `DateTimeOffset.Now` and `DateTime.UtcNow` become a `now` parameter in milliseconds.
- Utilities.ChainQueue.RemoveTimeOut: the source reads the clock once per visited node. The model uses one `now` for the whole walk.
- PlayerState.PlayerStateService.AliveAnalyzerStep: the source reads the clock twice, once when building the fetched records (Services/LoginQueue/PlayerStateService.cs:54) and once for the staleness test (line 156). The model uses one `now` for both, so freshly fetched records are always judged alive.
- The persistence layer. `AccountRepository` and MongoDB are abstracted:
  - the drainer's read-then-create-or-update of an account is the ghost map update `Admit`;
  - the analyzer's store read is the `accounts` parameter;
  - the bulk logged-off write is an entry in the ghost `loggedOffCalls` log, without its effect on stored accounts.
- LoginQueue.LoginQueueService.ReaperStep: the source calls the eviction callback during the walk. The model removes the evicted keys from the membership set right after the walk, in the same order. No one can observe the difference without concurrency.
- LoginQueue.LoginQueueService.PushLogin: requires the id not to be queued. The source's `TryAdd` on the key index would silently keep the old node while the chain gains a second one. The controller only pushes ids that are not queued (Controllers/LoginController.cs:61-62).
- Utilities.ChainQueue.Enqueue: requires the key not to be filed, for the same reason.
- The membership dictionary `_inQueue` is a set, since every value stored in it is `true`.
- PlayerState.PlayerStateObject: records are values in a sequence, not shared objects. In the source the analyzer's snapshot (Services/LoginQueue/PlayerStateService.cs:124) and its list of kept records (line 167) hold the same objects as the table. So a heartbeat that refreshes a kept record between the snapshot and the replacement (line 178) survives it. What the replacement does lose is:
  - a record that a heartbeat adds in between (line 64);
  - a refresh of a record the analyzer has already judged expired;
  - a `DisconnectPlayer` made in between (line 80), which the replacement undoes.
  These interleavings need concurrency, which is left out.
- Utilities.ChainQueue.ToString: returns the (index, key) pairs of the walk instead of the text lines `Element {i} {key}`, each ending in a newline.
- Integer widths. The C# `int` fields `Count`, `position` and `Prefetch` and the `long` ticket time are unbounded integers here. Overflow is not modelled: it would need more than 2^31 queued tickets, or times near 2^63 ms.
- Time spans. `TotalSeconds` in the analyzer is compared as whole milliseconds (`now - lastPing <= SecondsTimeout * 1000`). The token age uses `TimeSpan.Minutes`, computed from milliseconds with truncation toward zero. Sub-millisecond ticks are not modelled.
- `LastPing` is a nullable date in the source but is never null on any creation path, so it is an integer.
- The random generator becomes a sequence of draws in 0..35 supplied by the caller.
- Dependency injection, settings loading, controllers, middlewares and health checks are not part of this model.
