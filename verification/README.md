# ChainOps, verified

ChainOps watches EVM wallets. A listener scans confirmed blocks once a minute, extracts the activity of the watched
wallets, and publishes it in batches; a ledger consumes the batches and stores one row per activity. This project
models that pipeline and the ledger's sign-in nonce store in Dafny and proves what they promise.

| file | what it models |
|---|---|
| Schema.dfy | the wire schema, receipts |
| Publisher.dfy | splitting a message into batches, publishing them |
| NativeEvents.dfy, UsdcEvents.dfy | extracting native and USDC activity from a block |
| Scanner.dfy | the scanner as a state machine: one step per tick, driven by the answers of clock, providers, database and broker |
| ScannerCoverage.dfy, ScannerPublishing.dfy, ScannerProgress.dfy | what holds of every run |
| Providers.dfy, EvmListener.dfy | the provider and listener classes, proved to take exactly the machine's steps |
| Ledger.dfy | mapping, the transactional write, ack and nak |
| LedgerDeliveries.dfy | the ledger behind an at-least-once broker |
| Pipeline.dfy | the two services together |
| BlockStorage.dfy | which blocks, and which runs, the ledger can store |
| Provenance.dfy | from a stored row back to the block it tells of |
| NonceStore.dfy, NonceInterleavings.dfy | the nonce store, sequential and under concurrent callers |

State that the source updates in place is a class here, and each method is proved equal to a function on values; the
theorems are about those functions. Run's local variables are fields of `EvmListener`, so that a tick can be a method.
Everything that comes from outside is an input: head readings, blocks, receipts, log queries, wallet lists, the
broker's and the database's answers, clock readings, random bytes, and the schedule of deliveries or threads. The
theorems hold for all of them, except where a hypothesis is stated.

## Where code and documentation differ

The model follows the code.

- docs/messaging/chainops-nats.md:157 says the next block is not started before the previous block's batches have
  succeeded. A publish error is only logged: `ScannerPublishing.NextBlockDoesNotWait` is a run in which the next block
  goes out after a refusal, and `ScannerPublishing.NextBlockWaitsExactly` says in which runs the order holds.
  `ScannerPublishing.RefusalsHoldNothingBack` shows that refusals delay nothing, and
  `ScannerPublishing.LosslessIffNothingRefused` when activity is lost.
- docs/messaging/chainops-nats.md:154 presents the unique key as per-event deduplication of a redelivered batch. There are
  no duplicates, but one existing key rolls the whole batch back: `LedgerDeliveries.CommitsExactly`,
  `LedgerDeliveries.RedeliveryAckedExactly`, `LedgerDeliveries.CrashAfterCommitNeverAcked`. A batch may also collide with
  itself: `BlockStorage.BlockGetsInExactly` says which blocks can be stored, `BlockStorage.PayingCallNeverGetsIn` and
  `BlockStorage.TwoPaymentsNeverGetIn` name everyday ones that cannot.
- docs/messaging/chainops-nats.md:94 puts gas on outgoing events only; BURN events carry it as well.
- The comment at services/listener/providers/evm_provider.go:32 speaks of a threshold of 3; the first failure already counts.
- The comment at services/listener/service/evm_listener.go:141 ties the fallback to a failed session; it
  applies when the startup head could not be read.
- Coverage is exactly-once, and the session row describes it, only while no tick without wallets sees the safe block
  fall behind the pointer: `ScannerCoverage.CoverageExactness` and `ScannerProgress.SessionExactness` give the exact
  condition, `ScannerCoverage.LaggingHeadRescans` and `ScannerProgress.RewoundRowMissesBlock` failing runs.
- The retention bound of a nonce needs clocks that agree within its lifetime: `NonceStore.RetentionExactly` gives the exact
  condition, `NonceStore.ClockStepBackBreaksRetention` a failing run.
- Eviction of expired nonces shows once the wall clock steps back: `NonceInterleavings.EvictionInvisibleExactly` gives
  the exact condition, `NonceInterleavings.ClockStepBackShowsEviction` a failing run.
- An outgoing native event without a receipt is sent with an empty fee text, which the ledger cannot parse, so the event
  is skipped there: `Pipeline.OutgoingRowNeedsReceipt`.
- Amounts are sent in the smallest unit and stored as NUMERIC(38, 18), so 100 ETH does not fit:
  `Pipeline.OversizedAmountRefusesBatch`.

## Model

| member | source | states |
|---|---|---|
| Listener.EvmListener.Run | services/listener/service/evm_listener.go:63-201 | a run from startup over any ticks to shutdown leaves providers, pointer, session row, checkpoints and broker calls as the scanner machine does |
| Listener.EvmListener.OnTick | services/listener/service/evm_listener.go:99-199 | one ticker firing, with every early exit, is one step of the machine; every block it covers lies at least safeBlockBuffer below the head it read |
| Listener.EvmListener.Startup | services/listener/service/evm_listener.go:65-82 | the first block is the head read minus safeBlockBuffer, a session row opens at it if the insert succeeds, and the first recovery pass is 300000 ms away; without a head the run starts with neither block nor row |
| Listener.EvmListener.ScanTick | services/listener/service/evm_listener.go:141-196 | the start fallback, the cap and the range scan, then the pointer |
| Listener.EvmListener.ScanRange | services/listener/service/evm_listener.go:161-189 | the block loop stops at the first block it cannot fetch and blames the provider |
| Listener.EvmListener.ProcessBlock | services/listener/service/evm_listener.go:169-188 | a block is published if it has activity and counts as processed whatever the broker answers |
| Listener.EvmListener.AssembleMessage | services/listener/service/evm_listener.go:169-178 | native activity first, then USDC activity where the network has it |
| Listener.EvmListener.AdvancePointer | services/listener/service/evm_listener.go:191-196 | the pointer moves past the last block, which is recorded as checkpoint, or nothing happens without one |
| Listener.EvmListener.AdvanceWithoutWallets | services/listener/service/evm_listener.go:131-139 | with no wallet to watch the pointer jumps behind the safe block |
| Listener.EvmListener.RefreshProviders | services/listener/service/evm_listener.go:101-104 | the recovery pass runs when the retry time has come and re-arms it |
| Listener.EvmListener.RecoverUnhealthyProviders | services/listener/service/evm_listener.go:343-349 | an unhealthy provider that answers is reset to no failures, every other one is left as it was |
| Listener.EvmListener.GetHealthyClient | services/listener/service/evm_listener.go:304-311 | the first healthy provider of the list, or none |
| Listener.EvmListener.HandleProviderFailure | services/listener/service/evm_listener.go:329-334 | only a transient error is held against the provider |
| Listener.EvmListener.RequireRetry | services/listener/service/evm_listener.go:336-341 | due exactly from the retry time on; five minutes until the next |
| ScannerCoverage.CoverageExactness | services/listener/service/evm_listener.go:87-200 | a run ends with every block from the first covered one to the last block covered exactly once, and no other, if and only if no tick without wallets read a safe block behind the pointer; a rewind is never made good later. Without one, coverage is exact at every tick boundary and blocks are scanned in increasing order |
| ScannerCoverage.NonDecreasingHeadsCoverOnce | services/listener/service/evm_listener.go:119-196 | with non-decreasing head readings that coverage holds for every pattern of fetch, header, database and provider failures |
| ScannerCoverage.LaggingHeadRescans | services/listener/service/evm_listener.go:131-138 | a head reading that falls back while no wallet is watched makes block 100 be scanned twice |
| ScannerCoverage.RunPointer | services/listener/service/evm_listener.go:133-134 | whenever there is a last block the pointer is the block after it, in every run |
| ScannerCoverage.NothingBeyondSafe | services/listener/service/evm_listener.go:119-189 | whatever the order of the heads, a block scanned or recorded plus safeBlockBuffer never exceeds the highest head |
| ScannerCoverage.TickBound | services/listener/service/evm_listener.go:119-189 | a tick scans a contiguous range of at most max(0, cap) blocks, each at least safeBlockBuffer below the head it read; a tick without wallets moves last block and pointer to exactly there and one beyond |
| ScannerCoverage.RunStartsBelowHead | services/listener/service/evm_listener.go:71-82 | coverage starts exactly safeBlockBuffer below the startup head, or, if that could not be read, below the head of the tick that first covers something |
| Scanner.ScanEffect | services/listener/service/evm_listener.go:161-189 | the range scanned is the longest fetchable prefix; the provider is blamed only when it is cut short |
| ScannerPublishing.PublishOrder | services/listener/service/evm_listener.go:161-189 | in runs without a rewind, with providers that return the block asked for, the (block, batch index) tags of all broker calls strictly increase |
| ScannerPublishing.BlockAttemptsArePrefix | services/listener/publisher/publisher.go:55-64 | under the same two hypotheses the calls for one block are a prefix of its batch list; a prefix cut short ends in the only failed call |
| ScannerPublishing.NextBlockWaitsExactly | services/listener/service/evm_listener.go:179-188 | under the same two hypotheses no call for another block follows a refused one if and only if only the last call of all may have been refused; equally, if and only if no batch is refused of a block after which another one has activity |
| ScannerPublishing.NextBlockDoesNotWait | services/listener/service/evm_listener.go:182-188 | block 100's only batch is refused and block 101's is sent all the same |
| ScannerPublishing.MessagesAreBlockActivity | services/listener/service/evm_listener.go:169-178 | every message of a run is the activity of the block scanned, for the wallets read in that tick, and that block lies at least safeBlockBuffer below the head read in that tick |
| ScannerPublishing.NoPublisherNoCalls | services/listener/service/evm_listener.go:179-182 | without a publisher no call is made |
| ScannerPublishing.LosslessIffNothingRefused | services/listener/service/evm_listener.go:179-187 | the broker holds exactly the activity of the scanned blocks, in order, if and only if it refused no call |
| ScannerPublishing.RefusalsHoldNothingBack | services/listener/service/evm_listener.go:182-188 | the broker's refusals change nothing but the call log: scanned blocks, pointer, checkpoints, session and providers are those of the run without refusals |
| ScannerProgress.BacklogBound | services/listener/service/evm_listener.go:141-196 | in runs in which nothing fails, with cap M and head growth at most g <= M, the backlog met by tick n is at most max(g, B0 - n(M - g)) |
| ScannerProgress.CatchUp | services/listener/service/evm_listener.go:141-196 | in such runs with g < M every tick from the B0-th on meets a backlog of at most g |
| ScannerProgress.SmoothTickCatchesUp | services/listener/service/evm_listener.go:119-196 | a tick in which nothing fails and whose backlog is within the cap reaches the block exactly safeBlockBuffer below its head |
| ScannerProgress.ProviderHealth | services/listener/providers/evm_provider.go:33-50 | in every reachable state a provider's failure count is 0 or 1, and 1 exactly when it is unhealthy |
| ScannerProgress.HealthExactly | services/listener/providers/evm_provider.go:24-50 | at any time of a run a provider is out of use if and only if some fault was held against it and it has answered no recovery pass since |
| ScannerProgress.PassOutcome | services/listener/service/evm_listener.go:343-349 | a due pass sets an unhealthy provider that answers to (0 failures, healthy) and changes no other; a pass that is not due changes none |
| ScannerProgress.AnsweredPassFindsProvider | services/listener/service/evm_listener.go:101-104 | a tick that opens with a pass which some provider answers has a provider to use |
| ScannerProgress.FaultsExactly | services/listener/service/evm_listener.go:106-117 | a tick marks its provider unhealthy exactly on a transient head error or a transient fetch error inside the range it scans |
| ScannerProgress.FaultsAreConserved | services/listener/service/evm_listener.go:329-349 | between recovery passes each fault costs exactly one healthy provider, so there are at most as many faults as providers |
| ScannerProgress.Failover | services/listener/service/evm_listener.go:304-311 | into a tick that opens without a recovery pass, the provider used moves on exactly after a fault of the tick before; there is none exactly when all are unhealthy |
| ScannerProgress.UsedNeverMovesBack | services/listener/service/evm_listener.go:101-117 | over a stretch without a recovery pass the index of the provider used never decreases |
| ScannerProgress.RecoveryPassesAreSpaced | services/listener/service/evm_listener.go:336-341 | any two recovery passes of a run are at least five minutes of clock apart, if within each tick the clock does not run backwards |
| ScannerProgress.NextPassIsSpaced | services/listener/service/evm_listener.go:336-341 | a pass and the next one are five minutes apart under any clock |
| ScannerProgress.PassDueExactly | services/listener/service/evm_listener.go:336-341 | the next pass comes with the first tick whose clock reads at least 300000 ms past the last re-arming, and not before |
| ScannerProgress.FirstPassDueExactly | services/listener/service/evm_listener.go:66-66 | the first pass comes with the first tick at least 300000 ms after startup |
| ScannerProgress.FaultsOfRun | services/listener/service/evm_listener.go:101-117 | over a whole run with p recovery passes at most providers * (p + 1) ticks fault |
| ScannerProgress.FaultsAreRateLimited | services/listener/service/evm_listener.go:329-349 | if within each tick the clock does not run backwards, then up to any clock reading there are at most as many faults per provider as five-minute intervals begun since startup |
| ScannerProgress.SessionMatchesCoverage | services/listener/service/evm_listener.go:71-98 | with non-decreasing heads the closed row has an end exactly when a block was covered, and then is a non-empty interval whose blocks are those covered, each once |
| ScannerProgress.SessionExactness | services/listener/service/evm_listener.go:71-98 | in every run with a session row, the row as closed at shutdown is exactly the interval covered, each block once, if and only if no tick without wallets read a safe block behind the pointer |
| ScannerProgress.RewoundRowMissesBlock | services/listener/service/evm_listener.go:131-138 | a run that scanned block 100 closes its row as 100..99 |
| ScannerProgress.CheckpointsFollow | services/listener/service/evm_listener.go:191-196 | in runs without a rewind checkpoint writes never decrease, never pass the last block, and end at it when every write succeeds |
| Listener.ListenerStore.CreateListenerSession | services/listener/db/network_listener_sessions.go:12-26 | a successful insert opens a row without end block |
| Listener.ListenerStore.CloseListenerSession | services/listener/db/network_listener_sessions.go:28-46 | closing sets the status and the end block, null when there is no last block |
| Listener.ListenerStore.UpdateLastScannedBlock | services/listener/db/networks.go:52-63 | a successful update replaces the checkpoint |
| Providers.EVMProvider.RecordFailure | services/listener/providers/evm_provider.go:33-39 | a recorded failure counts and makes the provider unhealthy at once |
| Providers.EVMProvider.Recover | services/listener/providers/evm_provider.go:41-50 | an answering provider is reset, a silent one is left as it was |
| NativeEvents.CollectTxnEvents | services/listener/service/evm_listener.go:203-284 | the nested loops produce the scan of every transaction, and exactly the events described field by field in the next row |
| NativeEvents.NativeEventsExactly | services/listener/service/evm_listener.go:206-302 | an event is emitted if and only if it is INCOMING to a monitored recipient (no sender, the transaction's target, value and hash, native asset, no gas) or OUTGOING from a monitored sender not calling a known token contract (from sender to target, value, hash, gas used, price and their product from that transaction's receipt or zero values without one, type and metadata by target and data) |
| NativeEvents.NativeExact | services/listener/service/evm_listener.go:206-283 | for distinct addresses the loops emit, in block order, one INCOMING for a monitored recipient, then one OUTGOING for a monitored sender whose target is no known token contract |
| NativeEvents.NativeKeysDistinct | services/listener/service/evm_listener.go:206-283 | with distinct hashes no two events of a block share transaction, wallet and direction, and there are at most two a transaction |
| NativeEvents.SenderFailureLosesOutgoingOnly | services/listener/service/evm_listener.go:223-227 | a failed sender recovery removes that transaction's OUTGOING event and nothing else; there is one to lose exactly when a monitored address sent it and not to a known token contract |
| NativeEvents.OutgoingKind | services/listener/service/evm_listener.go:240-279 | deployment, transfer or interaction by target and data; a missing receipt leaves the fee text empty |
| UsdcEvents.CollectUSDCEvents | services/listener/service/usdc_event.go:43-91 | the two passes with the receipt cache emit what a lookup per log would, and exactly the events of the next row; each transaction is looked up at most once, and exactly when a monitored address sent one of its logs |
| UsdcEvents.UsdcEventsExactly | services/listener/service/usdc_event.go:93-187 | an event is emitted if and only if it is a watched party's side of some log: from and to as in the log, its amount, transaction and positions, asset USDC at the configured contract, and for OUTGOING and BURN the gas used, price (zero if missing) and their product from its transaction's receipt |
| UsdcEvents.PrefetchReceipts | services/listener/service/usdc_event.go:67-84 | the cache holds the lookup result, failures included, of exactly those transactions |
| UsdcEvents.CollectUSDCLogEvents | services/listener/service/usdc_event.go:93-171 | one log, all addresses, in the order of the cases |
| UsdcEvents.SideMeaning | services/listener/service/usdc_event.go:114-164 | who gets an event and which: receiver before sender, mint and burn by the zero address |
| UsdcEvents.OneEventPerParty | services/listener/service/usdc_event.go:112-169 | each log yields exactly one event per monitored member of {from, to} |
| UsdcEvents.NetFlowIsBalanceChange | services/listener/service/usdc_event.go:93-171 | INCOMING plus MINT minus OUTGOING minus BURN of a monitored wallet is its ERC-20 balance change plus its self-transfers |
| UsdcEvents.GasMatchesLookup | services/listener/service/usdc_event.go:106-164 | OUTGOING and BURN carry what a direct receipt lookup gives, INCOMING and MINT carry none |
| Publishing.Chunk | services/listener/publisher/publisher.go:103-123 | the slicing loop equals peeling off n events at a time |
| Publishing.ChunkRoundTrip | services/listener/publisher/publisher.go:103-123 | batches concatenate to the message, share its envelope, are full except the last, and number max(1, ceil(len / n)) |
| Publishing.Publisher.Publish | services/listener/publisher/publisher.go:55-64 | batches go out in order and the call stops at the first failure |
| Publishing.PublishIsPrefix | services/listener/publisher/publisher.go:55-101 | headers run 1, 2, ... of the batch count; all but the last call succeeded; all batches went out exactly when none was refused |
| Publishing.HundredPerBatch | services/listener/publisher/publisher.go:55-64 | a message of up to 100 events goes out in one batch, of 101 to 200 in two, and so forth, all full but the last |
| Ledger.WalletActivityService.PersistAll | services/ledger/src/main/java/com/chainops/ledger/service/WalletActivityService.java:32-65 | all mappable rows are appended in order or the table is unchanged, and exactly when |
| Ledger.WalletActivityService.SaveAll | services/ledger/src/main/java/com/chainops/ledger/service/WalletActivityService.java:53-59 | row by row with rollback inserts all rows exactly when they fit the columns and keep the unique key |
| Ledger.BlockActivityListener.Handle | services/ledger/src/main/java/com/chainops/ledger/listener/BlockActivityListener.java:75-95 | ack exactly when the rows are in, nak otherwise with no row left behind |
| Ledger.MappableEventHasRow | services/ledger/src/main/java/com/chainops/ledger/service/WalletActivityService.java:67-107 | a mappable event has its row whatever its neighbours are, with every field recorded |
| Ledger.RowHasEvent | services/ledger/src/main/java/com/chainops/ledger/service/WalletActivityService.java:48-52 | every row comes from a mappable event |
| LedgerDeliveries.CommitsExactly | docs/schema/sql/ChainOps_2026_06_22.sql:1-2 | a batch is stored if and only if it is empty, or its header is valid and its mappable events fit their columns and bring new, distinct keys |
| LedgerDeliveries.LedgerSafety | services/ledger/src/main/java/com/chainops/ledger/listener/BlockActivityListener.java:75-95 | over all delivery schedules: no two rows with one key, no batch lost, an acked batch has every mappable row in the table |
| LedgerDeliveries.HandleDelivery | services/ledger/src/main/java/com/chainops/ledger/listener/BlockActivityListener.java:75-95 | one delivery handled by the listener class, cut short by a crash or not, is one step of the delivery machine and adds all mappable rows of its batch or none |
| LedgerDeliveries.FateDecides | services/ledger/src/main/java/com/chainops/ledger/listener/BlockActivityListener.java:75-95 | a failure or a crash before the commit changes nothing; an accepted batch adds its rows and is acked, or stays pending when the crash comes after the commit; a refused one changes nothing |
| LedgerDeliveries.HandleDeliveries | services/ledger/src/main/java/com/chainops/ledger/listener/BlockActivityListener.java:75-95 | a whole schedule handled by the class leaves the table and the acks of the delivery machine |
| LedgerDeliveries.RefusalIsPermanent | services/ledger/src/main/java/com/chainops/ledger/listener/BlockActivityListener.java:91-94 | a batch refused for its content is refused and pending after any further deliveries, as long as its wallet mapping stays the same |
| LedgerDeliveries.CrashAfterCommitNeverAcked | services/ledger/src/main/java/com/chainops/ledger/listener/BlockActivityListener.java:89-94 | a batch that committed rows and lost its ack is never acked as long as its wallet mapping stays the same, and its rows stay |
| LedgerDeliveries.RedeliveryAckedExactly | docs/schema/sql/ChainOps_2026_06_22.sql:1-2 | in every state reachable under one wallet table, a batch that has committed is acked by its next normal delivery if and only if it has no rows |
| LedgerDeliveries.DeliveryOrderIsImmaterial | services/ledger/src/main/java/com/chainops/ledger/listener/BlockActivityListener.java:75-95 | under one wallet table and any order, redelivery and crash, the table holds at most the rows of all batches, and exactly those once all have committed |
| LedgerDeliveries.StreamGetsInExactly | services/ledger/src/main/java/com/chainops/ledger/listener/BlockActivityListener.java:75-95 | some schedule under one wallet table commits every batch of a stream if and only if each batch is one a table could take and all rows together keep the unique key |
| LedgerDeliveries.FirstDeliveriesCommit | services/ledger/src/main/java/com/chainops/ledger/listener/BlockActivityListener.java:75-95 | under one wallet table, if the stream as a whole fits the table, the next normal delivery of an uncommitted batch is acked in every reachable state |
| Pipeline.BatchingIsTransparent | services/listener/publisher/publisher.go:103-123 | once all batches of a message have committed under one wallet table, in any order and with crashes, the unsplit message would have been stored and gives the same rows |
| Pipeline.BatchesOfStorableMessageCommit | services/listener/publisher/publisher.go:103-123 | if the unsplit message would be stored, the first normal delivery of each batch under the same wallet table is acked |
| Pipeline.EveryRowAccountedFor | services/listener/service/evm_listener.go:161-189 | in every run, whatever the broker refuses, and for every delivery schedule under one wallet table: the table and the rows of the batches that never reached the broker together hold at most the rows of the scanned blocks' activity, and exactly those once every batch has committed |
| Pipeline.EndToEnd | services/listener/service/evm_listener.go:161-189 | with no refused call the ledger alone holds at most those rows, and exactly those once every batch has committed |
| Pipeline.RunGetsInExactly | services/listener/service/evm_listener.go:161-189 | some schedule commits everything the broker took in a run if and only if the network id is a UUID or nothing was taken, all its rows fit their columns, and no two share a key with each other or the table |
| Pipeline.OnlyFinalBlocksAreStored | services/listener/service/evm_listener.go:119-119 | in every run and schedule, with providers that return the block asked for, an added row's block number plus safeBlockBuffer never exceeds the highest head |
| Provenance.BlockMessageExactly | services/listener/service/evm_listener.go:169-178 | a block's message has the block's number, hash and time and exactly the native and USDC events of the two rows above |
| Provenance.BatchProvenance | services/listener/publisher/publisher.go:66-101 | every batch that reaches the broker carries network, number, hash and time of a block fetched by a tick, at least safeBlockBuffer below the head that tick read, and only activity of that block for that tick's wallets |
| Provenance.RowProvenance | services/ledger/src/main/java/com/chainops/ledger/service/WalletActivityService.java:48-107 | in every run and schedule, an added row records, field by field, such an event of such a block, with that block's number and time and the id of the event's wallet |
| Pipeline.OutgoingRowNeedsReceipt | services/listener/service/evm_listener.go:240-245 | an OUTGOING native event becomes a row exactly when its wallet is known and its receipt was found |
| Pipeline.UsdcEventsAlwaysMap | services/listener/service/usdc_event.go:106-109 | a USDC event becomes a row exactly when its wallet is known |
| Pipeline.NativeActivityCommits | services/listener/service/evm_listener.go:203-284 | a block's native activity is stored whenever its numbers fit and its transactions are new |
| Pipeline.RepeatedKeyRefusesBatch | docs/schema/sql/ChainOps_2026_06_22.sql:1-2 | two mappable events with one key in a batch make every table refuse it |
| Pipeline.OversizedAmountRefusesBatch | docs/schema/sql/ChainOps_2026_06_04.sql:31-31 | an amount of 10^20 or more, such as 100 ETH in wei, makes every table refuse its batch |
| BlockStorage.BlockParties | services/listener/service/evm_listener.go:161-178 | a block's message has one event for every side a watched address takes in a transaction or USDC log, and no other |
| BlockStorage.BlockStoredExactly | services/ledger/src/main/java/com/chainops/ledger/service/WalletActivityService.java:32-65 | for distinct watched addresses with a wallet id each, a block's message is stored if and only if nobody watched takes part in it, or the network id is a UUID, all numbers fit, the table is new to it, and no wallet is twice on one side of one transaction |
| BlockStorage.GetsInExactly | services/ledger/src/main/java/com/chainops/ledger/listener/BlockActivityListener.java:75-95 | some schedule of deliveries under one wallet table gets all batches of a message in if and only if the unsplit message would be stored |
| BlockStorage.BlockGetsInExactly | services/listener/service/evm_listener.go:161-189 | likewise, some schedule under one wallet table gets a block with activity into the table if and only if the block is storable as said above |
| BlockStorage.RepeatedSideNeverGetsIn | docs/schema/sql/ChainOps_2026_06_22.sql:1-2 | a block in which a known wallet is twice on one side of one transaction gets in under no schedule |
| BlockStorage.PayingCallNeverGetsIn | docs/schema/sql/ChainOps_2026_06_22.sql:1-2 | such is a block in which a watched wallet calls a contract and pays USDC in that call, if the call's receipt was found |
| BlockStorage.TwoPaymentsNeverGetIn | docs/schema/sql/ChainOps_2026_06_22.sql:1-2 | and any block with two USDC logs of one transaction that have a watched, known wallet on the same side |
| BlockStorage.RunGetsInBlockByBlock | services/listener/service/evm_listener.go:161-189 | if nothing was refused and no transaction shows up in two blocks, some schedule gets a whole run in if and only if each scanned block alone would be stored |
| BlockStorage.RunGetsInByActivity | services/listener/service/evm_listener.go:161-189 | the same, for distinct watched addresses with a wallet id each, read off the transactions and logs of the blocks fetched |
| NonceStore.SiweNonceService.IssueNonce | services/ledger/src/main/java/com/chainops/ledger/service/SiweNonceService.java:25-34 | stores the nonce with issue time plus five minutes |
| NonceStore.SiweNonceService.ConsumeNonce | services/ledger/src/main/java/com/chainops/ledger/service/SiweNonceService.java:36-42 | removes the nonce; true exactly when it was stored and has not expired |
| NonceStore.SiweNonceService.EvictExpired | services/ledger/src/main/java/com/chainops/ledger/service/SiweNonceService.java:44-48 | removes exactly the entries that expired before the reading |
| NonceStore.RunOps | services/ledger/src/main/java/com/chainops/ledger/service/SiweNonceService.java:25-48 | calls made one after the other leave the store that the retention bound speaks of |
| NonceStore.RetentionExactly | services/ledger/src/main/java/com/chainops/ledger/service/SiweNonceService.java:18-48 | after any sequence of operations under any clock: no stored nonce was issued more than 360 s ago while the last sweep is at most 60 s old, if and only if no stored nonce was issued since that sweep from a clock more than five minutes behind it |
| NonceStore.RetentionBound | services/ledger/src/main/java/com/chainops/ledger/service/SiweNonceService.java:18-48 | that bound holds whenever no issue reads a clock more than five minutes behind an earlier sweep |
| NonceStore.ClockStepBackBreaksRetention | services/ledger/src/main/java/com/chainops/ledger/service/SiweNonceService.java:44-48 | with a clock that steps back further a stored nonce is 1000 s old at the time of the sweep |
| NonceStore.RetentionBoundIsSharp | services/ledger/src/main/java/com/chainops/ledger/service/SiweNonceService.java:44-48 | 360 s is reached |
| NonceInterleavings.OneShot | services/ledger/src/main/java/com/chainops/ledger/service/SiweNonceService.java:36-42 | in every interleaving successes use up distinct puts of their nonce and read a clock strictly before that put's expiry |
| NonceInterleavings.SuccessesAtMostIssues | services/ledger/src/main/java/com/chainops/ledger/service/SiweNonceService.java:25-42 | successful consumes of a nonce never exceed its issues |
| NonceInterleavings.IssueStoresItsNonce | services/ledger/src/main/java/com/chainops/ledger/service/SiweNonceService.java:25-34 | whatever other threads do between its two steps, an issue leaves its nonce stored until 300000 ms past the clock it read |
| NonceInterleavings.ConsumeAnswers | services/ledger/src/main/java/com/chainops/ledger/service/SiweNonceService.java:36-42 | whatever other threads do between its two steps, a consume answers true exactly when it removed an entry and reads a clock before its expiry |
| NonceInterleavings.IssuedNonceAnswer | services/ledger/src/main/java/com/chainops/ledger/service/SiweNonceService.java:25-48 | a nonce issued by any thread, not asked for or issued again since, is accepted by the first consume that asks for it if and only if that reads a clock less than 300000 ms past the issue's, whatever runs at the same time, as long as no sweep has read a later clock |
| NonceInterleavings.EvictionInvisibleExactly | services/ledger/src/main/java/com/chainops/ledger/service/SiweNonceService.java:36-48 | under any clock, every interleaving answers as it would with all evictions removed if and only if no consume that missed an evicted entry would read a clock before that entry's expiry |
| NonceInterleavings.EvictionIsInvisible | services/ledger/src/main/java/com/chainops/ledger/service/SiweNonceService.java:36-48 | that is so whenever no consume reads an earlier clock than an eviction read before it, as with a monotone clock |
| NonceInterleavings.ClockStepBackShowsEviction | services/ledger/src/main/java/com/chainops/ledger/service/SiweNonceService.java:44-48 | with a clock that steps back an eviction can change an answer |
| NonceInterleavings.ConsumedAlone | services/ledger/src/main/java/com/chainops/ledger/service/SiweNonceService.java:36-42 | an undisturbed call of two steps answers as the sequential method |
| NonceInterleavings.SweepIsItsSteps | services/ledger/src/main/java/com/chainops/ledger/service/SiweNonceService.java:44-48 | an undisturbed sweep in single removals, in any order, leaves what the sequential method leaves |

## Left out

- Transport, connection set-up, configuration files, logging and signal handling: only their outcomes appear.
- Classification of an error as transient (services/listener/service/evm_listener.go:313-327): an input per error.
- Signature recovery, hashing, checksum addresses, topic decoding and JSON encoding: addresses and hashes are numbers,
  logs arrive decoded, and a batch arrives as it was sent or cannot be decoded at all.
- Logs with fewer than three topics, call data of one to three bytes, and native receipts without a gas price: the Go code
  would panic on them where it looks at them; the model's types rule them out for every transaction.
- Two receipt lookups of one transaction within one collector are taken to agree; the native and the USDC collector may
  see different answers.
- A broker call that fails although the broker kept the batch: the stream in the end-to-end theorems holds the accepted
  calls only.
- Fractional amounts on the wire and the rounding of stored numbers: the listener sends integers.
- Truncation of block numbers to 64 bits in the database calls: block numbers stay far below that.
- Column lengths, and the deletion of rows with their wallet.
- start and stop of the ledger's listener, and ConnectEVM: no property beyond their bodies.
- Resuming from the stored checkpoint, reorganisations and eventual ack of a redelivered batch: the code has none of them.
- LedgerDeliveries.RefusalIsPermanent: assumes the wallet table used for that batch stays the same, because a changed one
  maps the batch to other rows.
