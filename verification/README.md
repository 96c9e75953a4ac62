# Verified model of the gateway core

The gateway polls Modbus devices, gives the readings a meaning through a mapping registry
(AMM), and publishes them over MQTT to a custom broker or to the ThingsCloud platform. Readings
that cannot be published are kept as record files on SPI flash and on a TF card and replayed
later. It also serves its points as a Modbus TCP server and forwards writes southbound.

This project models the parts that hold state and proves what they promise. A C function that
runs under a mutex is one method on a class with the same fields; it is proved equal to a
specification function, and the theorems are about that function and about runs of it. Flash,
NVS, the broker and the platform are maps or oracles. Every outcome of an I/O call is a
parameter, so the results hold for every pattern of failures.

`dafny verify dfyconfig.toml` checks everything.

| files | what they cover |
|---|---|
| `OfflineRecord`, `OfflineStore`, `StoreCapacity` | record files, the two directories, their cached index, eviction, capacity |
| `UifReplay`, `ReplayRuns`, `ReplayTiming` | the replay state machine, the table of tracked publishes, whole runs with restarts, waiting and back-off |
| `TcmSequence` | record ids that survive restarts |
| `AmmEntry`, `AmmMapping`, `AmmImport`, `AmmContents`, `AmmRuns`, `AmmLife` | the mapping registry: table, import, NVS mirror, rollback, what spares an entry |
| `SlotChecksum`, `RuntimeConfig` | the two-slot configuration commit |
| `LongDivision`, `ModbusCrc` | checksum registers, and why they compute remainders |
| `ModbusCodec`, `CodecValues`, `ModbusPdu`, `ModbusServer` | register codec and its values, client and server PDUs |
| `ControlForward`, `PointAddresses`, `WriteThrough` | northbound writes through to the southbound ones, and which register a point is |
| `ReadThrough` | the state pool and the northbound read of what was polled southbound |
| `PollScheduler`, `RateLimiter` | polling order, publish rate |
| `GreedyCut`, `PacketBuilder`, `SubdevicePackets`, `TelemetryFlush` | packetising, and what the publish rate makes of it |

## Main results

1. Store: the cached (count, oldest, valid) of each medium is the result of a scan after every
   operation; for a put, exactly under a stated condition, which every run with increasing ids meets.
   Flash keeps to 512 records over every run, and the card but for one exact case.
2. Replay: over every run with restarts a record leaves the store only for a listed cause, a
   peek returns what was put, every put is accounted for exactly once, and the ids released are
   strictly increasing as long as none overtakes a record on a card out of sight; after one that
   does, the order can be broken. Which platform answers take effect, and when
   replay waits, holds back and goes on, is known exactly.
3. Registry: an import is an override by key, atomic in RAM; incremental saving is as good as
   saving everything; a reboot rebuilds the table; a rollback undoes any mutation; a
   legal mapping that no operation is about stays as it is.
4. Configuration: with atomic key writes, saves and crashes refine one atomic cell, and only legal
   settings are ever in use. Both checksums are remainders on division by their generators.
5. Codec, PDUs and write path undo each other: a successful block write sends the received words
   unchanged, each point to its own register, exactly when every point is passed on, and integer
   points that are found by their own names are. No write leaves the range of its mapping. A client's read of integer points gives the
   words last polled exactly when every point survives its number format.
6. Polling waits at most n - 1 other picks; publishing is bounded in every window, reconnects
   included; packets cut the input without loss exactly when keys do not clash, and no cut has
   fewer, in both report modes.

## Where the code does not keep a promise

Each has a lemma with a concrete input and, where there is one, an exact condition.

- The flash rewrite of a put never compares the new id with the remaining oldest, so its index
  can go stale (`StaleOldestExample`; condition in `Store.Put`).
- Replay notes the mode it sends in as the topic it awaits, and the noted topic is never the one
  that this mode's answers come on. In a fixed report mode the answer to a replayed record has no
  effect (`OwnAnswersIgnored`); it has one exactly when the mode changes between two reads of the
  configuration (`OwnAnswerTakesEffectIff`). In gateway mode replay never releases a record
  (`GatewayModeReleasesNothing`); in sub-device mode only the answer to something else does, such
  as a late one to a status message, and then no loss is counted (`SubdeviceModeAnswersIff`,
  `StatusAnswerReleases`). An answer names no record: `AnswerHitsOwnIff` says when one removes
  another record than its own.
- A release above an id on a card that the last boot did not see can break the release order
  (`HiddenCardBreaksOrder`, `ReleaseAboveHiddenBreaks`).
- Tracked publishes are freed only by their acknowledgement: with the table full, the custom
  broker path releases only as acknowledgements come (`ReleaseNeedsFreeSlot`,
  `FullTableWaitsForAcks`). It also never stamps its send time (`BrokerWaitIff`).
- A save of the configuration that reports failure can be loaded by the next boot
  (`FailedSaveLoadsIff`), can tie on generation with a later acknowledged one and win
  (`AcknowledgedSaveLost`), and a torn write after an interrupted save loses the current
  configuration (`TornAfterInterruptedSave`, `TornWriteSafeIff`). A save at the last generation is
  lost (`WrapLosesSave`).
- An ignored NVS failure can make sequence ids repeat: exactly when a restart loads a reservation
  below the highest id ever handed out (`AscendingIff`, `FailedWriteRepeatsIds`,
  `FailedReadRepeatsIds`, `LastIdIsNotEnough`).
- 16-bit registers do not survive BADC and DCBA unless their bytes are equal
  (`SixteenBitRoundTripIff`), and 64-bit registers only up to 53 significant bits
  (`EncodeUndoesDecodeIff`, `FirstIntegerLost`); a zero scale forwards zero (`ZeroScaleSendsZero`).
- A block write reaches its points by name, and neither an add nor an import keeps names unique
  in the table: a successful write can change another register (`TwinNamesMisdirect`;
  `PointForwardedIff` says exactly when).
- The limiter holds one token. A flush that needs two packets within one refill period fails
  (`LargeBufferNeverDelivered`, `LargeSubdeviceNeverDelivered`), keeps its buffer, and attempts the
  same first packet again next time (`FlushesStartAlike`); one packet suffices exactly when the
  buffer fits in it. Keys that differ only in case lose a property when they meet in an object that
  overflows (`LosslessIff` of both packetisers, `CaseTwinsLose`).
- A coil with a configured address of 1 to 10000 is polled at that address less one and written at
  the address itself (`WrittenWherePolledIff`). A single-register write to a BCD point sends other
  digits than it was given, above 9 (`SingleBcdIff`).
- A full card whose oldest record cannot be deleted takes the new one all the same
  (`PutWithinCapacity`).
- Coils are read back from the scaled value: an offset turns every off coil on
  (`CoilReadsBackIff`).
- A rollback does not restore the default poll interval (`RollbackUndoes`), and after a change
  of an empty table it restores an older image (`RollbackAvailableIff`). A remove ignores the
  function code (`RemoveContents`). A mapping added with scale 0 changes at the next boot
  (`AddSettledIff`).

Code and documentation disagree in two places; the code is modelled. The header of
`amm_add_mapping` says that the full table is persisted (main/amm/amm_mapping.h:117-121), but
only the changed slot is. It also describes the key as slave and register
(main/amm/amm_mapping.h:43-48), but it has five fields.

## Model

| member | source | states |
|---|---|---|
| `OfflineRecord.NameRoundTrip` | main/storage/offline_store.c:55-78 | every 32-bit id is read back from the file name it is stored under |
| `OfflineRecord.NamesDistinct` | main/storage/offline_store.c:55-59 | different ids never share a file name |
| `OfflineRecord.ShortTopic` | main/storage/offline_store.c:156-193 | a single-line topic of at most 126 characters is read back exactly; the payload exactly, or its first 1023 characters |
| `OfflineRecord.LongTopic` | main/storage/offline_store.c:173-193 | a topic of 127 or more characters is read back cut to 127, and the payload starts with what was left of its line |
| `OfflineRecord.ContentRoundTripIff` | main/storage/offline_store.c:156-193 | what is read is what was written if and only if the topic is one line of at most 126 characters and the payload at most 1023; one oddity at 127 characters is spelled out |
| `OfflineRecord.NameIsShort` | main/storage/offline_store.c:55-59 | a file name is eight upper-case hexadecimal digits and .TCM |
| `OfflineStore.CacheDir.FindOldestIn` | main/storage/offline_store.c:80-95 | for directory entries in any order: found says whether there is a record, and the id is the minimum |
| `OfflineStore.CacheDir.CountIn` | main/storage/offline_store.c:97-109 | the scan counts every record once |
| `OfflineStore.CacheDir.LoadState` | main/storage/offline_store.c:111-117 | a rescan makes the index (count, oldest, valid) exact from any state |
| `OfflineStore.CacheDir.AdvanceOldest` | main/storage/offline_store.c:119-138 | after the minimum is gone the index names the new minimum, by the successor probe or by a scan |
| `OfflineStore.CacheDir.RemoveOldest` | main/storage/offline_store.c:140-154 | evicts exactly the record with the least id and keeps the index exact; a failed unlink changes no file |
| `OfflineStore.CacheDir.WriteRecord` | main/storage/offline_store.c:156-171 | the file appears under its id if and only if the write succeeds; other files stay |
| `OfflineStore.CacheDir.ReadRecord` | main/storage/offline_store.c:173-193 | absent, unreadable, or the content of the file under the id |
| `OfflineStore.CacheDir.WriteNoted` | main/storage/offline_store.c:261-268 | the index stays exact if and only if the id was new to the directory (or the write failed) |
| `OfflineStore.CacheDir.RewriteAfterEviction` | main/storage/offline_store.c:293-305 | the index stays exact if and only if nothing was written, or the directory was emptied, or the id is new and above the remaining minimum |
| `OfflineStore.CacheDir.Unlink` | main/storage/offline_store.c:355-372 | removes that one record and keeps the index exact |
| `OfflineStore.Store.Init` | main/storage/offline_store.c:195-248 | boot builds an exact index of both media and prunes flash to 512 oldest-first; it fails only when an empty cache without space cannot be rebuilt |
| `OfflineStore.Store.PruneFlash` | main/storage/offline_store.c:231-237 | the pruning loop deletes least ids until 512 are left or an unlink fails, counting each |
| `OfflineStore.Store.Put` | main/storage/offline_store.c:250-309 | the put refines an index-free queue that scans, and the index stays exact if and only if the stated freshness condition holds |
| `OfflineStore.Store.PutElsewhere` | main/storage/offline_store.c:273-306 | card, else flash over its oldest record; one loss counted when both fail |
| `OfflineStore.Store.PutOnCard` | main/storage/offline_store.c:273-292 | at 512 records the oldest goes first; a failed write evicts once more and retries |
| `OfflineStore.Store.PutOverOldest` | main/storage/offline_store.c:293-306 | flash loses its oldest record to the new one, and counts it |
| `OfflineStore.Store.PeekOldest` | main/storage/offline_store.c:311-348 | with an exact index: the readable record under the least id over both media in reach, flash first on a tie; with any index: a record that cannot be read makes the index exact again |
| `OfflineStore.Store.Remove` | main/storage/offline_store.c:350-374 | deletes the id on both media as the unlinks allow, keeps the index exact, and succeeds if and only if a file went |
| `OfflineStore.Store.Count` | main/storage/offline_store.c:376-382 | the number of records in reach |
| `OfflineStore.PutConserves` | main/storage/offline_store.c:250-309 | one put turns into exactly one more stored record or one more counted loss, whatever it evicted |
| `OfflineStore.RemoveConserves` | main/storage/offline_store.c:350-374 | a removal deletes the id on each medium in reach whose unlink succeeds and nothing else, changes no loss count, and succeeds if and only if it deleted a file |
| `OfflineStore.InitConserves` | main/storage/offline_store.c:231-237 | boot turns each pruned record into one counted loss |
| `OfflineStore.StaleOldestExample` | main/storage/offline_store.c:293-305 | counterexample: putting 7 over {5, 9} by the rewrite branch leaves an index that points at 9 |
| `StoreCapacity.PutWithinCapacity` | main/storage/offline_store.c:250-309 | no put takes flash above 512 records; it takes the card above 512 if and only if the card is full, its eviction fails and its write succeeds |
| `StoreCapacity.PutLandsIff` | main/storage/offline_store.c:250-309 | where a new record lands, and when nothing is lost for it, as exact conditions on counts, space and I/O |
| `StoreCapacity.PeekIs` | main/storage/offline_store.c:311-348 | the peek is the least id in reach, from flash if it is there, with the content of its file |
| `StoreCapacity.PeekAbsentIff` | main/storage/offline_store.c:311-348 | nothing is found if and only if nothing is in reach |
| `StoreCapacity.PrunedIff` | main/storage/offline_store.c:231-237 | boot brings flash to 512 records if and only if every unlink that takes succeeds, and never below |
| `StoreCapacity.RunWithinCapacity` | main/storage/offline_store.c:231-309 | whole runs with boots: flash stays within 512 records or what it began with; the card too, but for one record for each put that overfilled it |
| `UifReplay.FirstFree` | main/mqtt_comm/mqtt_handler.c:769-772 | the first slot that is not active |
| `UifReplay.FirstCarrying` | main/mqtt_comm/mqtt_handler.c:356-363 | the first active slot with the message id |
| `UifReplay.MqttTracker.PublishTracked` | main/mqtt_comm/mqtt_handler.c:760-783 | claims the first free slot for the token; a refused publish and a full table leave the table as it was |
| `UifReplay.MqttTracker.OnPublished` | main/mqtt_comm/mqtt_handler.c:351-367 | releases the first active slot with the message id and yields its token |
| `UifReplay.Replayer.ReplayAll` | main/uif/uif_persistence.c:92-156 | the whole decision chain: waiting, timeout, back-off, peek, send; the store is not changed |
| `UifReplay.Replayer.Send` | main/uif/uif_persistence.c:110-155 | ThingsCloud and custom-broker branches of one attempt |
| `UifReplay.Replayer.ReplayAcknowledged` | main/uif/uif_persistence.c:25-36 | removes the acknowledged id and goes idle only if it is the outstanding one |
| `UifReplay.Replayer.BrokerAck` | main/mqtt_comm/mqtt_handler.c:351-367 | an acknowledgement removes the record whose token its slot carries, and no other |
| `UifReplay.Replayer.CloudResponse` | main/uif/uif_persistence.c:172-204 | ignored unless outstanding on that topic; otherwise accept, final rejection or retry |
| `UifReplay.Replayer.Rejected` | main/uif/uif_persistence.c:183-201 | codes 402, 406 and 413 remove the record and wait 1 s; every other code keeps it and waits 60 s |
| `UifReplay.Replayer.ConnectionLost` | main/uif/uif_persistence.c:160-165 | nothing is outstanding afterwards; the retry time is kept |
| `ReplayRuns.RunInv` | main/uif/uif_persistence.c:25-204 | over every run: an active slot carries the token of the message published under its id, and that message is the stored record |
| `ReplayRuns.RunKeepsIndex` | main/storage/offline_store.c:250-309 | over every run with increasing ids, no put meets the branch that leaves the index stale |
| `ReplayRuns.StepAccounted` | main/storage/offline_store.c:231-374 | one step: stored + removed + counted losses grow by one for a put and not at all otherwise |
| `ReplayRuns.RunConserves` | main/storage/offline_store.c:231-374 | whole runs with boots: what is accounted for grows by exactly the number of puts |
| `ReplayRuns.ReleaseNeedsFreeSlot` | main/mqtt_comm/mqtt_handler.c:769-782 | a publish and its acknowledgement release the record if and only if a slot was free |
| `ReplayRuns.PeekReturnsThePut` | main/storage/offline_store.c:250-348 | over runs with increasing ids a peek that names an id returns the topic and payload that were put under it, whatever lies between |
| `ReplayRuns.StepCause` | main/uif/uif_persistence.c:25-204 | one step: a record leaves the store only for one of the listed causes |
| `ReplayRuns.RecordLeavesOnlyForCause` | main/uif/uif_persistence.c:25-204 | whole runs: a record is still there, or it was acknowledged by its own message (topic and payload included), accepted or finally rejected while outstanding, or counted as lost while older than all that its medium kept |
| `ReplayRuns.ReleasedInOrder` | main/uif/uif_persistence.c:25-204 | the ids that replay removes over a run with restarts are strictly increasing, if each lies below what is on a card out of sight when it is released |
| `ReplayRuns.SlotsConserved` | main/mqtt_comm/mqtt_handler.c:351-367 | over runs without a boot: slots taken = taken before + publishes that got one - acknowledgements that found theirs |
| `ReplayRuns.HiddenCardBreaksOrder` | main/storage/offline_store.c:242-246 | counterexample: a boot that does not see the card releases 2, by its acknowledgement from the custom broker, before 1 |
| `ReplayRuns.ReleaseAboveHiddenBreaks` | main/uif/uif_persistence.c:25-204 | the converse: after any other release a boot with the card, one publish to the custom broker and its acknowledgement break the order, if the oldest record can be read |
| `ReplayRuns.AnswerHitsIff` | main/uif/uif_persistence.c:172-196 | an answer to record r removes r or nothing if and only if it takes no effect on its topic, or r is the record outstanding |
| `ReplayRuns.AnswerHitsOwnIff` | main/uif/uif_persistence.c:92-204 | whole runs: the answer to the last publish of r removes r or nothing if and only if nothing was sent since, or r was published in the mode that the last send was noted in |
| `ReplayRuns.CounterPutsFresh` | main/tcm/tcm_context.c:129-166 | records numbered by the sequence counter, over any history with restarts and power cuts in which NVS works, are put in increasing order and under fresh ids, whichever of the numbers are put at all |
| `ReplayRuns.FullTableWaitsForAcks` | main/mqtt_comm/mqtt_handler.c:769-782 | from a full table publishes get no more slots than acknowledgements came |
| `ReplayRuns.PublishAndAck` | main/mqtt_comm/mqtt_handler.c:351-367 | custom broker: with nothing tracked, a publish and its acknowledgement remove the oldest record |
| `ReplayRuns.OwnAnswerTakesEffectIff` | main/uif/uif_persistence.c:110-182 | whole runs: the answer to the outstanding record, on the topic its publish chose, takes effect if and only if the report mode changed between the two reads of it |
| `ReplayRuns.OwnAnswersIgnored` | main/uif/uif_persistence.c:119-182 | whole runs in a fixed report mode: the answer on the topic that records are published on changes nothing |
| `ReplayRuns.GatewayModeReleasesNothing` | main/mqtt_comm/mqtt_handler.c:538-555 | whole runs in gateway mode: replay releases no record, whatever the platform answers on the topics subscribed |
| `ReplayRuns.SubdeviceModeAnswersIff` | main/uif/uif_persistence.c:119-182 | whole runs in sub-device mode: an answer takes effect if and only if a record is outstanding and the answer came on the topic of the status messages |
| `ReplayRuns.StatusAnswerReleases` | main/thingscloud/thingscloud_command.c:266-278 | counterexample: in sub-device mode an accepted status message removes the record just sent, uncounted |
| `ReplayRuns.ReleasesWereClaimed` | main/mqtt_comm/mqtt_handler.c:769-782 | whole runs: replay releases at most one record for each slot claimed or taken at the start and for each platform answer that takes effect |
| `ReplayTiming.NothingSentInHold` | main/uif/uif_persistence.c:97-135 | whole runs: after a timeout at t no replay sends anything before t + 60000, after a refused send before t + 30000, after a rejection before t + 60000 or t + 1000; until then a replay changes nothing, short of a boot |
| `ReplayTiming.SendsAfterHold` | main/uif/uif_persistence.c:97-204 | and the first replay from then on (after an acceptance, at once) sends the oldest record if and only if there is a connection, the record can be read and it is taken |
| `ReplayTiming.WaitsForAnswer` | main/uif/uif_persistence.c:97-105 | whole runs: after a send to the platform at t, and until something answers it, a replay changes nothing before t + 20000, and the first connected one from then on gives up |
| `ReplayTiming.ReplayOutcome` | main/uif/uif_persistence.c:92-156 | success if and only if it waits in time, has nothing to send or sends; each failure by its own status, with nothing left on its way |
| `ReplayTiming.TakesIff` | main/mqtt_comm/mqtt_handler.c:760-783 | the custom broker takes a record if and only if its client does and fewer than 32 publishes are unacknowledged |
| `TcmSequence.SequenceCounter.NextSequence` | main/tcm/tcm_context.c:139-149 | issues the next id, reserving first; a cut in between leaves the reservation only |
| `TcmSequence.FewIdsSkipped` | main/tcm/tcm_context.c:139-166 | at most 32 ids are lost for each restart |
| `TcmSequence.FailedWriteRepeatsIds` | main/tcm/tcm_context.c:129-137 | counterexample: an ignored NVS failure makes id 1 appear twice |
| `TcmSequence.FirstBootCovered` | main/tcm/tcm_context.c:151-166 | a first boot starts in the covered state |
| `TcmSequence.LastIdIsNotEnough` | main/tcm/tcm_context.c:139-166 | counterexample: reaching the last id only, id 33 is handed out twice |
| `TcmSequence.SequenceCounter.TcmInit` | main/tcm/tcm_context.c:151-166 | restart resumes from the stored reservation, or from 0 if it cannot be read, and reserves 32 more |
| `TcmSequence.StrictlyIncreasing` | main/tcm/tcm_context.c:129-166 | ids are strictly increasing over every history of calls, restarts and power cuts, if NVS reads and writes succeed |
| `TcmSequence.AscendingIff` | main/tcm/tcm_context.c:129-166 | over any history, failed NVS reads and writes included, ids are strictly increasing if and only if at each restart followed by a call the reservation loaded reaches the highest id so far |
| `TcmSequence.FailedReadRepeatsIds` | main/tcm/tcm_context.c:151-166 | counterexample: with every write good, a failed read at boot makes id 1 appear twice |
| `AmmEntry.NormalizedSettles` | main/amm/amm_mapping.c:168-193 | normalising is idempotent, keeps the key, and its window covers the value; it exceeds 64 registers if and only if the value does |
| `AmmEntry.FixUpSettles` | main/amm/amm_mapping.c:1532-1546 | the repairs of a load settle in one go and touch neither key, activity nor version |
| `AmmEntry.AddSettledIff` | main/amm/amm_mapping.c:440-447 | a reboot changes a mapping just added if and only if its scale was 0 |
| `AmmEntry.LegalUntouched` | main/amm/amm_mapping.c:168-193 | an entry with every field set and in range is loaded as it is, and added or imported as it is but for activity and version |
| `AmmEntry.RepairedFields` | main/amm/amm_mapping.c:1532-1546 | field by field: what a load leaves alone and what it stores instead of an unset or illegal value |
| `AmmEntry.PointRegistersIs` | main/amm/amm_mapping.c:159-185 | a text takes one register for two characters, a number 1, 2 or 4 |
| `AmmEntry.ImportedAsLoaded` | main/amm/amm_mapping.c:750-764 | an import stores what a load would make of the entry, under its own version |
| `AmmMapping.WrittenAt` | main/amm/amm_mapping.c:1244-1255 | after the write loop blob j is slot j, and the others are as before |
| `AmmMapping.ErasedAt` | main/amm/amm_mapping.c:1257-1263 | after the erase loop exactly the blobs beyond the new table are gone |
| `AmmMapping.AmmTable.SaveEntry` | main/amm/amm_mapping.c:1172-1200 | fails only if an NVS call does; on success count, schema and that one blob are stored and nothing else changed |
| `AmmMapping.AmmTable.SaveTable` | main/amm/amm_mapping.c:1207-1273 | on success the header and every blob describe the given table, blobs beyond it are gone; the rollback image is never touched |
| `AmmMapping.AmmTable.SaveRollback` | main/amm/amm_mapping.c:1275-1316 | snapshot for 1 to 256 slots, image erased above, nothing for an empty table; only rollback keys change |
| `AmmMapping.AmmTable.AddMapping` | main/amm/amm_mapping.c:371-458 | whole new state on success, which is sure if NVS works and a slot is free; in every case RAM is unchanged or fully updated; a full table is refused unchanged |
| `AmmMapping.AmmTable.RemoveMapping` | main/amm/amm_mapping.c:489-512 | not found if and only if no active entry is at the point; otherwise one slot becomes a tombstone, surely if NVS works |
| `AmmMapping.AmmTable.ClearMappings` | main/amm/amm_mapping.c:546-590 | on success, sure if NVS works, table and NVS header are empty; on any failure RAM is unchanged |
| `AmmMapping.AmmTable.SetPollIntervalAll` | main/amm/amm_mapping.c:1098-1119 | refused if and only if out of 100 to 3600000; on success every active entry and NVS carry the interval |
| `AmmMapping.AmmTable.Rollback` | main/amm/amm_mapping.c:1331-1368 | succeeds with a usable image if NVS works; without one nothing changes |
| `AmmMapping.AmmTable.Load` | main/amm/amm_mapping.c:1378-1551 | succeeds if and only if schema 7, a count in range and all blobs are there; the table is then the stored one repaired |
| `AmmImport.CheckConsistent` | main/amm/amm_mapping.c:697-712 | accepts if and only if keys and semantic names identify each other over all pairs |
| `AmmImport.ContainsDevice` | main/amm/amm_mapping.c:630-641 | found if and only if an entry of the batch names the device |
| `AmmImport.KeepCurrent` | main/amm/amm_mapping.c:736-748 | copies exactly the active entries that are not replaced, in order |
| `AmmImport.Prepare` | main/amm/amm_mapping.c:759-784 | versions, repairs, and overlays the first USER entry with the key |
| `AmmImport.Merge` | main/amm/amm_mapping.c:786-800 | replaces the staged entry with the key, else appends, else refuses for space |
| `AmmImport.Stage` | main/amm/amm_mapping.c:736-802 | the staged table, or the first error of the batch |
| `AmmImport.ImportMappings` | main/amm/amm_mapping.c:691-827 | on success the whole new state; on every failure RAM table, count and model version are unchanged; each error has its cause, and with NVS and memory working only the batch decides |
| `AmmImport.Replace` | main/amm/amm_mapping.c:736-817 | nothing is published unless staging and saving both succeed |
| `AmmImport.BatchKeys` | main/amm/amm_mapping.c:759-760 | stored entries keep their keys, and entry i gets model version previous + 1 + i |
| `AmmContents.KeptLookup` | main/amm/amm_mapping.c:736-748 | by key: the kept part is the old table without the replaced devices, keys distinct |
| `AmmContents.MergedLookup` | main/amm/amm_mapping.c:786-800 | by key: a merge sets one key and leaves the others |
| `AmmContents.StagingLookup` | main/amm/amm_mapping.c:750-802 | by key: of equal keys in the batch the last wins |
| `AmmContents.BatchEntry` | main/amm/amm_mapping.c:759-784 | an imported entry is the repaired one, with the old semantics if the table held a USER entry under its key |
| `AmmContents.ImportContents` | main/amm/amm_mapping.c:691-827 | import = (old actives minus replaced devices) overridden by the batch, keys distinct, no tombstones |
| `AmmContents.UserEditSurvivesIff` | main/amm/amm_mapping.c:736-784 | a user edit survives an import if and only if the batch has its key or spares its device; its semantics are then unchanged |
| `AmmContents.ImportFitsIff` | main/amm/amm_mapping.c:793-800 | a well-formed batch is refused for space if and only if the keys to be held outnumber the slots |
| `AmmContents.AddContents` | main/amm/amm_mapping.c:371-458 | by key: an add sets one key and leaves the others; keys stay distinct |
| `AmmContents.RemoveContents` | main/amm/amm_mapping.c:489-512 | by key: a remove drops the first entry at the point, whatever its function code, and leaves the others |
| `AmmContents.MalformedRefused` | main/amm/amm_mapping.c:750-757 | a batch with an entry without unit, read function code or names is never imported; it is an invalid argument unless the table is full before |
| `AmmContents.KeptInOrder` | main/amm/amm_mapping.c:727-747 | the entries that an import keeps stay in their order |
| `AmmContents.MergedPlaces` | main/amm/amm_mapping.c:780-800 | an imported entry takes the place of the one with its key, or the end |
| `AmmRuns.OpMirrors` | main/amm/amm_mapping.c:371-590 | every successful operation keeps blob i equal to slot i: saving one slot is as good as saving all |
| `AmmRuns.LoadRebuilds` | main/amm/amm_mapping.c:1378-1551 | a load rebuilds the table in RAM, each entry repaired, and the poll interval |
| `AmmRuns.RunKeepsInv` | main/amm/amm_mapping.c:371-827 | over runs with reboots: active keys distinct, NVS in step with RAM, under schema 7 |
| `AmmRuns.RunReloads` | main/amm/amm_mapping.c:1378-1551 | a reboot at any point of a run rebuilds the table of that point |
| `AmmRuns.RunMirrors` | main/amm/amm_mapping.c:1172-1273 | over runs of operations incremental saving equals full saving exactly |
| `AmmRuns.FirstBootInv` | main/amm/amm_mapping.c:333-345 | the state of a first boot satisfies the invariant |
| `AmmRuns.RollbackUndoes` | main/amm/amm_mapping.c:1275-1368 | after any mutation of 1 to 256 slots a rollback restores every slot except the version stamp, which is above all before; the default poll interval stays |
| `AmmRuns.RollbackAvailableIff` | main/amm/amm_mapping.c:1275-1316 | a rollback is possible if and only if the changed table had 1 to 256 slots, or was empty and an older image was there |
| `AmmRuns.RollbackTwice` | main/amm/amm_mapping.c:1331-1368 | a second rollback restores the same slots again |
| `AmmLife.SparedStays` | main/amm/amm_mapping.c:371-775 | an operation that is not about a key leaves its entry as it was, a load but for its repairs |
| `AmmLife.LegalEntryStays` | main/amm/amm_mapping.c:1378-1551 | whole runs: a legal entry that no operation is about is found as it was after any number of reboots |
| `AmmLife.OwnIntervalStays` | main/amm/amm_mapping.c:1532-1538 | whole runs: any entry that no operation is about keeps a poll interval of its own |
| `AmmLife.AddedStays` | main/amm/amm_mapping.c:440-449 | whole runs: a legal mapping, once added, is what every later state holds under its key, but for its version |
| `AmmLife.RunVersions` | main/amm/amm_mapping.c:441-1549 | whole runs with reboots: the model version is never behind the version of an entry |
| `AmmLife.AddFitsIff` | main/amm/amm_mapping.c:396-440 | an add is refused if and only if its key is new, no removed entry can be reused and the table is full; the table grows only then |
| `AmmLife.SetPollContents` | main/amm/amm_mapping.c:1098-1119 | every entry gets the interval under one new version and keeps the rest |
| `AmmLife.RemoveIff` | main/amm/amm_mapping.c:489-512 | a removal is possible if and only if an active entry is on that device and register, whatever its function code, and the first of those goes |
| `AmmLife.ImportedNamesDistinct` | main/amm/amm_mapping.c:697-712 | after a consistent import into an empty table a name leads to one entry only |
| `AmmLife.ImportErases` | main/amm/amm_mapping.c:1257-1263 | an import leaves no blob of the slots that the table has lost |
| `AmmLife.RollbackCounts` | main/amm/amm_mapping.c:1331-1368 | a rollback restores as many slots as its image was counted to have, blank where it has fewer |
| `LongDivision.FoldIsRemainder` | main/modbus/modbus_access.c:79-90 | any register that shifts right by one bit and mixes in the generator computes the long division of the message |
| `SlotChecksum.Crc32Bytes` | main/config/runtime_config.c:244-254 | the loop computes the CRC-32 fold |
| `SlotChecksum.Crc32IsRemainder` | main/config/runtime_config.c:244-254 | the checksum is the complement of the remainder of the preset message on division by the generator of CRC-32, given by its exponents |
| `RuntimeConfig.DamagedSlotRefused` | main/config/runtime_config.c:402-413 | a slot whose image differs in two neighbouring bytes is refused |
| `RuntimeConfig.ConfigStore.SaveLocked` | main/config/runtime_config.c:343-400 | new state and outcome for every point at which a save can fail or lose power |
| `RuntimeConfig.ConfigStore.Set` | main/config/runtime_config.c:552-563 | an invalid configuration changes nothing; a failed save restores RAM |
| `RuntimeConfig.ConfigStore.Init` | main/config/runtime_config.c:415-526 | boot loads the valid slot with the highest generation, A on a tie, else saves defaults |
| `RuntimeConfig.CompletedSaveLoadsIff` | main/config/runtime_config.c:343-443 | a completed save is loaded by the next boot if and only if the other slot is invalid, older, or equal with the target first |
| `RuntimeConfig.StepRefinesCell` | main/config/runtime_config.c:343-443 | each save or crash acts on one atomic cell: the old configuration or the new one |
| `RuntimeConfig.CrashRefinement` | main/config/runtime_config.c:343-443 | for every history of saves and crashes with atomic writes the device refines an atomic cell, and a boot agrees with it |
| `RuntimeConfig.FirstBootSettles` | main/config/runtime_config.c:415-526 | an empty NVS ends with the defaults saved and the flag on the newest slot |
| `RuntimeConfig.CompletedSaveFlags` | main/config/runtime_config.c:383-392 | a completed save leaves the flag naming the newest slot |
| `RuntimeConfig.TearingUnselected` | main/config/runtime_config.c:343-366 | when the flag names the newest slot, tearing the other one changes nothing that a boot loads |
| `RuntimeConfig.TornWriteSafeIff` | main/config/runtime_config.c:343-443 | a torn write preserves the current configuration if and only if the flag names the newest slot or both slots agree |
| `RuntimeConfig.TornAfterInterruptedSave` | main/config/runtime_config.c:343-443 | counterexample: after an interrupted save the next torn write loses the current configuration |
| `RuntimeConfig.FailedSaveLoadsIff` | main/config/runtime_config.c:366-400 | a save that reports failure is not loaded by the next boot if and only if it failed before the slot was written |
| `RuntimeConfig.AcknowledgedSaveLost` | main/config/runtime_config.c:343-443 | counterexample: after a failed flag commit an acknowledged save ties on generation and the boot loads the rejected one |
| `RuntimeConfig.SetAcceptsIff` | main/config/runtime_config.c:312-341 | an undisturbed change is accepted if and only if every setting is in its range; a refused one changes neither NVS nor RAM |
| `RuntimeConfig.AlwaysLegal` | main/config/runtime_config.c:405-450 | whole histories, torn writes and any NVS content included: the configuration in use is legal |
| `RuntimeConfig.SavedGeneration` | main/config/runtime_config.c:353-353 | generations count from 1 and skip 0 when they wrap |
| `RuntimeConfig.WrapLosesSave` | main/config/runtime_config.c:353-436 | counterexample: a save at the last generation reports success and the next boot loads the configuration before it |
| `RuntimeConfig.IllegalNeverSaved` | main/config/runtime_config.c:343-400 | however a save ends, an illegal configuration is not acknowledged |
| `RuntimeConfig.FlagAfterSaveIff` | main/config/runtime_config.c:343-400 | after a change of a settled device the flag names the newest slot if and only if it did not end between storing the slot and storing the flag |
| `ModbusCrc.ModbusRtuCrc16` | main/modbus/modbus_access.c:79-90 | the bit loop computes the remainder of the message, preset to ones, on division by the generator of CRC-16 |
| `ModbusCrc.AppendRtuCrc` | main/modbus/modbus_access.c:92-98 | the frame is the payload and its checksum, low byte first, and its residue is zero |
| `ModbusCrc.ResidueIff` | main/modbus/modbus_access.c:79-98 | a frame has residue zero if and only if its last two bytes are the checksum, low byte first (section 6.2.2 of MODBUS over Serial Line V1.02) |
| `ModbusCrc.BurstChangesCrc` | main/modbus/modbus_access.c:79-90 | any change within two neighbouring bytes changes the checksum |
| `ModbusCrc.Crc16IsRemainder` | main/modbus/modbus_access.c:79-90 | the checksum is the remainder of the bit-reflected message, preset to ones, on division by x^16 + x^15 + x^2 + 1 (section 6.2.2 of MODBUS over Serial Line V1.02) |
| `ModbusCodec.ReverseWords` | main/modbus/modbus_access.c:744-755 | in place: the first count words are reversed, the rest stay |
| `ModbusCodec.SwapAllBytes` | main/modbus/modbus_access.c:756-758 | in place: both bytes of each word are exchanged |
| `ModbusCodec.ArrangeInPlace` | main/services/control_service.c:87-97 | in place: word and byte order of the given order |
| `ModbusCodec.OrderedBits` | main/modbus/modbus_access.c:744-762 | the number formed by the rearranged words |
| `ModbusCodec.ConvertToNumber` | main/modbus/modbus_access.c:764-798 | decoding of every type and order |
| `ModbusCodec.StoreWords` | main/modbus/modbus_access.c:856-868 | the words of a number, rearranged |
| `ModbusCodec.EncodeNumber` | main/modbus/modbus_access.c:821-869 | encoding of every type and order; unused words are zero |
| `ModbusCodec.ArrangedTwice` | main/modbus/modbus_access.c:744-762 | rearranging twice gives back the words, in all four orders |
| `ModbusCodec.DecodeUndoesEncode` | main/modbus/modbus_access.c:764-869 | decode(encode(v)) = v for every integer type and in-range value; 16-bit types in ABCD and CDAB |
| `ModbusCodec.SixteenBitRoundTripIff` | main/modbus/modbus_access.c:830-840 | under BADC and DCBA a 16-bit register survives if and only if its bytes are equal |
| `ModbusCodec.BcdRoundTripIff` | main/modbus/modbus_access.c:764-855 | a BCD register survives if and only if its nibbles are digits |
| `ModbusCodec.BcdValueRoundTrip` | main/modbus/modbus_access.c:764-855 | BCD values 0 to 9999 survive |
| `ModbusCodec.FloatRoundTrip` | main/modbus/modbus_access.c:764-869 | float words survive as far as the platform conversion is invertible |
| `ModbusCodec.NearestIff` | main/modbus/modbus_access.c:764-787 | a 64-bit integer survives its conversion to a double if and only if it has at most 53 significant bits |
| `ModbusCodec.SmallIsDouble` | main/modbus/modbus_access.c:764-787 | every integer up to 2^53 survives its conversion to a double |
| `ModbusCodec.EncodeUndoesDecodeIff` | main/modbus/modbus_access.c:764-869 | encode(decode(words)) = words if and only if the integer survives the double: always for 16-bit (ABCD, CDAB) and 32-bit types, up to 53 significant bits for 64; beyond the range of llround the platform decides |
| `ModbusCodec.FirstIntegerLost` | main/modbus/modbus_access.c:781-787 | counterexample: UINT64 words 0x0020 0 0 1 do not come back |
| `CodecValues.DecodedValue` | main/modbus/modbus_access.c:744-798 | each type reads the number of its bytes on the wire in the given order: two's complement, nearest double, float pattern, bit |
| `CodecValues.BcdReads` | main/modbus/modbus_access.c:791-793 | four hexadecimal digits are read as decimal ones |
| `CodecValues.RoundedIsNearest` | main/modbus/modbus_access.c:821-855 | values are rounded to the nearest integer, halves away from zero |
| `CodecValues.EncodedValue` | main/modbus/modbus_access.c:821-869 | each type is written as the number of its bytes on the wire in the given order, integers modulo their size; a single register high byte first in every order |
| `CodecValues.BcdWrites` | main/modbus/modbus_access.c:833-839 | four decimal digits are written as hexadecimal ones |
| `CodecValues.UlpScale` | main/modbus/modbus_access.c:781-787 | the spacing of doubles is the power of two that scales the magnitude into 2^52 to 2^53, or 1 |
| `CodecValues.DoubleIsNearest` | main/modbus/modbus_access.c:781-787 | a 64-bit integer becomes the nearest multiple of the spacing, at a tie the even one |
| `ModbusPdu.PackFlags` | main/modbus/modbus_access.c:276-279 | in place: coil i becomes bit i mod 8 of byte i div 8, unused bits zero |
| `ModbusPdu.PackedBit` | main/modbus/modbus_access.c:276-279 | bit j of byte k is coil 8k + j |
| `ModbusPdu.BuildWriteRequest` | main/modbus/modbus_access.c:263-295 | built if and only if the quantity is legal, and then at most 253 bytes |
| `ModbusPdu.WordsRoundTrip` | main/modbus/modbus_access.c:257-287 | registers read from their bytes are the registers stored |
| `ModbusPdu.CoilsRoundTrip` | main/modbus/modbus_tcp_server.c:108-118 | coils unpacked from the packed bytes are the coils stored |
| `ModbusPdu.StoreWordBytes` | main/modbus/modbus_access.c:287-287 | in place: registers as high byte, low byte; the bytes around them stay |
| `ModbusPdu.WriteRequestIff` | main/modbus/modbus_access.c:263-295 | a request exists if and only if it is for one coil or register, up to 1968 coils or up to 123 registers |
| `ModbusServer.ReadBits` | main/modbus/modbus_tcp_server.c:176-191 | coil response of the values, or exception 2 when a point is missing |
| `ModbusServer.ReadWords` | main/modbus/modbus_tcp_server.c:192-203 | register response of the values, or exception 2 when a point is missing |
| `ModbusServer.WriteMultipleCoils` | main/modbus/modbus_tcp_server.c:108-118 | one write for each coil until the first refusal |
| `ModbusServer.CollectWords` | main/modbus/modbus_tcp_server.c:120-127 | the registers of the request bytes |
| `ModbusServer.ProcessPdu` | main/modbus/modbus_tcp_server.c:165-233 | the response and the writes issued, for every request; 2 to 253 bytes |
| `ModbusServer.ResponseLength` | main/modbus/modbus_tcp_server.c:165-233 | every response has 2 to 253 bytes and is an exception if and only if it has 2 (section 7 of the MODBUS Application Protocol Specification V1.1b3) |
| `ModbusServer.CoilsWrittenInOrder` | main/modbus/modbus_tcp_server.c:108-118 | the coils before the first refused one are written, in order and with the values asked for, and its code is returned; all of them if and only if the write succeeds |
| `ModbusServer.WriteExchange` | main/modbus/modbus_access.c:263-295 | for every request the client can build, what it asked to write is what the server writes, and it sees success if and only if there was something and all of it was written |
| `ModbusServer.ReadExchange` | main/modbus/modbus_access.c:236-262 | for every request the client recovers exactly the values of the server, or an error if and only if the quantity is illegal or a point is unreadable (sections 6.1 to 6.4 of that specification) |
| `ModbusServer.RefusedUnwritten` | main/modbus/modbus_tcp_server.c:165-233 | unknown function codes get exception 1, short or malformed requests and illegal quantities exception 3, and nothing is written |
| `ModbusServer.ReadRefusedIff` | main/modbus/modbus_tcp_server.c:64-203 | a legal read gets exception 2 if and only if one of its points cannot be read |
| `ModbusServer.SingleServed` | main/modbus/modbus_tcp_server.c:205-210 | a five-byte single write asks for one coil, on for FF00 only, or one register, and is echoed if and only if the control path takes it |
| `ModbusServer.ReadAcceptedIff` | main/modbus/modbus_access.c:236-262 | the client takes a read response if and only if function code, byte count and length are those asked for |
| `ModbusServer.WriteAcceptedIff` | main/modbus/modbus_access.c:263-310 | the client takes a write response if and only if it is five bytes under the function code |
| `ControlForward.ControlPath.EncodeInto` | main/services/control_service.c:46-99 | the words of an engineering value after inverse scaling |
| `ControlForward.ControlPath.WritePointNow` | main/services/control_service.c:111-165 | the decision chain, and what it adds to the southbound log |
| `ControlForward.ControlPath.WriteMultipleRegisters` | main/modbus/modbus_tcp_server.c:120-155 | exception code and southbound writes of a block |
| `ControlForward.PointRoundTrip` | main/services/control_service.c:46-99 | with a non-zero scale, scaling and offset cancel |
| `ControlForward.ZeroScaleSendsZero` | main/services/control_service.c:48-50 | with a zero scale the encoding of zero is sent, whatever was received |
| `ControlForward.PointAt` | main/modbus/modbus_tcp_server.c:129-141 | an accepted point starts at the offset by raw address or logical number, is writable and fits; otherwise exception 2 or 3 |
| `ControlForward.AddressForwardedIff` | main/modbus/modbus_access.c:871-886 | the southbound register is the offset if and only if the mapping has it as raw address below 40001 or as logical number without wrap |
| `ControlForward.TransparentPointIff` | main/modbus/modbus_tcp_server.c:142-145 | an integer point sends the words it received if and only if its integer survives the double |
| `ControlForward.PointForwardedIff` | main/modbus/modbus_tcp_server.c:142-151 | an accepted point goes on with its own words to its own register if and only if lookup by its names leads to a mapping that has that register and re-encodes the words |
| `ControlForward.IntegerPointPassesIff` | main/services/control_service.c:111-165 | for an integer point that its names lead back to: if and only if it owns the register and its integer survives the double |
| `ControlForward.ForwardUnchangedIff` | main/modbus/modbus_tcp_server.c:129-155 | a successful block write adds one write for each point, and these carry the words to their own registers if and only if every point is passed on |
| `ControlForward.BlockWriteForwardedIff` | main/modbus/modbus_tcp_server.c:120-155 | a successful FC16 request sends exactly the received words, each point to its own register, if and only if the gateway passes on every point it visits; any address, any table |
| `ControlForward.BlockWriteForwarded` | main/modbus/modbus_tcp_server.c:120-155 | so it does for integer points that own their register, are found by their names and fit a double, whatever else the unit has |
| `ControlForward.TwinNamesMisdirect` | main/services/control_service.c:111-134 | counterexample: with two points of one name a successful write to the second changes the register of the first |
| `ControlForward.BlockWriteOnlyAdds` | main/modbus/modbus_tcp_server.c:129-155 | however a block write ends, the southbound log has only grown, by writes the bus took |
| `ControlForward.FindMapping` | main/modbus/modbus_tcp_server.c:47-62 | the mapping found covers the offset as given or as a logical number of the function code, and the word index lies inside it |
| `ControlForward.WriteOkIff` | main/services/control_service.c:111-165 | a write by name succeeds if and only if the first mapping of the name is writable, has the value in its range and a type that can be encoded, and the bus takes it; else nothing is sent, and the first failure names the status |
| `ControlForward.NotFoundIff` | main/services/control_service.c:131-134 | not found if and only if no mapping has the name |
| `ControlForward.BlockWriteOnlyPermitted` | main/services/control_service.c:134-140 | however a block write ends, each write it added comes from a point whose named mapping is writable and has the value in its range |
| `ControlForward.ControlPath.WriteSingle` | main/modbus/modbus_tcp_server.c:89-106 | exception code and southbound log of a single write |
| `PointAddresses.FoundIff` | main/modbus/modbus_tcp_server.c:47-62 | an offset is found as a raw address or else as the logical number of its table, with the word at its distance from the start; not found if and only if no mapping has either |
| `PointAddresses.PointCodes` | main/modbus/modbus_tcp_server.c:129-141 | how a block write rates each point: exception 2, 3 or accepted |
| `PointAddresses.BlockCode` | main/modbus/modbus_tcp_server.c:129-155 | the code of a block write is that of the first point rejected, or 4 if an earlier one could not be sent |
| `PointAddresses.WrittenWherePolledIff` | main/modbus/modbus_access.c:871-886 | a holding register is written where it is polled; a coil if and only if its address is 0 or above 10000, else the next coil is written |
| `PointAddresses.SingleWriteCodes` | main/modbus/modbus_tcp_server.c:89-106 | a single write gets 2 if and only if no writable point starts at the offset, 4 if and only if the control path refuses the value |
| `PointAddresses.SingleRegisterPasses` | main/modbus/modbus_tcp_server.c:89-106 | a single write to a 16-bit point found by its own name sends the word as it came, in every byte order |
| `PointAddresses.SingleBcdIff` | main/modbus/modbus_tcp_server.c:100-105 | one to a BCD point does if and only if the word is at most 9 |
| `WriteThrough.ClientWriteArrivesIff` | main/modbus/modbus_access.c:263-295 | end to end: when the client of an FC16 write sees success, the southbound writes carry exactly its words if and only if the gateway passes on every point |
| `ReadThrough.StatePool.Update` | main/tcm/tcm_state_pool.c:40-59 | replaces the state of that name, else appends, else overwrites the first of the oldest; in place, one loop |
| `ReadThrough.StatePool.Get` | main/tcm/tcm_state_pool.c:70-88 | the state under a name, or none |
| `ReadThrough.StatePool.ReadWord` | main/modbus/modbus_tcp_server.c:64-87 | the word at an offset, or none where the server answers with exception 2 |
| `ReadThrough.UpdatedLookup` | main/tcm/tcm_state_pool.c:40-59 | after an update every name shows what it showed before, but for the updated one and, in a full pool that meets a new name, the oldest |
| `ReadThrough.PoolShowsLastOrNothing` | main/tcm/tcm_state_pool.c:40-88 | over any sequence of polls a pool of any size shows, under every name, the last state stored under it or nothing |
| `ReadThrough.PoolHoldsLast` | main/scheduler/scheduler.c:226-373 | over any sequence of polls a pool with a slot for each mapping shows, under every name, the last state stored under it |
| `ReadThrough.WordRefusedIff` | main/modbus/modbus_tcp_server.c:64-87 | a register is refused if and only if no mapping covers it, its point was never built or its last update was a failed poll, or it is text |
| `ReadThrough.ClientReadsBackIff` | main/modbus/modbus_tcp_server.c:64-87 | end to end: a client that reads whole integer points (FC3, FC4) gets exactly the words last read from them southbound if and only if every point survives: equal bytes or an order that keeps them for 16 bits, the double for 64 |
| `ReadThrough.CoilReadsBackIff` | main/modbus/modbus_tcp_server.c:77-80 | an off coil reads back if and only if its offset is zero, an on coil if and only if scale and offset do not cancel |
| `ReadThrough.StoredIff` | main/scheduler/scheduler.c:331-373 | what a poll stores, under whose names, and when it stores nothing |
| `ReadThrough.FailedPollRefuses` | main/scheduler/scheduler.c:230-257 | after a failed poll its point is refused until a later context is stored |
| `PollScheduler.PollTask.PollOnce` | main/scheduler/scheduler.c:131-172 | picks the due mapping polled longest ago, then by priority, then by position, and stamps it; none if none is due |
| `PollScheduler.NextIsUnique` | main/scheduler/scheduler.c:147-167 | the pick is unique |
| `PollScheduler.Waits` | main/scheduler/scheduler.c:147-172 | a due mapping is picked after at most as many other picks as there are mappings polled no later than it |
| `PollScheduler.BoundedWaiting` | main/scheduler/scheduler.c:147-172 | a mapping whose own interval (or the default) has passed is among the next n picks of n mappings, whatever priorities and intervals |
| `PollScheduler.NobodyTwice` | main/scheduler/scheduler.c:147-172 | while a due mapping waits nobody else is picked twice |
| `PollScheduler.IntervalKept` | main/scheduler/scheduler.c:131-172 | two polls of a mapping are at least its own interval apart, or the default if it has none |
| `PollScheduler.PickIsFirst` | main/scheduler/scheduler.c:147-167 | among the mappings whose interval has passed the pick is one polled longest ago, then of the highest priority, then the first |
| `PollScheduler.ModelChangeForgets` | main/scheduler/scheduler.c:131-152 | a change of the model makes everything due whose interval has passed since boot |
| `RateLimiter.PublishGuard.Refill` | main/thingscloud/thingscloud_adapter.c:73-88 | whole tokens for whole periods, phase kept |
| `RateLimiter.PublishGuard.Allow` | main/thingscloud/thingscloud_adapter.c:90-102 | a grant takes a token; a block or suspension refuses |
| `RateLimiter.GrantSpacing` | main/thingscloud/thingscloud_adapter.c:67-100 | grants i and j are more than (j - i - 1) periods apart |
| `RateLimiter.SpacingIsNotTheRefillPeriod` | main/thingscloud/thingscloud_adapter.c:73-88 | counterexample: two grants 1 ms apart |
| `RateLimiter.RejectionBlocks` | main/thingscloud/thingscloud_adapter.c:819-830 | after 403 no grant for 60 s; after 413 none until the guard is cleared |
| `RateLimiter.BlockedGrantsNothing` | main/thingscloud/thingscloud_adapter.c:90-102 | no grant while blocked, over every run |
| `RateLimiter.SuspendedGrantsNothing` | main/thingscloud/thingscloud_adapter.c:90-102 | no grant while suspended, over every run |
| `RateLimiter.RateBound` | main/thingscloud/thingscloud_adapter.c:67-100 | over any history a closed window of length L holds at most 1 + ceil(L / 30000) grants, and one more for each reconnect or guard reset in it |
| `RateLimiter.GrantsAgain` | main/thingscloud/thingscloud_adapter.c:73-102 | after a grant the attempts of the next 30 seconds at the latest bring another |
| `RateLimiter.GrantsAfterBlock` | main/thingscloud/thingscloud_adapter.c:90-102 | after a 403 the attempts of the next 60 seconds bring a grant, and none before |
| `RateLimiter.PhaseKept` | main/thingscloud/thingscloud_adapter.c:73-88 | the refill time advances by whole periods to the last one passed |
| `RateLimiter.ReconnectGrants` | main/thingscloud/thingscloud_adapter.c:851-864 | after a reconnect the next attempt is granted unless blocked or suspended |
| `RateLimiter.OtherAnswersIgnored` | main/thingscloud/thingscloud_adapter.c:819-830 | answers other than 403 and 413 change nothing |
| `GreedyCut.GreedyStaysAhead` | main/thingscloud/thingscloud_adapter.c:297-423 | for any size that a part never exceeds: after any prefix the greedy cut has used no more segments than any other cut, and at a tie its open segment is no longer |
| `GreedyCut.FewestSegments` | main/thingscloud/thingscloud_adapter.c:297-423 | so no cut into segments that fit has fewer |
| `PacketBuilder.PublishGatewayChunked` | main/thingscloud/thingscloud_adapter.c:378-423 | the packets attempted, and success if and only if all were taken |
| `PacketBuilder.CaseTwinsLose` | main/thingscloud/thingscloud_adapter.c:393-407 | counterexample: of two keys that differ in case the first is lost and the second sent twice |
| `PacketBuilder.DeleteUndoesAdd` | main/thingscloud/thingscloud_adapter.c:393-407 | with keys distinct ignoring case, taking the last property out restores the packet |
| `PacketBuilder.DistinctClashFree` | main/thingscloud/thingscloud_adapter.c:378-423 | keys distinct ignoring case never clash |
| `PacketBuilder.PacketsCutInput` | main/thingscloud/thingscloud_adapter.c:378-423 | without a clash the packets cut the input into consecutive non-empty segments, each at most 1024 bytes if every property fits |
| `PacketBuilder.LosslessIff` | main/thingscloud/thingscloud_adapter.c:378-423 | for keys distinct as strings the packets are the input in order if and only if no property overflows an object that holds its key in another case |
| `PacketBuilder.FewestPackets` | main/thingscloud/thingscloud_adapter.c:378-423 | without a clash no cut into packets that fit has fewer packets |
| `PacketBuilder.LoopIsGreedy` | main/thingscloud/thingscloud_adapter.c:378-423 | without a clash the loop of the packetiser is the greedy cut |
| `PacketBuilder.ObjectLengthIs` | main/thingscloud/thingscloud_adapter.c:393-407 | the length compared with 1024 is that of the text of the object |
| `PacketBuilder.SameNameIff` | main/thingscloud/thingscloud_adapter.c:308-330 | names are the same if and only if they agree but for the case of ASCII letters |
| `SubdevicePackets.PublishSubdeviceAggregated` | main/thingscloud/thingscloud_adapter.c:297-366 | the packets attempted and the status |
| `SubdevicePackets.GroupedContents` | main/thingscloud/thingscloud_adapter.c:306-315 | grouping neither loses nor repeats a property, and each group holds one device |
| `SubdevicePackets.TakeOutUndoesAdd` | main/thingscloud/thingscloud_adapter.c:308-330 | taking a property out restores the packet, its device group included, unless the group holds its key in some case |
| `SubdevicePackets.DeliveredCutsInput` | main/thingscloud/thingscloud_adapter.c:297-366 | without a clash a delivered batch was sent as consecutive segments, grouped by device, each at most 1024 bytes |
| `SubdevicePackets.LosslessIff` | main/thingscloud/thingscloud_adapter.c:297-366 | for points distinct as strings a delivered batch was sent as consecutive segments if and only if no property overflows an object whose device holds its key in another case |
| `SubdevicePackets.AddLength` | main/thingscloud/thingscloud_adapter.c:308-318 | a property adds its own text and a comma to the packet, or a new device object as well |
| `SubdevicePackets.LoopIsGreedy` | main/thingscloud/thingscloud_adapter.c:297-366 | without a clash the loop of the packetiser is the greedy cut |
| `SubdevicePackets.FewestPackets` | main/thingscloud/thingscloud_adapter.c:297-366 | without a clash no cut into objects that fit has fewer packets than a delivered batch |
| `SubdevicePackets.LoopOfOne` | main/thingscloud/thingscloud_adapter.c:297-366 | a buffer that fits one object is collected in one object and nothing is published on the way |
| `SubdevicePackets.DeliveredTaken` | main/thingscloud/thingscloud_adapter.c:297-366 | every packet of a delivered batch was taken |
| `SubdevicePackets.LargeTakesTwo` | main/thingscloud/thingscloud_adapter.c:297-366 | a buffer that does not fit one object is delivered in two packets at least |
| `SubdevicePackets.RootLengthIs` | main/thingscloud/thingscloud_adapter.c:306-330 | the length compared with 1024 is that of the text of the root object, device names included |
| `SubdevicePackets.StatusIs` | main/thingscloud/thingscloud_adapter.c:297-366 | a call fails to publish if and only if a packet was refused, is delivered only if all were taken, and reports too big only if a property does not fit alone |
| `TelemetryFlush.SecondPacketThrottled` | main/thingscloud/thingscloud_adapter.c:90-125 | a second grant before the next refill is refused |
| `TelemetryFlush.OnePacketIff` | main/thingscloud/thingscloud_adapter.c:378-423 | one packet suffices if and only if the whole buffer fits in it |
| `TelemetryFlush.SmallBufferDeliveredIff` | main/thingscloud/thingscloud_adapter.c:737-764 | a buffer of one packet is delivered if and only if the limiter grants |
| `TelemetryFlush.LargeBufferNeverDelivered` | main/thingscloud/thingscloud_adapter.c:737-764 | a gateway buffer that needs two packets is not delivered by a flush whose attempts fall into one refill period |
| `TelemetryFlush.LargeSubdeviceNeverDelivered` | main/thingscloud/thingscloud_adapter.c:693-764 | a sub-device buffer too large for one object is not delivered by a flush whose attempts fall into one refill period |
| `TelemetryFlush.SmallSubdeviceDeliveredIff` | main/thingscloud/thingscloud_adapter.c:693-764 | a sub-device buffer that fits one object is sent as that object, and is delivered if and only if the limiter grants |
| `TelemetryFlush.FlushesStartAlike` | main/thingscloud/thingscloud_adapter.c:297-366 | two flushes of one sub-device buffer attempt the same first packet, whatever becomes of it |

## Left out

- Tasks, mutexes and interleavings inside a critical section. In particular an acknowledgement
  that arrives between the publish and the claim of its slot is not modelled.
- A failed write that leaves a partial record file, and directory entries whose names the
  gateway did not write.
- 32-bit wrap of sequence ids and model versions. The wrap of configuration generations is in
  the model; the histories assume room below it.
- Schema migrations of the registry (`Load` answers other schemas with an error) and of the
  configuration.
- A card that is inserted or removed between boots; the model fixes it at boot.
- IEEE rounding of scaled values: a 64-bit integer is rounded to a double, but scale and offset
  are applied in exact reals; what llround gives beyond 64 bits is a parameter.
- JSON text: a packet is its properties, with its length. Allocation failures are modelled only
  where the import allocates its staging table.
- MBAP framing, sockets, the serial line, and the two RTU request builders.
- Crash atomicity of registry saves: the code writes the count before the blobs and the model
  claims nothing about NVS after a failed save.
- `amm_update_mapping`, which does not check keys and has no caller; `amm_remove_mapping`, the
  same loop with a shorter key; `uif_destroy`.
- Discovery, automation rules, web, OTA and logging.
- The queue between a poll and the context built from it: `ReadThrough` takes pool updates in the
  order in which they reach the pool, so a failed poll can stand before an older good reading.
- A mapping table that changes between polls, which leaves states under old names in the pool.
- OfflineStore.CacheDir.WriteRecord: a failed write leaves no file, as above.
- OfflineStore.Store.Init: starts once flash is mounted and its directory exists.
- OfflineStore.Store.Put: starts from an exact index; RunKeepsIndex shows that runs with
  increasing ids keep it exact.
- OfflineStore.Store.Remove: likewise.
- AmmMapping.AmmTable.Load: answers older schemas with an error and opens NVS without failing.
- RuntimeConfig.ConfigStore.Init: knows the current schema only.
- ControlForward.ControlPath.WritePointNow: has no write source and no values that are not
  finite; the northbound server is one source, and always permitted.
- ModbusCodec.ConvertToNumber: returns the double as a real.
- ModbusCodec.FloatRoundTrip: rests on the supplied conversion between patterns and numbers.
- ReplayRuns.ReleasedInOrder: needs ids put in increasing order. CounterPutsFresh gives it for
  records put in the order of their numbers; in custom-broker mode two tasks put records, and
  the code does not order them.
- ReplayRuns.RecordLeavesOnlyForCause: assumes that the broker client does not reuse a message
  id while a tracked publish under it is unacknowledged.
- TcmSequence.StrictlyIncreasing: assumes that NVS reads and writes succeed; AscendingIff does not.
- ReplayRuns.CounterPutsFresh: likewise.
- PointAddresses.WrittenWherePolledIff: for a mapping whose object type is its function code and whose
  read window starts at its own register, as the repairs make both when they are not given.
- TelemetryFlush.LargeBufferNeverDelivered: the two publish attempts fall into one refill period.
- TelemetryFlush.LargeSubdeviceNeverDelivered: likewise.
- SubdevicePackets.FewestPackets: assumes that a device name takes the same room in any case.
- ReadThrough.PoolHoldsLast: the pool has a slot for each mapping, as when the table and the pool
  are both allocated in PSRAM or both outside; PoolShowsLastOrNothing holds for any size.
- ReadThrough.ClientReadsBackIff: the client reads whole integer points; a point is last updated
  under its own names by its own poll.
