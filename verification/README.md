# Plant watering firmware: verified model

This project models the firmware of a plant-watering system in Dafny and proves what the
firmware relies on. One gateway ("main") waters plants through several battery-powered
workers. The two kinds of device exchange short encrypted BLE broadcasts; each can be
updated over the air; the gateway keeps its settings in flash and its clock on a timer.

Each part of the firmware appears twice. A specification gives it as functions or as a step
system. Beside it stands code in the firmware's own form, with globals as fields, buffers as
arrays and loops as loops, which is proved to take exactly those steps. The results are then
proved about the specification, for all inputs and all runs.

* **Text** (`Utf8`): the in-place truncation that all names go through, against RFC 3629.
* **Command protocol** (`Tlv`, `MessageIds`, `TxSpec`, `TxSoundness`, `TxResults`,
  `TxAnswers`, `TxSender`, `GatewayBoots`, `WorkerControl`, `WorkerTask`, `CommandLink`,
  `LinkGuarantees`, `StatusMessage`): message bodies, message identifiers, the sender with
  its queue and retries, the gateway over restarts, the worker that acknowledges, drops
  duplicates and executes, and both joined by a channel that keeps order but may lose or
  repeat packets.
* **Watering** (`PotMask`, `Valve`, `WaterCommand`, `BatchSpec`, `AutoBatch`,
  `WateringHistory`, `ManualPump`): pot masks and compacted duration lists, the valves they
  open, the automatic batch with its pump, the watering history over batches, clock
  corrections and edits, and the manual pump with its timer.
* **Firmware updates** (`FirmwarePackage`, `MainOtaSpec`, `MainOtaChunks`,
  `MainOtaReasons`, `MainOtaSoundness`, `MainOta`, `WorkerOtaSpec`, `WorkerOta`,
  `WorkerTransfer`): the package header, the gateway's streaming upload, the worker's update
  service, and the gateway's transfer loop run against that service.
* **Clock** (`ClockMath`, `Cooldown`, `Generations`, `Ntp`, `ClockManager`): epoch and local
  time arithmetic, watering cooldowns across clock corrections, and the generation numbers
  that keep late network time from being applied.
* **Settings** (`Nvs`, `SettingsSpec`, `SettingsLoading`, `SettingsRoundTrip`, `SettingsTable`,
  `SettingsStore`, `SaveGenerations`): the worker table, the writer that puts only changed
  keys, the clamping loader, and the generations that tell whether memory is saved.

`Bytes`, `Arith` and `Seqs` hold the number formats and the few facts of arithmetic and of
sequences that the rest leans on.

Foreign libraries (BLE, flash, the update partitions, SHA-256, the key-value store, the
radio's timing) are abstract. A library call that can fail is given by a function that says
when it does, so every result holds for all patterns of failure; runs over several updates
take a new such function for each gateway upload and for each worker event. Tasks that run in parallel
are either steps of a step system, or scripts of what the others do at each point where a
task can be preempted; every result holds for all of them.

Where the firmware lacks a property one might expect, the model shows it, and says exactly
when the property holds:

* A gateway upload ends in the same verdict however it is cut into chunks, but the reported
  reason can depend on the chunks (`MainOtaReasons.StreamReasonAgreesIffStable`).
* A worker's byte count can pass the declared image size when a sender splits the image
  prefix over several chunks; the commit then refuses the image (`WorkerOtaSpec.OverrunIff`).
* An empty gateway name is lost on reload when no name was ever stored
  (`SettingsRoundTrip.SaveReloads`).
* A clock correction between reading the clock and using the reading can make a pot due too
  early: when the reading is recorded as a completion (`Cooldown.RecordIsHonestIff`), and
  when pots are judged by it (`Cooldown.ReadingIsHonestIff`).
* A pairing reset forgets the last command, so a repeated packet is executed again
  (`WorkerControl.ResetForgets`); a command executed twice always had a reset in between
  (`LinkGuarantees.AtMostOnce`).
* A network time callback before the first request or cancel would be applied with no
  attempt pending, and only such a one (`Ntp.UnrequestedIsAppliedIff`).

## Model

| member | source | states |
|---|---|---|
| `Bytes.BeU32Inverse` | main/src/bluetooth_common.cpp:480-524 | Reading a 32-bit field inverts writing it |
| `Bytes.BeU32Unique` | main/src/bluetooth_common.cpp:480-524 | Every four bytes are the writing of exactly one value, the one that is read |
| `Bytes.BeU16Inverse` | main/src/bluetooth_common.cpp:475-514 | Reading a 16-bit field inverts writing it |
| `Bytes.BeU16Unique` | main/src/bluetooth_common.cpp:475-514 | Every two bytes are the writing of exactly one value, the one that is read |
| `Bytes.BeOrder` | main/src/bluetooth_common.cpp:475-486 | Written fields read as numbers in positional notation, highest byte first |
| `Utf8.CopyTruncated` | main/src/utility.cpp:63-89 | The copy loop leaves exactly the specified truncation in the buffer, NUL-terminated, and returns its length; a missing source gives the empty string and a missing or zero-size buffer nothing |
| `Utf8.SequenceLengthIsRfc3629` | main/src/utility.cpp:18-47 | The lead-byte and continuation-range tests accept exactly the encodings of scalar values in the table of RFC 3629, section 3: no overlong form, no surrogate, nothing past U+10FFFF |
| `Utf8.TruncatedIsWellFormed` | main/src/utility.cpp:63-89 | For every input the buffer holds well-formed UTF-8 made of the input's own bytes |
| `Utf8.TruncatedIdentity` | main/src/utility.cpp:63-89 | The copy is the identity exactly on well-formed strings that fit |
| `Utf8.TruncatedIdempotent` | main/src/utility.cpp:63-89 | Copying a copied name again changes nothing, so stored names survive a reload |
| `Utf8.TruncatedIsLongestPrefix` | main/src/utility.cpp:63-89 | On well-formed input the result is the longest whole-character prefix that fits |
| `Utf8.TruncatedOnAnyInput` | main/src/utility.cpp:73-85 | On any input the result is the longest well-formed prefix, within the limit, of the input with its undecodable bytes dropped |
| `Tlv.BodyBuilder.Append` | main/src/bluetooth_common.cpp:455-469 | A field is appended, header and value, exactly when it fits the 64 bytes; otherwise the body is unchanged |
| `Tlv.AppendAllIsEncode` | main/src/bluetooth_common.cpp:455-486 | A whole field list is appended exactly when its encoding fits, and the body is then extended by that encoding |
| `Tlv.ParseInvertsEncode` | main/src/bluetooth_common.cpp:460-498 | Iterating over an encoded field list gives the list back |
| `Tlv.EncodeInvertsParse` | main/src/bluetooth_common.cpp:460-498 | Re-encoding what was iterated gives the same bytes |
| `Tlv.ParsesIffConcatenation` | main/src/bluetooth_common.cpp:286-299 | Bytes can be iterated to the end exactly when they are a concatenation of whole fields |
| `Tlv.FindFirstField` | main/src/bluetooth_common.cpp:286-299 | The search succeeds exactly on concatenations of whole fields, and then returns the leftmost field of the type, or that there is none |
| `Tlv.ReadRequiredU16Array` | main/src/bluetooth_common.cpp:551-565 | The array reader fills the output with the big-endian values of the leftmost field, and refuses odd lengths and too many values |
| `Tlv.ReadOptionalU32` | main/src/bluetooth_common.cpp:526-539 | An absent field is accepted as 0, a present one must be four bytes |
| `Tlv.ReadersInvertWriters` | main/src/bluetooth_common.cpp:471-565 | A field written before any other of its type reads back as its payload, whatever surrounds it |
| `Tlv.BeArrayInverse` | main/src/bluetooth_common.cpp:551-565 | The sixteen-bit array reader inverts the big-endian writer |
| `Tlv.ReadRequiredU8` | main/src/bluetooth_common.cpp:500-506 | The reader answers exactly when the leftmost field of the type has one byte, with that byte |
| `Tlv.ReadRequiredU16` | main/src/bluetooth_common.cpp:508-514 | The reader answers exactly when the leftmost field of the type has two bytes, with their big-endian value |
| `Tlv.ReadRequiredU32` | main/src/bluetooth_common.cpp:516-524 | The reader answers exactly when the leftmost field of the type has four bytes, with their big-endian value |
| `MessageIds.IdAllocator.Allocate` | main/src/bluetooth_common.cpp:94-104 | Each call hands out the upcoming identifier, both parts nonzero, and steps to the next across both wrap-arounds |
| `MessageIds.SameIdIffPeriodsApart` | main/src/bluetooth_common.cpp:94-104 | Two allocations carry the same identifier exactly when they are a multiple of (2^64-1)(2^32-1) apart |
| `MessageIds.AllocationsDistinct` | main/src/bluetooth_common.cpp:94-104 | Within one such period all identifiers differ, and none equals the zero of an unset last identifier |
| `MessageIds.NoneSharedIff` | main/src/bluetooth_common.cpp:94-104 | Two allocators share no identifier exactly when each stops before it comes to where the other began |
| `TxResults.CommandQueuedAsGiven` | main/src/bluetooth_common.cpp:326-371 | A command goes to the back of the queue with its own identifier, at most ten retries and all else as given; with six jobs waiting only its number is spent |
| `TxResults.AckQueuedAtFront` | main/src/bluetooth_common.cpp:373-427 | An acknowledgement goes to the front, ahead of every waiting command, or is refused by a full queue |
| `TxSoundness.QueueShape` | main/src/bluetooth_common.cpp:185-284 | In every interleaving: at most six jobs, acknowledgements before commands; what is received after a peek that saw an acknowledgement is one; gPending is owned by the one command being sent |
| `TxSoundness.CommandsLeaveInOrder` | main/src/bluetooth_common.cpp:277-284 | Commands are taken in the order they were queued |
| `TxSoundness.AnsweredExactlyOnce` | main/src/bluetooth_common.cpp:106-110 | Every accepted call is queued, in hand or answered, exactly one of these and never twice; an idle sender with an empty queue has answered all |
| `TxResults.ResultsAreSound` | main/src/bluetooth_common.cpp:192-275 | A result carries its job's identifier; its status is SENT or ACKED exactly when a transmission started; at most retries + 1 attempts; ACKED only after hearing that identifier acknowledged by the target while the command was in hand |
| `TxResults.StartedIffOnAir` | main/src/bluetooth_common.cpp:221-244 | A command reports a started transmission exactly when a broadcast of it went on the air |
| `TxResults.AirOrder` | main/src/bluetooth_common.cpp:192-284 | Broadcasts follow the order in which commands were taken, and share an identifier exactly when they are attempts of one command |
| `TxAnswers.AckedIffHeard` | main/src/bluetooth_common.cpp:429-449 | In every run gPending is marked acknowledged exactly when an acknowledgement of the command in hand, from its target or for a broadcast from anyone, was heard since it was taken |
| `TxAnswers.CheckSettles` | main/src/bluetooth_common.cpp:246-264 | The look at gPending makes the command ACKED, by whoever acknowledged it last, exactly when such an acknowledgement was heard before it |
| `TxAnswers.HeardMeansAcked` | main/src/bluetooth_common.cpp:246-275 | So a command whose acknowledgement was heard before a look ends ACKED whatever follows, and nothing of it is transmitted again |
| `TxSender.Sender.OtherTask` | main/src/bluetooth_common.cpp:326-449 | Numbering and queueing a command, queueing an acknowledgement at the front, and marking gPending acknowledged are exactly the steps of the system, a full queue included; what those steps mean is stated by `TxResults.CommandQueuedAsGiven`, `TxResults.AckQueuedAtFront` and `TxAnswers.AckedIffHeard` |
| `TxSender.Sender.ProcessUrgentAcks` | main/src/bluetooth_common.cpp:185-190 | The peek-then-receive loop takes only steps of the system under every script of other tasks, and ends with no acknowledgement in front |
| `TxSender.Sender.ProcessCommandJob` | main/src/bluetooth_common.cpp:192-275 | The retry and waiting loops take only steps of the system; a command that does not encode is handed back unsent, any other after it was acknowledged or attempted retries + 1 times |
| `TxSender.Sender.SenderTask` | main/src/bluetooth_common.cpp:277-284 | The sender's loop is a run of the system for any number of rounds, and left alone works off a job each round |
| `TxSender.CodeKeepsRuns` | main/src/bluetooth_common.cpp:185-449 | So the queue shape, the ownership of gPending, the order of commands and the soundness of results hold of the code |
| `TxSender.Sender.ProcessAckJob` | main/src/bluetooth_common.cpp:156-183 | An acknowledgement is transmitted and handed back as one step of the system, encoded or not, whatever others do meanwhile |
| `TxSender.Sender.AwaitAck` | main/src/bluetooth_common.cpp:246-259 | The wait takes only steps of the system; it ends ACKED, with the address of the last acknowledgement that counts, exactly when one was heard before its last look, and otherwise after the full timeout with the transmission still reported as started |
| `WorkerControl.ValidateCommand` | worker/src/bluetooth_worker.cpp:122-139 | A body is accepted exactly when it is a bare probe or update command, a sleep of 1 to 2419200 seconds, or a well-formed water command |
| `WorkerControl.GatewayBodies` | worker/src/bluetooth_worker.cpp:122-139 | Of what the gateway builds, a worker takes probes, update commands, sleeps in range, and water commands that name only pots it has |
| `StatusMessage.StatusRoundTrip` | main/src/bluetooth_main.cpp:118-143 | The gateway reads from a worker's status exactly the battery voltage, version and soil values that the worker put in |
| `StatusMessage.BuildStatus` | worker/src/bluetooth_worker.cpp:380-404 | A status of 1 to 16 pots always fits the body |
| `StatusMessage.ParseStatusBody` | main/src/bluetooth_main.cpp:118-143 | A status is accepted exactly with a voltage, a pot count of 1 to 16, as many soil values, and no malformed version; refused ones leave the output alone |
| `StatusMessage.SleepIsAccepted` | main/src/main.cpp:239-249 | A sleep command for a wake-up within the longest synchronisation interval is always one the worker accepts, for 60 s at least and otherwise less than a second too long |
| `StatusMessage.SleepRoundsUp` | main/src/main.cpp:239-249 | The sleep is the remaining time rounded up to seconds, or exactly a minute when that is less |
| `StatusMessage.StatusExample` | worker/src/bluetooth_worker.cpp:380-404 | One status, byte by byte |
| `WorkerControl.RetryExecutes` | worker/src/bluetooth_worker.cpp:201-221 | One schedule played through, on a worker with nothing queued: the acknowledgement fails, the same packet comes again, and it is executed (`LinkGuarantees.DroppedIffExecuted` is the general result) |
| `WorkerControl.ResetForgets` | worker/src/bluetooth_worker.cpp:367-378 | An illustration of why a reset starts the count anew: a packet repeated after a pairing reset is executed again |
| `WorkerTask.CommandWorker.ParseAdvert` | worker/src/bluetooth_worker.cpp:282-351 | A command packet is queued exactly when it is addressed to this worker, valid, from the paired gateway or the first one, and the queue of four has room |
| `WorkerTask.CommandWorker.ControlRound` | worker/src/bluetooth_worker.cpp:198-263 | A round takes one command, acknowledges it, drops it as a duplicate or executes it, whatever packets arrive before, during and after the acknowledgement, and sleeps exactly for a new sleep command; all the valves ever do is the executed commands, in order |
| `WorkerTask.CommandWorker.IsDuplicate` | worker/src/bluetooth_worker.cpp:141-151 | The check compares with the last identifier and remembers the new one |
| `WorkerTask.CommandWorker.ExecuteCommand` | worker/src/bluetooth_worker.cpp:223-261 | Executing a command moves the valves as its plan says, shuts them for a sleep, and leaves them alone otherwise |
| `WorkerTask.CommandsLeaveShut` | worker/src/bluetooth_worker.cpp:153-190 | After any sequence of commands all valves are shut |
| `WorkerTask.CommandLeavesShut` | worker/src/bluetooth_worker.cpp:223-261 | A watering and a sleep shut all valves, whatever was open before; probes and update commands do not touch them, and only a watering opens any |
| `WorkerTask.CommandWorker.MainMacReset` | worker/src/bluetooth_worker.cpp:367-378 | A pairing reset forgets the gateway and the last identifier and nothing else of what decides on commands |
| `LinkGuarantees.AtMostOnce` | worker/src/bluetooth_worker.cpp:198-221 | With losses, repetitions, deep sleeps and gateway restarts: between two pairing resets commands are executed in sending order, each identifier at most once |
| `LinkGuarantees.ExecutedAsSent` | worker/src/bluetooth_worker.cpp:198-221 | Every executed command was acknowledged first and is exactly what the gateway broadcast to this worker |
| `LinkGuarantees.DroppedIffExecuted` | worker/src/bluetooth_worker.cpp:201-221 | In every run an acknowledged command is dropped exactly when it was executed since the last pairing reset, and executed otherwise; so one whose acknowledgement did not start stays executable on retry |
| `GatewayBoots.AllAirOrder` | main/src/bluetooth_common.cpp:192-308 | Over all boots of the gateway broadcasts follow sending order, and share an identifier exactly when they are attempts of one command |
| `GatewayBoots.DrawnApartIff` | main/src/bluetooth_common.cpp:303-308 | Two boots number no commands alike exactly when their sessions differ and neither numbers so many that it walks into the other's session |
| `LinkGuarantees.AckedMeansAcknowledged` | main/src/bluetooth_common.cpp:431-442 | ACKED for a command to one worker means that this worker validated, dequeued and began to acknowledge that very command, also when acknowledgements of earlier boots are still on their way |
| `WaterCommand.BuildBody` | main/src/watering_manager.cpp:133-170 | A body is built exactly for a nonzero mask with one duration of 1 to 60 s per set bit; it fits 64 bytes and is the mask and duration fields |
| `WaterCommand.ParseWaterCommand` | worker/src/bluetooth_worker.cpp:100-120 | The worker accepts exactly masks within its pots with one duration in range per set bit, and returns them |
| `WaterCommand.ParsedMeans` | worker/src/bluetooth_worker.cpp:100-120 | The accepted bodies field by field: a nonzero mask of pots the worker has, and as many durations of 1 to 60 as it has bits |
| `WaterCommand.WaterExample` | main/src/watering_manager.cpp:153-170 | One watering command, byte by byte |
| `WaterCommand.ParseRecoversRequest` | worker/src/bluetooth_worker.cpp:100-120 | The worker recovers the mask and durations the gateway encoded, or refuses the command exactly when it names a pot the worker lacks |
| `WaterCommand.Execute` | worker/src/bluetooth_worker.cpp:153-190 | Execution hands the durations out by running index: the valve steps are those of the plan, the valves end closed, and the report carries the mask |
| `WaterCommand.OneValveAtATime` | worker/src/bluetooth_worker.cpp:176-185 | At every moment of a plan at most one valve is open |
| `WaterCommand.OpenedInOrder` | worker/src/bluetooth_worker.cpp:176-185 | The valves are opened one after the other in the order of the plan |
| `WaterCommand.PlanTakes` | worker/src/bluetooth_worker.cpp:176-185 | A watering takes the sum of its durations and one pause per pot |
| `WaterCommand.EndToEnd` | main/src/main.cpp:138-150 | From selection to valves: each selected pot is opened exactly once, in ascending order, for its configured seconds, no other pot is, at most one valve is open at any time and none at the end |
| `Valve.Valves.SetMask` | worker/src/valve.cpp:17-28 | The state becomes the masked value, and closing the last open valve blocks battery sampling for five seconds from then |
| `Valve.SamplingOnlyWhenShut` | worker/src/valve.cpp:17-65 | In every interleaving of tasks, each with a clock reading of its own: while the battery is sampled all valves are shut, and at least five seconds have passed since the last writer to shut them read its clock |
| `Valve.SamplingPossibleAgain` | worker/src/valve.cpp:30-65 | And no longer than needed: with the valves shut, a clock reading five seconds after that of the last writer to shut them permits sampling |
| `AutoBatch.Gateway.SelectPots` | main/src/main.cpp:136-150 | The mask holds exactly the due pots that both sides know (`BatchSpec.RequestMeans` says which those are), and the durations are those pots' configured ones in order |
| `AutoBatch.Gateway.CollectRequests` | main/src/main.cpp:115-157 | There is a request for exactly each worker synced in this cycle that has a due pot, in table order |
| `AutoBatch.Gateway.ExecuteWorker` | main/src/watering_manager.cpp:130-221 | A request that passes the checks is sent as one command unless the tank is low; it is completed exactly when it started and the worker's own report of this mask came in during the wait; the wait ends at the first such report, at a low tank, or once the durations and the margin have passed, and no later than one more look |
| `AutoBatch.Gateway.NotifyCompleted` | main/src/watering_manager.cpp:223-236 | Only a report with the awaited worker and mask completes the wait |
| `AutoBatch.Gateway.WaterFreshWorkers` | main/src/main.cpp:115-237 | The pump goes on, and off again, exactly when there is a request and the tank is not low; commands go out only in between, after priming with the tank never low, each right after tank checks that found it not low, for collected requests in order, and for all if the tank stays high; exactly the requests reported back are recorded |
| `AutoBatch.RequestIsSendable` | main/src/watering_manager.cpp:133-151 | Requests of a well-formed table always pass the command checks: one duration in range per mask bit |
| `AutoBatch.RequestWatersDuePots` | main/src/main.cpp:138-150 | A batch's request opens each pot once, for its configured seconds, exactly when both sides know it, its interval has passed or it has no stamp, its sensor is there and its corrected reading is above its threshold |
| `AutoBatch.CommandNamesDryPots` | main/src/main.cpp:115-221 | Every command of a batch, as the worker reads it, is for a worker heard from in this cycle and names exactly that worker's dry pots whose interval has passed |
| `AutoBatch.UnaskedHasNoDryPots` | main/src/main.cpp:115-157 | A worker heard from in this cycle that gets no request has no such pot |
| `AutoBatch.WaitCoversWatering` | main/src/watering_manager.cpp:193-205 | The gateway waits more than four seconds longer for the report than the worker needs to water |
| `BatchSpec.RequestMeans` | main/include/AutoWateringPolicy.h:15-32 | Bit p of a request is set exactly when pot p is known to both sides, has no stamp or one at least its interval ago, reads above 200, and reads above its threshold after correction |
| `BatchSpec.DrierStaysRequested` | main/include/AutoWateringPolicy.h:23-32 | A requested pot still is when it reads drier, its threshold or interval is lower, or more time has passed |
| `BatchSpec.RecordedAt` | main/src/settings.cpp:329-345 | Recording stamps exactly the pots named by a completion of their worker and leaves all else |
| `WateringHistory.NotBeforeInterval` | main/include/AutoWateringPolicy.h:15-47 | Over any ticks, clock corrections, batches and table edits: a requested pot's interval now in force has passed by the clock, and in true time, less one second, since its last recorded completion, if no correction put the reading ahead of the clock or the stamp a second behind it |
| `WateringHistory.UndisturbedBatches` | main/src/main.cpp:115-237 | The same with no further condition when no correction falls between reading the clock and using the reading |
| `WateringHistory.DueAgain` | main/include/AutoWateringPolicy.h:15-21 | The other half: a pot's cooldown is complete at the latest when its interval and one second for each correction since the completion, and one more, have passed in true time |
| `WateringHistory.UnrecordedIsUnset` | main/src/settings.cpp:347-367 | A pot for which nothing was ever recorded has no stamp after any corrections, batches and edits, so its first watering is never put off |
| `WateringHistory.TableRunsPots` | main/src/settings.cpp:329-367 | Every pot of the worker table, across corrections, recordings and edits, behaves as the pot of the cooldown model |
| `WateringHistory.UpdatesEdit` | main/src/settings.cpp:443-499 | Renaming, growing and updating keep the stamps of the pots in use and leave new pots without one |
| `WateringHistory.AddingEdits` | main/src/settings.cpp:398-424 | Adding a worker keeps all stamps and the new pot has none |
| `WateringHistory.RemovingEdits` | main/src/settings.cpp:426-441 | Removing a worker keeps the stamps of all others |
| `ManualPump.PumpStopsInTime` | main/src/webui.cpp:87-179 | A running pump was last switched on by a start with a safe tank and an armed timer, less than that start's configured seconds and one tick ago; and the tank has been unsafe for at most one 100 ms check (or one tick, if longer) |
| `ManualPump.PumpRunsItsTime` | main/src/webui.cpp:87-179 | Conversely, while nobody stops it, the tank stays safe and arming succeeds, a pump stays on until the configured seconds since its last start have passed |
| `ManualPump.StartRunsItsTime` | main/src/webui.cpp:155-179 | A start with a safe tank and an armed timer begins such a time from any state |
| `ManualPump.LateCallbackIsIgnored` | main/src/webui.cpp:87-93 | A timer callback that runs after a stop changes nothing |
| `ManualPump.Controller.PumpOffTimerCallback` | main/src/webui.cpp:87-124 | The pump stays on exactly for a safe tank before the deadline with a timer that can be armed, for the shorter of the remaining time and 100 ms, so the deadline and tank bounds keep holding |
| `ManualPump.Controller.StartManualPump` | main/src/webui.cpp:155-179 | The pump starts exactly when the tank is safe and the timer could be armed, with a deadline of timeout times 1,000,000 microseconds from now; a failed arming leaves it off |
| `ManualPump.Controller.StopManualPump` | main/src/webui.cpp:144-153 | After a stop the manual pump is off, and what every run keeps still holds |
| `FirmwarePackage.ParseHeader` | main/src/firmware_package.cpp:28-59 | The first failing check decides the error, and the output is filled as soon as the magic matches |
| `FirmwarePackage.AcceptsExactlyPackaged` | package_ota.py:92-107 | A header is accepted exactly when it is what the packager writes for fields that pass the checks |
| `FirmwarePackage.AcceptedFields` | main/src/firmware_package.cpp:28-59 | The accepted headers field by field |
| `FirmwarePackage.Layout` | package_ota.py:92-107 | Where the packager puts each field, and in which byte order |
| `FirmwarePackage.VersionPolicy` | main/include/FirmwareVersionPolicy.h:11-35 | A candidate is allowed exactly when it differs from the running version and is not below the floor |
| `MainOtaChunks.ChunkIndependence` | main/src/ota_manager.cpp:268-310 | For every stream and every cut into chunks, with libraries failing anywhere, the upload fails exactly when byte-by-byte feeding does, and otherwise buffers, counters, flash and hash input are the same |
| `MainOtaReasons.StreamReasonAgreesIffStable` | main/src/ota_manager.cpp:178-196 | The error reason is that of byte-by-byte feeding exactly when no chunk, up to the first that fails, overflows the package counter, hides a library fault behind its excess size, or meets a hash fault after an earlier flash fault: a condition on the bytes alone |
| `MainOtaReasons.ChunkFailsIff` | main/src/ota_manager.cpp:268-310 | A chunk fails exactly when it overflows the package counter or the bytes up to its end are not an installable header, an accepted prefix and image bytes within size and faults |
| `MainOtaReasons.NoFaultsNoDifference` | main/src/ota_manager.cpp:178-196 | Without hash and flash faults and counter overflow the reason never depends on the chunks |
| `MainOtaReasons.OversizedChunkHidesFlashFault` | main/src/ota_manager.cpp:178-193 | One byte too many in the same chunk hides a flash fault that byte-by-byte feeding reports |
| `MainOtaReasons.HashFaultHidesFlashFault` | main/src/ota_manager.cpp:178-196 | A hash fault further on in the chunk hides the flash fault that byte-by-byte feeding reports |
| `MainOtaReasons.OverflowIsChunkOnly` | main/src/ota_manager.cpp:268-275 | A chunk that overflows the package counter reports that, which byte-by-byte feeding never does |
| `MainOtaReasons.CornersAreReached` | main/src/ota_manager.cpp:178-196 | Both fault corners are met by concrete uploads from their first byte on |
| `MainOtaSoundness.PackageBytesAccounting` | main/src/ota_manager.cpp:268-310 | Package bytes are the header bytes plus the prefix bytes while the prefix is incomplete, and plus the image bytes after |
| `MainOtaSoundness.EveryRunKeepsInv` | main/src/ota_manager.cpp:247-371 | Over any calls, with libraries answering anew for each upload, the update handle and hash context are open exactly while writing, and READY_TO_REBOOT means flash equals the package bytes after the header, of declared size, hash and allowed version |
| `MainOtaSoundness.BootSelectedOnlyWhenReady` | main/src/ota_manager.cpp:346-351 | The boot partition is selected only by the finishing call that reaches READY_TO_REBOOT |
| `MainOtaSoundness.UploadVerdict` | main/src/ota_manager.cpp:247-360 | A fresh upload is accepted exactly when its bytes are a good package and no library call fails, however they were cut |
| `MainOtaSoundness.HeaderReasonMeans` | main/src/ota_manager.cpp:198-235 | The reason of a refused package header names what is wrong with it, and an accepted one has nothing wrong |
| `MainOtaSoundness.ImageHeaderMeans` | main/src/ota_manager.cpp:136-154 | An image is begun exactly for this chip's magic, 1 to 16 segments and an appended hash, and the reason of a refusal is true |
| `MainOtaSoundness.FinishReasonMeans` | main/src/ota_manager.cpp:312-360 | The reason of a refused completion is true, nothing stays open after it, and nothing is selected by it |
| `MainOta.OtaManager.UploadStart` | main/src/ota_manager.cpp:247-266 | An inactive session is reset and opened unless the heap is too small; an active one is refused untouched |
| `MainOta.OtaManager.UploadConsume` | main/src/ota_manager.cpp:268-310 | The consuming loop over the two buffers is the specified step, and keeps the invariant |
| `MainOta.OtaManager.UploadFinish` | main/src/ota_manager.cpp:312-360 | Success means flash equals the fed bytes after the header, with the declared size and hash and an allowed version |
| `MainOta.OtaManager.UploadAbort` | main/src/ota_manager.cpp:362-365 | An upload is failed by an abort unless it has succeeded |
| `MainOta.OtaManager.ParsePackageHeader` | main/src/ota_manager.cpp:198-235 | A complete header is accepted for the next partition's size, this hardware, an allowed version and room for the prefix, with the first failure as reason |
| `MainOta.OtaManager.BeginImageWrite` | main/src/ota_manager.cpp:136-176 | A complete prefix opens the hash and the update, or fails without leaving either open |
| `MainOta.OtaManager.WriteImageData` | main/src/ota_manager.cpp:178-196 | Data goes to hash and flash together and is counted, unless it exceeds the declared size or a library fails |
| `MainOta.OtaManager.ReleaseFailedUpload` | main/src/ota_manager.cpp:367-371 | Only a failed upload is released for the next one |
| `WorkerOtaSpec.BootOnlyVerifiedImages` | worker/src/worker_ota_service.cpp:254-326 | Whoever sends, and with libraries answering anew at each event, a boot partition is selected only by a commit that finds exactly imageSize bytes with the declared hash under an allowed header |
| `WorkerOtaSpec.HandleKeepsInv` | worker/src/worker_ota_service.cpp:196-326 | Any command, data or disconnect keeps: the update open exactly in WRITING, flash equal to the hashed bytes and to the count, the prefix at its front |
| `WorkerOtaSpec.PrepareErrorMeans` | worker/src/worker_ota_service.cpp:254-295 | The error of a refused preparation is true, and a preparation that is not refused has nothing wrong |
| `WorkerOtaSpec.CommitErrorMeans` | worker/src/worker_ota_service.cpp:297-326 | The error of a refused commit is true; a successful one selects exactly what is in flash |
| `WorkerOtaSpec.OnDataMeans` | worker/src/worker_ota_service.cpp:381-397 | Data is written exactly when its first four bytes, lowest first, are the present count |
| `WorkerOtaSpec.OverrunIff` | worker/src/worker_ota_service.cpp:223-252 | The byte count passes the declared size exactly when a chunk that itself fits completes a prefix begun earlier, the two together exceed the size, and partition, image header, hash and flash take it: all told from the state before |
| `WorkerOtaSpec.OverrunIsRefused` | worker/src/worker_ota_service.cpp:297-301 | After an overrun the commit is refused and nothing is selected |
| `WorkerOtaSpec.OverrunExample` | worker/src/worker_ota_service.cpp:223-252 | The overrun is reachable with 20 and then 24 bytes for a 24-byte image |
| `WorkerOta.WorkerOtaService.WriteBytes` | worker/src/worker_ota_service.cpp:223-252 | The prefix loop and its recursive call are the specified write, on every path |
| `WorkerOta.WorkerOtaService.HandlePrepare` | worker/src/worker_ota_service.cpp:254-295 | Preparing checks length, header, hardware, version, partition and size in that order, after resetting |
| `WorkerOta.WorkerOtaService.HandleCommit` | worker/src/worker_ota_service.cpp:297-326 | Committing checks the count, the hash, the image and the boot selection in that order |
| `WorkerOta.WorkerOtaService.OnDataWrite` | worker/src/worker_ota_service.cpp:381-397 | A chunk is written only at the current count; any other offset fails the update |
| `WorkerOta.WorkerOtaService.OnControlWrite` | worker/src/worker_ota_service.cpp:356-378 | Prepare, commit and abort are told apart by the first byte; anything else fails the update |
| `WorkerOta.WorkerOtaService.OnDisconnected` | worker/src/worker_ota_service.cpp:407-418 | A disconnect fails an update in progress and leaves any other state alone |
| `WorkerTransfer.ChunkStep` | main/src/worker_ota_manager.cpp:315-335 | Each chunk's offset equals the worker's count; the worker takes the whole chunk, flash growing by exactly it, or fails for good |
| `WorkerTransfer.LostStep` | worker/src/worker_ota_service.cpp:389-393 | Once the worker has failed, every later chunk of the loop is refused |
| `WorkerTransfer.Transfer` | main/src/worker_ota_manager.cpp:303-337 | The loop gets to its end exactly when the file is whole and readable and every write answered; then the worker holds exactly the image, or has failed |
| `WorkerTransfer.Negotiate` | main/src/worker_ota_manager.cpp:247-301 | The preparation succeeds exactly when the exchanges are answered and the package suits the worker |
| `WorkerTransfer.PackagedIsStored` | package_ota.py:92-107 | What the packager writes for a worker is a whole stored package with that header and image |
| `WorkerTransfer.Deploy` | main/src/worker_ota_manager.cpp:169-370 | Success is reported exactly when package, file system, window command, connection, worker, libraries and link all allowed it; the worker selects the image exactly when it could, and otherwise selects nothing |
| `ClockMath.TimeOfDayRoundTrip` | main/include/ClockMath.h:43-58 | Setting a time of day picks the one instant that reads as that time on the reference's local day, and fails exactly when that instant is not sane |
| `ClockMath.TimeOfDayIsFloored` | main/include/ClockMath.h:36-41 | The local time of day is the floored remainder, in 0..86399, also for negative local times |
| `ClockMath.SelectInitialEpoch` | main/include/ClockMath.h:24-34 | The clock starts sane, from the later of the sane candidates, or from the default and not restored |
| `ClockMath.RebaseKeepsAge` | main/include/ClockMath.h:60-68 | A rebased timestamp keeps its age unless the new clock does not reach back that far, and stays set |
| `ClockMath.SaneTimes` | main/include/ClockMath.h:5-22 | Sane times are those of the years 2000 to 2099, and network times those from September 2020 on |
| `Cooldown.DriftIsBounded` | main/src/clock_manager.cpp:43-96 | After k corrections the true elapsed time minus the recorded age is in (-1, k+1) seconds, for a stamp recorded neither ahead of the clock nor a second behind, unless rebasing saturated, when every allowed cooldown is complete |
| `Cooldown.CooldownIsHonest` | main/include/AutoWateringPolicy.h:15-21 | A cooldown complete by a reading not ahead of the clock means more than its interval less one second of true time, whatever the clock was set to |
| `Cooldown.CooldownEnds` | main/include/AutoWateringPolicy.h:15-21 | A cooldown is complete at the latest k+1 seconds after its interval of true time |
| `Cooldown.RecordIsHonestIff` | main/src/main.cpp:228-233 | A completion recorded after a clock correction makes the pot due too early for some allowed interval exactly when the correction left the reading a second or more behind and the reading is not older than all intervals |
| `Cooldown.ReadingIsHonestIff` | main/src/main.cpp:373-381 | Judging by a reading finds some pot due too early exactly when a correction left the reading ahead of the clock |
| `Cooldown.SaturationIsHarmless` | main/include/ClockMath.h:64-67 | At a saturating correction the cooldown is complete before and after |
| `Cooldown.SetStaysSet` | main/src/settings.cpp:347-367 | No correction or completion turns a recorded timestamp back to 0 |
| `Cooldown.ApplyCompleted` | main/include/AutoWateringPolicy.h:34-47 | Exactly the pots in the mask are stamped, and the result tells whether anything changed |
| `Cooldown.RebasePots` | main/src/settings.cpp:352-364 | Every pot in use is rebased, the rest untouched, and the result tells whether anything changed |
| `Generations.SameGeneration` | main/src/settings.cpp:59-63 | Two change counts show the same generation exactly when they are a multiple of 2^32-1 apart |
| `Ntp.OneCorrectionPerRequest` | main/src/clock_manager.cpp:64-142 | In every interleaving network corrections never outnumber requests |
| `Ntp.CancelledStaysCancelled` | main/src/clock_manager.cpp:125-142 | After a cancel, a time-out or lost WiFi no network time is applied before a new request, so a time set by hand stays |
| `Ntp.NoneWithoutRequest` | main/src/clock_manager.cpp:178-248 | While no attempt is pending nothing is applied, whatever answers are still on their way |
| `Ntp.AppliedIsCurrent` | main/src/clock_manager.cpp:71-76 | An applied answer was received after the pending request began, unless the generation wrapped while it was held |
| `Ntp.AppliedIff` | main/src/clock_manager.cpp:64-96 | In every run an answer taken is applied exactly when it is plausible and its callback ran during the pending attempt, or before any request or cancel, unless the generation wrapped while it was held |
| `Ntp.AnsweredRequestSetsClock` | main/src/clock_manager.cpp:178-248 | A request on WiFi whose plausible answer is taken before anything else happens sets the clock once and ends the attempt |
| `Ntp.UnrequestedIsAppliedIff` | main/src/clock_manager.cpp:64-119 | With no attempt pending, a plausible answer is applied exactly when its callback ran before the first request or cancel |
| `Ntp.UnrequestedCallbackIsApplied` | main/src/clock_manager.cpp:98-119 | An illustration: a callback right after the start is applied |
| `ClockManager.Manager.ApplyEpochCorrection` | main/src/clock_manager.cpp:64-96 | Applied exactly for a sane epoch whose attempt, if any, is pending and current; the clock then reads it and every timestamp is rebased by the same two readings |
| `ClockManager.Manager.DealWithAnswer` | main/src/clock_manager.cpp:182-195 | A plausible answer that carries generation 0, or the current one of a pending attempt, makes the clock read its epoch, with source NTP, that time saved and every stamp rebased from the old reading to it; any other leaves reading, source, saved time and history alone, an insane one ending only its own attempt |
| `ClockManager.Manager.RequestNtpSync` | main/src/clock_manager.cpp:225-248 | A request needs WiFi, keeps a pending attempt, and otherwise starts one with a new generation and deadline |
| `ClockManager.Manager.SetUserTimeOfDay` | main/src/clock_manager.cpp:269-282 | A time set by hand ends any attempt and makes the clock read that time of day, or changes nothing |
| `ClockManager.Manager.Init` | main/src/clock_manager.cpp:146-176 | The clock starts from the selected epoch, as restored or fallback |
| `ClockManager.Manager.NtpTimeAvailable` | main/src/clock_manager.cpp:98-105 | An answer is stamped with the generation active when it arrives |
| `ClockManager.Manager.TakeNtpCallback` | main/src/clock_manager.cpp:107-119 | An answer is taken once |
| `ClockManager.Manager.CheckDeadline` | main/src/clock_manager.cpp:197-214 | A pending attempt ends exactly when WiFi is gone or its deadline has passed |
| `ClockManager.Manager.CancelNtpAttempt` | main/src/clock_manager.cpp:125-142 | Cancelling ends the attempt, drops a waiting answer and moves on to a new nonzero generation |
| `Nvs.SaveTakes` | main/src/settings.cpp:98-185 | After a save every key that was considered reads back as planned, whether it was put or skipped |
| `SettingsRoundTrip.SaveReloads` | main/src/settings.cpp:98-303 | Saving over any earlier contents and loading again gives the same configuration exactly when the name is nonempty or one was stored; all else always survives |
| `SettingsRoundTrip.WritingAllReloads` | main/src/settings.cpp:98-185 | Skipping unchanged keys is as good as writing all of them, but for that one name |
| `SettingsRoundTrip.LoadedIsOk` | main/src/settings.cpp:188-303 | Whatever the store holds, the loaded configuration is within the ranges that the mutators keep: clamped, named in UTF-8, at most eight workers, no address twice |
| `SettingsLoading.NumbersLoaded` | main/src/settings.cpp:207-226 | Each stored number is loaded as it is, or as the nearest number in range |
| `SettingsLoading.OldTimeIsLocal` | main/src/settings.cpp:227-237 | A time saved before the change to UTC is loaded as the instant whose local reading it is, or as none when that is before 1970 |
| `SettingsLoading.PotsLoaded` | main/src/settings.cpp:255-291 | A worker's stored arrays are loaded into the pots in use, clamped, and its stamps unchanged |
| `SettingsLoading.FactorySettings` | main/src/settings.cpp:188-303 | An empty store loads as the factory settings |
| `SettingsTable.RemovedOk` | main/src/settings.cpp:426-441 | Removing a worker keeps the table fit for saving, and the worker is gone |
| `SettingsTable.RemoveUndoesAdd` | main/src/settings.cpp:398-441 | Adding a worker and removing it again leaves the table as it was |
| `SettingsTable.PotUpdatedOk` | main/src/settings.cpp:443-477 | Updating a pot keeps every range the loader clamps to |
| `SettingsTable.UpdatedFields` | main/src/settings.cpp:457-470 | Field by field: the updated pot has what was given, new pots below it the defaults, every other pot what it had |
| `SettingsTable.NewFields` | main/src/settings.cpp:398-424 | Field by field: a new worker has one pot with the given limits, the default interval and no stamp |
| `SettingsTable.RenamedFields` | main/src/settings.cpp:471-473 | A rename truncates the new name and leaves every pot alone |
| `SettingsStore.Store.WriteSnapshot` | main/src/settings.cpp:98-185 | The writer puts exactly the keys of the configuration whose stored value differs |
| `SettingsStore.Store.LoadSettings` | main/src/settings.cpp:188-303 | The loader fills memory with the clamped contents, skipping slots without an address and repeated addresses, and starts clean |
| `SettingsStore.Store.SaveSettingsNow` | main/src/settings.cpp:697-716 | An undisturbed save stores the configuration and marks it saved; one that cannot open the store changes nothing |
| `SettingsStore.Store.AddWorker` | main/src/settings.cpp:398-424 | A known worker is renamed, an unknown one appended with defaults while there is room; everything else is refused unchanged |
| `SettingsStore.Store.RemoveWorker` | main/src/settings.cpp:426-441 | The shifting loop removes exactly the named worker and keeps the order of the rest |
| `SettingsStore.Store.UpdateWorker` | main/src/settings.cpp:443-477 | An accepted update gives the pot the threshold, duration, interval and truncated name that were passed (the old name if none was), pots below it that were not in use the defaults, and all other pots what they had; without a pot the worker is renamed; out-of-range values change nothing |
| `SettingsStore.Store.EnsurePots` | main/src/settings.cpp:479-499 | A worker that reports more pots gets them with the default limits and no stamp, at most sixteen, and keeps the others as they are; otherwise nothing changes |
| `SettingsStore.Store.ApplySettings` | main/src/settings.cpp:311-319 | Valid settings replace the old ones, invalid ones change nothing |
| `SettingsStore.Store.RecordCompletedBatch` | main/src/settings.cpp:329-345 | Completions stamp their workers in order, and the configuration is marked dirty whenever it changed |
| `SettingsStore.Store.RebaseHistory` | main/src/settings.cpp:347-367 | All workers' histories are rebased, within 32 bits, and the configuration is marked dirty whenever it changed |
| `SettingsStore.Store.SetSavedUtc` | main/src/settings.cpp:321-327 | Only the saved time changes, and the configuration is dirty |
| `SaveGenerations.CleanMeansSaved` | main/src/settings.cpp:697-716 | In every interleaving of changes and saves, equal generations mean that reloading the store gives what is in memory, if fewer than 2^32-1 changes passed since the last marked save; they are equal exactly at whole wraps |
| `SaveGenerations.CredentialsDoNotMatter` | main/src/settings.cpp:619-634 | Stored WiFi credentials never change what is loaded |

## Left out

- BLE advertising, scanning and GATT, WiFi, mDNS and SNTP sockets: events and answers of a library; the broadcast channel is one that keeps order and may lose or repeat.
- AES-GCM, the session key and the packet header around a body: the channel is taken as authentic, SHA-256 as some function on byte sequences.
- HTTP handlers, JSON and pages of `main/src/webui.cpp`: user interface; only the manual pump is modelled.
- `worker/src/bluetooth_common.cpp`: the same logic as the gateway's copy, modelled once.
- The gateway's node table, status requests and duplicate filter: the model has the body of a status, and the worker's duplicate check, which decides what is executed.
- The upload of a worker package into the gateway's file system: only the transfer of the stored file is modelled.
- The manual watering queue: it hands its checked requests to the modelled wateringExecuteWorker in order.
- Factory reset and clearing of WiFi credentials: a reset breaks the save invariant on purpose while it runs.
- Parsing of hexadecimal worker addresses: the mutators take the address, or that there is none.
- The callback before a command's first transmission, which no modelled caller passes.
- Logging, status LEDs, battery percent, brightness, ADC, GPIO and the shift registers behind the valve mask; the soil correction is a parameter.
- Restart after a finished update, and the window in which a worker accepts an update.
- Configuration changes between the two reads of a worker within one batch: a batch sees one table.
- NVS types: the store keeps one value per key, and a put replaces a value of another type.
- AutoBatch.Gateway.WaterFreshWorkers: the clock reading after the batch is a parameter, and nobody edits the table during the batch; corrections between reading and recording are part of `WateringHistory`.
- ClockManager.Manager.SetUserTimeOfDay: nothing interferes between its cancel and its correction; the step system of `Ntp` has them as separate steps.
- TxSender.Sender.SenderTask: the script of other tasks is finite and so are the rounds, since the loop itself never ends.
- LinkGuarantees.AtMostOnce: one gateway, at most (2^64-1)(2^32-1) commands a boot, and sessions drawn apart as `GatewayBoots.DrawnApartIff` says. A worker that loses power is one that sleeps and has its pairing reset.
- SaveGenerations.CleanMeansSaved: assumes that opened stores accept every put, and fewer than 2^32-1 changes during one save.
- WateringHistory.NotBeforeInterval: within one boot; stamps loaded from flash are judged by the clock alone.
- MainOta.OtaManager.UploadStart: an object keeps one set of library answers for its life, and so does `WorkerOta.WorkerOtaService`; runs in which the answers change are those of `MainOtaSoundness.EveryRunKeepsInv` and `WorkerOtaSpec.HandleAll`.
- ManualPump.PumpStopsInTime: timer expiries are served when due, and nothing else drives the pump.
