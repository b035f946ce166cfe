# Over-the-air update task of task_ota.c, modelled in Dafny

This project models the firmware-update task in `task_ota.c`. The task streams a new firmware image over HTTP and checks that it is an upgrade. That means it is newer than the running version and is not the version of the last invalid partition. It then writes the image into the next OTA partition. Only after the image was received completely and `esp_ota_end` accepted it does the task set the boot partition and restart. It runs under a non-blocking mutex so that at most one update runs at a time. Every exit except the restart goes through one shared cleanup.

The project has five modules:

- `Version` models `compare_version`. The semver parser and comparator are an oracle: a parse-success predicate plus an ordering whose sign is all the caller looks at.
- `OtaSpec` models `do_ota` as a deterministic machine over the answers of its collaborators (`Env`).
  - The collaborators are the mutex, the HTTP client, the partition catalogue, the OTA writer and the version decoder of the application descriptor.
  - A run records every collaborator call with an effect beyond the run (`Effect`), in call order. It ends in an `Outcome`: `Failed(reason)` (the `fail` label), `NoUpdate(kind)` (the `no_need_to_update` label) or `Restarted`.
  - `Decide` is the one-time header decision. `Step`/`Loop` are the `while (1)` read loop. `Run` is one whole run.
- `OtaReference` gives a closed form of the read loop that does not iterate (`StreamReference`). `LoopMatchesReference` proves that the loop computes exactly that closed form.
- `OtaProperties` states, over `Run` and for every answer of the collaborators, what the task guarantees:
  - single flight and the cleanup discipline;
  - the one-time version gate and rollback protection;
  - in-order forwarding of the image and the byte counter;
  - commit only after a successful end.
- `OtaTask` is the imperative `do_ota`.
  - The class `OtaTask` owns the static `ota_write_data` buffer (`BUFFSIZE + 1` bytes) and the state of `mutex_ota`.
  - `ReadLoop` is the `while (1)` loop over the locals `image_header_was_checked`, `update_handle` and `binary_file_length`. Each read refills the shared buffer in place.
  - `DoOta` jumps to the shared cleanup with a labelled `break`.
  - `DoOta` is proved to make exactly the calls, and reach exactly the outcome, of `OtaSpec.Run`.

Struct sizes come from ESP-IDF v4. `esp_image_header_t` is 24 bytes, `esp_image_segment_header_t` is 8 and `esp_app_desc_t` is 256. So the descriptor sits at offset 32, and a first chunk must be strictly longer than 288 bytes.

The model keeps these behaviours of the code as they are:

- The header-size test is strict: exactly 288 bytes fail.
- The chunk that triggers the decision is written whole, header included.
- The latch is set before `esp_ota_begin` is called.
- An empty stream whose transfer is reported complete still reaches `esp_ota_end`, with the never-begun handle 0 (`EmptyStreamReachesEndUnbegun`).
- The failure paths after a begin never call `esp_ota_end`. The session is abandoned, not ended (`FailuresAbandonSession`).
- A restarted run does no cleanup, so the mutex stays taken and the client is not released.

## Model

| member | source | states |
|---|---|---|
| Version.CompareVersion | task_ota.c:56-72 | Failure exactly when `current` or `compare` fails to parse; otherwise success with the comparator's ordering of `compare` against `current` |
| Version.CompareWithItselfIsSame | task_ota.c:45-55 | For a comparator that honours its contract, a parsable version compared with itself succeeds and reports "same" (0) |
| Version.CompareVersionSwapped | task_ota.c:45-55 | Swapping the two versions fails exactly as often and turns "older" into "newer" and back, keeping "same" |
| OtaReference.Accepted | task_ota.c:208-211 | The number of leading chunks the writer accepts: all of them are accepted, and the next one, if any, is rejected |
| OtaReference.LatchedLoop | task_ota.c:138-218 | Once the header latch is set, the loop writes every chunk whole, in order, on the current handle, until the writer rejects one; it then leaves with a write failure, or on the stream's end; the byte counter grows by exactly the accepted chunks' lengths |
| OtaReference.LoopMatchesReference | task_ota.c:138-218 | The read loop from its initial locals computes the closed form: decision on the first chunk only, begin on proceed, then the latched writes; also the handle, counter and exit it ends with |
| OtaReference.PayloadsOfWrites | task_ota.c:208 | The writes of a sequence of chunks carry exactly those chunks' bytes, in order |
| OtaReference.DrainedIff | task_ota.c:138-218 | The loop leaves by its `break` exactly when every chunk was begun and accepted and a 0 read followed (vacuously for an empty stream); it never leaves by a restart |
| OtaReference.LoopNeverRestarts | task_ota.c:138-218 | No exit of the read loop restarts the device: the loop ends by its `break` or by a jump to a cleanup label |
| OtaReference.SessionCallsShape | task_ota.c:194-210 | The loop's own calls are empty exactly when no begin is called; otherwise they are a begin, then only writes on the handle begin returned, and a write happens only after a successful begin |
| OtaReference.SessionPayloads | task_ota.c:196-213 | After a successful begin the loop's writes carry the offered chunks' bytes whole and in order; without a successful begin it writes nothing |
| OtaProperties.EarlyExit | task_ota.c:98-130 | A run that does not reach the read loop fails, and makes only the calls up to the failing one plus the cleanup of what it acquired |
| OtaProperties.RunByReference | task_ota.c:80-252 | A run that reaches the read loop makes the connection calls, then the loop's calls of the closed form, then the calls after the loop |
| OtaProperties.LoopCallsOnly | task_ota.c:98-213 | Up to the loop's exit a run calls only take-mutex, client init, open, begin and write |
| OtaProperties.TailByCase | task_ota.c:219-251 | After the loop only cleanup follows, and no restart, unless the loop broke with the whole stream written; if it did, the finishing sequence runs on the session's handle |
| OtaProperties.TailTrace | task_ota.c:219-251 | The calls after the loop, case by case: cleanup alone after a jump or incomplete data; end then cleanup; end, set-boot then cleanup; or end, set-boot, restart |
| OtaProperties.TailOutcome | task_ota.c:219-238 | The run restarts exactly when the whole stream was written and the completeness check, end and set-boot all succeed |
| OtaProperties.TailOutsideSession | task_ota.c:219-251 | No begin and no write happens after the loop |
| OtaProperties.TailStartsWithEnd | task_ota.c:220-226 | After a complete, wholly written stream the first call after the loop is `esp_ota_end` on the session's handle |
| OtaProperties.TailCalls | task_ota.c:219-251 | After the loop only end (on the session's handle), set-boot, restart and cleanup are called; unless the run restarts, the mutex and client are released last |
| OtaProperties.BusyMutexGoesStraightToCleanup | task_ota.c:98-101 | When the mutex cannot be taken without blocking, the run fails with only the take recorded: no client is initialised and the mutex is not given back |
| OtaProperties.ResourcesReleasedExactlyWhenAcquired | task_ota.c:243-250 | Cleanup gives the mutex back exactly when it was taken and cleans up the client exactly when it was initialised, once each, as the run's last calls; a restarted run releases nothing and ends in the restart |
| OtaProperties.HeaderCheckedOnce | task_ota.c:145-196 | `esp_ota_begin` is called at most once; it is called exactly when the run reaches the read loop and the first chunk's decision is to proceed |
| OtaProperties.WritesGatedByBegin | task_ota.c:194-210 | Every `esp_ota_write` comes after the begin call and needs begin to have succeeded; it writes on the handle begin returned |
| OtaProperties.ShortFirstChunkFails | task_ota.c:145-206 | A first chunk of at most 288 bytes fails the run with no begin: the connection calls, then cleanup |
| OtaProperties.RollbackProtection | task_ota.c:165-176 | A new version the comparator reports equal to the last invalid partition's fails the run before any begin |
| OtaProperties.UnparsableVersionFailsBeforeBegin | task_ota.c:165-182 | A parse failure in either comparison (against the last invalid version, or against the running version) fails the run before any begin |
| OtaProperties.NoUpdateWhenNotNewer | task_ota.c:183-189 | A new version the same as or older than the running one takes the no-update exit, of the matching kind, with no begin, write, end or set-boot |
| OtaProperties.NoUpdateOnlyWhenNotNewer | task_ota.c:183-189 | Conversely, the no-update exit is taken only when the header was long enough, the rollback check passed and the new version is not newer; the kind matches "same" or "older"; only connection and cleanup calls are made |
| OtaProperties.ReferenceForwardsInOrder | task_ota.c:196-213 | In the closed form, the writes carry the first k chunks whole and in order; the byte counter sums the accepted ones, which is all k except the rejected last one after a write failure |
| OtaProperties.LoopForwardsChunksInOrder | task_ota.c:196-213 | At the loop's exit the writes made carry the first k chunks whole and in arrival order, starting with the decision chunk; `binary_file_length` is the sum of their lengths, minus the rejected last one after a write failure |
| OtaProperties.EndOnlyWhenWritten | task_ota.c:214-226 | Within a run that reached the loop, an end call implies the whole stream was written and found complete, and the end is on the session's handle |
| OtaProperties.EndSeesWholeImage | task_ota.c:208-226 | A run that calls `esp_ota_end` has written every chunk it read, whole and in order; it ends the begun handle, or handle 0 for an empty stream |
| OtaProperties.BootSetInLoop | task_ota.c:214-238 | Within a run that reached the loop, set-boot implies a wholly written, complete stream and a successful end, and comes right after the end call; restart happens exactly when set-boot was called and succeeded |
| OtaProperties.BootSetOnlyAfterSuccessfulEnd | task_ota.c:214-238 | `esp_ota_set_boot_partition` is called only after a 0 read ended the fully written stream, the completeness check passed and `esp_ota_end` succeeded, right after that end; restart is requested exactly when set-boot succeeded |
| OtaProperties.CommitIff | task_ota.c:98-238 | The run sets the boot partition and restarts exactly when it took the mutex, initialised and opened the client, wrote the whole stream, and the completeness check, end and set-boot all succeeded |
| OtaProperties.FailuresAbandonSession | task_ota.c:196-224 | A begin failure, write failure, read error or incomplete transfer ends the run with no `esp_ota_end` and no set-boot |
| OtaProperties.EmptyStreamReachesEndUnbegun | task_ota.c:214-226 | A stream whose first read returns 0 and whose transfer is reported complete still reaches `esp_ota_end`, on handle 0, with no begin and no write; whether the run commits depends only on end and set-boot |
| OtaProperties.SuccessfulUpdate | task_ota.c:138-238 | A successful update makes exactly these calls: connection, begin, every chunk written whole in order on the begun handle, end, set-boot, restart |
| OtaProperties.ReadErrorDiscardsSession | task_ota.c:139-143 | A negative read after the session was begun and every chunk accepted fails the run: the writes made, then cleanup, with no end and no set-boot |
| OtaTask.OtaTask.constructor | task_ota.c:41 | The buffer is `BUFFSIZE + 1` zero bytes and the mutex is free |
| OtaTask.OtaTask.TryTakeMutex | task_ota.c:98 | The non-blocking take succeeds exactly when the mutex was free; the mutex is held afterwards |
| OtaTask.OtaTask.ReleaseMutex | task_ota.c:245-247 | The mutex is free afterwards; the buffer is untouched |
| OtaTask.OtaTask.Read | task_ota.c:139 | A positive read leaves the next chunk's bytes at the front of the buffer and returns their count, keeping the rest of the buffer; the read after the last chunk returns 0 or a negative count and leaves the buffer unchanged |
| OtaTask.OtaTask.CheckImageHeader | task_ota.c:145-206 | The checks on the buffer's first `data_read` bytes reach the header decision `Decide` takes on that chunk |
| OtaTask.OtaTask.ReadLoop | task_ota.c:138-218 | The imperative read loop over the shared buffer ends with the locals, calls and exit of `OtaSpec.Loop` |
| OtaTask.OtaTask.DoOta | task_ota.c:80-252 | One run of `do_ota` makes exactly the calls, and reaches exactly the outcome, of `OtaSpec.Run` for the mutex's state; the mutex is held afterwards exactly when it was busy or the run restarted; the buffer object is kept |

## Left out

- HTTP client and TLS internals are left out, along with the CA certificate symbols and the URL printing. Reads are an input sequence of chunks plus how the stream ends. The close and the cleanup inside `http_cleanup` are one `HttpCleanup` call.
- `esp_http_client_fetch_headers` and `esp_ota_get_next_update_partition` are not recorded in the trace. Their results feed nothing the task decides on.
- The `assert` on `update_partition` is left out. The partition catalogue is an oracle that always supplies one.
- FreeRTOS is not modelled. This covers `start_ota` with its `xTaskCreate`, which only creates the task. It also covers `vTaskDelete` at the end of cleanup, and the mutex as a concurrency primitive. The non-blocking take is an input to `Run` (a field of `OtaTask`), and the give is a trace event.
- The lifetime bug in `start_ota` is out of scope: it passes the address of its by-value parameter to another task. That is a concurrency and lifetime issue.
- The semver grammar and comparison (semver.c) are not part of this model. They are an oracle: a parse predicate and an ordering over strings.
- The `memcpy` decoding of `esp_app_desc_t` from the buffer is an oracle from the descriptor's 256 bytes to a version string.
- The running and last-invalid descriptors are arbitrary strings when `esp_ota_get_partition_description` fails. The source reads them uninitialised in that case.
- `esp_restart` and the `vTaskDelay` loop after it are the terminal outcome `Restarted`.
- Logging is left out, as is the warning about a boot partition that differs from the running one. Both only log.
- Streams that never end are not modelled: the positive reads are a finite sequence.
- OtaTask.OtaTask.DoOta requires `ChunksFit`: every positive read holds between 1 and `BUFFSIZE` bytes. That is what `esp_http_client_read` promises of a read into a `BUFFSIZE`-byte request.
- OtaProperties.LoopForwardsChunksInOrder: `binary_file_length` is an unbounded integer. The signed 32-bit overflow of an image over 2 GiB is not modelled, because such an image cannot fit an OTA partition.
- OtaTask.OtaTask.DoOta and OtaTask.OtaTask.ReadLoop do not state what `ota_write_data` holds when they return; `DoOta` states only that it is the same buffer. It holds the last positive read at its front. Nothing reads it before the next read overwrites it.
