/**
  The update orchestration of `do_ota` in task_ota.c, as a deterministic
  machine over the answers of its collaborators.

  Everything `do_ota` talks to (the mutex, the HTTP client, the partition
  catalogue, the OTA writer, the semver library) is an oracle collected in
  `Env`. The machine records every collaborator call it makes as an `Effect`,
  in call order, and ends in an `Outcome`. A call that fails always ends the
  run, so whether a recorded call succeeded is read off the outcome.
*/
module OtaSpec {
  import opened Wrappers
  import opened Version

  newtype byte = x: int | 0 <= x < 256

  /** Capacity passed to each `esp_http_client_read` (BUFFSIZE). */
  const BUFFSIZE: nat := 1024

  /** sizeof(esp_image_header_t), sizeof(esp_image_segment_header_t) and
      sizeof(esp_app_desc_t) in ESP-IDF v4. */
  const ImageHeaderSize: nat := 24
  const SegmentHeaderSize: nat := 8
  const AppDescSize: nat := 256

  /** Offset of the application descriptor in the image, and the size a first
      chunk must strictly exceed for the version check to run. */
  const AppDescOffset: nat := ImageHeaderSize + SegmentHeaderSize
  const HeaderThreshold: nat := AppDescOffset + AppDescSize

  /** One positive-length read, together with the OTA writer's answer to the
      `esp_ota_write` of exactly these bytes. */
  datatype Chunk = Chunk(data: seq<byte>, writeOk: bool)

  /** How the stream of positive reads stops: a read returning 0 (connection
      closed) or a negative read (transport error). */
  datatype StreamEnd = EndOfStream | NegativeRead

  /** The collaborators' answers for one run of `do_ota` once it holds the mutex. */
  datatype Env = Env(
    clientInitOk: bool,                 // esp_http_client_init returned a client
    openOk: bool,                       // esp_http_client_open returned ESP_OK
    chunks: seq<Chunk>,                 // the positive reads, in arrival order
    streamEnd: StreamEnd,               // the read that ends the loop
    appVersion: seq<byte> -> string,    // version field of an esp_app_desc_t, from its bytes
    runningVersion: string,             // version in the running partition's descriptor
    lastInvalidVersion: Option<string>, // None: no last invalid partition
    semver: Semver,
    beginOk: bool,                      // esp_ota_begin returned ESP_OK
    beginHandle: int,                   // the handle it stored in update_handle
    completeOk: bool,                   // esp_http_client_is_complete_data_received
    endOk: bool,                        // esp_ota_end returned ESP_OK
    setBootOk: bool                     // esp_ota_set_boot_partition returned ESP_OK
  )

  /** What the HTTP client promises of its positive reads: at least one byte and
      never more than the buffer capacity it was given. */
  predicate ChunksFit(env: Env) {
    forall i :: 0 <= i < |env.chunks| ==> 0 < |env.chunks[i].data| <= BUFFSIZE
  }

  /** Collaborator calls with an effect beyond the run: resource acquisition
      and release, and the calls that touch the update partition. */
  datatype Effect =
    | TakeMutex                        // xSemaphoreTake(mutex_ota, 0)
    | HttpInit                         // esp_http_client_init
    | HttpOpen                         // esp_http_client_open
    | Begin                            // esp_ota_begin(update_partition, ...)
    | Write(handle: int, data: seq<byte>) // esp_ota_write
    | End(handle: int)                 // esp_ota_end
    | SetBoot                          // esp_ota_set_boot_partition(update_partition)
    | Restart                          // esp_restart
    | GiveMutex                        // xSemaphoreGive(mutex_ota)
    | HttpCleanup                      // http_cleanup: close and clean up the client

  datatype FailReason =
    | MutexBusy | HttpInitFailed | HttpOpenFailed | ReadError
    | HeaderNotFitLen | InvalidVersionCompareFailed | SameAsInvalid | VersionCompareFailed
    | BeginFailed | WriteFailed | IncompleteData | EndFailed | SetBootFailed

  datatype NoUpdateKind = SameVersion | OlderVersion

  /** The three ways `do_ota` ends: the `fail` label, the `no_need_to_update`
      label, or `esp_restart`. */
  datatype Outcome = Failed(reason: FailReason) | NoUpdate(kind: NoUpdateKind) | Restarted

  datatype RunResult = RunResult(outcome: Outcome, trace: seq<Effect>)

  // ---------------------------------------------------------------------
  // The one-time header decision

  datatype Decision = NotFitLen | Reject(reason: FailReason) | Skip(kind: NoUpdateKind) | Proceed

  /** The version of the image whose first chunk is `data`, read from the
      application descriptor that follows the image and segment headers. */
  function NewVersion(env: Env, data: seq<byte>): string
    requires |data| >= HeaderThreshold
  {
    env.appVersion(data[AppDescOffset..HeaderThreshold])
  }

  /** The rollback check passes: there is no last invalid partition, or its
      version parses and differs from the new one. */
  predicate NotLastInvalid(env: Env, newVersion: string) {
    env.lastInvalidVersion.Some? ==>
      var c := CompareVersion(env.lastInvalidVersion.value, newVersion, env.semver);
      c.Some? && c.value != 0
  }

  /** The decision taken on the first positive-length chunk. */
  function Decide(env: Env, data: seq<byte>): Decision {
    if !(|data| > HeaderThreshold) then NotFitLen
    else
      var newVersion := NewVersion(env, data);
      var invalid := if env.lastInvalidVersion.Some?
        then Some(CompareVersion(env.lastInvalidVersion.value, newVersion, env.semver))
        else None;
      if invalid == Some(None) then Reject(InvalidVersionCompareFailed)
      else if invalid == Some(Some(0)) then Reject(SameAsInvalid)
      else match CompareVersion(newVersion, env.runningVersion, env.semver)
        case None => Reject(VersionCompareFailed)
        case Some(c) =>
          if c == 0 then Skip(SameVersion)
          else if c < 0 then Skip(OlderVersion)
          else Proceed
  }

  // ---------------------------------------------------------------------
  // The read loop

  /** The locals the read loop updates, with the calls made so far. */
  datatype LoopState = LoopState(headerChecked: bool, handle: int, length: int, trace: seq<Effect>)

  /** The loop is left by `break` on a 0 read, or by a jump to a cleanup label. */
  datatype LoopExit = Drained | Jumped(outcome: Outcome)

  /** `esp_ota_write` of the whole chunk, then the length counter. */
  function WriteChunk(s: LoopState, c: Chunk): (LoopState, Option<Outcome>) {
    var t := s.trace + [Write(s.handle, c.data)];
    if !c.writeOk then (s.(trace := t), Some(Failed(WriteFailed)))
    else (s.(trace := t, length := s.length + |c.data|), None)
  }

  /** One positive-length read: the header decision the first time, then the write. */
  function Step(env: Env, s: LoopState, c: Chunk): (LoopState, Option<Outcome>) {
    if s.headerChecked then WriteChunk(s, c)
    else match Decide(env, c.data)
      case NotFitLen => (s, Some(Failed(HeaderNotFitLen)))
      case Reject(r) => (s, Some(Failed(r)))
      case Skip(k) => (s, Some(NoUpdate(k)))
      case Proceed =>
        // the latch is set before esp_ota_begin is called
        var s1 := s.(headerChecked := true, trace := s.trace + [Begin]);
        if !env.beginOk then (s1, Some(Failed(BeginFailed)))
        else WriteChunk(s1.(handle := env.beginHandle), c)
  }

  /** How the loop ends once the positive reads are used up. */
  function EndExit(e: StreamEnd): LoopExit {
    if e == EndOfStream then Drained else Jumped(Failed(ReadError))
  }

  /** The `while (1)` read loop over the reads still to come. */
  function Loop(env: Env, s: LoopState, cs: seq<Chunk>, e: StreamEnd): (LoopState, LoopExit)
    decreases |cs|
  {
    if cs == [] then (s, EndExit(e))
    else
      var (s', o) := Step(env, s, cs[0]);
      if o.Some? then (s', Jumped(o.value)) else Loop(env, s', cs[1..], e)
  }

  // ---------------------------------------------------------------------
  // The whole run

  /** The shared cleanup after the `fail` / `no_need_to_update` labels. */
  function Cleanup(gotMutex: bool, clientInit: bool): seq<Effect> {
    (if gotMutex then [GiveMutex] else []) + (if clientInit then [HttpCleanup] else [])
  }

  /** Completeness check, `esp_ota_end` on `handle`, `esp_ota_set_boot_partition`
      and `esp_restart`, after the loop broke on a 0 read: the outcome and the
      calls made from there on, cleanup included. */
  function Finish(env: Env, handle: int): RunResult {
    if !env.completeOk then RunResult(Failed(IncompleteData), Cleanup(true, true))
    else if !env.endOk then RunResult(Failed(EndFailed), [End(handle)] + Cleanup(true, true))
    else if !env.setBootOk then RunResult(Failed(SetBootFailed), [End(handle), SetBoot] + Cleanup(true, true))
    else RunResult(Restarted, [End(handle), SetBoot, Restart])
  }

  /** How a run that reached the read loop goes on from the loop's exit. */
  function AfterLoop(env: Env, s: LoopState, x: LoopExit): RunResult {
    if x.Jumped? then RunResult(x.outcome, Cleanup(true, true)) else Finish(env, s.handle)
  }

  /** The calls made before the read loop when the mutex is free and the client opens. */
  const Connect: seq<Effect> := [TakeMutex, HttpInit, HttpOpen]

  /** The run reaches the read loop. */
  predicate ReachesReadLoop(mutexFree: bool, env: Env) {
    mutexFree && env.clientInitOk && env.openOk
  }

  /** One run of `do_ota`; `mutexFree` is the answer of the non-blocking take. */
  function Run(mutexFree: bool, env: Env): RunResult {
    if !mutexFree then RunResult(Failed(MutexBusy), [TakeMutex] + Cleanup(false, false))
    else if !env.clientInitOk then RunResult(Failed(HttpInitFailed), [TakeMutex, HttpInit] + Cleanup(true, false))
    else if !env.openOk then RunResult(Failed(HttpOpenFailed), Connect + Cleanup(true, true))
    else
      var (s, x) := Loop(env, LoopState(false, 0, 0, Connect), env.chunks, env.streamEnd);
      var a := AfterLoop(env, s, x);
      RunResult(a.outcome, s.trace + a.trace)
  }
}
