/**
  The `do_ota` task of task_ota.c as the imperative procedure it is: the
  static `ota_write_data` buffer every read fills, the OTA mutex, the locals
  `got_mutex`, `image_header_was_checked`, `binary_file_length` and
  `update_handle`, the `while (1)` read loop, and the jumps to the shared
  cleanup. `DoOta` is proved to make exactly the calls, and reach exactly the
  outcome, of `OtaSpec.Run`.
*/
module OtaTask {
  import opened Wrappers
  import opened Version
  import opened OtaSpec
  import OtaReference

  class OtaTask {
    /** `ota_write_data`: the buffer each read fills, one byte longer than a
        read is allowed to fill. */
    var otaWriteData: array<byte>
    /** `mutex_ota` is held by some OTA task. */
    var mutexTaken: bool

    ghost predicate Valid()
      reads this
    {
      otaWriteData.Length == BUFFSIZE + 1
    }

    /** The zero-initialised buffer and a free mutex. */
    constructor ()
      ensures Valid() && !mutexTaken && fresh(otaWriteData)
      ensures forall k :: 0 <= k < otaWriteData.Length ==> otaWriteData[k] == 0
    {
      otaWriteData := new byte[BUFFSIZE + 1](_ => 0);
      mutexTaken := false;
    }

    /** `xSemaphoreTake(mutex_ota, 0)`: succeeds exactly when the mutex is
        free, and the mutex is held afterwards either way. */
    method TryTakeMutex() returns (taken: bool)
      modifies this
      ensures taken == !old(mutexTaken)
      ensures mutexTaken && otaWriteData == old(otaWriteData)
    {
      taken := !mutexTaken;
      mutexTaken := true;
    }

    /** `xSemaphoreGive(mutex_ota)`. */
    method ReleaseMutex()
      modifies this
      ensures !mutexTaken && otaWriteData == old(otaWriteData)
    {
      mutexTaken := false;
    }

    /** `esp_http_client_read(client, ota_write_data, BUFFSIZE)` as the read
        after `i` positive reads: the next chunk's bytes at the front of the
        buffer and their count, or 0 / a negative count once the chunks are
        used up. The rest of the buffer is left as it was. */
    method Read(env: Env, i: nat) returns (dataRead: int)
      requires Valid() && ChunksFit(env) && i <= |env.chunks|
      modifies otaWriteData
      ensures i < |env.chunks| ==>
        && dataRead == |env.chunks[i].data|
        && otaWriteData[..dataRead] == env.chunks[i].data
        && otaWriteData[dataRead..] == old(otaWriteData[dataRead..])
      ensures i == |env.chunks| ==>
        && dataRead == (if env.streamEnd == EndOfStream then 0 else -1)
        && otaWriteData[..] == old(otaWriteData[..])
    {
      if i == |env.chunks| {
        dataRead := if env.streamEnd == EndOfStream then 0 else -1;
        return;
      }
      var data := env.chunks[i].data;
      var k := 0;
      while k < |data|
        invariant 0 <= k <= |data|
        invariant otaWriteData[..k] == data[..k]
        invariant otaWriteData[k..] == old(otaWriteData[k..])
      {
        otaWriteData[k] := data[k];
        k := k + 1;
      }
      dataRead := |data|;
    }

    /** The check of the first chunk in the buffer: it must be longer than
        the image and segment headers and the application descriptor; the new
        version, read from the descriptor, must differ from that of the last
        invalid partition, if there is one, and be newer than the running
        version. */
    method CheckImageHeader(env: Env, dataRead: int) returns (decision: Decision)
      requires Valid() && 0 < dataRead <= BUFFSIZE
      ensures decision == Decide(env, otaWriteData[..dataRead])
    {
      if !(dataRead > HeaderThreshold) {
        return NotFitLen;
      }
      var newVersion := env.appVersion(otaWriteData[AppDescOffset..HeaderThreshold]);
      assert otaWriteData[..dataRead][AppDescOffset..HeaderThreshold] == otaWriteData[AppDescOffset..HeaderThreshold];
      if env.lastInvalidVersion.Some? {
        var result := CompareVersion(env.lastInvalidVersion.value, newVersion, env.semver);
        if result.None? {
          return Reject(InvalidVersionCompareFailed);
        }
        if result.value == 0 {
          return Reject(SameAsInvalid);
        }
      }
      var result := CompareVersion(newVersion, env.runningVersion, env.semver);
      if result.None? {
        return Reject(VersionCompareFailed);
      }
      if result.value == 0 {
        return Skip(SameVersion);
      } else if result.value < 0 {
        return Skip(OlderVersion);
      }
      return Proceed;
    }

    /** The `while (1)` read loop of `do_ota`, after the calls `calls0`: read
        into the buffer; on the first positive read check the image header and
        begin the update; write every positive read whole; leave on a 0 read,
        or by a jump on a failed read, check, begin or write. Returns the
        loop's locals and how it was left. */
    method ReadLoop(env: Env, calls0: seq<Effect>) returns (state: LoopState, exit: LoopExit)
      requires Valid() && ChunksFit(env)
      modifies otaWriteData
      ensures (state, exit) == Loop(env, LoopState(false, 0, 0, calls0), env.chunks, env.streamEnd)
    {
      var imageHeaderWasChecked := false;
      var binaryFileLength := 0;
      var updateHandle := 0;
      var calls := calls0;
      ghost var whole := Loop(env, LoopState(false, 0, 0, calls0), env.chunks, env.streamEnd);
      assert env.chunks[0..] == env.chunks;
      var i := 0;
      while true
        invariant 0 <= i <= |env.chunks|
        invariant Loop(env, LoopState(imageHeaderWasChecked, updateHandle, binaryFileLength, calls),
                       env.chunks[i..], env.streamEnd) == whole
        decreases |env.chunks| - i
      {
        var before := LoopState(imageHeaderWasChecked, updateHandle, binaryFileLength, calls);
        var dataRead := Read(env, i);
        if i < |env.chunks| {
          LoopStep(env, before, env.chunks, i, env.streamEnd);
        }
        if dataRead < 0 {
          return before, Jumped(Failed(ReadError));
        } else if dataRead > 0 {
          if !imageHeaderWasChecked {
            var decision := CheckImageHeader(env, dataRead);
            match decision
            case NotFitLen =>
              return before, Jumped(Failed(HeaderNotFitLen));
            case Reject(reason) =>
              return before, Jumped(Failed(reason));
            case Skip(kind) =>
              return before, Jumped(NoUpdate(kind));
            case Proceed =>

            imageHeaderWasChecked := true;
            calls := calls + [Begin];
            if !env.beginOk {
              return LoopState(imageHeaderWasChecked, updateHandle, binaryFileLength, calls), Jumped(Failed(BeginFailed));
            }
            updateHandle := env.beginHandle;
          }
          calls := calls + [Write(updateHandle, otaWriteData[..dataRead])];
          if !env.chunks[i].writeOk {
            return LoopState(imageHeaderWasChecked, updateHandle, binaryFileLength, calls), Jumped(Failed(WriteFailed));
          }
          binaryFileLength := binaryFileLength + dataRead;
          i := i + 1;
        } else {
          return before, Drained;
        }
      }
    }

    /** One run of `do_ota`, with the collaborators' answers in `env`.
        `calls` records the collaborator calls in the order they are made. */
    method DoOta(env: Env) returns (outcome: Outcome, calls: seq<Effect>)
      requires Valid() && ChunksFit(env)
      modifies this, otaWriteData
      ensures Valid() && otaWriteData == old(otaWriteData)
      ensures RunResult(outcome, calls) == Run(!old(mutexTaken), env)
      ensures mutexTaken == (old(mutexTaken) || outcome.Restarted?)
    {
      var gotMutex := false;
      var clientInit := false;
      calls := [TakeMutex];

      label fail: {
        var taken := TryTakeMutex();
        if !taken {
          outcome := Failed(MutexBusy);
          break fail;
        }
        gotMutex := true;

        calls := calls + [HttpInit];
        if !env.clientInitOk {
          outcome := Failed(HttpInitFailed);
          break fail;
        }
        clientInit := true;

        calls := calls + [HttpOpen];
        if !env.openOk {
          outcome := Failed(HttpOpenFailed);
          break fail;
        }

        assert calls == Connect;
        var state, exit := ReadLoop(env, calls);
        calls := state.trace;
        if exit.Jumped? {
          OtaReference.LoopNeverRestarts(env, Connect);
          outcome := exit.outcome;
          break fail;
        }

        if !env.completeOk {
          outcome := Failed(IncompleteData);
          break fail;
        }
        calls := calls + [End(state.handle)];
        if !env.endOk {
          outcome := Failed(EndFailed);
          break fail;
        }
        calls := calls + [SetBoot];
        if !env.setBootOk {
          outcome := Failed(SetBootFailed);
          break fail;
        }
        calls := calls + [Restart];
        outcome := Restarted;
        return;
      }

      // the `no_need_to_update` and `fail` labels
      if gotMutex {
        ReleaseMutex();
        calls := calls + [GiveMutex];
      }
      if clientInit {
        calls := calls + [HttpCleanup];
      }
    }
  }

  /** The read loop over the chunks from the `i`-th on takes one step on the
      `i`-th chunk, then goes on from the next. */
  lemma LoopStep(env: Env, s: LoopState, cs: seq<Chunk>, i: nat, e: StreamEnd)
    requires i < |cs|
    ensures Loop(env, s, cs[i..], e) ==
      var (s', o) := Step(env, s, cs[i]);
      if o.Some? then (s', Jumped(o.value)) else Loop(env, s', cs[i + 1..], e)
  {
    assert cs[i..][0] == cs[i] && cs[i..][1..] == cs[i + 1..];
  }
}
