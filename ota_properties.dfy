/**
  What a run of `do_ota` guarantees, stated over `OtaSpec.Run` for every
  answer the collaborators may give: single-flight and cleanup discipline,
  the one-time version gate, rollback protection, in-order forwarding of the
  image, and commit only after a verified end.
*/
module OtaProperties {
  import opened Wrappers
  import opened Version
  import opened OtaSpec
  import opened OtaReference

  predicate HasEnd(t: seq<Effect>) {
    exists e :: e in t && e.End?
  }

  // ---------------------------------------------------------------------
  // The shape of a run

  /** A run that does not reach the read loop: the calls up to the failing
      one, then cleanup of what was acquired. */
  lemma EarlyExit(m: bool, env: Env)
    requires !ReachesReadLoop(m, env)
    ensures Run(m, env).outcome.Failed?
    ensures Run(m, env).trace ==
      if !m then [TakeMutex]
      else if !env.clientInitOk then [TakeMutex, HttpInit, GiveMutex]
      else [TakeMutex, HttpInit, HttpOpen, GiveMutex, HttpCleanup]
  {
  }

  /** The outcome of a run that reaches the read loop, and the calls it makes
      after the loop's exit. */
  function Tail(env: Env): RunResult {
    var (s, x) := StreamReference(env, Connect);
    AfterLoop(env, s, x)
  }

  /** The handle `esp_ota_end` is given: the begun session's, or the initial 0. */
  function SessionHandle(env: Env): int {
    if Begun(env) then env.beginHandle else 0
  }

  /** A run that reaches the read loop makes the connection calls, the
      session calls of the closed form, then the calls after the loop. */
  lemma RunByReference(m: bool, env: Env)
    requires ReachesReadLoop(m, env)
    ensures Run(m, env) == RunResult(Tail(env).outcome, Connect + SessionCalls(env) + Tail(env).trace)
  {
    LoopMatchesReference(env, Connect);
  }

  /** Up to the loop's exit a run calls nothing but the connection calls,
      begin and writes. */
  lemma LoopCallsOnly(env: Env)
    ensures forall e :: e in Connect + SessionCalls(env) ==>
      e.TakeMutex? || e.HttpInit? || e.HttpOpen? || e.Begin? || e.Write?
  {
    SessionCallsShape(env);
    var sc := SessionCalls(env);
    forall e | e in Connect + sc
      ensures e.TakeMutex? || e.HttpInit? || e.HttpOpen? || e.Begin? || e.Write?
    {
      if e !in Connect && e != Begin {
        assert sc != [] && e in sc;
        assert sc == [sc[0]] + sc[1..];
      }
    }
  }

  /** After the loop: cleanup alone unless the loop broke on a 0 read with the
      whole stream written, and the finishing sequence on the session's
      handle when it did. */
  lemma TailByCase(env: Env)
    ensures !StreamWrittenWhole(env) ==>
      Tail(env).trace == [GiveMutex, HttpCleanup] && !Tail(env).outcome.Restarted?
    ensures StreamWrittenWhole(env) ==> Tail(env) == Finish(env, SessionHandle(env))
  {
    DrainedIff(env, Connect);
  }

  /** The calls after the loop's exit, case by case: cleanup alone after a
      jump or an incomplete transfer, otherwise `esp_ota_end` on the loop's
      handle, then set-boot, then a restart or cleanup. */
  lemma TailTrace(env: Env)
    ensures var h := SessionHandle(env);
      Tail(env).trace ==
        if !StreamWrittenWhole(env) || !env.completeOk then [GiveMutex, HttpCleanup]
        else if !env.endOk then [End(h), GiveMutex, HttpCleanup]
        else if !env.setBootOk then [End(h), SetBoot, GiveMutex, HttpCleanup]
        else [End(h), SetBoot, Restart]
  {
    TailByCase(env);
  }

  /** The run restarts exactly when the whole stream was written and the
      completeness check, end and set-boot all succeed. */
  lemma TailOutcome(env: Env)
    ensures Tail(env).outcome.Restarted? <==>
      StreamWrittenWhole(env) && env.completeOk && env.endOk && env.setBootOk
  {
    TailByCase(env);
  }

  /** The calls after the loop's exit include no begin and no write. */
  lemma TailOutsideSession(env: Env)
    ensures forall e :: e in Tail(env).trace ==> !e.Begin? && !e.Write?
  {
    TailByCase(env);
  }

  /** After a complete, wholly written stream, the first call after the loop
      is `esp_ota_end` on the session's handle. */
  lemma TailStartsWithEnd(env: Env)
    requires StreamWrittenWhole(env) && env.completeOk
    ensures 0 < |Tail(env).trace| && Tail(env).trace[0] == End(SessionHandle(env))
  {
    TailByCase(env);
  }

  /** After the loop only end (on the session's handle), set-boot, restart
      and cleanup calls are made; unless the run restarts, both resources are
      released last, after calls that are only end and set-boot. */
  lemma TailCalls(env: Env)
    ensures var t := Tail(env).trace;
      && (forall e :: e in t ==> e.End? || e.SetBoot? || e.Restart? || e.GiveMutex? || e.HttpCleanup?)
      && (forall e :: e in t && e.End? ==> e == End(SessionHandle(env)))
      && (Tail(env).outcome.Restarted? ==> t == [End(SessionHandle(env)), SetBoot, Restart])
      && (!Tail(env).outcome.Restarted? ==>
            && 2 <= |t| && t == t[..|t| - 2] + [GiveMutex, HttpCleanup]
            && forall i :: 0 <= i < |t| - 2 ==> t[i].End? || t[i].SetBoot?)
  {
    TailTrace(env);
    var t := Tail(env).trace;
    var h := SessionHandle(env);
    if !StreamWrittenWhole(env) || !env.completeOk {
      assert t[..0] == [];
    } else if !env.endOk {
      assert t[..1] == [End(h)];
    } else if !env.setBootOk {
      assert t[..2] == [End(h), SetBoot];
    }
  }

  // ---------------------------------------------------------------------
  // Facts about traces of that shape

  lemma ReleasedLast(t1: seq<Effect>, pre: seq<Effect>)
    requires forall e :: e in t1 ==> !e.GiveMutex? && !e.HttpCleanup?
    requires forall e :: e in pre ==> !e.GiveMutex? && !e.HttpCleanup?
    ensures var t := t1 + pre + [GiveMutex, HttpCleanup];
      && multiset(t)[GiveMutex] == 1 && multiset(t)[HttpCleanup] == 1
      && t[|t| - 2..] == [GiveMutex, HttpCleanup]
  {
    var t := t1 + pre + [GiveMutex, HttpCleanup];
    assert GiveMutex !in t1 + pre && HttpCleanup !in t1 + pre;
    assert multiset(t) == multiset(t1 + pre) + multiset([GiveMutex, HttpCleanup]);
  }

  /** `esp_ota_begin` is called at most once in `t`, and is called exactly
      when `called`. */
  predicate BeginsOnce(t: seq<Effect>, called: bool) {
    multiset(t)[Begin] <= 1 && (Begin in t <==> called)
  }

  lemma BeginAtMostOnce(t0: seq<Effect>, sc: seq<Effect>, t2: seq<Effect>, called: bool)
    requires Begin !in t0 && Begin !in t2
    requires sc != [] ==> sc[0] == Begin && forall e :: e in sc[1..] ==> e.Write?
    requires called == (sc != [])
    ensures BeginsOnce(t0 + sc + t2, called)
  {
    if sc != [] {
      assert sc == [Begin] + sc[1..];
      assert Begin !in sc[1..];
      assert multiset(sc) == multiset([Begin]) + multiset(sc[1..]);
    }
    assert multiset(t0 + sc + t2) == multiset(t0) + multiset(sc) + multiset(t2);
  }

  /** Every write in `t` lies strictly inside the session calls `sc`, after
      their begin, on handle `h`, and only when `ok`. */
  predicate WritesInSession(t: seq<Effect>, start: nat, sc: seq<Effect>, h: int, ok: bool) {
    forall i :: 0 <= i < |t| && t[i].Write? ==>
      start < i < start + |sc| && start < |t| && t[start] == Begin && t[i].handle == h && ok
  }

  lemma WritesInsideSession(t0: seq<Effect>, sc: seq<Effect>, t2: seq<Effect>, h: int, ok: bool)
    requires forall e :: e in t0 ==> !e.Write?
    requires forall e :: e in t2 ==> !e.Write?
    requires sc != [] ==> sc[0] == Begin && forall e :: e in sc[1..] ==> e.Write? && e.handle == h
    requires 1 < |sc| ==> ok
    ensures WritesInSession(t0 + sc + t2, |t0|, sc, h, ok)
  {
    var t := t0 + sc + t2;
    assert forall i :: 0 <= i < |t0| ==> t[i] == t0[i] && t0[i] in t0;
    assert forall i :: |t0| + |sc| <= i < |t| ==> t[i] == t2[i - |t0| - |sc|] && t2[i - |t0| - |sc|] in t2;
    assert forall i :: |t0| <= i < |t0| + |sc| ==> t[i] == sc[i - |t0|];
    forall i | 0 <= i < |t| && t[i].Write?
      ensures |t0| < i < |t0| + |sc| && |t0| < |t| && t[|t0|] == Begin && t[i].handle == h && ok
    {
      if |t0| < i < |t0| + |sc| {
        assert sc[i - |t0|] == sc[1..][i - |t0| - 1];
      }
    }
  }

  // ---------------------------------------------------------------------
  // Single flight and cleanup

  /** A run that cannot take the mutex without blocking goes straight to
      cleanup: no client is initialised and the mutex is not given back. */
  lemma BusyMutexGoesStraightToCleanup(env: Env)
    ensures Run(false, env) == RunResult(Failed(MutexBusy), [TakeMutex])
  {
  }

  /** `r` releases exactly the resources in `held`, once each, as its last
      calls, or, when it restarts, releases nothing and ends in the restart. */
  predicate ReleasesHeld(r: RunResult, held: seq<Effect>) {
    && (!r.outcome.Restarted? ==>
          && multiset(r.trace)[GiveMutex] == (if GiveMutex in held then 1 else 0)
          && multiset(r.trace)[HttpCleanup] == (if HttpCleanup in held then 1 else 0)
          && |held| <= |r.trace| && r.trace[|r.trace| - |held|..] == held)
    && (r.outcome.Restarted? ==>
          && GiveMutex !in r.trace && HttpCleanup !in r.trace
          && 0 < |r.trace| && r.trace[|r.trace| - 1] == Restart)
  }

  lemma CleanupLast(pre: seq<Effect>, gotMutex: bool, clientInit: bool, o: Outcome)
    requires !o.Restarted?
    requires forall e :: e in pre ==> !e.GiveMutex? && !e.HttpCleanup?
    ensures ReleasesHeld(RunResult(o, pre + Cleanup(gotMutex, clientInit)), Cleanup(gotMutex, clientInit))
  {
    var c := Cleanup(gotMutex, clientInit);
    assert GiveMutex !in pre && HttpCleanup !in pre;
    assert multiset(pre + c) == multiset(pre) + multiset(c);
    assert (pre + c)[|pre + c| - |c|..] == c;
  }

  lemma ReleasedBeforeLoop(m: bool, env: Env)
    requires !ReachesReadLoop(m, env)
    ensures ReleasesHeld(Run(m, env), Cleanup(m, m && env.clientInitOk))
  {
    if !m {
      CleanupLast([TakeMutex], false, false, Failed(MutexBusy));
    } else if !env.clientInitOk {
      CleanupLast([TakeMutex, HttpInit], true, false, Failed(HttpInitFailed));
    } else {
      CleanupLast(Connect, true, true, Failed(HttpOpenFailed));
    }
  }

  lemma ReleasedLastOf(lt: seq<Effect>, a: RunResult, h: int)
    requires forall e :: e in lt ==> !e.GiveMutex? && !e.HttpCleanup?
    requires a.outcome.Restarted? ==> a.trace == [End(h), SetBoot, Restart]
    requires !a.outcome.Restarted? ==>
      && 2 <= |a.trace| && a.trace == a.trace[..|a.trace| - 2] + [GiveMutex, HttpCleanup]
      && forall i :: 0 <= i < |a.trace| - 2 ==> a.trace[i].End? || a.trace[i].SetBoot?
    ensures ReleasesHeld(RunResult(a.outcome, lt + a.trace), [GiveMutex, HttpCleanup])
  {
    if a.outcome.Restarted? {
      assert GiveMutex !in lt && HttpCleanup !in lt;
    } else {
      var pre := a.trace[..|a.trace| - 2];
      assert lt + a.trace == lt + pre + [GiveMutex, HttpCleanup];
      forall e | e in pre ensures !e.GiveMutex? && !e.HttpCleanup? {
        var i :| 0 <= i < |pre| && pre[i] == e;
      }
      ReleasedLast(lt, pre);
    }
  }

  lemma HeldBothAsCleanup(r: RunResult)
    requires ReleasesHeld(r, [GiveMutex, HttpCleanup])
    ensures ReleasesHeld(r, Cleanup(true, true))
  {
    assert Cleanup(true, true) == [GiveMutex, HttpCleanup];
  }

  lemma ReleasedAfterLoop(env: Env)
    ensures ReleasesHeld(RunResult(Tail(env).outcome, Connect + SessionCalls(env) + Tail(env).trace), Cleanup(true, true))
  {
    LoopCallsOnly(env);
    TailCalls(env);
    ReleasedLastOf(Connect + SessionCalls(env), Tail(env), SessionHandle(env));
    HeldBothAsCleanup(RunResult(Tail(env).outcome, Connect + SessionCalls(env) + Tail(env).trace));
  }

  lemma ReleasedInLoop(m: bool, env: Env)
    requires ReachesReadLoop(m, env)
    ensures ReleasesHeld(Run(m, env), Cleanup(true, true))
  {
    RunByReference(m, env);
    ReleasedAfterLoop(env);
  }

  /** Cleanup releases each resource exactly when it was acquired, once, as the
      last calls of the run; a restarted run ends in `esp_restart` instead and
      releases nothing. */
  lemma ResourcesReleasedExactlyWhenAcquired(m: bool, env: Env)
    ensures ReleasesHeld(Run(m, env), Cleanup(m, m && env.clientInitOk))
  {
    if ReachesReadLoop(m, env) {
      ReleasedInLoop(m, env);
    } else {
      ReleasedBeforeLoop(m, env);
    }
  }

  // ---------------------------------------------------------------------
  // The one-time version gate

  lemma BeginsOnceInLoop(env: Env)
    ensures BeginsOnce(Connect + SessionCalls(env) + Tail(env).trace, Opens(env))
  {
    TailOutsideSession(env);
    SessionCallsShape(env);
    BeginAtMostOnce(Connect, SessionCalls(env), Tail(env).trace, Opens(env));
  }

  /** The version decision is taken on the first chunk only: `esp_ota_begin`
      is called at most once, and exactly when the run reaches the read loop
      and the first chunk's decision is to proceed. */
  lemma HeaderCheckedOnce(m: bool, env: Env)
    ensures BeginsOnce(Run(m, env).trace, ReachesReadLoop(m, env) && Opens(env))
  {
    if ReachesReadLoop(m, env) {
      RunByReference(m, env);
      BeginsOnceInLoop(env);
    } else {
      EarlyExit(m, env);
    }
  }

  lemma WritesGatedInLoop(env: Env)
    ensures WritesInSession(Connect + SessionCalls(env) + Tail(env).trace, |Connect|,
                            SessionCalls(env), env.beginHandle, env.beginOk)
  {
    TailOutsideSession(env);
    SessionCallsShape(env);
    WritesInsideSession(Connect, SessionCalls(env), Tail(env).trace, env.beginHandle, env.beginOk);
  }

  /** No write happens without a successful begin: every `esp_ota_write`
      comes after the begin call, on the handle that begin returned. */
  lemma WritesGatedByBegin(m: bool, env: Env)
    ensures var r := Run(m, env);
      forall i :: 0 <= i < |r.trace| && r.trace[i].Write? ==>
        && |Connect| < i && r.trace[|Connect|] == Begin && env.beginOk
        && r.trace[i].handle == env.beginHandle
  {
    if ReachesReadLoop(m, env) {
      RunByReference(m, env);
      WritesGatedInLoop(env);
    } else {
      EarlyExit(m, env);
    }
  }

  /** The first chunk must be strictly longer than the image header, segment
      header and application descriptor together; otherwise the run fails
      without any begin. */
  lemma ShortFirstChunkFails(m: bool, env: Env)
    requires ReachesReadLoop(m, env) && env.chunks != []
    requires |env.chunks[0].data| <= HeaderThreshold
    ensures Run(m, env) == RunResult(Failed(HeaderNotFitLen), Connect + [GiveMutex, HttpCleanup])
  {
    RunByReference(m, env);
  }

  /** Rollback protection: a new version equal to that of the last invalid
      partition fails the run before any begin. */
  lemma RollbackProtection(m: bool, env: Env)
    requires ReachesReadLoop(m, env) && env.chunks != [] && |env.chunks[0].data| > HeaderThreshold
    requires env.lastInvalidVersion.Some?
    requires CompareVersion(env.lastInvalidVersion.value, NewVersion(env, env.chunks[0].data), env.semver) == Some(0)
    ensures Run(m, env) == RunResult(Failed(SameAsInvalid), Connect + [GiveMutex, HttpCleanup])
  {
    RunByReference(m, env);
  }

  /** A version string the comparator cannot parse ends the run before any
      begin, whichever of the two comparisons meets it. */
  lemma UnparsableVersionFailsBeforeBegin(m: bool, env: Env)
    requires ReachesReadLoop(m, env) && env.chunks != [] && |env.chunks[0].data| > HeaderThreshold
    ensures var nv := NewVersion(env, env.chunks[0].data);
      env.lastInvalidVersion.Some? && CompareVersion(env.lastInvalidVersion.value, nv, env.semver).None? ==>
        Run(m, env) == RunResult(Failed(InvalidVersionCompareFailed), Connect + [GiveMutex, HttpCleanup])
    ensures var nv := NewVersion(env, env.chunks[0].data);
      NotLastInvalid(env, nv) && CompareVersion(nv, env.runningVersion, env.semver).None? ==>
        Run(m, env) == RunResult(Failed(VersionCompareFailed), Connect + [GiveMutex, HttpCleanup])
  {
    RunByReference(m, env);
  }

  /** A new version the same as or older than the running one takes the
      no-update exit: no begin, write, end or set-boot. */
  lemma NoUpdateWhenNotNewer(m: bool, env: Env, c: int)
    requires ReachesReadLoop(m, env) && env.chunks != [] && |env.chunks[0].data| > HeaderThreshold
    requires NotLastInvalid(env, NewVersion(env, env.chunks[0].data))
    requires CompareVersion(NewVersion(env, env.chunks[0].data), env.runningVersion, env.semver) == Some(c)
    requires c <= 0
    ensures Run(m, env) ==
      RunResult(NoUpdate(if c == 0 then SameVersion else OlderVersion), Connect + [GiveMutex, HttpCleanup])
  {
    RunByReference(m, env);
  }

  /** Conversely, the no-update exit is taken only for such a version, and
      only the connection and cleanup calls are made. */
  lemma NoUpdateOnlyWhenNotNewer(m: bool, env: Env)
    requires Run(m, env).outcome.NoUpdate?
    ensures ReachesReadLoop(m, env) && env.chunks != [] && |env.chunks[0].data| > HeaderThreshold
    ensures var nv := NewVersion(env, env.chunks[0].data);
      && NotLastInvalid(env, nv)
      && var c := CompareVersion(nv, env.runningVersion, env.semver);
         c.Some? && c.value <= 0 && (Run(m, env).outcome.kind == SameVersion <==> c.value == 0)
    ensures Run(m, env).trace == Connect + [GiveMutex, HttpCleanup]
  {
    RunByReference(m, env);
  }

  // ---------------------------------------------------------------------
  // Forwarding the image

  /** The session calls carry the first chunks, as many as there are writes. */
  lemma SessionPayloadCount(env: Env)
    ensures |Payloads(SessionCalls(env))| == if Begun(env) then Offered(env.chunks) else 0
    ensures Payloads(SessionCalls(env)) == Datas(env.chunks[..|Payloads(SessionCalls(env))|])
  {
    SessionPayloads(env);
    if !Begun(env) {
      assert Datas(env.chunks[..0]) == [];
    }
  }

  /** The header decision never reports a failed write. */
  lemma DecisionIsNotWriteFailure(env: Env, data: seq<byte>)
    requires Decide(env, data) != Proceed
    ensures OtaReference.DecisionOutcome(Decide(env, data)) != Failed(WriteFailed)
  {
  }

  lemma ReferenceForwardsInOrder(env: Env)
    ensures var s := StreamReference(env, Connect).0; var k := |Payloads(s.trace)|;
      && k <= |env.chunks|
      && Payloads(s.trace) == Datas(env.chunks[..k])
      && (StreamReference(env, Connect).1 == Jumped(Failed(WriteFailed)) ==>
            0 < k && s.length == TotalLength(env.chunks[..k - 1]))
      && (StreamReference(env, Connect).1 != Jumped(Failed(WriteFailed)) ==>
            s.length == TotalLength(env.chunks[..k]))
  {
    PayloadsWithoutWrites(Connect);
    PayloadsAppend(Connect, SessionCalls(env));
    SessionPayloadCount(env);
    if env.chunks != [] && !Opens(env) {
      DecisionIsNotWriteFailure(env, env.chunks[0].data);
    }
    if !Begun(env) {
      assert env.chunks[..0] == [];
    }
  }

  /** `binary_file_length` at the loop's exit counts the bytes of the writes
      that succeeded, and the writes carry the first chunks whole, in arrival
      order, starting with the chunk that held the header. */
  lemma LoopForwardsChunksInOrder(env: Env)
    ensures var r := Loop(env, LoopState(false, 0, 0, Connect), env.chunks, env.streamEnd);
      var k := |Payloads(r.0.trace)|;
      && k <= |env.chunks|
      && Payloads(r.0.trace) == Datas(env.chunks[..k])
      && (r.1 == Jumped(Failed(WriteFailed)) ==> 0 < k && r.0.length == TotalLength(env.chunks[..k - 1]))
      && (r.1 != Jumped(Failed(WriteFailed)) ==> r.0.length == TotalLength(env.chunks[..k]))
  {
    LoopMatchesReference(env, Connect);
    ReferenceForwardsInOrder(env);
  }

  lemma EndOnlyWhenWritten(env: Env)
    ensures var t := Connect + SessionCalls(env) + Tail(env).trace;
      HasEnd(t) ==> StreamWrittenWhole(env) && env.completeOk && End(SessionHandle(env)) in t
  {
    var lt := Connect + SessionCalls(env);
    var t := lt + Tail(env).trace;
    if HasEnd(t) {
      LoopCallsOnly(env);
      TailTrace(env);
      var e :| e in t && e.End?;
      assert e in Tail(env).trace;
      assert t[|lt|] == End(SessionHandle(env));
    }
  }

  lemma PayloadsAround(sc: seq<Effect>, tt: seq<Effect>)
    requires Payloads(tt) == []
    ensures Payloads(Connect + sc + tt) == Payloads(sc)
  {
    PayloadsWithoutWrites(Connect);
    PayloadsAppend(Connect, sc);
    PayloadsAppend(Connect + sc, tt);
  }

  lemma TailPayloads(env: Env)
    ensures Payloads(Tail(env).trace) == []
  {
    var tt := Tail(env).trace;
    TailOutsideSession(env);
    assert forall i :: 0 <= i < |tt| ==> tt[i] in tt;
    PayloadsWithoutWrites(tt);
  }

  lemma SessionPayloadsWhenWritten(env: Env)
    requires StreamWrittenWhole(env)
    ensures Payloads(SessionCalls(env)) == Datas(env.chunks)
  {
    SessionPayloads(env);
    if env.chunks == [] {
      assert Datas(env.chunks) == [];
    } else {
      assert env.chunks[..Offered(env.chunks)] == env.chunks;
    }
  }

  lemma PayloadsWhenWritten(env: Env)
    requires StreamWrittenWhole(env)
    ensures Payloads(Connect + SessionCalls(env) + Tail(env).trace) == Datas(env.chunks)
  {
    TailPayloads(env);
    SessionPayloadsWhenWritten(env);
    PayloadsAround(SessionCalls(env), Tail(env).trace);
  }

  /** A run that reaches `esp_ota_end` has forwarded every chunk it read, whole
      and in order, and ends the session begun on them (or handle 0 when the
      stream was empty). */
  lemma EndSeesWholeImage(m: bool, env: Env)
    ensures var r := Run(m, env);
      HasEnd(r.trace) ==>
        && StreamWrittenWhole(env)
        && Payloads(r.trace) == Datas(env.chunks)
        && End(if env.chunks == [] then 0 else env.beginHandle) in r.trace
  {
    if ReachesReadLoop(m, env) {
      RunByReference(m, env);
      EndOnlyWhenWritten(env);
      if StreamWrittenWhole(env) {
        PayloadsWhenWritten(env);
      }
    } else {
      EarlyExit(m, env);
    }
  }

  // ---------------------------------------------------------------------
  // Finalisation and commit

  lemma BootSetInLoop(env: Env)
    ensures var t := Connect + SessionCalls(env) + Tail(env).trace;
      && (SetBoot in t ==>
            && StreamWrittenWhole(env) && env.completeOk && env.endOk
            && exists i :: 0 < i < |t| && t[i] == SetBoot && t[i - 1].End?)
      && (Tail(env).outcome == Restarted <==> SetBoot in t && env.setBootOk)
      && (Restart in t <==> Tail(env).outcome == Restarted)
  {
    var lt := Connect + SessionCalls(env);
    var t := lt + Tail(env).trace;
    LoopCallsOnly(env);
    TailTrace(env);
    TailOutcome(env);
    assert SetBoot !in lt && Restart !in lt;
    if StreamWrittenWhole(env) && env.completeOk && env.endOk {
      assert t[|lt| + 1] == SetBoot && t[|lt|].End?;
    }
  }

  /** `esp_ota_set_boot_partition` is called only after the stream ended with
      a 0 read, the data was complete and `esp_ota_end` succeeded, right after
      that end; a restart is requested exactly when set-boot succeeded. */
  lemma BootSetOnlyAfterSuccessfulEnd(m: bool, env: Env)
    ensures var r := Run(m, env);
      SetBoot in r.trace ==>
        && ReachesReadLoop(m, env) && StreamWrittenWhole(env) && env.completeOk && env.endOk
        && (exists i :: 0 < i < |r.trace| && r.trace[i] == SetBoot && r.trace[i - 1].End?)
    ensures var r := Run(m, env);
      && (r.outcome == Restarted <==> SetBoot in r.trace && env.setBootOk)
      && (Restart in r.trace <==> r.outcome == Restarted)
  {
    if ReachesReadLoop(m, env) {
      RunByReference(m, env);
      BootSetInLoop(env);
    } else {
      EarlyExit(m, env);
    }
  }

  /** The run commits (sets the boot partition and restarts) exactly when it
      reaches the read loop, the whole image is written, and completeness,
      end and set-boot all succeed. */
  lemma CommitIff(m: bool, env: Env)
    ensures Run(m, env).outcome == Restarted <==>
      ReachesReadLoop(m, env) && StreamWrittenWhole(env) && env.completeOk && env.endOk && env.setBootOk
  {
    if ReachesReadLoop(m, env) {
      RunByReference(m, env);
      TailOutcome(env);
    } else {
      EarlyExit(m, env);
    }
  }

  /** The failure paths after a begin abandon the session: no `esp_ota_end`
      and no set-boot. */
  lemma FailuresAbandonSession(m: bool, env: Env)
    ensures var r := Run(m, env);
      r.outcome in {Failed(BeginFailed), Failed(WriteFailed), Failed(ReadError), Failed(IncompleteData)} ==>
        !HasEnd(r.trace) && SetBoot !in r.trace
  {
    if ReachesReadLoop(m, env) {
      var r := Run(m, env);
      RunByReference(m, env);
      TailByCase(env);
      LoopCallsOnly(env);
      if r.outcome in {Failed(BeginFailed), Failed(WriteFailed), Failed(ReadError), Failed(IncompleteData)} {
        assert Tail(env).trace == [GiveMutex, HttpCleanup];
      }
    } else {
      EarlyExit(m, env);
    }
  }

  /** An empty stream (the first read returns 0) still reaches `esp_ota_end`
      with the never-begun handle 0; whether the run commits then depends on
      the writer's answers alone. */
  lemma EmptyStreamReachesEndUnbegun(m: bool, env: Env)
    requires ReachesReadLoop(m, env) && env.chunks == [] && env.streamEnd == EndOfStream && env.completeOk
    ensures var r := Run(m, env);
      && End(0) in r.trace && Begin !in r.trace && Payloads(r.trace) == []
      && (r.outcome == Restarted <==> env.endOk && env.setBootOk)
  {
    RunByReference(m, env);
    assert SessionCalls(env) == [];
    assert Connect + SessionCalls(env) + Tail(env).trace == Connect + Tail(env).trace;
    TailOutsideSession(env);
    TailStartsWithEnd(env);
    TailOutcome(env);
    PayloadsWhenWritten(env);
    assert Datas(env.chunks) == [];
  }

  /** A successful update: every chunk is written whole and in order on the
      begun session, which is ended, committed and followed by a restart. */
  lemma SuccessfulUpdate(m: bool, env: Env)
    requires ReachesReadLoop(m, env) && env.chunks != [] && StreamWrittenWhole(env)
    requires env.completeOk && env.endOk && env.setBootOk
    ensures var h := env.beginHandle;
      Run(m, env) == RunResult(Restarted, Connect + [Begin] + Writes(h, env.chunks) + [End(h), SetBoot, Restart])
  {
    RunByReference(m, env);
    TailTrace(env);
    TailOutcome(env);
    assert env.chunks[..|env.chunks|] == env.chunks;
  }

  /** A read error after the header was accepted discards the open session:
      no end, no set-boot, and both resources released once. */
  lemma ReadErrorDiscardsSession(m: bool, env: Env)
    requires ReachesReadLoop(m, env) && env.chunks != [] && env.streamEnd == NegativeRead
    requires Begun(env) && Accepted(env.chunks) == |env.chunks|
    ensures var h := env.beginHandle;
      Run(m, env) == RunResult(Failed(ReadError), Connect + [Begin] + Writes(h, env.chunks) + [GiveMutex, HttpCleanup])
  {
    RunByReference(m, env);
    assert env.chunks[..|env.chunks|] == env.chunks;
  }
}
