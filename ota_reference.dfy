/**
  A closed-form account of the read loop of `do_ota`, independent of its
  step-by-step definition: the header decision is taken on the first chunk
  and nowhere else, and after a successful begin the chunks go whole, in
  arrival order, to the writer until it rejects one or the stream ends.
  `LoopMatchesReference` proves that `OtaSpec.Loop` computes exactly this.
*/
module OtaReference {
  import opened Wrappers
  import opened Version
  import opened OtaSpec

  /** How many leading chunks the writer accepts. */
  function Accepted(cs: seq<Chunk>): (n: nat)
    ensures n <= |cs|
    ensures forall i :: 0 <= i < n ==> cs[i].writeOk
    ensures n < |cs| ==> !cs[n].writeOk
  {
    if cs == [] || !cs[0].writeOk then 0 else 1 + Accepted(cs[1..])
  }

  /** The `esp_ota_write` calls that forward `cs` whole, in order, on handle `h`. */
  function Writes(h: int, cs: seq<Chunk>): seq<Effect> {
    seq(|cs|, i requires 0 <= i < |cs| => Write(h, cs[i].data))
  }

  /** The bytes carried by `cs`, chunk by chunk. */
  function Datas(cs: seq<Chunk>): seq<seq<byte>> {
    seq(|cs|, i requires 0 <= i < |cs| => cs[i].data)
  }

  /** Total number of bytes in `cs`. */
  function TotalLength(cs: seq<Chunk>): nat {
    if cs == [] then 0 else |cs[0].data| + TotalLength(cs[1..])
  }

  /** The payloads of the `esp_ota_write` calls in a trace, in call order. */
  function Payloads(t: seq<Effect>): seq<seq<byte>> {
    if t == [] then []
    else (if t[0].Write? then [t[0].data] else []) + Payloads(t[1..])
  }

  /** How many chunks the latched loop hands to the writer: the accepted
      ones and, if there is one, the chunk the writer rejects. */
  function Offered(cs: seq<Chunk>): (k: nat)
    ensures k <= |cs|
  {
    var n := Accepted(cs);
    if n < |cs| then n + 1 else n
  }

  /** The first chunk's decision is to proceed, so `esp_ota_begin` is called. */
  predicate Opens(env: Env) {
    env.chunks != [] && Decide(env, env.chunks[0].data) == Proceed
  }

  /** ... and it succeeds, so a session is open. */
  predicate Begun(env: Env) {
    Opens(env) && env.beginOk
  }

  /** The outcome of a decision that stops the run. */
  function DecisionOutcome(d: Decision): Outcome
    requires d != Proceed
  {
    match d
    case NotFitLen => Failed(HeaderNotFitLen)
    case Reject(r) => Failed(r)
    case Skip(k) => NoUpdate(k)
  }

  /** The calls the read loop makes: a begin when the first chunk's decision
      is to proceed, then, once begun, the chunks the writer is offered. */
  function SessionCalls(env: Env): seq<Effect> {
    if !Opens(env) then []
    else if !env.beginOk then [Begin]
    else [Begin] + Writes(env.beginHandle, env.chunks[..Offered(env.chunks)])
  }

  /** The loop from its initial locals (latch clear, handle 0, length 0),
      after the calls `t`. */
  function StreamReference(env: Env, t: seq<Effect>): (LoopState, LoopExit) {
    var cs := env.chunks;
    var s := LoopState(
      Opens(env),
      if Begun(env) then env.beginHandle else 0,
      if Begun(env) then TotalLength(cs[..Accepted(cs)]) else 0,
      t + SessionCalls(env));
    var x :=
      if cs == [] then EndExit(env.streamEnd)
      else if !Opens(env) then Jumped(DecisionOutcome(Decide(env, cs[0].data)))
      else if !env.beginOk then Jumped(Failed(BeginFailed))
      else if Accepted(cs) < |cs| then Jumped(Failed(WriteFailed))
      else EndExit(env.streamEnd);
    (s, x)
  }

  lemma AcceptedCons(cs: seq<Chunk>)
    requires cs != [] && cs[0].writeOk
    ensures Accepted(cs) == 1 + Accepted(cs[1..])
  {
  }

  /** Accepting the first chunk adds its length to what the rest accepts. */
  lemma AcceptedPrefixLength(cs: seq<Chunk>)
    requires cs != [] && cs[0].writeOk
    ensures TotalLength(cs[..Accepted(cs)]) == |cs[0].data| + TotalLength(cs[1..][..Accepted(cs[1..])])
  {
    AcceptedCons(cs);
    var n := Accepted(cs[1..]);
    assert cs[..n + 1][1..] == cs[1..][..n];
  }

  /** Accepting the first chunk puts its write in front of what the rest is
      offered. */
  lemma OfferedPrefixWrites(h: int, cs: seq<Chunk>)
    requires cs != [] && cs[0].writeOk
    ensures Writes(h, cs[..Offered(cs)]) == [Write(h, cs[0].data)] + Writes(h, cs[1..][..Offered(cs[1..])])
  {
    AcceptedCons(cs);
    var k := Offered(cs[1..]);
    assert Offered(cs) == k + 1;
    var lhs := Writes(h, cs[..k + 1]);
    var rhs := [Write(h, cs[0].data)] + Writes(h, cs[1..][..k]);
    assert |lhs| == |rhs|;
    forall i | 0 <= i < |lhs| ensures lhs[i] == rhs[i] {
      if 0 < i {
        assert rhs[i] == Writes(h, cs[1..][..k])[i - 1];
      }
    }
  }

  /** With the latch set, a step is a write. */
  lemma LatchedStep(env: Env, s: LoopState, c: Chunk)
    requires s.headerChecked
    ensures Step(env, s, c) == WriteChunk(s, c)
  {
  }

  /** Once the latch is set, the loop only writes: every chunk whole, in
      order, until the writer rejects one, and the counter grows by the bytes
      the writer accepted. */
  lemma {:induction false} LatchedLoop(env: Env, s: LoopState, cs: seq<Chunk>, e: StreamEnd)
    requires s.headerChecked
    ensures Loop(env, s, cs, e).0 ==
      s.(length := s.length + TotalLength(cs[..Accepted(cs)]), trace := s.trace + Writes(s.handle, cs[..Offered(cs)]))
    ensures Loop(env, s, cs, e).1 ==
      if Accepted(cs) < |cs| then Jumped(Failed(WriteFailed)) else EndExit(e)
    decreases |cs|
  {
    if cs == [] {
      assert Writes(s.handle, cs[..0]) == [];
    } else {
      var h := s.handle;
      var w := Write(h, cs[0].data);
      LatchedStep(env, s, cs[0]);
      if !cs[0].writeOk {
        assert Writes(h, cs[..1]) == [w];
      } else {
        var s' := s.(trace := s.trace + [w], length := s.length + |cs[0].data|);
        assert Loop(env, s, cs, e) == Loop(env, s', cs[1..], e);
        LatchedLoop(env, s', cs[1..], e);
        AcceptedCons(cs);
        AcceptedPrefixLength(cs);
        OfferedPrefixWrites(h, cs);
      }
    }
  }

  /** The read loop computes the closed form. */
  lemma LoopMatchesReference(env: Env, t: seq<Effect>)
    ensures Loop(env, LoopState(false, 0, 0, t), env.chunks, env.streamEnd) == StreamReference(env, t)
  {
    var cs := env.chunks;
    if cs != [] && Decide(env, cs[0].data) == Proceed && env.beginOk {
      var h := env.beginHandle;
      var s1 := LoopState(true, h, 0, t + [Begin]);
      LatchedLoop(env, s1, cs, env.streamEnd);
      LatchedStep(env, s1, cs[0]);
      assert Loop(env, LoopState(false, 0, 0, t), cs, env.streamEnd) == Loop(env, s1, cs, env.streamEnd);
      assert t + SessionCalls(env) == t + [Begin] + Writes(h, cs[..Offered(cs)]);
    } else if cs == [] || Decide(env, cs[0].data) != Proceed {
      assert t + SessionCalls(env) == t;
    }
  }

  lemma {:induction false} PayloadsAppend(a: seq<Effect>, b: seq<Effect>)
    ensures Payloads(a + b) == Payloads(a) + Payloads(b)
    decreases |a|
  {
    if a == [] {
      assert a + b == b;
    } else {
      var head := if a[0].Write? then [a[0].data] else [];
      assert (a + b)[0] == a[0] && (a + b)[1..] == a[1..] + b;
      assert Payloads(a + b) == head + Payloads(a[1..] + b);
      PayloadsAppend(a[1..], b);
    }
  }

  /** The writes of `cs` carry exactly the chunks' bytes, in order. */
  lemma {:induction false} PayloadsOfWrites(h: int, cs: seq<Chunk>)
    ensures Payloads(Writes(h, cs)) == Datas(cs)
    decreases |cs|
  {
    if cs != [] {
      assert Writes(h, cs)[1..] == Writes(h, cs[1..]);
      PayloadsOfWrites(h, cs[1..]);
      assert Datas(cs) == [cs[0].data] + Datas(cs[1..]);
    }
  }

  /** A trace without `esp_ota_write` calls has no payloads. */
  lemma {:induction false} PayloadsWithoutWrites(t: seq<Effect>)
    requires forall i :: 0 <= i < |t| ==> !t[i].Write?
    ensures Payloads(t) == []
    decreases |t|
  {
    if t != [] {
      PayloadsWithoutWrites(t[1..]);
    }
  }

  /** The loop leaves by its `break` exactly when the stream ends with a 0
      read after every chunk went to the writer and was accepted (vacuously
      so for an empty stream). */
  predicate StreamWrittenWhole(env: Env) {
    && env.streamEnd == EndOfStream
    && (env.chunks != [] ==> Begun(env) && Accepted(env.chunks) == |env.chunks|)
  }

  lemma DrainedIff(env: Env, t: seq<Effect>)
    ensures StreamReference(env, t).1 == Drained <==> StreamWrittenWhole(env)
    ensures StreamReference(env, t).1 != Jumped(Restarted)
  {
  }

  /** The read loop is never left by a restart. */
  lemma LoopNeverRestarts(env: Env, t: seq<Effect>)
    ensures Loop(env, LoopState(false, 0, 0, t), env.chunks, env.streamEnd).1 != Jumped(Restarted)
  {
    LoopMatchesReference(env, t);
    DrainedIff(env, t);
  }

  /** The session calls: a begin first, then only writes on the begun handle. */
  lemma SessionCallsShape(env: Env)
    ensures var sc := SessionCalls(env);
      && (sc != [] <==> Opens(env))
      && (sc != [] ==> sc[0] == Begin && forall e :: e in sc[1..] ==> e.Write? && e.handle == env.beginHandle)
      && (1 < |sc| ==> Begun(env))
  {
    var sc := SessionCalls(env);
    if 1 < |sc| {
      var h := env.beginHandle;
      var w := Writes(h, env.chunks[..Offered(env.chunks)]);
      assert sc[1..] == w;
      forall e | e in w ensures e.Write? && e.handle == h {
        var i :| 0 <= i < |w| && w[i] == e;
      }
    }
  }

  /** The session calls carry the offered chunks' bytes, whole and in order. */
  lemma SessionPayloads(env: Env)
    ensures Payloads(SessionCalls(env)) == if Begun(env) then Datas(env.chunks[..Offered(env.chunks)]) else []
  {
    PayloadsWithoutWrites([Begin]);
    if Begun(env) {
      var ws := env.chunks[..Offered(env.chunks)];
      PayloadsAppend([Begin], Writes(env.beginHandle, ws));
      PayloadsOfWrites(env.beginHandle, ws);
    } else if Opens(env) {
      assert SessionCalls(env) == [Begin];
    } else {
      assert SessionCalls(env) == [];
    }
  }
}
