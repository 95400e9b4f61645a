/** What a run does with the messages it reads: nothing is lost, duplicated, reordered or
    changed on the way. */
module ProxyRouting {
  import opened Wrappers
  import opened Frames
  import opened Proxy

  // ----- what a run reads

  function BackRead(ins: seq<Input>): (ms: seq<Envelope>) {
    if ins == [] then []
    else
      var i := ins[|ins| - 1];
      BackRead(ins[..|ins| - 1]) + if i.backPolled then [i.backMsg] else []
  }

  function FrontRead(t0: nat, ins: seq<Input>): (ms: seq<Envelope>) {
    if ins == [] then []
    else
      var p, i := ins[..|ins| - 1], ins[|ins| - 1];
      FrontRead(t0, p) + if Polled(After(t0, p), i).frontReady then [i.frontMsg] else []
  }

  // The worker identities known when each of the front messages was read.
  function Known(t0: nat, ins: seq<Input>): (r: seq<seq<Frame>>)
    ensures |r| == |FrontRead(t0, ins)|
  {
    if ins == [] then []
    else
      var p, i := ins[..|ins| - 1], ins[|ins| - 1];
      Known(t0, p) +
        if Polled(After(t0, p), i).frontReady then [Identities(Registered(After(t0, p), i))] else []
  }

  // ----- what a run emits

  predicate FromBack(o: Output) {
    o.Relay?
  }

  predicate FromFront(o: Output) {
    o.Forward? || o.Reply?
  }

  function Select(os: seq<Output>, p: Output -> bool): seq<Output> {
    if os == [] then []
    else Select(os[..|os| - 1], p) + if p(os[|os| - 1]) then [os[|os| - 1]] else []
  }

  lemma {:induction false} SelectConcat(a: seq<Output>, b: seq<Output>, p: Output -> bool)
    ensures Select(a + b, p) == Select(a, p) + Select(b, p)
    decreases |b|
  {
    if b == [] {
      assert a + b == a;
    } else {
      assert (a + b)[..|a + b| - 1] == a + b[..|b| - 1];
      SelectConcat(a, b[..|b| - 1], p);
    }
  }

  lemma {:induction false} SelectNone(os: seq<Output>, p: Output -> bool)
    requires forall k :: 0 <= k < |os| ==> !p(os[k])
    ensures Select(os, p) == []
    decreases |os|
  {
    if os != [] {
      SelectNone(os[..|os| - 1], p);
    }
  }

  lemma SelectOne(os: seq<Output>, p: Output -> bool)
    requires |os| <= 1 && forall k :: 0 <= k < |os| ==> p(os[k])
    ensures Select(os, p) == os
  {
    if |os| == 1 {
      assert os[..0] == [];
    }
  }

  // The answers among backend messages: those with at least two frames after the identity.
  function Answers(ms: seq<Envelope>): seq<Output> {
    if ms == [] then []
    else
      var m := ms[|ms| - 1];
      Answers(ms[..|ms| - 1]) + if |m| > 2 then [Relay(m[1..])] else []
  }

  lemma Select3(a: seq<Output>, b: seq<Output>, c: seq<Output>, p: Output -> bool)
    ensures Select(a + b + c, p) == Select(a, p) + Select(b, p) + Select(c, p)
  {
    SelectConcat(a + b, c, p);
    SelectConcat(a, b, p);
  }

  // The heartbeats of one iteration.
  function RoundOutput(s: State, i: Input): seq<Output> {
    if Fires(s, i) then Pings(Registered(s, i)) else []
  }

  lemma OutputsSelected(s: State, i: Input)
    ensures Select(Outputs(s, i), FromBack) == BackendOutput(i)
    ensures Select(Outputs(s, i), FromFront) == FrontendOutput(s, i)
  {
    var back, front, pings := BackendOutput(i), FrontendOutput(s, i), RoundOutput(s, i);
    BackendSelected(i);
    FrontendSelected(s, i);
    RoundSelected(s, i);
    assert Outputs(s, i) == back + front + pings;
    hide *;
    Select3(back, front, pings, FromBack);
    Select3(back, front, pings, FromFront);
    assert back + [] + [] == back && [] + front + [] == front;
  }

  lemma BackendSelected(i: Input)
    ensures Select(BackendOutput(i), FromBack) == BackendOutput(i)
    ensures Select(BackendOutput(i), FromFront) == []
  {
    SelectOne(BackendOutput(i), FromBack);
    SelectNone(BackendOutput(i), FromFront);
  }

  lemma FrontendSelected(s: State, i: Input)
    ensures Select(FrontendOutput(s, i), FromBack) == []
    ensures Select(FrontendOutput(s, i), FromFront) == FrontendOutput(s, i)
  {
    hide Registered, Polled;
    SelectNone(FrontendOutput(s, i), FromBack);
    SelectOne(FrontendOutput(s, i), FromFront);
  }

  lemma RoundSelected(s: State, i: Input)
    ensures Select(RoundOutput(s, i), FromBack) == []
    ensures Select(RoundOutput(s, i), FromFront) == []
  {
    hide Registered, Fires;
    SelectNone(RoundOutput(s, i), FromBack);
    SelectNone(RoundOutput(s, i), FromFront);
  }

  lemma TraceStep(t0: nat, ins: seq<Input>, p: Output -> bool)
    requires ins != []
    ensures var before := ins[..|ins| - 1];
      Select(Trace(t0, ins), p) ==
        Select(Trace(t0, before), p) + Select(Outputs(After(t0, before), ins[|ins| - 1]), p)
  {
    var before := ins[..|ins| - 1];
    hide Select, Outputs, After;
    SelectConcat(Trace(t0, before), Outputs(After(t0, before), ins[|ins| - 1]), p);
  }

  lemma AnswersStep(ms: seq<Envelope>, m: Envelope)
    ensures Answers(ms + [m]) == Answers(ms) + if |m| > 2 then [Relay(m[1..])] else []
  {
    assert (ms + [m])[..|ms|] == ms;
  }

  /** The answers sent to the front are exactly the backend messages with at least two frames
      after the identity, without it, in the order they were read. */
  lemma {:induction false} AnswersConserved(t0: nat, ins: seq<Input>)
    ensures Select(Trace(t0, ins), FromBack) == Answers(BackRead(ins))
    decreases |ins|
  {
    if ins != [] {
      var p, i := ins[..|ins| - 1], ins[|ins| - 1];
      AnswersConserved(t0, p);
      TraceStep(t0, ins, FromBack);
      OutputsSelected(After(t0, p), i);
      BackReadStep(ins);
      AnswersStep(BackRead(p), i.backMsg);
      hide Select, Outputs, After, Trace, BackRead, Answers;
      assert !i.backPolled ==> Answers(BackRead(p)) + BackendOutput(i) == Answers(BackRead(p));
    }
  }

  lemma BackReadStep(ins: seq<Input>)
    requires ins != []
    ensures var p, i := ins[..|ins| - 1], ins[|ins| - 1];
      BackRead(ins) == if i.backPolled then BackRead(p) + [i.backMsg] else BackRead(p)
  {
  }

  // What a front message read with the workers `ids` known may turn into.
  predicate Serves(o: Output, m: Envelope, ids: seq<Frame>) {
    if ids == [] then o == Reply(m[0]) else o.Forward? && o.m == m && o.worker in ids
  }

  predicate AllServe(os: seq<Output>, ms: seq<Envelope>, ids: seq<seq<Frame>>) {
    |os| == |ms| == |ids| && forall k :: 0 <= k < |os| ==> Serves(os[k], ms[k], ids[k])
  }

  /** Every front message gives exactly one output, in order: itself for one of the workers
      known at the time, or, when there is none, the error to its own sender. */
  lemma {:induction false} RequestsConserved(t0: nat, ins: seq<Input>)
    ensures AllServe(Select(Trace(t0, ins), FromFront), FrontRead(t0, ins), Known(t0, ins))
    decreases |ins|
  {
    if ins != [] {
      var p, i := ins[..|ins| - 1], ins[|ins| - 1];
      var s := After(t0, p);
      RequestsConserved(t0, p);
      ReadUnfolds(t0, ins);
      hide *;
      TraceStep(t0, ins, FromFront);
      OutputsSelected(s, i);
      ServedHere(s, i);
      ServeMore(Select(Trace(t0, p), FromFront), FrontRead(t0, p), Known(t0, p),
        FrontendOutput(s, i), i.frontMsg, Identities(Registered(s, i)), Polled(s, i).frontReady);
    }
  }

  lemma ReadUnfolds(t0: nat, ins: seq<Input>)
    requires ins != []
    ensures var p, i := ins[..|ins| - 1], ins[|ins| - 1];
      var s := After(t0, p);
      var ready := Polled(s, i).frontReady;
      && FrontRead(t0, ins) == FrontRead(t0, p) + (if ready then [i.frontMsg] else [])
      && Known(t0, ins) == Known(t0, p) + (if ready then [Identities(Registered(s, i))] else [])
  {
    hide Polled, After, Registered, Identities;
  }

  lemma ServeMore(os: seq<Output>, ms: seq<Envelope>, ids: seq<seq<Frame>>,
      out: seq<Output>, m: Envelope, known: seq<Frame>, ready: bool)
    requires AllServe(os, ms, ids)
    requires if ready then |out| == 1 && Serves(out[0], m, known) else out == []
    ensures AllServe(os + out, ms + (if ready then [m] else []), ids + (if ready then [known] else []))
  {
    hide Serves;
  }

  lemma ServedHere(s: State, i: Input)
    ensures var out := FrontendOutput(s, i);
      if Polled(s, i).frontReady then |out| == 1 && Serves(out[0], i.frontMsg, Identities(Registered(s, i)))
      else out == []
  {
    var ws := Registered(s, i);
    if Polled(s, i).frontReady && ws != [] {
      var k := i.pick % |ws|;
      assert Identities(ws)[k] == ws[k].identity;
    }
  }

  // ----- on the wire

  lemma {:induction false} ToFrontConcat(a: seq<Output>, b: seq<Output>)
    ensures ToFront(a + b) == ToFront(a) + ToFront(b)
    decreases |b|
  {
    if b == [] {
      assert a + b == a;
    } else {
      assert (a + b)[..|a + b| - 1] == a + b[..|b| - 1];
      ToFrontConcat(a, b[..|b| - 1]);
    }
  }

  lemma {:induction false} ToBackConcat(a: seq<Output>, b: seq<Output>)
    ensures ToBack(a + b) == ToBack(a) + ToBack(b)
    decreases |b|
  {
    if b == [] {
      assert a + b == a;
    } else {
      assert (a + b)[..|a + b| - 1] == a + b[..|b| - 1];
      ToBackConcat(a, b[..|b| - 1]);
    }
  }

  lemma {:induction false} PingsStayBack(os: seq<Output>)
    requires forall k :: 0 <= k < |os| ==> os[k].Ping?
    ensures ToFront(os) == []
    decreases |os|
  {
    if os != [] {
      PingsStayBack(os[..|os| - 1]);
    }
  }

  lemma {:induction false} RelaysStayFront(os: seq<Output>)
    requires forall k :: 0 <= k < |os| ==> os[k].Relay?
    ensures ToBack(os) == []
    decreases |os|
  {
    if os != [] {
      RelaysStayFront(os[..|os| - 1]);
    }
  }

  lemma SingleMessages(o: Output)
    ensures ToBack([o]) == match o
      case Forward(worker, m) => [[worker] + m]
      case Ping(worker) => [[worker, HEARTBEAT_KEY]]
      case _ => []
    ensures ToFront([o]) == match o
      case Relay(m) => [m]
      case Reply(client) => [[client, [], NO_WORKER]]
      case _ => []
  {
    assert [o][..0] == [];
  }

  // What one iteration puts on each socket, stage by stage.
  lemma OutputStages(s: State, i: Input)
    ensures ToFront(Outputs(s, i)) == ToFront(BackendOutput(i)) + ToFront(FrontendOutput(s, i))
    ensures ToBack(Outputs(s, i)) == ToBack(FrontendOutput(s, i)) + ToBack(RoundOutput(s, i))
  {
    var back, front, round := BackendOutput(i), FrontendOutput(s, i), RoundOutput(s, i);
    assert Outputs(s, i) == back + front + round;
    PingsStayBack(round);
    RelaysStayFront(back);
    hide *;
    ToFrontConcat(back + front, round);
    ToFrontConcat(back, front);
    ToBackConcat(back + front, round);
    ToBackConcat(back, front);
    assert ToFront(back) + ToFront(front) + [] == ToFront(back) + ToFront(front);
    assert [] + ToBack(front) == ToBack(front);
  }

  // A run emits what its beginning emits, then the outputs of the next iteration, then more.
  lemma {:induction false} TracePrefix(t0: nat, ins: seq<Input>, k: nat)
    requires k <= |ins|
    ensures ToFront(Trace(t0, ins[..k])) <= ToFront(Trace(t0, ins))
    ensures ToBack(Trace(t0, ins[..k])) <= ToBack(Trace(t0, ins))
    decreases |ins|
  {
    hide ToFront, ToBack, Outputs, After;
    if k == |ins| {
      assert ins[..k] == ins;
    } else {
      var p := ins[..|ins| - 1];
      assert p[..k] == ins[..k];
      TracePrefix(t0, p, k);
      var out := Outputs(After(t0, p), ins[|ins| - 1]);
      ToFrontConcat(Trace(t0, p), out);
      ToBackConcat(Trace(t0, p), out);
    }
  }

  // The messages of iteration `k`, in their place among those of the run.
  lemma TraceAt(t0: nat, ins: seq<Input>, k: nat)
    requires k < |ins|
    ensures var s, i := After(t0, ins[..k]), ins[k];
      && ToFront(Trace(t0, ins[..k + 1])) == ToFront(Trace(t0, ins[..k]))
        + (ToFront(BackendOutput(i)) + ToFront(FrontendOutput(s, i)))
      && ToBack(Trace(t0, ins[..k + 1])) == ToBack(Trace(t0, ins[..k]))
        + (ToBack(FrontendOutput(s, i)) + ToBack(RoundOutput(s, i)))
      && ToFront(Trace(t0, ins[..k + 1])) <= ToFront(Trace(t0, ins))
      && ToBack(Trace(t0, ins[..k + 1])) <= ToBack(Trace(t0, ins))
  {
    var next, s, i := ins[..k + 1], After(t0, ins[..k]), ins[k];
    assert next[..|next| - 1] == ins[..k];
    assert Trace(t0, next) == Trace(t0, ins[..k]) + Outputs(s, i);
    hide *;
    TracePrefix(t0, ins, k + 1);
    OutputStages(s, i);
    ToFrontConcat(Trace(t0, ins[..k]), Outputs(s, i));
    ToBackConcat(Trace(t0, ins[..k]), Outputs(s, i));
  }

  // One heartbeat for each worker.
  function Heartbeats(ws: seq<Worker>): (ms: seq<Message>)
    ensures |ms| == |ws|
  {
    seq(|ws|, k requires 0 <= k < |ws| => [ws[k].identity, "HEARTBEAT"])
  }

  lemma {:induction false} PingsSent(ws: seq<Worker>)
    ensures ToBack(Pings(ws)) == Heartbeats(ws)
  {
    if ws != [] {
      var n := |ws| - 1;
      PingsSent(ws[..n]);
      assert Pings(ws)[..n] == Pings(ws[..n]);
      assert Heartbeats(ws) == Heartbeats(ws[..n]) + [[ws[n].identity, "HEARTBEAT"]];
    }
  }

  /** What one more iteration puts on the sockets, byte for byte.  To the front: the backend
      message without its identity if two frames are left, and "not have woker!" for a client
      that is read while there is no worker.  To the back: the client message behind the
      identity of a worker, and, when the round is due, one heartbeat for each worker. */
  lemma {:induction false} WireStep(t0: nat, ins: seq<Input>, i: Input)
    ensures var s, all := After(t0, ins), ins + [i];
      var ws, read := Registered(s, i), Polled(s, i).frontReady;
      && ToFront(Trace(t0, all)) == ToFront(Trace(t0, ins))
        + (if i.backPolled && |i.backMsg| > 2 then [i.backMsg[1..]] else [])
        + (if read && ws == [] then [[i.frontMsg[0], "", "not have woker!"]] else [])
      && ToBack(Trace(t0, all)) == ToBack(Trace(t0, ins))
        + (if read && ws != [] then [[ws[i.pick % |ws|].identity] + i.frontMsg] else [])
        + (if Fires(s, i) then Heartbeats(ws) else [])
  {
    hide *;
    var s := After(t0, ins);
    TraceMore(t0, ins, i);
    StagesSent(s, i);
    OutputStages(s, i);
    ToFrontConcat(Trace(t0, ins), Outputs(s, i));
    ToBackConcat(Trace(t0, ins), Outputs(s, i));
    RegroupMessages(ToFront(Trace(t0, ins)), ToFront(BackendOutput(i)), ToFront(FrontendOutput(s, i)));
    RegroupMessages(ToBack(Trace(t0, ins)), ToBack(FrontendOutput(s, i)), ToBack(RoundOutput(s, i)));
  }

  lemma TraceMore(t0: nat, ins: seq<Input>, i: Input)
    ensures Trace(t0, ins + [i]) == Trace(t0, ins) + Outputs(After(t0, ins), i)
  {
    assert (ins + [i])[..|ins|] == ins;
  }

  lemma RegroupMessages(a: seq<Message>, b: seq<Message>, c: seq<Message>)
    ensures a + (b + c) == a + b + c
  {
  }

  lemma StagesSent(s: State, i: Input)
    ensures var ws, read := Registered(s, i), Polled(s, i).frontReady;
      && ToFront(BackendOutput(i)) == (if i.backPolled && |i.backMsg| > 2 then [i.backMsg[1..]] else [])
      && ToFront(FrontendOutput(s, i))
        == (if read && ws == [] then [[i.frontMsg[0], "", "not have woker!"]] else [])
      && ToBack(FrontendOutput(s, i))
        == (if read && ws != [] then [[ws[i.pick % |ws|].identity] + i.frontMsg] else [])
      && ToBack(RoundOutput(s, i)) == (if Fires(s, i) then Heartbeats(ws) else [])
  {
    hide Registered, Polled, Fires, ToFront, ToBack, Pings, Heartbeats;
    var ws := Registered(s, i);
    NothingSent();
    SingleMessages(Relay(if |i.backMsg| > 2 then i.backMsg[1..] else i.backMsg));
    SingleMessages(Reply(i.frontMsg[0]));
    if ws != [] {
      SingleMessages(Forward(ws[i.pick % |ws|].identity, i.frontMsg));
    }
    PingsSent(ws);
  }

  lemma NothingSent()
    ensures ToFront([]) == [] && ToBack([]) == []
  {
  }

  /** The receivers on both sides read off exactly the messages that a run emits. */
  lemma {:induction false} WireReadsBack(t0: nat, ins: seq<Input>)
    ensures var os := Trace(t0, ins);
      && ReceiveMany(FramedAll(ToFront(os)) + [], |ToFront(os)|) == Some((ToFront(os), []))
      && ReceiveMany(FramedAll(ToBack(os)) + [], |ToBack(os)|) == Some((ToBack(os), []))
  {
    SelfDelimiting(ToFront(Trace(t0, ins)), []);
    SelfDelimiting(ToBack(Trace(t0, ins)), []);
  }

  // ----- the stale front bit

  // The last iteration that polled the front too.
  function LastFullPoll(t0: nat, ins: seq<Input>): (r: Option<nat>)
    ensures r.Some? ==> r.value < |ins|
  {
    if ins == [] then None
    else
      var p := ins[..|ins| - 1];
      if After(t0, p).workers != [] then Some(|p|) else LastFullPoll(t0, p)
  }

  // At iteration `k` the table was empty.
  predicate EmptyAt(t0: nat, ins: seq<Input>, k: nat)
    requires k <= |ins|
  {
    After(t0, ins[..k]).workers == []
  }

  lemma {:induction false} EmptySinceFullPoll(t0: nat, ins: seq<Input>)
    ensures var r := LastFullPoll(t0, ins);
      && (r.Some? ==> !EmptyAt(t0, ins, r.value))
      && forall j :: (if r.Some? then r.value + 1 else 0) <= j < |ins| ==> EmptyAt(t0, ins, j)
    decreases |ins|
  {
    hide After;
    if ins != [] {
      var p := ins[..|ins| - 1];
      EmptySinceFullPoll(t0, p);
      forall j | 0 <= j <= |p| ensures EmptyAt(t0, ins, j) <==> EmptyAt(t0, p, j) {
        assert p[..j] == ins[..j];
      }
      assert p[..|p|] == p;
    }
  }

  lemma {:induction false} FrontBit(t0: nat, ins: seq<Input>)
    ensures After(t0, ins).frontReady <==>
      LastFullPoll(t0, ins).Some? && ins[LastFullPoll(t0, ins).value].frontPolled
    decreases |ins|
  {
    if ins != [] {
      FrontBit(t0, ins[..|ins| - 1]);
    }
  }

  /** A client is told that there is no worker if and only if the table is empty at that
      moment and the last poll that looked at the front, when there still were workers, found
      it readable.  Every poll since then saw an empty table, and the check at the end of that
      iteration is what emptied it: every worker it found had expired. */
  lemma StaleReadiness(t0: nat, ins: seq<Input>, i: Input)
    ensures var s, j := After(t0, ins), LastFullPoll(t0, ins);
      Reply(i.frontMsg[0]) in FrontendOutput(s, i) <==>
        s.workers == [] && Registered(s, i) == [] && j.Some? && ins[j.value].frontPolled
    ensures var s, j := After(t0, ins), LastFullPoll(t0, ins);
      Reply(i.frontMsg[0]) in FrontendOutput(s, i) ==>
        var before := After(t0, ins[..j.value]);
        && before.workers != []
        && (forall k :: j.value < k <= |ins| ==> EmptyAt(t0, ins, k))
        && (forall w :: w in Registered(before, ins[j.value]) ==>
          Clock(ins[j.value].checkTime) > w.expiry)
  {
    FrontBit(t0, ins);
    var s, j := After(t0, ins), LastFullPoll(t0, ins);
    ReplyWhen(s, i);
    hide FrontendOutput, Registered, Polled, LastFullPoll;
    if Reply(i.frontMsg[0]) in FrontendOutput(s, i) {
      assert ins[..|ins|] == ins;
      EmptySinceFullPoll(t0, ins);
      EmptiedBy(t0, ins, j.value);
    }
  }

  lemma ReplyWhen(s: State, i: Input)
    ensures Reply(i.frontMsg[0]) in FrontendOutput(s, i) <==>
      s.workers == [] && Registered(s, i) == [] && s.frontReady
  {
  }

  lemma EmptiedBy(t0: nat, ins: seq<Input>, j: nat)
    requires j < |ins| && EmptyAt(t0, ins, |ins|)
    requires forall k :: j < k < |ins| ==> EmptyAt(t0, ins, k)
    ensures forall k :: j < k <= |ins| ==> EmptyAt(t0, ins, k)
    ensures forall w :: w in Registered(After(t0, ins[..j]), ins[j]) ==> Clock(ins[j].checkTime) > w.expiry
  {
    var next := ins[..j + 1];
    assert next[..|next| - 1] == ins[..j];
    assert EmptyAt(t0, ins, j + 1);
    hide Registered, Clock;
    AllExpired(Registered(After(t0, ins[..j]), ins[j]), Clock(ins[j].checkTime));
  }

  /** As long as the bit is stale, every iteration reads a front message without having
      polled for one: since the last poll that looked, the run has read one per iteration. */
  lemma {:induction false} StaleReads(t0: nat, ins: seq<Input>)
    requires var j := LastFullPoll(t0, ins); j.Some? && ins[j.value].frontPolled
    ensures var j := LastFullPoll(t0, ins).value;
      |FrontRead(t0, ins)| == |FrontRead(t0, ins[..j])| + (|ins| - j)
    decreases |ins|
  {
    var n := |ins| - 1;
    var p, j := ins[..n], LastFullPoll(t0, ins).value;
    FrontBit(t0, ins);
    if j < n {
      assert p[..j] == ins[..j];
      FrontBit(t0, p);
      StaleReads(t0, p);
    }
  }

  /** While the table is empty and the bit is set, the next iteration reads the front whatever
      its poll says. */
  lemma {:induction false} StaleRead(t0: nat, ins: seq<Input>, i: Input)
    requires After(t0, ins).workers == []
    ensures FrontRead(t0, ins + [i]) ==
      FrontRead(t0, ins) + (if After(t0, ins).frontReady then [i.frontMsg] else [])
  {
    assert (ins + [i])[..|ins|] == ins;
  }

  lemma {:induction false} AllExpired(ws: seq<Worker>, clock: int)
    requires Check(ws, clock) == []
    ensures forall w :: w in ws ==> clock > w.expiry
  {
    if ws != [] {
      AllExpired(ws[1..], clock);
      assert forall w :: w in ws <==> w == ws[0] || w in ws[1..];
    }
  }

  // The loop with both bits cleared before every poll.
  function Cleared(s: State): State {
    s.(backReady := false, frontReady := false)
  }

  function AfterCleared(t0: nat, ins: seq<Input>): State {
    if ins == [] then Initial(t0)
    else Next(Cleared(AfterCleared(t0, ins[..|ins| - 1])), ins[|ins| - 1])
  }

  function TraceCleared(t0: nat, ins: seq<Input>): seq<Output> {
    if ins == [] then []
    else
      var p, i := ins[..|ins| - 1], ins[|ins| - 1];
      TraceCleared(t0, p) + Outputs(Cleared(AfterCleared(t0, p)), i)
  }

  /** With the bits cleared before each poll, no run would ever emit the error reply. */
  lemma {:induction false} ClearedNeverReplies(t0: nat, ins: seq<Input>)
    ensures forall k :: 0 <= k < |TraceCleared(t0, ins)| ==> !TraceCleared(t0, ins)[k].Reply?
    decreases |ins|
  {
    if ins != [] {
      var p, i := ins[..|ins| - 1], ins[|ins| - 1];
      ClearedNeverReplies(t0, p);
      NoReplyWhenCleared(AfterCleared(t0, p), i);
      hide Outputs, AfterCleared;
    }
  }

  lemma NoReplyWhenCleared(s: State, i: Input)
    ensures forall k :: 0 <= k < |Outputs(Cleared(s), i)| ==> !Outputs(Cleared(s), i)[k].Reply?
  {
    assert Polled(Cleared(s), i).frontReady ==> Registered(Cleared(s), i) != [];
  }
}
