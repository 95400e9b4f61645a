/** Requests and heartbeats that leave a run and come back to it.  A router strips the
    worker's identity on the way out and puts it back on the way in: a worker that is sent
    `[w] + m` gets `m`, and what it sends back, `r`, is read as `[w] + r`. */
module ProxyRoundTrips {
  import opened Wrappers
  import opened Frames
  import opened Proxy
  import opened ProxyTable
  import opened ProxyRouting

  // The next message on the front socket after iterations `0..k`.
  predicate NextFront(t0: nat, ins: seq<Input>, k: nat, m: Message)
    requires k <= |ins|
  {
    var sent, at := ToFront(Trace(t0, ins)), |ToFront(Trace(t0, ins[..k]))|;
    at < |sent| && sent[at] == m
  }

  predicate NextBack(t0: nat, ins: seq<Input>, k: nat, m: Message)
    requires k <= |ins|
  {
    var sent, at := ToBack(Trace(t0, ins)), |ToBack(Trace(t0, ins[..k]))|;
    at < |sent| && sent[at] == m
  }

  // Iteration `k` forwards `request` to `w`.
  predicate ForwardsAt(t0: nat, ins: seq<Input>, k: nat, w: Frame, request: Envelope)
    requires k < |ins|
  {
    Forward(w, request) in Outputs(After(t0, ins[..k]), ins[k])
  }

  // Iteration `k` reads `m` from the backend.
  predicate ReadsAt(ins: seq<Input>, k: nat, m: Envelope)
    requires k < |ins|
  {
    ins[k].backPolled && ins[k].backMsg == m
  }

  /** A request that the run reads from client `request[0]` and forwards to `w` leaves the back
      socket as `[w] + request`, next in line; an answer of `w` under the same client frame
      leaves the front socket for that client, next in line and with the worker's frames
      unchanged, if it has any, and is the only thing that the run relays for it. */
  lemma {:induction false} EnvelopeRoundTrip(t0: nat, ins: seq<Input>, k: nat, k': nat, w: Frame, request: Envelope, answer: Message)
    requires k < k' < |ins|
    requires ForwardsAt(t0, ins, k, w, request)
    requires ReadsAt(ins, k', [w] + ([request[0]] + answer))
    ensures FrontRead(t0, ins[..k + 1]) == FrontRead(t0, ins[..k]) + [request]
    ensures w in Identities(Registered(After(t0, ins[..k]), ins[k]))
    ensures NextBack(t0, ins, k, [w] + request)
    ensures answer != [] ==> NextFront(t0, ins, k', [request[0]] + answer)
    ensures Select(Trace(t0, ins[..k' + 1]), FromBack) == Select(Trace(t0, ins[..k']), FromBack)
      + (if answer != [] then [Relay([request[0]] + answer)] else [])
  {
    ForwardedFrom(After(t0, ins[..k]), ins[k], w, request);
    FrontReadAt(t0, ins, k);
    hide *;
    FirstBack(t0, ins, k, w, request);
    AnswerRelayed(t0, ins, k', w, request[0], answer);
  }

  lemma FrontReadAt(t0: nat, ins: seq<Input>, k: nat)
    requires k < |ins|
    ensures var s, i := After(t0, ins[..k]), ins[k];
      FrontRead(t0, ins[..k + 1]) ==
        FrontRead(t0, ins[..k]) + (if Polled(s, i).frontReady then [i.frontMsg] else [])
  {
    assert ins[..k + 1][..k] == ins[..k];
  }

  // A forwarded request is the front message of the iteration, for a worker of the table.
  lemma ForwardedFrom(s: State, i: Input, w: Frame, request: Envelope)
    requires Forward(w, request) in Outputs(s, i)
    ensures Polled(s, i).frontReady && request == i.frontMsg
    ensures FrontendOutput(s, i) == [Forward(w, request)]
    ensures w in Identities(Registered(s, i))
  {
    var ws := Registered(s, i);
    assert Forward(w, request) in FrontendOutput(s, i);
    var at := i.pick % |ws|;
    assert Identities(ws)[at] == w;
  }

  lemma {:induction false} FirstBack(t0: nat, ins: seq<Input>, k: nat, w: Frame, request: Envelope)
    requires k < |ins| && FrontendOutput(After(t0, ins[..k]), ins[k]) == [Forward(w, request)]
    ensures NextBack(t0, ins, k, [w] + request)
  {
    hide *;
    TraceAt(t0, ins, k);
    SingleMessages(Forward(w, request));
    FirstOf(ToBack(Trace(t0, ins)), ToBack(Trace(t0, ins[..k])), [w] + request,
      ToBack(RoundOutput(After(t0, ins[..k]), ins[k])), ToBack(Trace(t0, ins[..k + 1])));
    NextBackIs(t0, ins, k, [w] + request);
  }

  lemma {:induction false} AnswerRelayed(t0: nat, ins: seq<Input>, k: nat, w: Frame, client: Frame, answer: Message)
    requires k < |ins| && ReadsAt(ins, k, [w] + ([client] + answer))
    ensures answer != [] ==> NextFront(t0, ins, k, [client] + answer)
    ensures Select(Trace(t0, ins[..k + 1]), FromBack) == Select(Trace(t0, ins[..k]), FromBack)
      + (if answer != [] then [Relay([client] + answer)] else [])
  {
    var m := [client] + answer;
    assert ins[k].backMsg[1..] == m;
    assert BackendOutput(ins[k]) == if answer != [] then [Relay(m)] else [];
    hide *;
    RelayedAt(t0, ins, k);
    if answer != [] {
      TraceAt(t0, ins, k);
      SingleMessages(Relay(m));
      FirstOf(ToFront(Trace(t0, ins)), ToFront(Trace(t0, ins[..k])), m,
        ToFront(FrontendOutput(After(t0, ins[..k]), ins[k])), ToFront(Trace(t0, ins[..k + 1])));
      NextFrontIs(t0, ins, k, m);
    }
  }

  // What iteration `k` relays.
  lemma RelayedAt(t0: nat, ins: seq<Input>, k: nat)
    requires k < |ins|
    ensures Select(Trace(t0, ins[..k + 1]), FromBack) == Select(Trace(t0, ins[..k]), FromBack) + BackendOutput(ins[k])
  {
    hide *;
    var next := ins[..k + 1];
    assert next[..|next| - 1] == ins[..k];
    TraceStep(t0, next, FromBack);
    OutputsSelected(After(t0, ins[..k]), ins[k]);
  }

  // The first message after `before`.
  lemma FirstOf(all: seq<Message>, before: seq<Message>, m: Message, others: seq<Message>, upTo: seq<Message>)
    requires upTo == before + ([m] + others) && upTo <= all
    ensures |before| < |all| && all[|before|] == m
  {
    assert upTo[|before|] == m;
  }

  lemma NextFrontIs(t0: nat, ins: seq<Input>, k: nat, m: Message)
    requires k <= |ins|
    requires var sent, at := ToFront(Trace(t0, ins)), |ToFront(Trace(t0, ins[..k]))|;
      at < |sent| && sent[at] == m
    ensures NextFront(t0, ins, k, m)
  {
  }

  lemma NextBackIs(t0: nat, ins: seq<Input>, k: nat, m: Message)
    requires k <= |ins|
    requires var sent, at := ToBack(Trace(t0, ins)), |ToBack(Trace(t0, ins[..k]))|;
      at < |sent| && sent[at] == m
    ensures NextBack(t0, ins, k, m)
  {
  }

  // ----- heartbeats

  // The workers that a run knows are different ones, and each has sent a heartbeat.
  lemma KnownWorkers(t0: nat, ins: seq<Input>, i: Input)
    ensures var ws := Registered(After(t0, ins), i);
      && NoDuplicates(ws)
      && forall w :: w in ws ==> LastBeat(ins + [i], w.identity).Some?
  {
    var s, all := After(t0, ins), ins + [i];
    TableExact(t0, ins);
    if i.backPolled && IsHeartbeat(i.backMsg) {
      BeatExact(s.workers, i.backMsg[0], Expiry(i.beatTime));
    }
    assert all[..|all| - 1] == ins;
    hide After, Expiry;
  }

  lemma {:induction false} CountPings(ws: seq<Worker>, w: Frame)
    requires NoDuplicates(ws)
    ensures multiset(Pings(ws))[Ping(w)] == if w in Identities(ws) then 1 else 0
  {
    if ws != [] {
      var rest := ws[1..];
      CountPings(rest, w);
      assert Pings(ws) == [Ping(ws[0].identity)] + Pings(rest);
      assert Identities(ws) == [ws[0].identity] + Identities(rest);
      assert forall i :: 0 <= i < |rest| ==> Identities(rest)[i] == rest[i].identity != ws[0].identity;
    }
  }

  // How many heartbeats an iteration sends to `w`.
  function PingCount(s: State, i: Input, w: Frame): nat {
    multiset(Outputs(s, i))[Ping(w)]
  }

  /** In every run an iteration that fires sends exactly one heartbeat to each worker then
      known, in table order, and none to anybody else; one that does not fire sends none. */
  lemma {:induction false} RoundPings(t0: nat, ins: seq<Input>, i: Input)
    ensures var s := After(t0, ins);
      forall w: Frame :: PingCount(s, i, w) ==
        (if Fires(s, i) && w in Identities(Registered(s, i)) then 1 else 0)
    ensures var s := After(t0, ins);
      Select(Outputs(s, i), IsPing) == if Fires(s, i) then Pings(Registered(s, i)) else []
  {
    var s := After(t0, ins);
    KnownWorkers(t0, ins, i);
    PingsInOrder(s, i);
    hide *;
    forall w: Frame ensures PingCount(s, i, w) ==
      (if Fires(s, i) && w in Identities(Registered(s, i)) then 1 else 0)
    {
      PingsOf(s, i, w);
    }
  }

  lemma PingsOf(s: State, i: Input, w: Frame)
    requires NoDuplicates(Registered(s, i))
    ensures PingCount(s, i, w) == if Fires(s, i) && w in Identities(Registered(s, i)) then 1 else 0
  {
    assert Outputs(s, i) == BackendOutput(i) + FrontendOutput(s, i) + RoundOutput(s, i);
    NoPingElsewhere(s, i, w);
    CountPings(Registered(s, i), w);
    hide Outputs, Fires, Registered, BackendOutput, FrontendOutput, Pings, NoDuplicates, Identities;
  }

  lemma PingsInOrder(s: State, i: Input)
    ensures Select(Outputs(s, i), IsPing) == if Fires(s, i) then Pings(Registered(s, i)) else []
  {
    var back, front, round := BackendOutput(i), FrontendOutput(s, i), RoundOutput(s, i);
    assert Outputs(s, i) == back + front + round;
    PingsSelected(s, i);
    hide Select, Outputs, Fires, Registered, BackendOutput, FrontendOutput, Pings;
    Select3(back, front, round, IsPing);
    assert [] + [] + round == round;
  }

  lemma NoPingElsewhere(s: State, i: Input, w: Frame)
    ensures Ping(w) !in BackendOutput(i) && Ping(w) !in FrontendOutput(s, i)
  {
  }

  predicate IsPing(o: Output) {
    o.Ping?
  }

  lemma PingsSelected(s: State, i: Input)
    ensures Select(BackendOutput(i), IsPing) == []
    ensures Select(FrontendOutput(s, i), IsPing) == []
    ensures Select(RoundOutput(s, i), IsPing) == RoundOutput(s, i)
  {
    hide Select, Registered, Fires, Polled;
    SelectNone(BackendOutput(i), IsPing);
    SelectNone(FrontendOutput(s, i), IsPing);
    SelectAll(RoundOutput(s, i), IsPing);
  }

  lemma {:induction false} SelectAll(os: seq<Output>, p: Output -> bool)
    requires forall k :: 0 <= k < |os| ==> p(os[k])
    ensures Select(os, p) == os
    decreases |os|
  {
    if os != [] {
      SelectAll(os[..|os| - 1], p);
    }
  }

  // Iteration `k` sends a heartbeat to `w`.
  predicate PingsAt(t0: nat, ins: seq<Input>, k: nat, w: Frame)
    requires k < |ins|
  {
    Ping(w) in RoundOutput(After(t0, ins[..k]), ins[k])
  }

  /** A heartbeat that the run sends to `w` goes out as `[w, "HEARTBEAT"]`, to a worker that
      has sent one before.  When `w` echoes it, the echo is relayed to nobody; it becomes the
      last heartbeat of `w`, and `w` is in the table afterwards exactly when its new expiry is
      not already past at the check. */
  lemma {:induction false} HeartbeatRoundTrip(t0: nat, ins: seq<Input>, k: nat, k': nat, w: Frame)
    requires k < k' < |ins|
    requires PingsAt(t0, ins, k, w)
    requires ReadsAt(ins, k', [w, "HEARTBEAT"])
    ensures [w, "HEARTBEAT"] in ToBack(Trace(t0, ins[..k + 1]))
    ensures LastBeat(ins[..k + 1], w).Some?
    ensures Select(Trace(t0, ins[..k' + 1]), FromBack) == Select(Trace(t0, ins[..k']), FromBack)
    ensures LastBeat(ins[..k' + 1], w) == Some(k')
    ensures InTable(After(t0, ins[..k' + 1]).workers, w)
      <==> Clock(ins[k'].checkTime) <= Expiry(ins[k'].beatTime)
  {
    PingedBefore(t0, ins, k, w);
    EchoRecorded(t0, ins, k', w);
  }

  lemma {:induction false} PingedBefore(t0: nat, ins: seq<Input>, k: nat, w: Frame)
    requires k < |ins| && PingsAt(t0, ins, k, w)
    ensures [w, "HEARTBEAT"] in ToBack(Trace(t0, ins[..k + 1]))
    ensures LastBeat(ins[..k + 1], w).Some?
  {
    var p, i := ins[..k], ins[k];
    var s := After(t0, p);
    assert Ping(w) in RoundOutput(s, i);
    hide *;
    PingedKnown(s, i, w);
    assert p + [i] == ins[..k + 1];
    KnownBeat(t0, p, i, w);
    PingOnWire(RoundOutput(s, i), w);
    TraceAt(t0, ins, k);
  }

  lemma PingedKnown(s: State, i: Input, w: Frame)
    requires Ping(w) in RoundOutput(s, i)
    ensures w in Identities(Registered(s, i))
  {
    var ws := Registered(s, i);
    hide Registered, Fires;
    var at :| 0 <= at < |ws| && Pings(ws)[at] == Ping(w);
    assert Identities(ws)[at] == w;
  }

  lemma KnownBeat(t0: nat, ins: seq<Input>, i: Input, w: Frame)
    requires w in Identities(Registered(After(t0, ins), i))
    ensures LastBeat(ins + [i], w).Some?
  {
    KnownWorkers(t0, ins, i);
    hide Registered, After, LastBeat;
    var ws := Registered(After(t0, ins), i);
    var at :| 0 <= at < |ws| && Identities(ws)[at] == w;
    assert ws[at] in ws;
  }

  lemma {:induction false} PingOnWire(os: seq<Output>, w: Frame)
    requires Ping(w) in os
    ensures [w, "HEARTBEAT"] in ToBack(os)
    decreases |os|
  {
    var last := os[|os| - 1];
    if last != Ping(w) {
      PingOnWire(os[..|os| - 1], w);
    }
  }

  lemma {:induction false} EchoRecorded(t0: nat, ins: seq<Input>, k: nat, w: Frame)
    requires k < |ins| && ReadsAt(ins, k, [w, "HEARTBEAT"])
    ensures Select(Trace(t0, ins[..k + 1]), FromBack) == Select(Trace(t0, ins[..k]), FromBack)
    ensures LastBeat(ins[..k + 1], w) == Some(k)
    ensures InTable(After(t0, ins[..k + 1]).workers, w)
      <==> Clock(ins[k].checkTime) <= Expiry(ins[k].beatTime)
  {
    EchoIsBeat(ins, k, w);
    assert BackendOutput(ins[k]) == [];
    hide *;
    RelayedAt(t0, ins, k);
    BeatDecides(t0, ins[..k + 1], w);
    assert ins[..k + 1][k] == ins[k];
  }

  lemma EchoIsBeat(ins: seq<Input>, k: nat, w: Frame)
    requires k < |ins| && ReadsAt(ins, k, [w, "HEARTBEAT"])
    ensures LastBeat(ins[..k + 1], w) == Some(k)
  {
    assert BeatAt(ins[..k + 1], w, k);
  }

  // A heartbeat read in the last iteration counts if its own check does not undo it.
  lemma BeatDecides(t0: nat, ins: seq<Input>, w: Frame)
    requires ins != [] && LastBeat(ins, w) == Some(|ins| - 1)
    ensures InTable(After(t0, ins).workers, w)
      <==> Clock(ins[|ins| - 1].checkTime) <= Expiry(ins[|ins| - 1].beatTime)
  {
    TableExact(t0, ins);
    hide After, LastBeat, Clock, Expiry;
    var i := ins[|ins| - 1];
    assert Entitled(ins, Worker(w, Expiry(i.beatTime))) <==> Clock(i.checkTime) <= Expiry(i.beatTime);
  }
}
