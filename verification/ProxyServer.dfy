/** The server itself: its loop over two sockets, proved against the state machine. */
module ProxyServer {
  import opened Frames
  import opened Multipart
  import opened Proxy
  import opened ProxyTable
  import opened ProxyRouting

  class Server {
    const front: Socket
    const back: Socket
    var workers: seq<Worker>
    var heartbeatAt: int
    var backReady: bool
    var frontReady: bool

    constructor (front: Socket, back: Socket)
      ensures this.front == front && this.back == back && workers == []
    {
      this.front, this.back := front, back;
      workers, heartbeatAt, backReady, frontReady := [], 0, false, false;
    }

    ghost function Now(): State
      reads this
    {
      State(workers, heartbeatAt, backReady, frontReady)
    }

    // Records a heartbeat of `identity` read at time `t`.
    method MakeNewWorker(identity: Frame, t: nat)
      modifies this`workers
      ensures workers == Beat(old(workers), identity, Expiry(t))
    {
      ghost var ws, e := workers, Expiry(t);
      var found := false;
      var it := 0;
      while it != |workers|
        invariant 0 <= it <= |workers| && workers == ws
        invariant Beat(ws, identity, e) == ws[..it] + Beat(ws[it..], identity, e)
        decreases |workers| - it
      {
        if workers[it].identity == identity {
          found := true;
          workers := workers[it := Worker(workers[it].identity, Expiry(t))];
          BeatHere(ws, it, identity, e);
          break;
        }
        BeatLater(ws, it, identity, e);
        it := it + 1;
      }
      if !found {
        workers := workers + [Worker(identity, Expiry(t))];
      }
    }

    // The identity of some worker, or -1 when there is none.
    method GetWorker(pick: nat) returns (ret: int, id: Frame)
      ensures workers == [] <==> ret == -1
      ensures workers != [] ==> ret == 0 && id == workers[pick % |workers|].identity
    {
      if |workers| == 0 {
        return -1, [];
      }
      return 0, workers[pick % |workers|].identity;
    }

    // Removes the workers whose expiry is past, stepping back after each removal.
    method CheckWorker(t: nat)
      modifies this`workers
      ensures workers == Check(old(workers), Clock(t))
    {
      hide Clock;
      var clock := Clock(t);
      var itor := 0;
      ghost var ws := workers;
      while itor < |workers|
        invariant 0 <= itor <= |workers|
        invariant Check(ws, clock) == workers[..itor] + Check(workers[itor..], clock)
        decreases |workers| - itor
      {
        CheckFirst(workers, itor, clock);
        if clock > workers[itor].expiry {
          workers := workers[..itor] + workers[itor + 1..];
          itor := itor - 1;
        }
        itor := itor + 1;
      }
    }

    // Reads one backend message: a heartbeat is recorded, an answer goes to the front, and
    // anything else is dropped.  `counts` tells how many frames of the answer were accepted.
    method ServeBackend(i: Input, ghost rest: seq<Wire>) returns (ghost counts: seq<nat>)
      requires front != back && i.backPolled
      requires back.inbox == Framed(i.backMsg) + rest
      modifies this`workers, back`inbox, front`sent
      ensures workers == Registered(old(Now()), i)
      ensures workers == if i.backMsg == [i.backMsg[0], "HEARTBEAT"]
        then Beat(old(workers), i.backMsg[0], i.beatTime / 1_000_000 * 1000 + 3000) else old(workers)
      ensures back.inbox == rest
      ensures Took(old(front.sent), ToFront(BackendOutput(i)), counts, front.sent)
      ensures front.reliable ==> Whole(ToFront(BackendOutput(i)), counts)
    {
      hide Took, Whole, Framed, ToFront, Receive;
      HeartbeatIs(i.backMsg);
      ReceiveFramed(i.backMsg, rest);
      NothingOut();
      TookNothing(front.sent);
      counts := [];
      var msg := new MultipartMessage.FromSocket(back);
      var identity := msg.Pop();
      if msg.Size() == 1 {
        var data := msg.Remove();
        if data == HEARTBEAT_KEY {
          MakeNewWorker(identity, i.beatTime);
        }
      } else {
        var _, taken := SendMessage(msg, front);
        counts := taken;
        if |i.backMsg| > 2 {
          SingleMessages(Relay(i.backMsg[1..]));
        } else {
          NothingTook(old(front.sent), counts, front.sent);
          counts := [];
        }
      }
    }

    // Sends a message.  `counts` holds the number of accepted frames, all of them exactly when
    // the send succeeds; the callers in the loop ignore whether it does.
    static method SendMessage(msg: MultipartMessage, socket: Socket) returns (ok: bool, ghost counts: seq<nat>)
      modifies msg, socket`sent
      ensures Took(old(socket.sent), [old(msg.parts)], counts, socket.sent)
      ensures ok <==> Whole([old(msg.parts)], counts)
      ensures socket.reliable ==> ok
    {
      ghost var m, before := msg.parts, socket.sent;
      ok := msg.Send(socket, 0);
      ghost var n := if ok then |m| else |m| - |msg.parts| - 1;
      assert Framed(m)[..|m|] == Framed(m);
      TookOne(before, m, n);
      counts := [n];
    }

    // Tells a client that there is no worker.
    method Refuse(client: Frame) returns (ghost counts: seq<nat>)
      modifies front`sent
      ensures Took(old(front.sent), [[client, "", "not have woker!"]], counts, front.sent)
      ensures front.reliable ==> Whole([[client, "", "not have woker!"]], counts)
    {
      var errorMsg := new MultipartMessage();
      errorMsg.Add(client);
      errorMsg.Add([]);
      errorMsg.Add(NO_WORKER);
      assert errorMsg.parts == [client, "", "not have woker!"];
      var _, taken := SendMessage(errorMsg, front);
      counts := taken;
    }

    // Reads one front message and forwards it to some worker, or answers that there is none.
    method ServeFrontend(i: Input, ghost s: State, ghost rest: seq<Wire>)
      returns (ghost frontCounts: seq<nat>, ghost backCounts: seq<nat>)
      requires front != back
      requires workers == Registered(s, i) && Polled(s, i).frontReady
      requires front.inbox == Framed(i.frontMsg) + rest
      modifies front`inbox, front`sent, back`sent
      ensures front.inbox == rest
      ensures Took(old(front.sent), ToFront(FrontendOutput(s, i)), frontCounts, front.sent)
      ensures Took(old(back.sent), ToBack(FrontendOutput(s, i)), backCounts, back.sent)
      ensures front.reliable ==> Whole(ToFront(FrontendOutput(s, i)), frontCounts)
      ensures back.reliable ==> Whole(ToBack(FrontendOutput(s, i)), backCounts)
    {
      hide Took, Whole, Framed, ToFront, ToBack, Registered, Polled, Receive;
      ReceiveFramed(i.frontMsg, rest);
      TookNothing(front.sent);
      TookNothing(back.sent);
      frontCounts, backCounts := [], [];
      var msg := new MultipartMessage.FromSocket(front);
      var ret, id := GetWorker(i.pick);
      if ret != 0 {
        var client := msg.Pop();
        frontCounts := Refuse(client);
        SingleMessages(Reply(client));
      } else {
        msg.Push(id);
        SingleMessages(Forward(id, i.frontMsg));
        var _, taken := SendMessage(msg, back);
        backCounts := taken;
      }
    }

    // Sends a heartbeat to every worker of the table.
    method SendHeartbeats() returns (ghost counts: seq<nat>)
      requires front != back
      modifies back`sent
      ensures ToBack(Pings(workers)) == Heartbeats(workers)
      ensures Took(old(back.sent), ToBack(Pings(workers)), counts, back.sent)
      ensures back.reliable ==> Whole(ToBack(Pings(workers)), counts)
    {
      PingsSent(workers);
      hide Took, Whole, ToBack, Pings;
      NothingOut();
      TookNothing(back.sent);
      counts := [];
      for k := 0 to |workers|
        invariant Took(old(back.sent), ToBack(Pings(workers[..k])), counts, back.sent)
        invariant back.reliable ==> Whole(ToBack(Pings(workers[..k])), counts)
      {
        ghost var sent := back.sent;
        var heartbeat := new MultipartMessage();
        heartbeat.Push(workers[k].identity);
        heartbeat.Add(HEARTBEAT_KEY);
        assert heartbeat.parts == [workers[k].identity, HEARTBEAT_KEY];
        var _, count := SendMessage(heartbeat, back);
        PingsStep(workers, k);
        TookMore(old(back.sent), ToBack(Pings(workers[..k])), counts, sent,
          [[workers[k].identity, HEARTBEAT_KEY]], count, back.sent);
        counts := counts + count;
      }
      assert workers[..|workers|] == workers;
    }

    // Sends the heartbeats when their time has come, and arms the timer again.
    method KeepAlive(i: Input, ghost s: State) returns (ghost counts: seq<nat>)
      requires front != back
      requires workers == Registered(s, i) && heartbeatAt == s.heartbeatAt
      modifies this`heartbeatAt, back`sent
      ensures heartbeatAt == if Fires(s, i) then Clock(i.rearmTime) + HEARTBEAT_INTERVAL else s.heartbeatAt
      ensures Took(old(back.sent), ToBack(RoundOutput(s, i)), counts, back.sent)
      ensures back.reliable ==> Whole(ToBack(RoundOutput(s, i)), counts)
    {
      hide Took, Whole, ToBack, Pings, Registered, Clock;
      var time := Clock(i.nowTime);
      if time > heartbeatAt {
        counts := SendHeartbeats();
        heartbeatAt := Clock(i.rearmTime) + HEARTBEAT_INTERVAL;
      } else {
        NothingOut();
        TookNothing(back.sent);
        counts := [];
      }
    }

    // One turn of the loop.  `backRest` and `frontRest` are what the sockets hold behind the
    // messages that this turn reads; the results tell how many frames of each message that
    // the turn emits were accepted.
    method Iterate(i: Input, ghost backRest: seq<Wire>, ghost frontRest: seq<Wire>)
      returns (ghost frontCounts: seq<nat>, ghost backCounts: seq<nat>)
      requires front != back
      requires i.backPolled ==> back.inbox == Framed(i.backMsg) + backRest
      requires Polled(Now(), i).frontReady ==> front.inbox == Framed(i.frontMsg) + frontRest
      modifies this, front, back
      ensures Now() == Next(old(Now()), i)
      ensures back.inbox == if i.backPolled then backRest else old(back.inbox)
      ensures front.inbox == if Polled(old(Now()), i).frontReady then frontRest else old(front.inbox)
      ensures Took(old(front.sent), ToFront(Outputs(old(Now()), i)), frontCounts, front.sent)
      ensures Took(old(back.sent), ToBack(Outputs(old(Now()), i)), backCounts, back.sent)
      ensures front.reliable ==> Whole(ToFront(Outputs(old(Now()), i)), frontCounts)
      ensures back.reliable ==> Whole(ToBack(Outputs(old(Now()), i)), backCounts)
      ensures front.reliable ==>
        front.sent == old(front.sent) + FramedAll(ToFront(Outputs(old(Now()), i)))
      ensures back.reliable ==>
        back.sent == old(back.sent) + FramedAll(ToBack(Outputs(old(Now()), i)))
    {
      hide Took, Whole, Framed, FramedAll, ToFront, ToBack, Outputs, BackendOutput, FrontendOutput, RoundOutput,
        Pings, Beat, Check, Clock, Fires;
      ghost var s, front0, back0 := Now(), front.sent, back.sent;

      // With no workers only the backend is polled, and the front bit stays as it was
      backReady := i.backPolled;
      if |workers| != 0 {
        frontReady := i.frontPolled;
      }
      ghost var relayed, answered, forwarded, pinged: seq<nat> := [], [], [], [];
      if backReady {
        relayed := ServeBackend(i, backRest);
      } else {
        NoBackendOutput(i, front.sent);
      }
      ghost var front1 := front.sent;
      if frontReady {
        answered, forwarded := ServeFrontend(i, s, frontRest);
      } else {
        NoFrontendOutput(s, i, front.sent, back.sent);
      }
      ghost var back1 := back.sent;

      pinged := KeepAlive(i, s);
      CheckWorker(i.checkTime);
      FrontTook(s, i, front0, relayed, front1, answered, front.sent);
      BackTook(s, i, back0, forwarded, back1, pinged, back.sent);
      frontCounts, backCounts := relayed + answered, forwarded + pinged;
    }

    // What happens before the loop.
    method Arm(t0: nat)
      requires workers == []
      modifies this
      ensures Now() == Initial(t0)
    {
      heartbeatAt := Clock(t0) + HEARTBEAT_INTERVAL;
      backReady, frontReady := false, false;
    }

    // The loop, over everything that the environment offers to a run.  The sockets hold the
    // messages that the run reads, in order, and whatever follows them.
    method Start(t0: nat, ins: seq<Input>, ghost backRest: seq<Wire>, ghost frontRest: seq<Wire>)
      returns (ghost frontCounts: seq<nat>, ghost backCounts: seq<nat>)
      requires front != back && workers == []
      requires back.inbox == FramedAll(BackRead(ins)) + backRest
      requires front.inbox == FramedAll(FrontRead(t0, ins)) + frontRest
      modifies this, front, back
      ensures Now() == After(t0, ins)
      ensures back.inbox == backRest && front.inbox == frontRest
      ensures Took(old(front.sent), ToFront(Trace(t0, ins)), frontCounts, front.sent)
      ensures Took(old(back.sent), ToBack(Trace(t0, ins)), backCounts, back.sent)
      ensures front.reliable ==> front.sent == old(front.sent) + FramedAll(ToFront(Trace(t0, ins)))
      ensures back.reliable ==> back.sent == old(back.sent) + FramedAll(ToBack(Trace(t0, ins)))
    {
      hide *;
      Arm(t0);
      RunStarts(t0, ins);
      NothingOut();
      TookNothing(front.sent);
      TookNothing(back.sent);
      frontCounts, backCounts := [], [];
      for k := 0 to |ins|
        invariant Now() == After(t0, ins[..k])
        invariant back.inbox == BackLeft(ins, k) + backRest
        invariant front.inbox == FrontLeft(t0, ins, k) + frontRest
        invariant Took(old(front.sent), ToFront(Trace(t0, ins[..k])), frontCounts, front.sent)
        invariant Took(old(back.sent), ToBack(Trace(t0, ins[..k])), backCounts, back.sent)
        invariant front.reliable ==> Whole(ToFront(Trace(t0, ins[..k])), frontCounts)
        invariant back.reliable ==> Whole(ToBack(Trace(t0, ins[..k])), backCounts)
      {
        ghost var s, front0, back0 := Now(), front.sent, back.sent;
        RunStep(t0, ins, k, backRest, frontRest);
        ghost var toFront, toBack := Iterate(ins[k],
          BackLeft(ins, k + 1) + backRest, FrontLeft(t0, ins, k + 1) + frontRest);
        TookMore(old(front.sent), ToFront(Trace(t0, ins[..k])), frontCounts, front0,
          ToFront(Outputs(s, ins[k])), toFront, front.sent);
        TookMore(old(back.sent), ToBack(Trace(t0, ins[..k])), backCounts, back0,
          ToBack(Outputs(s, ins[k])), toBack, back.sent);
        frontCounts, backCounts := frontCounts + toFront, backCounts + toBack;
      }
      RunEnds(t0, ins);
      TookAll(old(front.sent), ToFront(Trace(t0, ins)), frontCounts, front.sent);
      TookAll(old(back.sent), ToBack(Trace(t0, ins)), backCounts, back.sent);
    }
  }

  // What the front and the back socket take in one iteration, from stage to stage.
  lemma FrontTook(s: State, i: Input, sent0: seq<Wire>, relayed: seq<nat>, sent1: seq<Wire>,
      answered: seq<nat>, sent2: seq<Wire>)
    requires Took(sent0, ToFront(BackendOutput(i)), relayed, sent1)
    requires Took(sent1, ToFront(FrontendOutput(s, i)), answered, sent2)
    ensures var ms, counts := ToFront(Outputs(s, i)), relayed + answered;
      && Took(sent0, ms, counts, sent2)
      && (Whole(ms, counts) ==> sent2 == sent0 + FramedAll(ms))
    ensures Whole(ToFront(BackendOutput(i)), relayed) && Whole(ToFront(FrontendOutput(s, i)), answered)
      ==> Whole(ToFront(Outputs(s, i)), relayed + answered)
  {
    hide *;
    OutputStages(s, i);
    TookMore(sent0, ToFront(BackendOutput(i)), relayed, sent1, ToFront(FrontendOutput(s, i)), answered, sent2);
    TookAll(sent0, ToFront(Outputs(s, i)), relayed + answered, sent2);
  }

  lemma BackTook(s: State, i: Input, sent0: seq<Wire>, forwarded: seq<nat>, sent1: seq<Wire>,
      pinged: seq<nat>, sent2: seq<Wire>)
    requires Took(sent0, ToBack(FrontendOutput(s, i)), forwarded, sent1)
    requires Took(sent1, ToBack(RoundOutput(s, i)), pinged, sent2)
    ensures var ms, counts := ToBack(Outputs(s, i)), forwarded + pinged;
      && Took(sent0, ms, counts, sent2)
      && (Whole(ms, counts) ==> sent2 == sent0 + FramedAll(ms))
    ensures Whole(ToBack(FrontendOutput(s, i)), forwarded) && Whole(ToBack(RoundOutput(s, i)), pinged)
      ==> Whole(ToBack(Outputs(s, i)), forwarded + pinged)
  {
    hide *;
    OutputStages(s, i);
    TookMore(sent0, ToBack(FrontendOutput(s, i)), forwarded, sent1, ToBack(RoundOutput(s, i)), pinged, sent2);
    TookAll(sent0, ToBack(Outputs(s, i)), forwarded + pinged, sent2);
  }

  lemma TookAll(before: seq<Wire>, ms: seq<Message>, counts: seq<nat>, after: seq<Wire>)
    requires Took(before, ms, counts, after)
    ensures Whole(ms, counts) ==> after == before + FramedAll(ms)
  {
    if Whole(ms, counts) {
      WholeCut(ms, counts);
    }
  }

  // The frames that iterations from `k` on read.
  ghost function BackLeft(ins: seq<Input>, k: nat): seq<Wire>
    requires k <= |ins|
    decreases |ins| - k
  {
    if k == |ins| then []
    else (if ins[k].backPolled then Framed(ins[k].backMsg) else []) + BackLeft(ins, k + 1)
  }

  ghost function FrontLeft(t0: nat, ins: seq<Input>, k: nat): seq<Wire>
    requires k <= |ins|
    decreases |ins| - k
  {
    if k == |ins| then []
    else
      (if Polled(After(t0, ins[..k]), ins[k]).frontReady then Framed(ins[k].frontMsg) else [])
        + FrontLeft(t0, ins, k + 1)
  }

  lemma {:induction false} BackLeftRead(ins: seq<Input>, k: nat)
    requires k <= |ins|
    ensures FramedAll(BackRead(ins[..k])) + BackLeft(ins, k) == FramedAll(BackRead(ins))
    decreases |ins| - k
  {
    if k == |ins| {
      assert ins[..k] == ins;
    } else {
      BackLeftRead(ins, k + 1);
      var next := ins[..k + 1];
      assert next[..|next| - 1] == ins[..k];
      BackReadStep(next);
      LeftStep(BackRead(ins[..k]), ins[k].backMsg, BackLeft(ins, k + 1), ins[k].backPolled);
      hide BackRead, FramedAll, Framed;
    }
  }

  // Moving one message from what is left to what has been read.
  lemma LeftStep(read: seq<Message>, m: Message, left: seq<Wire>, taken: bool)
    ensures FramedAll(read) + ((if taken then Framed(m) else []) + left)
      == FramedAll(if taken then read + [m] else read) + left
  {
    hide Framed, FramedAll;
    FramedAllConcat(read, [m]);
    FramedOne(m);
    assert FramedAll(read) + (Framed(m) + left) == FramedAll(read) + Framed(m) + left;
    assert [] + left == left;
  }

  lemma {:induction false} FrontLeftRead(t0: nat, ins: seq<Input>, k: nat)
    requires k <= |ins|
    ensures FramedAll(FrontRead(t0, ins[..k])) + FrontLeft(t0, ins, k) == FramedAll(FrontRead(t0, ins))
    decreases |ins| - k
  {
    if k == |ins| {
      assert ins[..k] == ins;
    } else {
      FrontLeftRead(t0, ins, k + 1);
      var next := ins[..k + 1];
      assert next[..|next| - 1] == ins[..k];
      FrontReadStep(t0, next);
      hide FrontRead, FramedAll, Framed, After, Polled;
      LeftStep(FrontRead(t0, ins[..k]), ins[k].frontMsg, FrontLeft(t0, ins, k + 1),
        Polled(After(t0, ins[..k]), ins[k]).frontReady);
    }
  }

  lemma FrontReadStep(t0: nat, ins: seq<Input>)
    requires ins != []
    ensures var p, i := ins[..|ins| - 1], ins[|ins| - 1];
      FrontRead(t0, ins) ==
        if Polled(After(t0, p), i).frontReady then FrontRead(t0, p) + [i.frontMsg] else FrontRead(t0, p)
  {
  }

  lemma RunStarts(t0: nat, ins: seq<Input>)
    ensures After(t0, ins[..0]) == Initial(t0) && Trace(t0, ins[..0]) == []
    ensures BackLeft(ins, 0) == FramedAll(BackRead(ins))
    ensures FrontLeft(t0, ins, 0) == FramedAll(FrontRead(t0, ins))
  {
    BackLeftRead(ins, 0);
    FrontLeftRead(t0, ins, 0);
    assert ins[..0] == [];
    assert [] + BackLeft(ins, 0) == BackLeft(ins, 0);
    assert [] + FrontLeft(t0, ins, 0) == FrontLeft(t0, ins, 0);
  }

  lemma RunStep(t0: nat, ins: seq<Input>, k: nat, backRest: seq<Wire>, frontRest: seq<Wire>)
    requires k < |ins|
    ensures var s, i := After(t0, ins[..k]), ins[k];
      && After(t0, ins[..k + 1]) == Next(s, i)
      && BackLeft(ins, k) + backRest ==
        (if i.backPolled then Framed(i.backMsg) + (BackLeft(ins, k + 1) + backRest)
         else BackLeft(ins, k + 1) + backRest)
      && FrontLeft(t0, ins, k) + frontRest ==
        (if Polled(s, i).frontReady then Framed(i.frontMsg) + (FrontLeft(t0, ins, k + 1) + frontRest)
         else FrontLeft(t0, ins, k + 1) + frontRest)
      && ToFront(Trace(t0, ins[..k + 1])) == ToFront(Trace(t0, ins[..k])) + ToFront(Outputs(s, i))
      && ToBack(Trace(t0, ins[..k + 1])) == ToBack(Trace(t0, ins[..k])) + ToBack(Outputs(s, i))
  {
    var next, s, i := ins[..k + 1], After(t0, ins[..k]), ins[k];
    assert next[..|next| - 1] == ins[..k];
    RunUnfolds(t0, ins, next, k);
    hide *;
    var before := Trace(t0, ins[..k]);
    Regroup(Framed(i.backMsg), BackLeft(ins, k + 1), backRest);
    Regroup(Framed(i.frontMsg), FrontLeft(t0, ins, k + 1), frontRest);
    ToFrontConcat(before, Outputs(s, i));
    ToBackConcat(before, Outputs(s, i));
  }

  lemma RunUnfolds(t0: nat, ins: seq<Input>, next: seq<Input>, k: nat)
    requires k < |ins| && next == ins[..k + 1] && next[..|next| - 1] == ins[..k]
    ensures var s, i := After(t0, ins[..k]), ins[k];
      && After(t0, next) == Next(s, i)
      && Trace(t0, next) == Trace(t0, ins[..k]) + Outputs(s, i)
      && BackLeft(ins, k) == (if i.backPolled then Framed(i.backMsg) else []) + BackLeft(ins, k + 1)
      && FrontLeft(t0, ins, k)
        == (if Polled(s, i).frontReady then Framed(i.frontMsg) else []) + FrontLeft(t0, ins, k + 1)
  {
    hide Next, Outputs, Framed, Polled;
  }

  lemma Regroup(a: seq<Wire>, b: seq<Wire>, c: seq<Wire>)
    ensures a + b + c == a + (b + c) && [] + b + c == b + c
  {
  }

  lemma RunEnds(t0: nat, ins: seq<Input>)
    ensures ins[..|ins|] == ins && BackLeft(ins, |ins|) == [] && FrontLeft(t0, ins, |ins|) == []
  {
  }

  lemma NothingOut()
    ensures ToFront([]) == [] && ToBack([]) == [] && Pings([]) == []
  {
  }

  // Sending a message without frames takes nothing.
  lemma NothingTook(before: seq<Wire>, counts: seq<nat>, after: seq<Wire>)
    requires Took(before, [[]], counts, after)
    ensures after == before
  {
    assert CutAll([[]], counts) == [];
  }

  lemma NoBackendOutput(i: Input, sent: seq<Wire>)
    requires !i.backPolled
    ensures Took(sent, ToFront(BackendOutput(i)), [], sent) && Whole(ToFront(BackendOutput(i)), [])
  {
    TookNothing(sent);
  }

  lemma NoFrontendOutput(s: State, i: Input, front: seq<Wire>, back: seq<Wire>)
    requires !Polled(s, i).frontReady
    ensures Took(front, ToFront(FrontendOutput(s, i)), [], front) && Whole(ToFront(FrontendOutput(s, i)), [])
    ensures Took(back, ToBack(FrontendOutput(s, i)), [], back) && Whole(ToBack(FrontendOutput(s, i)), [])
  {
    TookNothing(front);
    TookNothing(back);
  }

  lemma FramedOne(m: Message)
    ensures FramedAll([m]) == Framed(m)
  {
    assert [m][1..] == [];
  }

  lemma PingsStep(ws: seq<Worker>, k: nat)
    requires k < |ws|
    ensures ToBack(Pings(ws[..k + 1])) == ToBack(Pings(ws[..k])) + [[ws[k].identity, HEARTBEAT_KEY]]
  {
    var ping := Ping(ws[k].identity);
    assert Pings(ws[..k + 1]) == Pings(ws[..k]) + [ping];
    ToBackConcat(Pings(ws[..k]), [ping]);
    SingleMessages(ping);
  }

  lemma BeatHere(ws: seq<Worker>, k: nat, id: Frame, e: int)
    requires k < |ws| && ws[k].identity == id
    ensures ws[..k] + Beat(ws[k..], id, e) == ws[k := Worker(id, e)]
  {
  }

  lemma BeatLater(ws: seq<Worker>, k: nat, id: Frame, e: int)
    requires k < |ws| && ws[k].identity != id
    ensures ws[..k] + Beat(ws[k..], id, e) == ws[..k + 1] + Beat(ws[k + 1..], id, e)
  {
  }

  lemma CheckFirst(ws: seq<Worker>, k: nat, clock: int)
    requires k < |ws|
    ensures ws[..k] + Check(ws[k..], clock) ==
      if clock > ws[k].expiry then ws[..k] + Check(ws[k + 1..], clock)
      else ws[..k + 1] + Check(ws[k + 1..], clock)
    ensures var erased := ws[..k] + ws[k + 1..];
      erased[..k] == ws[..k] && erased[k..] == ws[k + 1..]
  {
    assert ws[k..][1..] == ws[k + 1..];
  }
}
