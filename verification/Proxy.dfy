/** The proxy loop as a state machine: one iteration consumes what the environment offers
    (poll results, messages, clock readings, a random number), changes the worker table and
    emits messages. */
module Proxy {
  import opened Frames

  const HEARTBEAT_LIVENESS := 3
  const HEARTBEAT_INTERVAL := 1000
  const HEARTBEAT_KEY: Frame := "HEARTBEAT"
  const NO_WORKER: Frame := "not have woker!"

  // Microseconds in a second.
  const SECOND: nat := 1_000_000

  // The clock at real time `t` in microseconds: whole seconds, told in milliseconds.
  function Clock(t: nat): nat {
    t / SECOND * 1000
  }

  datatype Worker = Worker(identity: Frame, expiry: int)

  // A message read from a router socket starts with the identity of its sender.
  type Envelope = m: Message | m != [] witness [[]]

  // What one iteration takes from outside; times are in microseconds.
  datatype Input = Input(
    backPolled: bool, frontPolled: bool,
    backMsg: Envelope, frontMsg: Envelope, pick: nat,
    beatTime: nat, nowTime: nat, rearmTime: nat, checkTime: nat)

  datatype State = State(workers: seq<Worker>, heartbeatAt: int, backReady: bool, frontReady: bool)

  datatype Output =
    | Relay(m: Envelope)                   // an answer of a worker, to the front
    | Forward(worker: Frame, m: Envelope)  // a request of a client, to a worker
    | Reply(client: Frame)                 // the error for a client, to the front
    | Ping(worker: Frame)                  // a heartbeat, to a worker

  function Initial(t0: nat): State {
    State([], Clock(t0) + HEARTBEAT_INTERVAL, false, false)
  }

  // ----- the worker table

  function Expiry(t: nat): int {
    Clock(t) + HEARTBEAT_INTERVAL * HEARTBEAT_LIVENESS
  }

  function Beat(ws: seq<Worker>, id: Frame, expiry: int): (r: seq<Worker>)
    ensures r != []
  {
    if ws == [] then [Worker(id, expiry)]
    else if ws[0].identity == id then [Worker(id, expiry)] + ws[1..]
    else [ws[0]] + Beat(ws[1..], id, expiry)
  }

  function Check(ws: seq<Worker>, clock: int): seq<Worker> {
    if ws == [] then []
    else (if clock > ws[0].expiry then [] else [ws[0]]) + Check(ws[1..], clock)
  }

  function Identities(ws: seq<Worker>): (ids: seq<Frame>)
    ensures |ids| == |ws|
  {
    seq(|ws|, i requires 0 <= i < |ws| => ws[i].identity)
  }

  // ----- one iteration

  predicate IsHeartbeat(m: Message) {
    |m| == 2 && m[1] == HEARTBEAT_KEY
  }

  // With an empty table only the backend is polled, and the front bit keeps its old value.
  function Polled(s: State, i: Input): State {
    s.(backReady := i.backPolled, frontReady := if s.workers != [] then i.frontPolled else s.frontReady)
  }

  // The worker table once the backend has been served.
  function Registered(s: State, i: Input): seq<Worker> {
    if i.backPolled && IsHeartbeat(i.backMsg) then Beat(s.workers, i.backMsg[0], Expiry(i.beatTime))
    else s.workers
  }

  predicate Fires(s: State, i: Input) {
    Clock(i.nowTime) > s.heartbeatAt
  }

  function Next(s: State, i: Input): State {
    State(
      Check(Registered(s, i), Clock(i.checkTime)),
      if Fires(s, i) then Clock(i.rearmTime) + HEARTBEAT_INTERVAL else s.heartbeatAt,
      i.backPolled,
      Polled(s, i).frontReady)
  }

  function BackendOutput(i: Input): seq<Output> {
    if i.backPolled && |i.backMsg| > 2 then [Relay(i.backMsg[1..])] else []
  }

  function FrontendOutput(s: State, i: Input): seq<Output> {
    var ws := Registered(s, i);
    if !Polled(s, i).frontReady then []
    else if ws == [] then [Reply(i.frontMsg[0])]
    else [Forward(ws[i.pick % |ws|].identity, i.frontMsg)]
  }

  function Pings(ws: seq<Worker>): seq<Output> {
    seq(|ws|, i requires 0 <= i < |ws| => Ping(ws[i].identity))
  }

  function Outputs(s: State, i: Input): seq<Output> {
    BackendOutput(i) + FrontendOutput(s, i) + if Fires(s, i) then Pings(Registered(s, i)) else []
  }

  // ----- runs

  // The state after a run that starts at time `t0`.
  function After(t0: nat, ins: seq<Input>): State {
    if ins == [] then Initial(t0) else Next(After(t0, ins[..|ins| - 1]), ins[|ins| - 1])
  }

  // Everything that a run emits.
  function Trace(t0: nat, ins: seq<Input>): seq<Output> {
    if ins == [] then []
    else Trace(t0, ins[..|ins| - 1]) + Outputs(After(t0, ins[..|ins| - 1]), ins[|ins| - 1])
  }

  // The last clock reading before iteration `k`.
  function Before(t0: nat, ins: seq<Input>, k: nat): nat
    requires k <= |ins|
  {
    if k == 0 then t0 else ins[k - 1].checkTime
  }

  predicate OrderedAt(t0: nat, ins: seq<Input>, k: nat)
    requires k < |ins|
  {
    Before(t0, ins, k) <= ins[k].beatTime <= ins[k].nowTime <= ins[k].rearmTime <= ins[k].checkTime
  }

  // No clock reading goes back.
  predicate Ordered(t0: nat, ins: seq<Input>) {
    forall k :: 0 <= k < |ins| ==> OrderedAt(t0, ins, k)
  }

  // A poll comes back with nothing to read only when its whole interval has passed.
  predicate PollsAt(t0: nat, ins: seq<Input>, k: nat)
    requires k < |ins|
  {
    ins[k].backPolled
    || (After(t0, ins[..k]).workers != [] && ins[k].frontPolled)
    || Before(t0, ins, k) + HEARTBEAT_INTERVAL * 1000 <= ins[k].nowTime
  }

  // A run that polls and router sockets can produce: no poll gives up early, and every
  // message comes from a peer with a name.
  predicate Possible(t0: nat, ins: seq<Input>) {
    forall k :: 0 <= k < |ins| ==>
      PollsAt(t0, ins, k) && ins[k].backMsg[0] != [] && ins[k].frontMsg[0] != []
  }

  lemma OrderedPrefix(t0: nat, ins: seq<Input>)
    requires ins != [] && Ordered(t0, ins)
    ensures Ordered(t0, ins[..|ins| - 1])
    ensures Before(t0, ins, |ins| - 1) <= ins[|ins| - 1].beatTime
  {
    var p := ins[..|ins| - 1];
    forall k | 0 <= k < |p| ensures OrderedAt(t0, p, k) {
      assert OrderedAt(t0, ins, k);
    }
    assert OrderedAt(t0, ins, |ins| - 1);
  }

  // ----- messages on the two sockets

  function ToFront(os: seq<Output>): (ms: seq<Message>)
    ensures forall i :: 0 <= i < |ms| ==> ms[i] != []
  {
    if os == [] then []
    else ToFront(os[..|os| - 1]) + match os[|os| - 1]
      case Relay(m) => [m]
      case Reply(client) => [[client, [], NO_WORKER]]
      case Forward(_, _) => []
      case Ping(_) => []
  }

  function ToBack(os: seq<Output>): (ms: seq<Message>)
    ensures forall i :: 0 <= i < |ms| ==> ms[i] != []
  {
    if os == [] then []
    else ToBack(os[..|os| - 1]) + match os[|os| - 1]
      case Relay(_) => []
      case Reply(_) => []
      case Forward(worker, m) => [[worker] + m]
      case Ping(worker) => [[worker, HEARTBEAT_KEY]]
  }
}
