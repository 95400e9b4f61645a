/** Heartbeat rounds in real time, and when a worker that answers them is never removed. */
module ProxySurvival {
  import opened Wrappers
  import opened Frames
  import opened Proxy
  import opened ProxyTable

  // The time at which the heartbeat timer was last armed.
  function LastRearm(t0: nat, ins: seq<Input>): nat {
    if ins == [] then t0
    else
      var n := |ins| - 1;
      if Fires(After(t0, ins[..n]), ins[n]) then ins[n].rearmTime else LastRearm(t0, ins[..n])
  }

  lemma {:induction false} HeartbeatAt(t0: nat, ins: seq<Input>)
    ensures After(t0, ins).heartbeatAt == Clock(LastRearm(t0, ins)) + HEARTBEAT_INTERVAL
    decreases |ins|
  {
    if ins != [] {
      HeartbeatAt(t0, ins[..|ins| - 1]);
    }
  }

  /** A round fires at the first reading in or after the second whole second past the second
      of the last re-arm: always two seconds after it, never within one. */
  lemma {:induction false} RoundExact(t0: nat, ins: seq<Input>, i: Input)
    ensures var armed := LastRearm(t0, ins);
      && (Fires(After(t0, ins), i) <==> i.nowTime / 1_000_000 >= armed / 1_000_000 + 2)
      && (i.nowTime >= armed + 2_000_000 ==> Fires(After(t0, ins), i))
      && (i.nowTime <= armed + 1_000_000 ==> !Fires(After(t0, ins), i))
  {
    HeartbeatAt(t0, ins);
  }

  // The re-arm time of the earliest round since the last heartbeat of `id`.
  function Due(t0: nat, ins: seq<Input>, id: Frame): Option<nat> {
    if ins == [] then None
    else
      var n := |ins| - 1;
      var pending := if BeatAt(ins, id, n) then None else Due(t0, ins[..n], id);
      if pending == None && Fires(After(t0, ins[..n]), ins[n]) then Some(ins[n].rearmTime) else pending
  }

  // The main clock reading of the last iteration.
  function LastNow(t0: nat, ins: seq<Input>): nat {
    if ins == [] then t0 else ins[|ins| - 1].nowTime
  }

  function LastCheck(t0: nat, ins: seq<Input>): nat {
    if ins == [] then t0 else ins[|ins| - 1].checkTime
  }

  // From the clock reading that decides on a round (src/zmq_server.cc:100) to the check that
  // ends the next iteration (src/zmq_server.cc:157) at most `g` pass: the rest of the one
  // iteration and the whole of the next.
  predicate Paced(t0: nat, ins: seq<Input>, g: nat) {
    forall k :: 0 <= k < |ins| ==> ins[k].checkTime <= LastNow(t0, ins[..k]) + g
  }

  // Once registered, the worker answers every round within `d` of its re-arm: no check comes
  // later than that while the answer is outstanding.
  predicate Prompt(t0: nat, ins: seq<Input>, id: Frame, d: nat) {
    forall k :: 0 < k <= |ins| && LastBeat(ins[..k], id).Some? && Due(t0, ins[..k], id).Some? ==>
      ins[k - 1].checkTime <= Due(t0, ins[..k], id).value + d
  }

  // Where a registered worker stands: with no round to answer, its heartbeat came after the
  // last re-arm and the next round is not yet due; otherwise the round to answer was armed
  // within two whole seconds and `g` of the second of its heartbeat.
  predicate Stands(beat: nat, armed: nat, due: Option<nat>, now: nat, g: nat) {
    match due
    case None => armed <= beat && now / SECOND <= armed / SECOND + 1
    case Some(pending) => pending < (beat / SECOND + 2) * SECOND + g
  }

  predicate Standing(t0: nat, ins: seq<Input>, id: Frame, g: nat) {
    var k := LastBeat(ins, id);
    k.Some? ==>
      Stands(ins[k.value].beatTime, LastRearm(t0, ins), Due(t0, ins, id), LastNow(t0, ins), g)
  }

  // One iteration that reads a heartbeat of the worker.
  lemma StandsAfterBeat(armed: nat, now: nat, i: Input, fires: bool, g: nat)
    requires fires <==> i.nowTime / SECOND >= armed / SECOND + 2
    requires armed <= i.beatTime && now <= i.beatTime <= i.nowTime <= i.rearmTime <= i.checkTime
    requires i.checkTime <= now + g && g <= 2 * SECOND
    ensures if fires then Stands(i.beatTime, i.rearmTime, Some(i.rearmTime), i.nowTime, g)
      else Stands(i.beatTime, armed, None, i.nowTime, g)
    ensures i.checkTime / SECOND < i.beatTime / SECOND + 4
  {
  }

  // One iteration that reads none.
  lemma StandsWithoutBeat(beat: nat, armed: nat, due: Option<nat>, now: nat, i: Input, fires: bool, g: nat, d: nat)
    requires fires <==> i.nowTime / SECOND >= armed / SECOND + 2
    requires Stands(beat, armed, due, now, g)
    requires i.nowTime <= i.rearmTime <= i.checkTime <= now + g && g + d <= 2 * SECOND
    requires due.Some? ==> i.checkTime <= due.value + d
    ensures Stands(beat, if fires then i.rearmTime else armed,
      if due == None && fires then Some(i.rearmTime) else due, i.nowTime, g)
    ensures i.checkTime / SECOND < beat / SECOND + 4
  {
  }

  lemma PrefixHypotheses(t0: nat, ins: seq<Input>, id: Frame, g: nat, d: nat)
    requires ins != [] && Ordered(t0, ins) && Paced(t0, ins, g) && Prompt(t0, ins, id, d)
    ensures var p := ins[..|ins| - 1];
      Ordered(t0, p) && Paced(t0, p, g) && Prompt(t0, p, id, d)
  {
    var p := ins[..|ins| - 1];
    OrderedPrefix(t0, ins);
    assert forall k :: 0 <= k <= |p| ==> p[..k] == ins[..k];
  }

  lemma {:induction false} RearmBeforeCheck(t0: nat, ins: seq<Input>)
    requires Ordered(t0, ins)
    ensures t0 <= LastRearm(t0, ins) <= LastCheck(t0, ins)
    decreases |ins|
  {
    if ins != [] {
      var p := ins[..|ins| - 1];
      OrderedPrefix(t0, ins);
      RearmBeforeCheck(t0, p);
      assert OrderedAt(t0, ins, |ins| - 1);
    }
  }

  // The readings of the last iteration, in order and in time.
  lemma LastReadings(t0: nat, ins: seq<Input>, g: nat)
    requires ins != [] && Ordered(t0, ins) && Paced(t0, ins, g)
    ensures var p, i := ins[..|ins| - 1], ins[|ins| - 1];
      && LastNow(t0, p) <= LastCheck(t0, p) <= i.beatTime <= i.nowTime <= i.rearmTime <= i.checkTime
      && i.checkTime <= LastNow(t0, p) + g
      && LastRearm(t0, p) <= LastCheck(t0, p)
  {
    hide LastRearm;
    var n := |ins| - 1;
    var p := ins[..n];
    OrderedPrefix(t0, ins);
    RearmBeforeCheck(t0, p);
    assert OrderedAt(t0, ins, n);
    if p != [] {
      assert OrderedAt(t0, p, n - 1);
    }
  }

  lemma {:induction false} StandingKept(t0: nat, ins: seq<Input>, id: Frame, g: nat, d: nat)
    requires Ordered(t0, ins) && Paced(t0, ins, g) && Prompt(t0, ins, id, d)
    requires g + d <= 2 * SECOND
    ensures Standing(t0, ins, id, g)
    ensures LastBeat(ins, id).Some? ==>
      LastCheck(t0, ins) / SECOND < ins[LastBeat(ins, id).value].beatTime / SECOND + 4
    decreases |ins|
  {
    if ins != [] {
      PrefixHypotheses(t0, ins, id, g, d);
      StandingKept(t0, ins[..|ins| - 1], id, g, d);
      StandingStep(t0, ins, id, g, d);
    }
  }

  lemma StandingStep(t0: nat, ins: seq<Input>, id: Frame, g: nat, d: nat)
    requires ins != [] && Ordered(t0, ins) && Paced(t0, ins, g) && Prompt(t0, ins, id, d)
    requires g + d <= 2 * SECOND && Standing(t0, ins[..|ins| - 1], id, g)
    ensures Standing(t0, ins, id, g)
    ensures LastBeat(ins, id).Some? ==>
      LastCheck(t0, ins) / SECOND < ins[LastBeat(ins, id).value].beatTime / SECOND + 4
  {
    var n := |ins| - 1;
    var p, i := ins[..n], ins[n];
    RoundExact(t0, p, i);
    LastReadings(t0, ins, g);
    assert ins[..|ins|] == ins;
    assert LastBeat(ins, id).Some? && Due(t0, ins, id).Some? ==> i.checkTime <= Due(t0, ins, id).value + d;
    hide Ordered, Paced, Prompt, Fires, Stands;
    var armed, now, fires := LastRearm(t0, p), LastNow(t0, p), Fires(After(t0, p), i);
    if BeatAt(ins, id, n) {
      StandsAfterBeat(armed, now, i, fires, g);
    } else if LastBeat(p, id).Some? {
      StandsWithoutBeat(p[LastBeat(p, id).value].beatTime, armed, Due(t0, p, id), now, i, fires, g, d);
    }
  }

  // Once registered, the worker is in the table.  Every beginning of a run is a run.
  predicate Kept(t0: nat, ins: seq<Input>, id: Frame) {
    LastBeat(ins, id).Some? ==> InTable(After(t0, ins).workers, id)
  }

  /** A worker that answers every round within `d` of its re-arm is never removed, as long as at
      most `g` pass from one reading for a round to the end of the next iteration and g + d is
      at most two seconds. */
  lemma {:induction false} Survival(t0: nat, ins: seq<Input>, id: Frame, g: nat, d: nat)
    requires Ordered(t0, ins) && Paced(t0, ins, g) && Prompt(t0, ins, id, d)
    requires g + d <= 2_000_000 || g == 0
    ensures Kept(t0, ins, id)
  {
    if LastBeat(ins, id).Some? {
      if g + d <= 2_000_000 {
        StandingKept(t0, ins, id, g, d);
      } else {
        TimeStands(t0, ins);
        ReadingsOrdered(t0, ins, 0, LastBeat(ins, id).value);
        assert OrderedAt(t0, ins, 0);
      }
      ExpiryBounds(t0, ins, id);
    }
  }

  lemma {:induction false} TimeStands(t0: nat, ins: seq<Input>)
    requires Ordered(t0, ins) && Paced(t0, ins, 0)
    ensures LastCheck(t0, ins) <= t0
    decreases |ins|
  {
    if ins != [] {
      LastReadings(t0, ins, 0);
      PacedPrefix(t0, ins);
      TimeStands(t0, ins[..|ins| - 1]);
      hide Ordered, OrderedAt, Paced, LastRearm;
    }
  }

  lemma PacedPrefix(t0: nat, ins: seq<Input>)
    requires ins != [] && Ordered(t0, ins) && Paced(t0, ins, 0)
    ensures Ordered(t0, ins[..|ins| - 1]) && Paced(t0, ins[..|ins| - 1], 0)
  {
    OrderedPrefix(t0, ins);
    var p := ins[..|ins| - 1];
    assert forall k :: 0 <= k <= |p| ==> p[..k] == ins[..k];
  }

  // ----- the bound is the best one

  // A run that starts at time 0 with one heartbeat of `id` and is then kept busy by a client.
  // It comes to the first round as late as `g` allows and ends at the first removal.
  function SlowTime(g: nat, k: nat): nat {
    if k < 2 * SECOND then k else k - 1 + g
  }

  function SlowLength(g: nat): nat {
    if g > 2 * SECOND then 2 * SECOND + 1 else 4 * SECOND + 2 - g
  }

  function SlowInput(id: Frame, g: nat, k: nat): Input {
    var t := SlowTime(g, k);
    Input(k == 0, k > 0, [id, HEARTBEAT_KEY], ["c", "q"], 0, t, t, t, t)
  }

  function SlowRun(id: Frame, g: nat, n: nat): (ins: seq<Input>)
    ensures |ins| == n
    ensures forall k :: 0 <= k < n ==> ins[k] == SlowInput(id, g, k)
  {
    seq(n, k requires 0 <= k < n => SlowInput(id, g, k))
  }

  lemma SlowPrefix(id: Frame, g: nat, n: nat, k: nat)
    requires k <= n
    ensures SlowRun(id, g, n)[..k] == SlowRun(id, g, k)
  {
  }

  lemma {:induction false} SlowDue(id: Frame, g: nat, n: nat)
    requires g > 0
    ensures var ins := SlowRun(id, g, n);
      if n <= 2 * SECOND then LastRearm(0, ins) == 0 && Due(0, ins, id) == None
      else Due(0, ins, id) == Some(2 * SECOND - 1 + g)
    decreases n
  {
    if n > 0 {
      SlowDue(id, g, n - 1);
      SlowStep(id, g, n);
    }
  }

  lemma SlowStep(id: Frame, g: nat, n: nat)
    requires g > 0 && n > 0
    requires var p := SlowRun(id, g, n - 1);
      if n - 1 <= 2 * SECOND then LastRearm(0, p) == 0 && Due(0, p, id) == None
      else Due(0, p, id) == Some(2 * SECOND - 1 + g)
    ensures var ins := SlowRun(id, g, n);
      if n <= 2 * SECOND then LastRearm(0, ins) == 0 && Due(0, ins, id) == None
      else Due(0, ins, id) == Some(2 * SECOND - 1 + g)
  {
    var ins, p, i := SlowRun(id, g, n), SlowRun(id, g, n - 1), SlowInput(id, g, n - 1);
    SlowPrefix(id, g, n, n - 1);
    SlowLast(id, g, n);
    RoundExact(0, p, i);
    DueStep(0, ins, p, i, id);
    hide LastRearm, Due, Fires, After, SlowRun, SlowInput, BeatAt;
    var now := i.nowTime;
    if n <= 2 * SECOND {
      assert now / SECOND < 2;
    } else if n == 2 * SECOND + 1 {
      assert now / SECOND >= 2;
    }
  }

  lemma SlowLast(id: Frame, g: nat, n: nat)
    requires n > 0
    ensures var ins, i := SlowRun(id, g, n), SlowInput(id, g, n - 1);
      && ins[|ins| - 1] == i && i.nowTime == i.rearmTime == SlowTime(g, n - 1)
      && (BeatAt(ins, id, n - 1) <==> n == 1)
  {
  }

  lemma DueStep(t0: nat, ins: seq<Input>, p: seq<Input>, i: Input, id: Frame)
    requires ins != [] && p == ins[..|ins| - 1] && i == ins[|ins| - 1]
    ensures LastRearm(t0, ins) == if Fires(After(t0, p), i) then i.rearmTime else LastRearm(t0, p)
    ensures var pending := if BeatAt(ins, id, |ins| - 1) then None else Due(t0, p, id);
      Due(t0, ins, id) ==
        if pending == None && Fires(After(t0, p), i) then Some(i.rearmTime) else pending
  {
  }

  lemma SlowHypotheses(id: Frame, g: nat, d: nat)
    requires g > 0 && g + d > 2 * SECOND
    ensures var ins := SlowRun(id, g, SlowLength(g));
      Ordered(0, ins) && Paced(0, ins, g) && Prompt(0, ins, id, d)
  {
    var n := SlowLength(g);
    var ins := SlowRun(id, g, n);
    forall k | 0 <= k < n
      ensures OrderedAt(0, ins, k) && ins[k].checkTime <= LastNow(0, ins[..k]) + g
    {
    }
    forall k | 0 < k <= n && Due(0, ins[..k], id).Some?
      ensures ins[k - 1].checkTime <= Due(0, ins[..k], id).value + d
    {
      SlowPrefix(id, g, n, k);
      SlowDue(id, g, k);
    }
  }

  lemma SlowBeat(id: Frame, g: nat, n: nat)
    requires n > 0
    ensures var ins := SlowRun(id, g, n);
      && Ordered(0, ins) && LastBeat(ins, id) == Some(0)
      && ins[0].beatTime == 0 && ins[|ins| - 1].checkTime == SlowTime(g, n - 1)
  {
    var ins := SlowRun(id, g, n);
    forall k | 0 <= k < n ensures OrderedAt(0, ins, k) {
    }
    assert BeatAt(ins, id, 0) && forall k :: 0 < k < n ==> !BeatAt(ins, id, k);
    hide LastBeat, BeatAt, SlowRun, SlowTime, Ordered;
    assert LastBeat(ins, id) == Some(0);
    assert ins[0] == SlowInput(id, g, 0) && ins[n - 1] == SlowInput(id, g, n - 1);
  }

  // The worker is there exactly until the clock shows four seconds.
  lemma SlowTable(id: Frame, g: nat, n: nat)
    requires n > 0
    ensures InTable(After(0, SlowRun(id, g, n)).workers, id) <==> SlowTime(g, n - 1) < 4 * SECOND
  {
    SlowBeat(id, g, n);
    hide LastBeat, After, InTable, SlowRun, SlowTime;
    ExpiryBounds(0, SlowRun(id, g, n), id);
  }

  lemma SlowPossible(id: Frame, g: nat)
    requires g > 0 && id != []
    ensures Possible(0, SlowRun(id, g, SlowLength(g)))
  {
    var n := SlowLength(g);
    var ins := SlowRun(id, g, n);
    forall k | 0 <= k < n
      ensures PollsAt(0, ins, k) && ins[k].backMsg[0] != [] && ins[k].frontMsg[0] != []
    {
      assert ins[k] == SlowInput(id, g, k);
      if k > 0 {
        SlowPrefix(id, g, n, k);
        SlowTable(id, g, k);
        hide After, SlowRun;
      }
    }
  }

  // Whatever the run, a worker that keeps up is never removed.
  ghost predicate NeverRemoves(g: nat, d: nat) {
    forall t0: nat, ins: seq<Input>, id: Frame ::
      (&& Possible(t0, ins) && id != []
       && Ordered(t0, ins) && Paced(t0, ins, g) && Prompt(t0, ins, id, d)) ==> Kept(t0, ins, id)
  }

  /** Two seconds are the exact bound: with any more, some run that the sockets and the poll
      can produce removes a worker that keeps up (unless no time passes at all). */
  lemma SurvivalExact(g: nat, d: nat)
    ensures NeverRemoves(g, d) <==> g + d <= 2_000_000 || g == 0
  {
    if g + d <= 2_000_000 || g == 0 {
      forall t0: nat, ins: seq<Input>, id: Frame |
        Ordered(t0, ins) && Paced(t0, ins, g) && Prompt(t0, ins, id, d)
        ensures Kept(t0, ins, id)
      {
        Survival(t0, ins, id, g, d);
      }
    } else {
      var id, n := "w", SlowLength(g);
      SlowHypotheses(id, g, d);
      SlowPossible(id, g);
      SlowBeat(id, g, n);
      SlowTable(id, g, n);
    }
  }
}
