/** The worker table of every run, as a function of the heartbeats that were read. */
module ProxyTable {
  import opened Wrappers
  import opened Frames
  import opened Proxy

  predicate NoDuplicates(ws: seq<Worker>) {
    forall i, j :: 0 <= i < j < |ws| ==> ws[i].identity != ws[j].identity
  }

  // Iteration `k` read a heartbeat of `id`.
  predicate BeatAt(ins: seq<Input>, id: Frame, k: int) {
    0 <= k < |ins| && ins[k].backPolled && ins[k].backMsg == [id, "HEARTBEAT"]
  }

  // The iteration that read the most recent heartbeat of `id`.
  function LastBeat(ins: seq<Input>, id: Frame): (r: Option<nat>)
    ensures r.Some? ==> BeatAt(ins, id, r.value) && forall k :: r.value < k < |ins| ==> !BeatAt(ins, id, k)
    ensures r.None? ==> forall k :: 0 <= k < |ins| ==> !BeatAt(ins, id, k)
  {
    if ins == [] then None
    else
      var n := |ins| - 1;
      if BeatAt(ins, id, n) then Some(n)
      else
        var earlier := LastBeat(ins[..n], id);
        BeatsOfPrefix(ins, id);
        earlier
  }

  lemma BeatsOfPrefix(ins: seq<Input>, id: Frame)
    requires ins != []
    ensures forall k :: 0 <= k < |ins| - 1 ==> (BeatAt(ins[..|ins| - 1], id, k) <==> BeatAt(ins, id, k))
  {
  }

  // No check from iteration `k` on has read a clock past `expiry`.
  predicate Unexpired(ins: seq<Input>, k: nat, expiry: int) {
    forall j :: k <= j < |ins| ==> Clock(ins[j].checkTime) <= expiry
  }

  // The entry that the heartbeats of a run leave for `w.identity`.
  predicate Entitled(ins: seq<Input>, w: Worker) {
    var k := LastBeat(ins, w.identity);
    k.Some? && w.expiry == Expiry(ins[k.value].beatTime) && Unexpired(ins, k.value, w.expiry)
  }

  // ----- what the table operations keep and change

  lemma {:induction false} BeatExact(ws: seq<Worker>, id: Frame, expiry: int)
    requires NoDuplicates(ws)
    ensures NoDuplicates(Beat(ws, id, expiry))
    ensures forall w :: w in Beat(ws, id, expiry) <==>
      (w in ws && w.identity != id) || w == Worker(id, expiry)
  {
    if ws == [] {
    } else if ws[0].identity == id {
      assert forall w :: w in ws <==> w == ws[0] || w in ws[1..];
      assert forall w :: w in ws[1..] ==> w.identity != id;
    } else {
      var rest := ws[1..];
      BeatExact(rest, id, expiry);
      var r := Beat(rest, id, expiry);
      assert forall w :: w in ws <==> w == ws[0] || w in rest;
      assert Beat(ws, id, expiry) == [ws[0]] + r;
      assert forall i :: 0 <= i < |r| ==> r[i] in r;
      assert forall w :: w in rest ==> w.identity != ws[0].identity;
    }
  }

  lemma IdentitiesFirst(w: Worker, ws: seq<Worker>)
    ensures Identities([w] + ws) == [w.identity] + Identities(ws)
  {
  }

  /** A heartbeat never changes the order of the workers; a new one goes to the end. */
  lemma {:induction false} BeatOrder(ws: seq<Worker>, id: Frame, expiry: int)
    ensures Identities(Beat(ws, id, expiry)) ==
      if id in Identities(ws) then Identities(ws) else Identities(ws) + [id]
  {
    if ws == [] {
    } else if ws[0].identity == id {
      assert Identities(ws)[0] == id;
    } else {
      var rest := ws[1..];
      BeatOrder(rest, id, expiry);
      IdentitiesFirst(ws[0], rest);
      IdentitiesFirst(ws[0], Beat(rest, id, expiry));
      assert [ws[0]] + rest == ws;
      hide Identities;
    }
  }

  /** A check treats every entry on its own, whatever stands before or after it. */
  lemma {:induction false} CheckConcat(a: seq<Worker>, b: seq<Worker>, clock: int)
    ensures Check(a + b, clock) == Check(a, clock) + Check(b, clock)
  {
    CheckSplits(a, clock);
    CheckSplits(a + b, clock);
    hide Check;
    if a == [] {
      assert a + b == b;
    } else {
      assert (a + b)[1..] == a[1..] + b;
      CheckConcat(a[1..], b, clock);
    }
  }

  lemma CheckSplits(ws: seq<Worker>, clock: int)
    ensures Check(ws, clock) == if ws == [] then []
      else (if clock > ws[0].expiry then [] else [ws[0]]) + Check(ws[1..], clock)
  {
  }

  lemma {:induction false} CheckExact(ws: seq<Worker>, clock: int)
    requires NoDuplicates(ws)
    ensures NoDuplicates(Check(ws, clock))
    ensures forall w :: w in Check(ws, clock) <==> w in ws && clock <= w.expiry
  {
    if ws != [] {
      var rest := ws[1..];
      CheckExact(rest, clock);
      var r := Check(rest, clock);
      assert forall w :: w in ws <==> w == ws[0] || w in rest;
      assert forall i :: 0 <= i < |r| ==> r[i] in r && r[i] in rest;
      NewFirst(ws[0], r, ws);
    }
  }

  // An entry in front of some of the entries behind it repeats none of them.
  lemma NewFirst(first: Worker, r: seq<Worker>, ws: seq<Worker>)
    requires ws != [] && first == ws[0] && NoDuplicates(ws) && NoDuplicates(r)
    requires forall i :: 0 <= i < |r| ==> r[i] in ws[1..]
    ensures NoDuplicates([first] + r)
    ensures forall w :: w in [first] + r <==> w == first || w in r
  {
    forall i | 0 <= i < |r| ensures r[i].identity != first.identity {
      var k :| 0 <= k < |ws[1..]| && ws[1..][k] == r[i];
      assert ws[k + 1] == r[i];
    }
  }

  /** After every run the table holds, once each, exactly the workers whose last heartbeat
      has outlived every check since, with the expiry of that heartbeat.  No assumption on
      the clock is needed. */
  lemma {:induction false} TableExact(t0: nat, ins: seq<Input>)
    ensures NoDuplicates(After(t0, ins).workers)
    ensures forall w :: w in After(t0, ins).workers <==> Entitled(ins, w)
    decreases |ins|
  {
    if ins != [] {
      var n := |ins| - 1;
      var i, s := ins[n], After(t0, ins[..n]);
      TableExact(t0, ins[..n]);
      if i.backPolled && IsHeartbeat(i.backMsg) {
        BeatExact(s.workers, i.backMsg[0], Expiry(i.beatTime));
      }
      CheckExact(Registered(s, i), Clock(i.checkTime));
      forall w ensures w in After(t0, ins).workers <==> Entitled(ins, w) {
        EntitledStep(ins, w);
      }
    }
  }

  lemma EntitledStep(ins: seq<Input>, w: Worker)
    requires ins != []
    ensures var n := |ins| - 1;
      Entitled(ins, w) <==>
        (if BeatAt(ins, w.identity, n) then w.expiry == Expiry(ins[n].beatTime) else Entitled(ins[..n], w))
        && Clock(ins[n].checkTime) <= w.expiry
  {
    var n := |ins| - 1;
    var before := LastBeat(ins[..n], w.identity);
    if !BeatAt(ins, w.identity, n) && before.Some? {
      assert Unexpired(ins, before.value, w.expiry) <==>
        Unexpired(ins[..n], before.value, w.expiry) && Clock(ins[n].checkTime) <= w.expiry by {
        assert forall j :: 0 <= j < n ==> ins[..n][j] == ins[j];
      }
    }
  }

  /** An identity gets into the table only by a heartbeat: some iteration of the run read exactly
      `[id, "HEARTBEAT"]`. */
  lemma KnownByHeartbeat(t0: nat, ins: seq<Input>)
    ensures forall w :: w in After(t0, ins).workers ==>
      exists k :: 0 <= k < |ins| && ins[k].backPolled && ins[k].backMsg == [w.identity, "HEARTBEAT"]
  {
    TableExact(t0, ins);
    hide After, Unexpired;
    forall w | w in After(t0, ins).workers
      ensures exists k :: 0 <= k < |ins| && ins[k].backPolled && ins[k].backMsg == [w.identity, "HEARTBEAT"]
    {
      assert Entitled(ins, w) && BeatAt(ins, w.identity, LastBeat(ins, w.identity).value);
    }
  }

  /** One more iteration: `[id, "HEARTBEAT"]` from the backend gives `id` three more seconds, and
      no other identity anything; any other message from there, like none at all, leaves the
      table as the check alone does. */
  lemma TableStep(t0: nat, ins: seq<Input>, i: Input)
    ensures var before, after := After(t0, ins).workers, After(t0, ins + [i]).workers;
      var clock := i.checkTime / 1_000_000 * 1000;
      && (forall id: Frame :: i.backPolled && i.backMsg == [id, "HEARTBEAT"] ==>
        forall w :: w in after <==>
          (clock <= w.expiry
           && ((w in before && w.identity != id) || w == Worker(id, i.beatTime / 1_000_000 * 1000 + 3000))))
      && ((forall id: Frame :: !(i.backPolled && i.backMsg == [id, "HEARTBEAT"])) ==>
        after == Check(before, clock) && forall w :: w in after <==> clock <= w.expiry && w in before)
  {
    var s, all := After(t0, ins), ins + [i];
    assert all[..|all| - 1] == ins;
    TableExact(t0, ins);
    HeartbeatIs(i.backMsg);
    if i.backPolled && IsHeartbeat(i.backMsg) {
      BeatExact(s.workers, i.backMsg[0], Expiry(i.beatTime));
    }
    CheckExact(Registered(s, i), Clock(i.checkTime));
    assert After(t0, all).workers == Check(Registered(s, i), Clock(i.checkTime));
    hide After, Check, NoDuplicates, Entitled, Beat;
  }

  lemma HeartbeatIs(m: Envelope)
    ensures IsHeartbeat(m) <==> m == [m[0], "HEARTBEAT"]
    ensures forall id: Frame :: m == [id, "HEARTBEAT"] ==> id == m[0]
  {
  }

  // ----- with a clock that does not go back

  lemma {:induction false} ReadingsOrdered(t0: nat, ins: seq<Input>, j: nat, k: nat)
    requires Ordered(t0, ins) && j <= k < |ins|
    ensures ins[j].beatTime <= ins[k].beatTime && ins[j].checkTime <= ins[k].checkTime
    ensures ins[j].beatTime <= ins[j].checkTime
    decreases k - j
  {
    assert OrderedAt(t0, ins, k);
    if j < k {
      ReadingsOrdered(t0, ins, j, k - 1);
    }
  }

  lemma ClockMonotone(t: nat, u: nat)
    requires t <= u
    ensures Clock(t) <= Clock(u)
  {
  }

  /** When the clock does not go back, only the last check matters. */
  lemma TableAtLastCheck(t0: nat, ins: seq<Input>)
    requires ins != [] && Ordered(t0, ins)
    ensures forall w :: w in After(t0, ins).workers <==>
      var k := LastBeat(ins, w.identity);
      k.Some? && w.expiry == Expiry(ins[k.value].beatTime)
      && Clock(ins[|ins| - 1].checkTime) <= w.expiry
  {
    TableExact(t0, ins);
    var n := |ins| - 1;
    forall j | 0 <= j <= n ensures Clock(ins[j].checkTime) <= Clock(ins[n].checkTime) {
      ReadingsOrdered(t0, ins, j, n);
      ClockMonotone(ins[j].checkTime, ins[n].checkTime);
    }
  }

  // Some entry of the table has the identity.
  predicate InTable(ws: seq<Worker>, id: Frame) {
    exists w :: w in ws && w.identity == id
  }

  /** In real time: a worker is in the table after a check exactly when the check falls before
      the fourth whole second after the second of its last heartbeat; so it stays for three
      seconds and is gone after four. */
  lemma ExpiryBounds(t0: nat, ins: seq<Input>, id: Frame)
    requires ins != [] && Ordered(t0, ins) && LastBeat(ins, id).Some?
    ensures var beat, check := ins[LastBeat(ins, id).value].beatTime, ins[|ins| - 1].checkTime;
      && (InTable(After(t0, ins).workers, id) <==> check / 1_000_000 < beat / 1_000_000 + 4)
      && (check <= beat + 3_000_000 ==> InTable(After(t0, ins).workers, id))
      && (check >= beat + 4_000_000 ==> !InTable(After(t0, ins).workers, id))
  {
    TableAtLastCheck(t0, ins);
    var k := LastBeat(ins, id).value;
    var w := Worker(id, Expiry(ins[k].beatTime));
    assert InTable(After(t0, ins).workers, id) <==> w in After(t0, ins).workers;
  }
}
