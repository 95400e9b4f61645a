/** Message frames and the framing of multipart messages on a socket. */
module Frames {
  import opened Wrappers

  // A byte, written as the character with that code.
  type Byte = c: char | (c as int) < 256 witness '\0'

  type Frame = seq<Byte>

  type Message = seq<Frame>

  // A frame on the wire: `more` tells that the next frame belongs to the same message.
  datatype Wire = Wire(bytes: Frame, more: bool)

  // A message as it goes on the wire.
  function Framed(m: Message): (ws: seq<Wire>)
    ensures |ws| == |m|
  {
    seq(|m|, i requires 0 <= i < |m| => Wire(m[i], i + 1 < |m|))
  }

  function FramedAll(ms: seq<Message>): seq<Wire> {
    if ms == [] then [] else Framed(ms[0]) + FramedAll(ms[1..])
  }

  // The first complete message on the wire and what follows it.
  function Receive(ws: seq<Wire>): (r: Option<(Message, seq<Wire>)>)
    ensures r.Some? ==> r.value.0 != [] && |r.value.1| < |ws|
  {
    if ws == [] then None
    else if !ws[0].more then Some(([ws[0].bytes], ws[1..]))
    else match Receive(ws[1..])
      case None => None
      case Some((m, rest)) => Some(([ws[0].bytes] + m, rest))
  }

  function ReceiveMany(ws: seq<Wire>, n: nat): (r: Option<(seq<Message>, seq<Wire>)>)
    ensures r.Some? ==> forall i :: 0 <= i < |r.value.0| ==> r.value.0[i] != []
    decreases n
  {
    if n == 0 then Some(([], ws))
    else match Receive(ws)
      case None => None
      case Some((m, rest)) =>
        match ReceiveMany(rest, n - 1)
        case None => None
        case Some((ms, rest')) => Some(([m] + ms, rest'))
  }

  // The bytes of every frame on the wire.
  function Contents(ws: seq<Wire>): (m: Message)
    ensures |m| == |ws|
  {
    seq(|ws|, i requires 0 <= i < |ws| => ws[i].bytes)
  }

  lemma {:induction false} ReceiveFramed(m: Message, rest: seq<Wire>)
    requires m != []
    ensures Receive(Framed(m) + rest) == Some((m, rest))
  {
    var ws := Framed(m) + rest;
    if |m| == 1 {
      assert ws[1..] == rest;
      assert [ws[0].bytes] == m;
    } else {
      assert ws[1..] == Framed(m[1..]) + rest;
      ReceiveFramed(m[1..], rest);
      assert [ws[0].bytes] + m[1..] == m;
    }
  }

  /** Framing is self-delimiting: receiving as many times as was sent gives the same messages
      and leaves later frames alone, if and only if no message is empty. */
  lemma {:induction false} SelfDelimiting(ms: seq<Message>, rest: seq<Wire>)
    ensures ReceiveMany(FramedAll(ms) + rest, |ms|) == Some((ms, rest))
      <==> forall i :: 0 <= i < |ms| ==> ms[i] != []
  {
    if forall i :: 0 <= i < |ms| ==> ms[i] != [] {
      DelimitAll(ms, rest);
    }
  }

  /** An empty message puts nothing on the wire, so the receiver gets the next one instead. */
  lemma EmptyMessageExample()
    ensures ReceiveMany(FramedAll([[], ["a"]]) + [], 1) == Some(([["a"]], []))
    ensures ReceiveMany(FramedAll([[], ["a"]]) + [], 2) == None
  {
    EmptyFirst(["a"]);
    hide Receive, Framed, FramedAll;
    assert Framed(["a"]) + [] + [] == Framed(["a"]) + [];
    ReceiveFramed(["a"], []);
    NothingToReceive();
    assert [["a"]] + [] == [["a"]];
  }

  lemma EmptyFirst(m: Message)
    ensures FramedAll([[], m]) == Framed(m) + []
  {
    var ms: seq<Message> := [[], m];
    assert ms[1..] == [m] && [m][1..] == [];
    assert FramedAll([m]) == Framed(m) + FramedAll([]);
    assert FramedAll(ms) == Framed([]) + FramedAll([m]);
  }

  lemma NothingToReceive()
    ensures Receive([]) == None && ReceiveMany([], 1) == None
  {
  }

  lemma {:induction false} DelimitAll(ms: seq<Message>, rest: seq<Wire>)
    requires forall i :: 0 <= i < |ms| ==> ms[i] != []
    ensures ReceiveMany(FramedAll(ms) + rest, |ms|) == Some((ms, rest))
  {
    if ms == [] {
      assert FramedAll(ms) + rest == rest;
    } else {
      var later := FramedAll(ms[1..]) + rest;
      assert FramedAll(ms) + rest == Framed(ms[0]) + later;
      ReceiveFramed(ms[0], later);
      DelimitAll(ms[1..], rest);
      assert [ms[0]] + ms[1..] == ms;
    }
  }

  lemma {:induction false} FramedAllConcat(a: seq<Message>, b: seq<Message>)
    ensures FramedAll(a + b) == FramedAll(a) + FramedAll(b)
  {
    if a == [] {
      assert a + b == b;
    } else {
      assert (a + b)[1..] == a[1..] + b;
      FramedAllConcat(a[1..], b);
    }
  }

  /** A message whose sending stops half way is taken by the receiver for the beginning of
      the next message that goes through. */
  lemma PartialSendMerges(m: Message, k: nat, next: Message, rest: seq<Wire>)
    requires k < |m| && next != []
    ensures Receive(Framed(m)[..k] + Framed(next) + rest) == Some((m[..k] + next, rest))
  {
    MergeFrames(Framed(m)[..k], next, rest);
    assert Contents(Framed(m)[..k]) == m[..k];
  }

  lemma {:induction false} MergeFrames(ws: seq<Wire>, next: Message, rest: seq<Wire>)
    requires next != [] && forall i :: 0 <= i < |ws| ==> ws[i].more
    ensures Receive(ws + Framed(next) + rest) == Some((Contents(ws) + next, rest))
  {
    if ws == [] {
      ReceiveFramed(next, rest);
      assert ws + Framed(next) + rest == Framed(next) + rest;
      assert Contents(ws) + next == next;
    } else {
      assert (ws + Framed(next) + rest)[1..] == ws[1..] + Framed(next) + rest;
      MergeFrames(ws[1..], next, rest);
      assert [ws[0].bytes] + (Contents(ws[1..]) + next) == Contents(ws) + next;
    }
  }

  // ----- messages that may be cut short

  // One count of frames for each message.
  predicate Counts(ms: seq<Message>, counts: seq<nat>) {
    |counts| == |ms| && forall i :: 0 <= i < |ms| ==> counts[i] <= |ms[i]|
  }

  // No message is cut short.
  predicate Whole(ms: seq<Message>, counts: seq<nat>) {
    |counts| == |ms| && forall i :: 0 <= i < |ms| ==> counts[i] == |ms[i]|
  }

  // The first frames of each message, as many as counted, in order.
  function CutAll(ms: seq<Message>, counts: seq<nat>): seq<Wire>
    requires Counts(ms, counts)
  {
    if ms == [] then [] else Framed(ms[0])[..counts[0]] + CutAll(ms[1..], counts[1..])
  }

  // From `before` to `after` the wire has taken the counted frames of `ms`.
  predicate Took(before: seq<Wire>, ms: seq<Message>, counts: seq<nat>, after: seq<Wire>) {
    Counts(ms, counts) && after == before + CutAll(ms, counts)
  }

  lemma {:induction false} CutAllConcat(a: seq<Message>, ca: seq<nat>, b: seq<Message>, cb: seq<nat>)
    requires Counts(a, ca) && Counts(b, cb)
    ensures Counts(a + b, ca + cb) && CutAll(a + b, ca + cb) == CutAll(a, ca) + CutAll(b, cb)
  {
    if a == [] {
      assert a + b == b && ca + cb == cb;
    } else {
      assert (a + b)[1..] == a[1..] + b && (ca + cb)[1..] == ca[1..] + cb;
      CutAllConcat(a[1..], ca[1..], b, cb);
      hide Framed;
      var first := Framed(a[0])[..ca[0]];
      assert first + (CutAll(a[1..], ca[1..]) + CutAll(b, cb)) == first + CutAll(a[1..], ca[1..]) + CutAll(b, cb);
    }
  }

  // What is taken in two goes is taken.
  lemma TookMore(x: seq<Wire>, a: seq<Message>, ca: seq<nat>, y: seq<Wire>,
      b: seq<Message>, cb: seq<nat>, z: seq<Wire>)
    requires Took(x, a, ca, y) && Took(y, b, cb, z)
    ensures Took(x, a + b, ca + cb, z)
    ensures Whole(a, ca) && Whole(b, cb) ==> Whole(a + b, ca + cb)
  {
    CutAllConcat(a, ca, b, cb);
    WholeConcat(a, ca, b, cb);
    hide Counts, CutAll, Whole;
    assert x + CutAll(a, ca) + CutAll(b, cb) == x + (CutAll(a, ca) + CutAll(b, cb));
  }

  lemma WholeConcat(a: seq<Message>, ca: seq<nat>, b: seq<Message>, cb: seq<nat>)
    ensures Whole(a, ca) && Whole(b, cb) ==> Whole(a + b, ca + cb)
  {
  }

  lemma TookNothing(x: seq<Wire>)
    ensures Took(x, [], [], x) && Whole([], [])
  {
    assert x + [] == x;
  }

  lemma TookOne(x: seq<Wire>, m: Message, n: nat)
    requires n <= |m|
    ensures Took(x, [m], [n], x + Framed(m)[..n])
  {
    assert [m][1..] == [] && [n][1..] == [];
    assert CutAll([m], [n]) == Framed(m)[..n] + CutAll([], []);
  }

  /** When no message is cut short, the wire takes all frames of all messages. */
  lemma {:induction false} WholeCut(ms: seq<Message>, counts: seq<nat>)
    requires Whole(ms, counts)
    ensures Counts(ms, counts) && CutAll(ms, counts) == FramedAll(ms)
  {
    if ms != [] {
      WholeCut(ms[1..], counts[1..]);
      assert Framed(ms[0])[..counts[0]] == Framed(ms[0]);
    }
  }
}
