/** Sockets and the multipart message class. */
module Multipart {
  import opened Wrappers
  import opened Frames
  import Dump
  import DumpContents

  const SNDMORE: bv32 := 2

  // A socket as two streams of frames.  Sending may fail at any frame, unless the socket is
  // reliable; receiving fails only when nothing is there.
  class Socket {
    const reliable: bool
    var inbox: seq<Wire>
    var sent: seq<Wire>

    constructor (reliable: bool)
      ensures this.reliable == reliable && inbox == [] && sent == []
    {
      this.reliable := reliable;
      inbox, sent := [], [];
    }

    method Send(bytes: Frame, flags: bv32) returns (ok: bool)
      modifies this`sent
      ensures reliable ==> ok
      ensures sent == if ok then old(sent) + [Wire(bytes, flags & SNDMORE != 0)] else old(sent)
    {
      var accepted: bool := *;
      ok := reliable || accepted;
      if ok {
        sent := sent + [Wire(bytes, flags & SNDMORE != 0)];
      }
    }

    method Recv() returns (ok: bool, w: Wire)
      modifies this`inbox
      ensures ok <==> old(inbox) != []
      ensures if ok then w == old(inbox)[0] && inbox == old(inbox)[1..] else inbox == old(inbox)
    {
      ok := inbox != [];
      if ok {
        w := inbox[0];
        inbox := inbox[1..];
      } else {
        w := Wire([], false);
      }
    }
  }

  class MultipartMessage {
    var parts: seq<Frame>

    constructor ()
      ensures parts == []
    {
      parts := [];
    }

    constructor FromSocket(socket: Socket)
      modifies socket`inbox
      ensures match Receive(old(socket.inbox))
        case Some((m, rest)) => parts == m && socket.inbox == rest
        case None => parts == Contents(old(socket.inbox)) && socket.inbox == []
    {
      parts := [];
      new;
      var _ := Recv(socket);
    }

    method Clear()
      modifies this
      ensures parts == []
    {
      parts := [];
    }

    function Size(): nat
      reads this
    {
      |parts|
    }

    // Replaces the content by the next message on the socket.  When the frames run out
    // before the message ends, those received stay.
    method Recv(socket: Socket) returns (ok: bool)
      modifies this, socket`inbox
      ensures ok <==> Receive(old(socket.inbox)).Some?
      ensures ok ==> var (m, rest) := Receive(old(socket.inbox)).value;
        parts == m && socket.inbox == rest
      ensures !ok ==> parts == Contents(old(socket.inbox)) && socket.inbox == []
    {
      Clear();
      var more := true;
      ghost var input, taken := socket.inbox, [];
      while more
        invariant more ==> input == taken + socket.inbox && parts == Contents(taken)
        invariant more ==> forall i :: 0 <= i < |taken| ==> taken[i].more
        invariant !more ==> Receive(input) == Some((parts, socket.inbox))
        decreases more, |socket.inbox|
      {
        var w;
        ok, w := socket.Recv();
        if !ok {
          NoEnd(taken);
          assert taken + [] == taken;
          return;
        }
        more := w.more;
        parts := parts + [w.bytes];
        if more {
          taken := taken + [w];
        } else {
          EndFound(taken, w, socket.inbox);
          assert taken + [w] + socket.inbox == input;
        }
      }
      ok := true;
    }

    // Sends and drops the frames one by one.  A frame that fails is lost; those after it stay.
    method Send(socket: Socket, flags: bv32) returns (ok: bool)
      modifies this, socket`sent
      ensures socket.reliable ==> ok
      ensures ok ==> parts == [] && socket.sent == old(socket.sent) + Framed(old(parts))
      ensures !ok ==> var k := |old(parts)| - |parts| - 1;
        k >= 0 && parts == old(parts)[k + 1..]
        && socket.sent == old(socket.sent) + Framed(old(parts))[..k]
    {
      var plain := flags & !SNDMORE;
      ghost var m, before, k := parts, socket.sent, 0;
      var more := Size() > 0;
      while more
        invariant more <==> parts != []
        invariant 0 <= k <= |m| && parts == m[k..]
        invariant socket.sent == before + Framed(m)[..k]
        decreases |parts|
      {
        var message := Pop();
        more := Size() > 0;
        FlagBits(flags);
        ok := socket.Send(message, (if more then SNDMORE else 0) | plain);
        if !ok {
          return;
        }
        assert Framed(m)[..k + 1] == Framed(m)[..k] + [Framed(m)[k]];
        k := k + 1;
      }
      assert Framed(m)[..k] == Framed(m);
      Clear();
      ok := true;
    }

    // Moves the frames of `other` in front of this one's.
    method Prepend(other: MultipartMessage)
      requires other != this
      modifies this, other
      ensures parts == old(other.parts) + old(parts) && other.parts == []
    {
      while other.Size() != 0
        invariant other.parts + parts == old(other.parts) + old(parts)
        decreases |other.parts|
      {
        ghost var before := other.parts;
        var frame := other.Remove();
        assert before == other.parts + [frame];
        Push(frame);
      }
      assert other.parts + parts == parts;
    }

    // Moves the frames of `other` behind this one's.
    method Append(other: MultipartMessage)
      requires other != this
      modifies this, other
      ensures parts == old(parts) + old(other.parts) && other.parts == []
    {
      while other.Size() != 0
        invariant parts + other.parts == old(parts) + old(other.parts)
        decreases |other.parts|
      {
        ghost var before := other.parts;
        var frame := other.Pop();
        assert before == [frame] + other.parts;
        Add(frame);
      }
      assert parts + other.parts == parts;
    }

    method Push(frame: Frame)
      modifies this
      ensures parts == [frame] + old(parts)
    {
      parts := [frame] + parts;
    }

    method Add(frame: Frame)
      modifies this
      ensures parts == old(parts) + [frame]
    {
      parts := parts + [frame];
    }

    method Pop() returns (frame: Frame)
      requires parts != []
      modifies this
      ensures frame == old(parts)[0] && parts == old(parts)[1..]
    {
      frame := parts[0];
      parts := parts[1..];
    }

    method Remove() returns (frame: Frame)
      requires parts != []
      modifies this
      ensures frame == old(parts)[|old(parts)| - 1] && parts == old(parts)[..|old(parts)| - 1]
    {
      frame := parts[|parts| - 1];
      parts := parts[..|parts| - 1];
    }

    method Clone() returns (copy: MultipartMessage)
      ensures fresh(copy) && copy.parts == parts
    {
      copy := new MultipartMessage();
      for i := 0 to Size()
        invariant copy.parts == parts[..i]
        invariant fresh(copy)
      {
        copy.Add(parts[i]);
      }
    }

    method Equal(other: MultipartMessage) returns (same: bool)
      ensures same <==> parts == other.parts
    {
      if Size() != other.Size() {
        return false;
      }
      for i := 0 to Size()
        invariant parts[..i] == other.parts[..i]
      {
        if parts[i] != other.parts[i] {
          return false;
        }
      }
      return true;
    }

    // Dumps the content as text: frame by frame its size and its bytes.
    method Str() returns (ss: string)
      ensures ss == Dump.Text(parts)
      ensures DumpContents.ShowsAll(ss, parts)
    {
      hide Dump.FrameDump, DumpContents.ShowsAll;
      ss := "";
      for i := 0 to Size()
        invariant ss == Dump.Text(parts[..i])
      {
        var line := StrFrame(parts[i]);
        assert parts[..i + 1][..i] == parts[..i];
        ss := ss + line;
      }
      assert parts[..|parts|] == parts;
      DumpContents.MessageShown(ss, parts);
    }
  }

  // The dump of one frame.
  method StrFrame(data: Frame) returns (ss: string)
    ensures ss == Dump.FrameDump(data)
  {
    hide Dump.Decimal3, Dump.Hex, Dump.IsText;
    var isText := TextOrBinary(data);
    ss := "\n[" + Dump.Decimal3(|data|) + "] ";
    if |data| >= 1000 {
      ss := ss + "... (to big to print)";
      return;
    }
    ghost var head := ss;
    DumpNothing();
    for k := 0 to |data|
      invariant ss == head + if isText then data[..k] else Dump.Hex(data[..k])
    {
      if isText {
        ss := ss + [data[k]];
        assert data[..k + 1] == data[..k] + [data[k]];
      } else {
        ss := ss + Dump.Hex2(data[k]);
        HexStep(data, k);
      }
    }
    assert data[..|data|] == data;
  }

  method TextOrBinary(data: Frame) returns (isText: bool)
    ensures isText <==> Dump.IsText(data)
  {
    for j := 0 to |data|
      invariant Dump.IsText(data[..j])
    {
      if data[j] as int < 32 || data[j] as int > 127 {
        assert !Dump.IsTextByte(data[j]);
        return false;
      }
    }
    return true;
  }

  lemma DumpNothing()
    ensures Dump.Hex([]) == ""
  {
  }

  lemma HexStep(data: Frame, k: nat)
    requires k < |data|
    ensures Dump.Hex(data[..k + 1]) == Dump.Hex(data[..k]) + Dump.Hex2(data[k])
  {
    assert data[..k + 1][..k] == data[..k];
  }

  // The flag is set on the wire for every frame but the last, whatever the caller passes.
  lemma FlagBits(flags: bv32)
    ensures (SNDMORE | (flags & !SNDMORE)) & SNDMORE != 0
    ensures (0 | (flags & !SNDMORE)) & SNDMORE == 0
  {
  }

  lemma {:induction false} NoEnd(ws: seq<Wire>)
    requires forall i :: 0 <= i < |ws| ==> ws[i].more
    ensures Receive(ws) == None
  {
    if ws != [] {
      NoEnd(ws[1..]);
    }
  }

  lemma {:induction false} EndFound(ws: seq<Wire>, last: Wire, rest: seq<Wire>)
    requires !last.more && forall i :: 0 <= i < |ws| ==> ws[i].more
    ensures Receive(ws + [last] + rest) == Some((Contents(ws) + [last.bytes], rest))
  {
    var all := ws + [last] + rest;
    if ws == [] {
      assert all[1..] == rest;
      assert Contents(ws) + [last.bytes] == [last.bytes];
    } else {
      assert all[1..] == ws[1..] + [last] + rest;
      EndFound(ws[1..], last, rest);
      assert [ws[0].bytes] + (Contents(ws[1..]) + [last.bytes]) == Contents(ws) + [last.bytes];
    }
  }
}
