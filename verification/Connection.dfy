/** One direction of a peer connection: a PacketSocket, the byte stream it feeds and the
    PacketReader at the other end, under any interleaving of enqueueing, cancelling, partial
    writes, reads of any size and deliveries. */
module Connections {
  import opened Common
  import opened Packets
  import opened PacketSockets
  import R = PacketReading

  /** What the sender has committed itself to sending. */
  function PayloadsOf(log: seq<Selection>): seq<seq<Byte>>
    requires forall i :: 0 <= i < |log| ==> |log[i].packet.data| >= 4
  {
    seq(|log|, i requires 0 <= i < |log| => Payload(log[i].packet))
  }

  ghost predicate LogFits(log: seq<Selection>, max: nat)
  {
    forall i :: 0 <= i < |log| ==> WellFormed(log[i].packet) && |log[i].packet.data| - 4 <= max
  }

  /** The frames of well-formed packets parse back to exactly their payloads. */
  lemma {:induction false} FramesParse(log: seq<Selection>, max: nat)
    requires LogFits(log, max)
    ensures R.Parse(Frames(log), max) == R.Parsed(PayloadsOf(log), [], false)
    decreases |log|
  {
    hide U32, R.Parse;
    if log == [] {
      R.ParseHeader([], [], max);
      assert [] + [] == Frames(log);
      assert PayloadsOf(log) == [];
    } else {
      var n := |log| - 1;
      var p := log[n].packet;
      FramesParse(log[..n], max);
      R.ParseResumes(Frames(log[..n]), p.data, max);
      assert [] + p.data == p.data[..4] + p.data[4..];
      R.ParseOnePacket(p.data[..4], p.data[4..], max);
      assert PayloadsOf(log) == PayloadsOf(log[..n]) + [Payload(p)];
    }
  }

  /** Whatever part of the sender's bytes has arrived, it holds no error and exactly a prefix
      of the selected payloads; once everything has arrived, it holds all of them. */
  lemma EndToEnd(log: seq<Selection>, max: nat, stream: seq<Byte>)
    requires LogFits(log, max) && stream <= Frames(log)
    ensures !R.Parse(stream, max).overlong
    ensures R.Parse(stream, max).packets <= PayloadsOf(log)
    ensures stream == Frames(log) ==> R.Parse(stream, max).packets == PayloadsOf(log)
  {
    hide R.Parse, Frames, WellFormed;
    FramesParse(log, max);
    var all := Frames(log);
    R.ParseResumes(stream, all[|stream|..], max);
    assert all == stream + all[|stream|..];
  }

  // ----- Hooks

  /** What preProcess and postProcess may do to the byte at a position of the stream; a stream
      cipher is of this kind. */
  type Hook = (nat, Byte) -> Byte

  ghost predicate Inverse(pre: Hook, post: Hook)
  {
    forall at: nat, b: Byte :: post(at, pre(at, b)) == b
  }

  /** Processes bytes that start at position `at` of the stream. */
  function Processed(h: Hook, at: nat, s: seq<Byte>): seq<Byte>
  {
    seq(|s|, i requires 0 <= i < |s| => h(at + i, s[i]))
  }

  /** The sender processes each packet when it selects it. */
  function Wire(log: seq<Selection>, pre: Hook): seq<Byte>
  {
    if log == [] then []
    else
      var sent := Wire(log[..|log| - 1], pre);
      sent + Processed(pre, |sent|, log[|log| - 1].packet.data)
  }

  /** The receiver processes each read before it looks at it. */
  function Reads(fragments: seq<seq<Byte>>, post: Hook): seq<seq<Byte>>
  {
    if fragments == [] then []
    else
      var n := |fragments| - 1;
      Reads(fragments[..n], post) + [Processed(post, |R.Joined(fragments[..n])|, fragments[n])]
  }

  lemma {:induction false} WireIsProcessed(log: seq<Selection>, pre: Hook)
    ensures Wire(log, pre) == Processed(pre, 0, Frames(log))
    decreases |log|
  {
    if log != [] {
      WireIsProcessed(log[..|log| - 1], pre);
    }
  }

  lemma {:induction false} ReadsAreProcessed(fragments: seq<seq<Byte>>, post: Hook)
    ensures R.Joined(Reads(fragments, post)) == Processed(post, 0, R.Joined(fragments))
    decreases |fragments|
  {
    if fragments != [] {
      var n := |fragments| - 1;
      ReadsAreProcessed(fragments[..n], post);
      JoinedSnoc(fragments[..n], fragments[n]);
      assert fragments == fragments[..n] + [fragments[n]];
      JoinedSnoc(Reads(fragments[..n], post), Processed(post, |R.Joined(fragments[..n])|, fragments[n]));
    }
  }

  lemma {:induction false} JoinedSnoc(fragments: seq<seq<Byte>>, last: seq<Byte>)
    ensures R.Joined(fragments + [last]) == R.Joined(fragments) + last
    decreases |fragments|
  {
    if fragments == [] {
      assert ([] + [last])[1..] == [];
    } else {
      assert (fragments + [last])[1..] == fragments[1..] + [last];
      JoinedSnoc(fragments[1..], last);
    }
  }

  /** The same guarantee when the sender's hook changes the bytes and the receiver's undoes that,
      although one works packet by packet and the other read by read. */
  lemma EndToEndThroughHooks(log: seq<Selection>, max: nat, pre: Hook, post: Hook, fragments: seq<seq<Byte>>)
    requires LogFits(log, max) && Inverse(pre, post) && R.Joined(fragments) <= Wire(log, pre)
    ensures var got := R.ResumeAll(R.Parse([], max), Reads(fragments, post), max);
            && !got.overlong && got.packets <= PayloadsOf(log)
            && (R.Joined(fragments) == Wire(log, pre) ==> got.packets == PayloadsOf(log))
  {
    hide R.Parse, Frames, WellFormed, R.Joined, R.ResumeAll, Reads, Wire;
    WireIsProcessed(log, pre);
    ReadsAreProcessed(fragments, post);
    var stream := Processed(post, 0, R.Joined(fragments));
    assert stream == Frames(log)[..|stream|];
    EndToEnd(log, max, stream);
    R.FragmentationIndependence([], Reads(fragments, post), max);
    assert [] + R.Joined(Reads(fragments, post)) == stream;
  }

  // ----- Queues

  ghost predicate Fits(q: seq<Packet>, max: nat)
  {
    forall i :: 0 <= i < |q| ==> |q[i].data| - 4 <= max
  }

  lemma FitsConcat(a: seq<Packet>, b: seq<Packet>, max: nat)
    ensures Fits(a + b, max) <==> Fits(a, max) && Fits(b, max)
  {
    forall i | 0 <= i < |a| ensures (a + b)[i] == a[i] {}
    forall i | 0 <= i < |b| ensures (a + b)[|a| + i] == b[i] {}
  }

  lemma {:induction false} TakenFit(log: seq<Selection>, max: nat)
    requires Fits(Taken(log, true), max) && Fits(Taken(log, false), max)
    ensures forall i :: 0 <= i < |log| ==> |log[i].packet.data| - 4 <= max
    decreases |log|
  {
    if log != [] {
      var n := |log| - 1;
      var p := log[n].packet;
      FitsConcat(Taken(log[..n], true), if p.kind == PIECE then [p] else [], max);
      FitsConcat(Taken(log[..n], false), if p.kind == PIECE then [] else [p], max);
      TakenFit(log[..n], max);
      assert [p][0] == p;
    }
  }

  lemma {:induction false} KeptFit(q: seq<Packet>, r: Request, max: nat)
    requires Fits(q, max)
    ensures Fits(Kept(q, r), max)
    decreases |q|
  {
    hide IsPiece;
    if q != [] {
      KeptFit(q[..|q| - 1], r, max);
    }
  }

  lemma RejectsFit(q: seq<Packet>, max: nat)
    requires Fits(q, max) && max >= 13
    ensures Fits(Rejects(q), max)
  {
    hide WellFormed, U32, PutU32;
    forall i | 0 <= i < |q| ensures |Rejects(q)[i].data| - 4 <= max {
      if WellFormed(q[i]) && q[i].kind == PIECE {
        RejectIsControl(q[i]);
      }
    }
  }

  class Connection {
    const sender: PacketSocket
    const reader: R.PacketReader
    /** How many of the sender's bytes have been read at the other end. */
    var taken: nat

    /** Everything that the sender has taken or may take fits the reader's limit. */
    ghost predicate AllFit()
      reads this, sender
    {
      && reader.maxPacketSize >= 13
      && Fits(sender.AllData(), reader.maxPacketSize)
      && Fits(sender.AllControl(), reader.maxPacketSize)
    }

    ghost predicate Valid()
      reads this, sender, sender.sock, reader, reader.len
    {
      && sender.Valid() && reader.Valid() && AllFit()
      && taken <= |sender.sock.sent| && reader.stream == sender.sock.sent[..taken]
    }

    /** Every object that the connection is made of. */
    ghost function Repr(): set<object>
      reads this
    {
      {this, sender, sender.sock, reader, reader.len}
    }

    constructor (max: nat)
      requires max >= 13
      ensures Valid() && fresh(Repr()) && reader.maxPacketSize == max
    {
      hide WellFormed, HistoryOk, DataQueueOk, ControlQueueOk, PieceBytes, R.At;
      sender := new PacketSocket();
      reader := new R.PacketReader(max);
      taken := 0;
    }

    /** The end-to-end guarantee, in every reachable state. */
    lemma Guarantee()
      requires Valid()
      ensures !reader.error
      ensures forall i :: 0 <= i < |sender.log| ==> |sender.log[i].packet.data| >= 4
      ensures reader.delivered <= PayloadsOf(sender.log)
      ensures sender.currPacket.None? && taken == |sender.sock.sent| ==>
                reader.delivered + R.Complete(reader.queue) == PayloadsOf(sender.log)
    {
      hide R.Parse, Frames, Taken, U32, R.Complete, Fair, ControlRun, R.Partial, R.QueueOk, DataQueueOk, ControlQueueOk, PieceBytes;
      var max, log := reader.maxPacketSize, sender.log;
      FitsConcat(Taken(log, true), sender.dataPackets, max);
      FitsConcat(Taken(log, false), sender.controlPackets, max);
      TakenFit(log, max);
      EndToEnd(log, max, reader.stream);
    }

    method Enqueue(p: Packet)
      requires Valid() && WellFormed(p) && !p.Sending() && |Payload(p)| <= reader.maxPacketSize
      modifies sender
      ensures Valid() && sender.log == old(sender.log)
      ensures sender.dataPackets + sender.controlPackets ==
        if p.kind == PIECE then old(sender.dataPackets) + [p] + old(sender.controlPackets)
        else old(sender.dataPackets) + old(sender.controlPackets) + [p]
    {
      hide WellFormed, HistoryOk, DataQueueOk, ControlQueueOk, PieceBytes, Taken, R.At;
      var max := reader.maxPacketSize;
      FitsConcat(Taken(sender.log, true), sender.dataPackets, max);
      FitsConcat(Taken(sender.log, false), sender.controlPackets, max);
      sender.AddPacket(p);
      FitsConcat(Taken(sender.log, true), sender.dataPackets, max);
      FitsConcat(Taken(sender.log, false), sender.controlPackets, max);
    }

    /** Cancels the pieces that answer `req`, or all queued pieces when there is none. */
    method Cancel(req: Option<Request>, reject: bool)
      requires Valid()
      modifies sender
      ensures Valid() && sender.log == old(sender.log)
      ensures sender.dataPackets == if req.Some? then Kept(old(sender.dataPackets), req.value) else []
      ensures sender.controlPackets == old(sender.controlPackets) +
        if !reject then [] else Rejects(if req.Some? then Cancelled(old(sender.dataPackets), req.value) else old(sender.dataPackets))
    {
      hide WellFormed, HistoryOk, DataQueueOk, ControlQueueOk, PieceBytes, Taken, R.At, Rejects, Kept, Cancelled;
      var max := reader.maxPacketSize;
      FitsConcat(Taken(sender.log, true), sender.dataPackets, max);
      FitsConcat(Taken(sender.log, false), sender.controlPackets, max);
      ghost var data, control := sender.dataPackets, sender.controlPackets;
      if req.Some? {
        KeptFit(data, req.value, max);
        CancelledFit(data, req.value, max);
        RejectsFit(Cancelled(data, req.value), max);
        FitsConcat(control, Rejects(Cancelled(data, req.value)), max);
        sender.DoNotSendPiece(req.value, reject);
        assert control + [] == control;
      } else {
        RejectsFit(data, max);
        FitsConcat(control, Rejects(data), max);
        sender.ClearPieces(reject);
        assert control + [] == control;
      }
      FitsConcat(Taken(sender.log, true), sender.dataPackets, max);
      FitsConcat(Taken(sender.log, false), sender.controlPackets, max);
    }

    method Write(max: nat, connected: bool) returns (written: nat)
      requires Valid()
      modifies sender, sender.sock
      ensures Valid()
      ensures old(sender.log) <= sender.log && |sender.sock.sent| == |old(sender.sock.sent)| + written
      ensures sender.AllControl() == old(sender.AllControl()) && sender.AllData() == old(sender.AllData())
    {
      hide WellFormed, HistoryOk, DataQueueOk, ControlQueueOk, PieceBytes, Taken, R.At, Fits;
      written := sender.Write(max, connected);
    }

    /** The other end reads the next `n` bytes of what was sent. */
    method Read(n: nat)
      requires Valid() && taken + n <= |sender.sock.sent|
      modifies this, reader, reader.len
      ensures Valid() && taken == old(taken) + n
    {
      hide WellFormed, HistoryOk, DataQueueOk, ControlQueueOk, PieceBytes, Taken, R.At, Fits;
      var sent := sender.sock.sent;
      reader.OnDataReady(sent[taken..taken + n]);
      taken := taken + n;
      assert sent[..taken] == sent[..taken - n] + sent[taken - n..taken];
    }

    method Deliver() returns (handled: seq<seq<Byte>>)
      requires Valid()
      modifies reader
      ensures Valid()
      ensures reader.delivered == old(reader.delivered) + handled
      ensures forall i :: 0 <= i < |sender.log| ==> |sender.log[i].packet.data| >= 4
      ensures sender.currPacket.None? && taken == |sender.sock.sent| ==> reader.delivered == PayloadsOf(sender.log)
    {
      hide WellFormed, HistoryOk, DataQueueOk, ControlQueueOk, PieceBytes, Taken, R.At, Fits;
      Guarantee();
      handled := reader.Update();
      Guarantee();
    }
  }

  lemma {:induction false} CancelledFit(q: seq<Packet>, r: Request, max: nat)
    requires Fits(q, max)
    ensures Fits(Cancelled(q, r), max)
    decreases |q|
  {
    hide IsPiece;
    if q != [] {
      CancelledFit(q[..|q| - 1], r, max);
    }
  }
}
