/** src/net/packetsocket.cpp: a socket with two queues of outgoing packets. Control packets
    go ahead of pieces, but at least every fourth packet may be a piece. */
module PacketSockets {
  import opened Common
  import opened Packets

  /** The operating system's socket: takes some prefix of what it is offered. */
  class SocketDevice {
    var sent: seq<Byte>

    /** How often it took less than it was offered; only a call of Send adds to it. */
    ghost var refusals: nat

    constructor ()
      ensures sent == []
    {
      sent, refusals := [], 0;
    }

    method Send(buf: seq<Byte>) returns (ret: int)
      modifies this
      ensures ret <= |buf|
      ensures sent == old(sent) + (if ret > 0 then buf[..ret] else [])
      ensures refusals == old(refusals) + if ret < |buf| then 1 else 0
    {
      ret := *;
      if ret > |buf| {
        ret := |buf|;
      }
      if ret > 0 {
        sent := sent + buf[..ret];
      }
      if ret < |buf| {
        refusals := refusals + 1;
      }
    }
  }

  /** One decision of selectPacket: what was taken, and which queues had something in them. */
  datatype Selection = Selection(packet: Packet, controlWaiting: bool, dataWaiting: bool)

  /** The bytes of all selected packets, in order of selection. */
  function Frames(log: seq<Selection>): seq<Byte>
  {
    if log == [] then [] else Frames(log[..|log| - 1]) + log[|log| - 1].packet.data
  }

  /** The pieces, or the control packets, that were selected, in order. */
  function Taken(log: seq<Selection>, pieces: bool): seq<Packet>
  {
    if log == [] then []
    else
      var p := log[|log| - 1].packet;
      Taken(log[..|log| - 1], pieces) + if (p.kind == PIECE) == pieces then [p] else []
  }

  /** How many control packets end the log. */
  function ControlRun(log: seq<Selection>): nat
  {
    if log == [] || log[|log| - 1].packet.kind == PIECE then 0 else ControlRun(log[..|log| - 1]) + 1
  }

  /** Which queue the next packet comes from: a piece when there is one and it has no
      competition or three control packets have gone before it. */
  predicate FairChoice(before: seq<Selection>, s: Selection)
  {
    && (s.controlWaiting || s.dataWaiting)
    && (s.packet.kind == PIECE <==> s.dataWaiting && (!s.controlWaiting || Wrap32(ControlRun(before)) >= 3))
  }

  ghost predicate Fair(log: seq<Selection>)
  {
    forall i :: 0 <= i < |log| ==> FairChoice(log[..i], log[i])
  }

  lemma FairExtends(log: seq<Selection>, s: Selection)
    requires Fair(log) && FairChoice(log, s)
    ensures Fair(log + [s])
  {
    var l := log + [s];
    forall i | 0 <= i < |l| ensures FairChoice(l[..i], l[i]) {
      assert l[..i] == log[..i];
      assert log[..|log|] == log;
    }
  }

  /** A piece is taken past a waiting control packet only when the three packets before it
      were control packets. */
  lemma PiecesYield(log: seq<Selection>, i: nat)
    requires Fair(log) && i < |log| && log[i].packet.kind == PIECE && log[i].controlWaiting
    ensures i >= 3 && forall j :: i - 3 <= j < i ==> log[j].packet.kind != PIECE
  {
    assert FairChoice(log[..i], log[i]);
    RunIsControl(log[..i], 3);
  }

  /** While pieces wait, every four packets in a row include one, unless the 32-bit counter of
      control packets since the last piece has wrapped. */
  lemma PiecesProgress(log: seq<Selection>, i: nat)
    requires Fair(log) && i + 4 <= |log| && ControlRun(log[..i + 3]) < TWO_32
    requires forall j :: i <= j < i + 4 ==> log[j].dataWaiting
    ensures exists j :: i <= j < i + 4 && log[j].packet.kind == PIECE
  {
    if forall j :: i <= j < i + 3 ==> log[j].packet.kind != PIECE {
      ControlIsRun(log[..i + 3], 3);
      assert FairChoice(log[..i + 3], log[i + 3]);
    }
  }

  lemma {:induction false} ControlIsRun(log: seq<Selection>, n: nat)
    requires n <= |log| && forall j :: |log| - n <= j < |log| ==> log[j].packet.kind != PIECE
    ensures n <= ControlRun(log)
    decreases |log|
  {
    if log != [] {
      ControlIsRun(log[..|log| - 1], if n > 0 then n - 1 else 0);
    }
  }

  lemma {:induction false} RunIsControl(log: seq<Selection>, n: nat)
    requires ControlRun(log) >= n
    ensures n <= |log| && forall j :: |log| - n <= j < |log| ==> log[j].packet.kind != PIECE
  {
    if n > 0 {
      RunIsControl(log[..|log| - 1], n - 1);
    }
  }

  /** Bytes in a queue. */
  function Size(q: seq<Packet>): nat
  {
    if q == [] then 0 else Size(q[..|q| - 1]) + |q[|q| - 1].data|
  }

  lemma {:induction false} SizeOfConcat(a: seq<Packet>, b: seq<Packet>)
    ensures Size(a + b) == Size(a) + Size(b)
    decreases |b|
  {
    if b == [] {
      assert a + b == a;
    } else {
      SizeOfConcat(a, b[..|b| - 1]);
      assert (a + b)[..|a + b| - 1] == a + b[..|b| - 1];
    }
  }

  /** The pieces that a cancellation leaves, the ones it takes, and the rejects that replace those. */
  function Kept(q: seq<Packet>, r: Request): seq<Packet>
  {
    if q == [] then []
    else Kept(q[..|q| - 1], r) + (if IsPiece(q[|q| - 1], r) then [] else [q[|q| - 1]])
  }

  function Cancelled(q: seq<Packet>, r: Request): seq<Packet>
  {
    if q == [] then []
    else Cancelled(q[..|q| - 1], r) + (if IsPiece(q[|q| - 1], r) then [q[|q| - 1]] else [])
  }

  lemma CancelNone(r: Request)
    ensures Kept([], r) == [] && Cancelled([], r) == [] && Rejects([]) == []
  {
  }

  lemma CancelStep(q: seq<Packet>, n: nat, r: Request)
    requires n < |q|
    ensures Kept(q[..n + 1], r) == Kept(q[..n], r) + if IsPiece(q[n], r) then [] else [q[n]]
    ensures Cancelled(q[..n + 1], r) == Cancelled(q[..n], r) + if IsPiece(q[n], r) then [q[n]] else []
  {
    hide IsPiece;
    assert q[..n + 1][..n] == q[..n];
  }

  /** Erasing or passing over the first element of the part of a list not yet looked at. */
  lemma EraseAt(done: seq<Packet>, all: seq<Packet>, n: nat)
    requires n < |all|
    ensures (done + all[n..])[|done|] == all[n]
    ensures (done + all[n..])[..|done|] + (done + all[n..])[|done| + 1..] == done + all[n + 1..]
  {
  }

  lemma KeepAt(done: seq<Packet>, all: seq<Packet>, n: nat)
    requires n < |all|
    ensures (done + all[n..])[|done|] == all[n]
    ensures done + all[n..] == done + [all[n]] + all[n + 1..]
  {
  }

  function RejectOf(p: Packet): Packet
  {
    if WellFormed(p) && p.kind == PIECE then MakeRejectOfPiece(p).value else p
  }

  function Rejects(q: seq<Packet>): seq<Packet>
  {
    seq(|q|, i requires 0 <= i < |q| => RejectOf(q[i]))
  }

  predicate ControlQueueOk(q: seq<Packet>)
  {
    forall i :: 0 <= i < |q| ==> WellFormed(q[i]) && q[i].kind != PIECE && q[i].written == 0
  }

  predicate DataQueueOk(q: seq<Packet>)
  {
    forall i :: 0 <= i < |q| ==> WellFormed(q[i]) && q[i].kind == PIECE && q[i].written == 0 && 13 <= |q[i].data| < TWO_32
  }

  /** Bytes of pieces that still have to be sent. */
  function PieceBytes(data: seq<Packet>, curr: Option<Packet>): int
  {
    Size(data) + if curr.Some? && curr.value.kind == PIECE then |curr.value.data| - curr.value.written else 0
  }

  function Unsent(curr: Option<Packet>): seq<Byte>
    requires curr.Some? ==> curr.value.written <= |curr.value.data|
  {
    if curr.None? then [] else curr.value.data[curr.value.written..]
  }

  /** The current packet is the last one selected, what went out is everything selected but its
      unsent bytes, and the control counter stands at the run of control packets before it. */
  ghost predicate HistoryOk(log: seq<Selection>, curr: Option<Packet>, sent: seq<Byte>, ctrlPacketsSent: nat)
  {
    && Fair(log)
    && (forall i :: 0 <= i < |log| ==> WellFormed(log[i].packet) && log[i].packet.written == 0)
    && (curr.Some? ==> WellFormed(curr.value) && |log| > 0 && log[|log| - 1].packet == curr.value.(written := 0))
    && sent + Unsent(curr) == Frames(log)
    && (curr.None? ==> ctrlPacketsSent == Wrap32(ControlRun(log)))
    && (curr.Some? && curr.value.kind != PIECE ==> ctrlPacketsSent == Wrap32(ControlRun(log[..|log| - 1])))
  }

  /** Part of the current packet goes out. */
  lemma SendPart(log: seq<Selection>, curr: Packet, sent: seq<Byte>, ctrl: nat, k: nat)
    requires HistoryOk(log, Some(curr), sent, ctrl) && curr.written + k <= |curr.data|
    ensures HistoryOk(log, Some(curr.(written := curr.written + k)),
                      sent + curr.data[curr.written..curr.written + k], ctrl)
  {
    hide Frames, Fair, ControlRun, U32, Wrap32;
    var curr' := curr.(written := curr.written + k);
    assert curr.data[curr.written..] == curr.data[curr.written..curr.written + k] + Unsent(Some(curr'));
  }

  /** The current packet has gone out completely. */
  lemma PacketDone(log: seq<Selection>, curr: Packet, sent: seq<Byte>, ctrl: nat)
    requires HistoryOk(log, Some(curr), sent, ctrl) && curr.IsSent()
    ensures HistoryOk(log, None, sent, if curr.kind == PIECE then 0 else Wrap32(ctrl + 1))
  {
    hide Frames, Fair, U32;
    assert Unsent(Some(curr)) == [];
    WrapAdd(ControlRun(log[..|log| - 1]), 1);
  }

  /** The next packet is selected. */
  lemma Selected(log: seq<Selection>, s: Selection, sent: seq<Byte>, ctrl: nat, ctrl': nat)
    requires HistoryOk(log, None, sent, ctrl) && WellFormed(s.packet) && s.packet.written == 0
    requires FairChoice(log, s)
    requires s.packet.kind == PIECE || ctrl' == ctrl
    ensures HistoryOk(log + [s], Some(s.packet), sent, ctrl')
  {
    hide Fair, U32, Wrap32, ControlRun;
    FairExtends(log, s);
    assert (log + [s])[..|log|] == log;
  }

  /** Only pieces count as upload bytes. */
  lemma SameBytes(q: seq<Packet>, p: Packet)
    ensures p.kind != PIECE ==> PieceBytes(q, Some(p)) == PieceBytes(q, None)
  {
  }

  /** Moving the first packet of a queue into the log. */
  lemma TakenGrows(log: seq<Selection>, s: Selection, pieces: bool, q: seq<Packet>)
    ensures (s.packet.kind == PIECE) == pieces && |q| > 0 && q[0] == s.packet ==>
              Taken(log + [s], pieces) + q[1..] == Taken(log, pieces) + q
    ensures (s.packet.kind == PIECE) != pieces ==> Taken(log + [s], pieces) == Taken(log, pieces)
  {
    assert (log + [s])[..|log|] == log;
  }

  lemma CounterIsRun(log: seq<Selection>, sent: seq<Byte>, ctrl: nat)
    requires HistoryOk(log, None, sent, ctrl)
    ensures ctrl == Wrap32(ControlRun(log))
  {
  }

  /** Making the first queued piece the current packet changes no count. */
  lemma TakeFirst(q: seq<Packet>)
    requires |q| > 0 && q[0].kind == PIECE && q[0].written == 0
    ensures PieceBytes(q[1..], Some(q[0])) == PieceBytes(q, None)
  {
    assert q == [q[0]] + q[1..];
    SizeOfConcat([q[0]], q[1..]);
    assert [q[0]][..0] == [];
    assert Size([q[0]]) == Size([]) + |q[0].data|;
  }

  class PacketSocket {
    var controlPackets: seq<Packet>
    var dataPackets: seq<Packet>
    var currPacket: Option<Packet>
    var ctrlPacketsSent: nat
    var pendingUploadDataBytes: nat
    var uploadedDataBytes: nat
    const sock: SocketDevice

    ghost var log: seq<Selection>

    ghost predicate Invariant()
      reads this, sock
    {
      && ControlQueueOk(controlPackets)
      && DataQueueOk(dataPackets)
      && HistoryOk(log, currPacket, sock.sent, ctrlPacketsSent)
      && (currPacket.Some? ==> WellFormed(currPacket.value))
      && pendingUploadDataBytes == Wrap32(PieceBytes(dataPackets, currPacket))
    }

    /** Every control packet and every piece selected so far or still queued, in order. */
    ghost function AllControl(): seq<Packet>
      reads this
    {
      Taken(log, false) + controlPackets
    }

    ghost function AllData(): seq<Packet>
      reads this
    {
      Taken(log, true) + dataPackets
    }

    /** Between calls the current packet has something left to send. */
    ghost predicate Valid()
      reads this, sock
    {
      Invariant() && (currPacket.Some? ==> !currPacket.value.IsSent())
    }

    constructor ()
      ensures Valid() && fresh(sock)
      ensures log == [] && sock.sent == [] && controlPackets == [] && dataPackets == []
    {
      controlPackets, dataPackets, currPacket := [], [], None;
      ctrlPacketsSent, pendingUploadDataBytes, uploadedDataBytes := 0, 0, 0;
      sock := new SocketDevice();
      log := [];
    }

    method SelectPacket()
      requires Invariant() && currPacket.None?
      modifies this
      ensures Valid()
      ensures pendingUploadDataBytes == old(pendingUploadDataBytes) && uploadedDataBytes == old(uploadedDataBytes)
      ensures currPacket.None? <==> old(controlPackets) == [] && old(dataPackets) == []
      ensures ctrlPacketsSent == if old(ctrlPacketsSent) >= 3 && old(dataPackets) != [] then 0 else old(ctrlPacketsSent)
      ensures currPacket.None? ==> log == old(log)
      ensures currPacket.Some? ==>
        log == old(log) + [Selection(currPacket.value, old(controlPackets) != [], old(dataPackets) != [])]
      ensures currPacket.None? ==> controlPackets == [] && dataPackets == []
      ensures AllControl() == old(AllControl())
      ensures AllData() == old(AllData())
      ensures |controlPackets| + |dataPackets| == old(|controlPackets| + |dataPackets|) - if currPacket.Some? then 1 else 0
    {
      hide U32, HistoryOk, Wrap32, ControlRun, Size, Taken, PieceBytes;
      ghost var control, data := controlPackets, dataPackets;
      var controlWaiting, dataWaiting := |controlPackets| > 0, |dataPackets| > 0;
      ghost var ctrl := ctrlPacketsSent;
      if dataWaiting {
        TakeFirst(dataPackets);
      }
      if ctrlPacketsSent < 3 {
        if |controlPackets| > 0 {
          currPacket, controlPackets := Some(controlPackets[0]), controlPackets[1..];
        } else if |dataPackets| > 0 {
          currPacket, dataPackets := Some(dataPackets[0]), dataPackets[1..];
        }
      } else {
        if |dataPackets| > 0 {
          ctrlPacketsSent := 0;
          currPacket, dataPackets := Some(dataPackets[0]), dataPackets[1..];
        } else if |controlPackets| > 0 {
          currPacket, controlPackets := Some(controlPackets[0]), controlPackets[1..];
        }
      }
      if currPacket.Some? {
        ghost var s := Selection(currPacket.value, controlWaiting, dataWaiting);
        CounterIsRun(log, sock.sent, ctrl);
        Selected(log, s, sock.sent, ctrl, ctrlPacketsSent);
        TakenGrows(log, s, false, control);
        TakenGrows(log, s, true, data);
        SameBytes(dataPackets, currPacket.value);
        log := log + [s];
      } else {
        assert controlPackets == [] && dataPackets == [];
      }
    }

    /** Packet::send on the current packet: offers what is left of it, at most `limit` bytes
        unless that is 0, and accounts for what the socket took. */
    method SendCurrent(limit: nat) returns (ret: int)
      requires Valid() && currPacket.Some?
      modifies this`currPacket, this`pendingUploadDataBytes, this`uploadedDataBytes, sock
      ensures Invariant() && currPacket.Some?
      ensures limit > 0 ==> ret <= limit
      ensures ret <= 0 ==> currPacket == old(currPacket) && sock.sent == old(sock.sent)
      ensures ret > 0 ==> |sock.sent| == old(|sock.sent|) + ret
      ensures old(sock.sent) <= sock.sent
      ensures currPacket.value.(written := 0) == old(currPacket.value).(written := 0)
      // unless the socket took less than it was offered, the packet is out or the limit is used up
      ensures sock.refusals > old(sock.refusals) || currPacket.value.IsSent() || (limit > 0 && ret == limit)
      ensures old(sock.refusals) <= sock.refusals <= old(sock.refusals) + if currPacket.value.IsSent() then 0 else 1
      ensures Wrap32(pendingUploadDataBytes + uploadedDataBytes) == Wrap32(old(pendingUploadDataBytes + uploadedDataBytes))
    {
      hide U32, HistoryOk, Size, Wrap32, ControlQueueOk, DataQueueOk;
      var pck := currPacket.value;
      var bw := |pck.data| - pck.written;
      if bw > limit && limit > 0 {
        bw := limit;
      }
      ret := sock.Send(pck.data[pck.written..pck.written + bw]);
      if ret > 0 {
        assert pck.data[pck.written..pck.written + bw][..ret] == pck.data[pck.written..pck.written + ret];
        SendPart(log, pck, old(sock.sent), ctrlPacketsSent, ret);
        currPacket := Some(pck.(written := pck.written + ret));
        if pck.kind == PIECE {
          WrapAdd(PieceBytes(dataPackets, Some(pck)), -ret);
          WrapMove(pendingUploadDataBytes, uploadedDataBytes, ret);
          pendingUploadDataBytes := Wrap32(pendingUploadDataBytes - ret);
          uploadedDataBytes := Wrap32(uploadedDataBytes + ret);
        }
      } else {
        assert sock.sent == old(sock.sent);
      }
    }

    /** Sends until `max` bytes are out (0 means no limit), the socket takes less than it is offered,
        or nothing is left. `connected` is false while a connection attempt has not succeeded yet. */
    method Write(max: nat, connected: bool) returns (written: nat)
      requires Valid()
      modifies this, sock
      ensures Valid()
      ensures old(log) <= log
      ensures old(sock.sent) <= sock.sent && |sock.sent| == |old(sock.sent)| + written
      ensures max > 0 ==> written <= max
      ensures Wrap32(pendingUploadDataBytes + uploadedDataBytes) == Wrap32(old(pendingUploadDataBytes + uploadedDataBytes))
      // it stops only at the limit, when the socket refuses bytes, or when nothing is left
      ensures connected ==> sock.refusals == old(sock.refusals) + 1 || (max > 0 && written == max)
                            || (currPacket.None? && controlPackets == [] && dataPackets == [])
      ensures !connected ==> written == 0 && log == old(log) && sock.refusals == old(sock.refusals)
      ensures AllControl() == old(AllControl())
      ensures AllData() == old(AllData())
    {
      hide Wrap32, Taken, PacketSocket.Invariant, PacketSocket.AllControl, PacketSocket.AllData;
      written := 0;
      if !connected {
        return;
      }
      if currPacket.None? {
        SelectPacket();
      }
      while currPacket.Some? && (written < max || max == 0)
        invariant Valid()
        invariant old(log) <= log
        invariant old(sock.sent) <= sock.sent && |sock.sent| == |old(sock.sent)| + written
        invariant max > 0 ==> written <= max
        invariant Wrap32(pendingUploadDataBytes + uploadedDataBytes) == Wrap32(old(pendingUploadDataBytes + uploadedDataBytes))
        invariant currPacket.None? ==> controlPackets == [] && dataPackets == []
        invariant sock.refusals == old(sock.refusals)
        invariant AllControl() == old(AllControl())
        invariant AllData() == old(AllData())
        decreases |controlPackets| + |dataPackets| + if currPacket.Some? then 1 else 0
      {
        var limit := if max == 0 then 0 else max - written;
        var ret, goOn;
        ret, goOn := SendAndSelect(limit);
        if ret > 0 {
          written := written + ret;
        }
        if !goOn {
          break;
        }
      }
    }

    /** One turn of the loop: sends what it can of the current packet and, if all of it is out,
        selects the next one. */
    method SendAndSelect(limit: nat) returns (ret: int, goOn: bool)
      requires Valid() && currPacket.Some?
      modifies this, sock
      ensures Valid() && old(log) <= log && AllControl() == old(AllControl()) && AllData() == old(AllData())
      ensures limit > 0 ==> ret <= limit
      ensures old(sock.sent) <= sock.sent && |sock.sent| == |old(sock.sent)| + if ret > 0 then ret else 0
      ensures Wrap32(pendingUploadDataBytes + uploadedDataBytes) == Wrap32(old(pendingUploadDataBytes + uploadedDataBytes))
      ensures sock.refusals <= old(sock.refusals) + 1
      ensures goOn ==> ret > 0 && sock.refusals == old(sock.refusals) && (currPacket.None? ==> controlPackets == [] && dataPackets == [])
      ensures !goOn ==> sock.refusals > old(sock.refusals) || (limit > 0 && ret == limit)
      ensures ret <= 0 ==> currPacket == old(currPacket)
      ensures goOn ==> |controlPackets| + |dataPackets| + (if currPacket.Some? then 1 else 0) < old(|controlPackets| + |dataPackets|) + 1
    {
      hide Wrap32, Taken, PacketSocket.Invariant;
      ret := SendCurrent(limit);
      if ret <= 0 || !currPacket.value.IsSent() {
        return ret, false;
      }
      FinishCurrent();
      SelectPacket();
      goOn := true;
    }

    /** A packet has gone out: count it, and give up the slot of the current packet. */
    method FinishCurrent()
      requires Invariant() && currPacket.Some? && currPacket.value.IsSent()
      modifies this`currPacket, this`ctrlPacketsSent
      ensures Invariant() && currPacket.None?
    {
      hide U32, HistoryOk, Size;
      PacketDone(log, currPacket.value, sock.sent, ctrlPacketsSent);
      if currPacket.value.kind == PIECE {
        ctrlPacketsSent := 0;
      } else {
        ctrlPacketsSent := Wrap32(ctrlPacketsSent + 1);
      }
      currPacket := None;
    }

    method AddPacket(p: Packet)
      requires Valid() && WellFormed(p) && !p.Sending()
      modifies this`controlPackets, this`dataPackets, this`pendingUploadDataBytes
      ensures Valid()
      ensures p.kind == PIECE ==> dataPackets == old(dataPackets) + [p] && controlPackets == old(controlPackets)
      ensures p.kind != PIECE ==> controlPackets == old(controlPackets) + [p] && dataPackets == old(dataPackets)
    {
      hide U32, HistoryOk, Wrap32, Size;
      if p.kind == PIECE {
        SizeOfConcat(dataPackets, [p]);
        SizeOfOne(p);
        WrapAdd(PieceBytes(dataPackets, currPacket), |p.data|);
        pendingUploadDataBytes := Wrap32(pendingUploadDataBytes + |p.data|);
        dataPackets := dataPackets + [p];
      } else {
        controlPackets := controlPackets + [p];
      }
    }

    /** Erases the piece at position `i`, queueing a reject for it if asked to. */
    method Erase(i: nat, reject: bool)
      requires Valid() && i < |dataPackets|
      modifies this`controlPackets, this`dataPackets, this`pendingUploadDataBytes
      ensures Valid()
      ensures dataPackets == old(dataPackets)[..i] + old(dataPackets)[i + 1..]
      ensures controlPackets == old(controlPackets) + if reject then Rejects([old(dataPackets)[i]]) else []
    {
      hide U32, PutU32, HistoryOk, Size;
      var p := dataPackets[i];
      if reject {
        var rejectPkt := MakeRejectOfPiece(p);
        RejectIsControl(p);
        AddPacket(rejectPkt.value);
      }
      ghost var q := dataPackets;
      pendingUploadDataBytes := Wrap32(pendingUploadDataBytes - |p.data|);
      dataPackets := dataPackets[..i] + dataPackets[i + 1..];
      SizeWithout(q, i);
      WrapAdd(PieceBytes(q, currPacket), -|p.data|);
    }

    lemma QueuedIsUnsent(i: nat)
      requires Valid() && i < |dataPackets|
      ensures !dataPackets[i].Sending()
    {
    }

    /** Drops every queued piece; with `reject`, one reject per piece takes its place. */
    method ClearPieces(reject: bool)
      requires Valid()
      modifies this`controlPackets, this`dataPackets, this`pendingUploadDataBytes
      ensures Valid()
      ensures dataPackets == []
      ensures controlPackets == old(controlPackets) + if reject then Rejects(old(dataPackets)) else []
    {
      hide U32, PutU32, HistoryOk, Size, PieceBytes;
      var i := 0;
      ghost var n, all := 0, dataPackets;
      while i < |dataPackets|
        invariant Valid()
        invariant i == 0 && n <= |all| && dataPackets == all[n..]
        invariant controlPackets == old(controlPackets) + if reject then Rejects(all[..n]) else []
        decreases |dataPackets| - i
      {
        if dataPackets[i].kind == PIECE && !dataPackets[i].Sending() {
          Erase(i, reject);
          RejectsAppend(all[..n], all[n]);
          n := n + 1;
          assert all[..n] == all[..n - 1] + [all[n - 1]];
        } else {
          i := i + 1;
        }
      }
      assert all[..n] == all;
    }

    /** Drops the queued pieces that answer `req`; with `reject`, each is replaced by one reject. */
    method DoNotSendPiece(req: Request, reject: bool)
      requires Valid()
      modifies this`controlPackets, this`dataPackets, this`pendingUploadDataBytes
      ensures Valid()
      ensures dataPackets == Kept(old(dataPackets), req)
      ensures controlPackets == old(controlPackets) + if reject then Rejects(Cancelled(old(dataPackets), req)) else []
    {
      hide IsPiece, Kept, Cancelled, Rejects, PacketSocket.Invariant;
      ghost var n, all := 0, dataPackets;
      ghost var kept: seq<Packet>, gone: seq<Packet> := [], [];
      var i := 0;
      CancelNone(req);
      assert all[..0] == [];
      while i < |dataPackets|
        invariant Valid()
        invariant n <= |all| && i == |kept| && dataPackets == kept + all[n..]
        invariant kept == Kept(all[..n], req) && gone == Cancelled(all[..n], req)
        invariant controlPackets == old(controlPackets) + if reject then Rejects(gone) else []
        decreases |all| - n
      {
        CancelStep(all, n, req);
        assert dataPackets[i] == all[n];
        QueuedIsUnsent(i);
        if IsPiece(dataPackets[i], req) && !dataPackets[i].Sending() {
          RejectsAppend(gone, all[n]);
          Erase(i, reject);
          EraseAt(kept, all, n);
          gone := gone + [all[n]];
        } else {
          KeepAt(kept, all, n);
          kept := kept + [all[n]];
          i := i + 1;
        }
        n := n + 1;
      }
      assert all[..n] == all;
    }

    /** The number of bytes of pieces still to be sent. */
    method NumPendingPieceUploadBytes() returns (n: nat)
      requires Valid()
      ensures PieceBytes(dataPackets, currPacket) >= 0
      ensures PieceBytes(dataPackets, currPacket) < TWO_32 ==> n == PieceBytes(dataPackets, currPacket)
    {
      n := pendingUploadDataBytes;
    }
  }

  lemma RejectIsControl(p: Packet)
    requires WellFormed(p) && p.kind == PIECE
    ensures var r := MakeRejectOfPiece(p); r.Some? && WellFormed(r.value) && r.value.kind == REJECT_REQUEST && r.value.written == 0
    ensures Rejects([p]) == [MakeRejectOfPiece(p).value]
  {
    hide U32, PutU32;
    var r := Request(U32(p.data[5..9]), U32(p.data[9..13]), |p.data| - 13);
    CreateIsWellFormed(REJECT_REQUEST, PutU32(r.index) + PutU32(r.offset) + PutU32(r.length));
  }

  lemma RejectsAppend(q: seq<Packet>, p: Packet)
    ensures Rejects(q + [p]) == Rejects(q) + Rejects([p])
  {
    hide RejectOf;
  }

  lemma SizeWithout(q: seq<Packet>, i: nat)
    requires i < |q|
    ensures Size(q[..i] + q[i + 1..]) == Size(q) - |q[i].data|
  {
    hide Size;
    assert q == q[..i] + ([q[i]] + q[i + 1..]);
    SizeOfConcat(q[..i], [q[i]] + q[i + 1..]);
    SizeOfConcat([q[i]], q[i + 1..]);
    SizeOfConcat(q[..i], q[i + 1..]);
    SizeOfOne(q[i]);
  }

  lemma SizeOfOne(p: Packet)
    ensures Size([p]) == |p.data|
  {
    assert [p][..0] == [];
  }
}
