/** src/peer/packetreader.cpp: chops the raw byte stream of a peer connection into packets.
    `Parse` is the meaning of a byte stream; the class is the incremental machine. */
module PacketReading {
  import opened Common

  /** What a byte stream holds: its complete packets, the bytes after the last of them, and
      whether those bytes start with a length above the limit. */
  datatype Parsed = Parsed(packets: seq<seq<Byte>>, rest: seq<Byte>, overlong: bool)

  /** One pass over a whole stream. A zero length is a keep-alive and yields nothing. */
  function Parse(s: seq<Byte>, max: nat): Parsed
  {
    if |s| < 4 then Parsed([], s, false)
    else
      var n := U32(s[..4]);
      if n == 0 then Parse(s[4..], max)
      else if n > max then Parsed([], s, true)
      else if |s| < 4 + n then Parsed([], s, false)
      else
        var p := Parse(s[4 + n..], max);
        p.(packets := [s[4..4 + n]] + p.packets)
  }

  /** Reading on from an earlier parse. */
  function Resume(p: Parsed, t: seq<Byte>, max: nat): Parsed
  {
    if p.overlong then p.(rest := p.rest + t)
    else
      var q := Parse(p.rest + t, max);
      q.(packets := p.packets + q.packets)
  }

  lemma ParseIs(s: seq<Byte>, max: nat)
    ensures |s| < 4 ==> Parse(s, max) == Parsed([], s, false)
    ensures |s| >= 4 ==>
      var n := U32(s[..4]);
      && (n == 0 ==> Parse(s, max) == Parse(s[4..], max))
      && (n > max ==> Parse(s, max) == Parsed([], s, true))
      && (0 < n <= max && |s| < 4 + n ==> Parse(s, max) == Parsed([], s, false))
      && (0 < n <= max && |s| >= 4 + n ==>
            Parse(s, max) == Parse(s[4 + n..], max).(packets := [s[4..4 + n]] + Parse(s[4 + n..], max).packets))
  {
    hide U32;
  }

  /** Parsing may stop and resume at any byte. */
  lemma {:induction false} ParseResumes(s: seq<Byte>, t: seq<Byte>, max: nat)
    ensures Parse(s + t, max) == Resume(Parse(s, max), t, max)
    decreases |s|
  {
    hide U32, Parse;
    ParseIs(s, max);
    if |s| >= 4 {
      ParseIs(s + t, max);
      assert (s + t)[..4] == s[..4];
      var n := U32(s[..4]);
      if n == 0 {
        assert (s + t)[4..] == s[4..] + t;
        ParseResumes(s[4..], t, max);
      } else if n <= max && |s| >= 4 + n {
        assert (s + t)[4 + n..] == s[4 + n..] + t;
        assert (s + t)[4..4 + n] == s[4..4 + n];
        ParseResumes(s[4 + n..], t, max);
      }
    }
  }

  /** A length prefix followed by some or all of the packet it announces. */
  lemma ParseOnePacket(header: seq<Byte>, body: seq<Byte>, max: nat)
    requires |header| == 4 && 0 < U32(header) <= max
    ensures |body| < U32(header) ==> Parse(header + body, max) == Parsed([], header + body, false)
    ensures |body| == U32(header) ==> Parse(header + body, max) == Parsed([body], [], false)
  {
    hide U32;
    var s := header + body;
    assert s[..4] == header;
    if |body| == U32(header) {
      assert s[4..4 + |body|] == body;
      assert s[4 + |body|..] == [];
    }
  }

  /** A length prefix on its own: unfinished, a keep-alive, or above the limit. */
  lemma ParseHeader(header: seq<Byte>, after: seq<Byte>, max: nat)
    requires |header| <= 4
    ensures |header| < 4 && after == [] ==> Parse(header + after, max) == Parsed([], header, false)
    ensures |header| == 4 && U32(header) == 0 && after == [] ==> Parse(header + after, max) == Parsed([], [], false)
    ensures |header| == 4 && U32(header) > max ==> Parse(header + after, max) == Parsed([], header + after, true)
  {
    hide U32;
    if after == [] {
      assert header + after == header;
    }
    if |header| == 4 {
      assert (header + after)[..4] == header;
      assert (header + after)[4..] == after;
    }
  }

  /** What arrives in a sequence of reads. */
  function Joined(fragments: seq<seq<Byte>>): seq<Byte>
  {
    if fragments == [] then [] else fragments[0] + Joined(fragments[1..])
  }

  function ResumeAll(p: Parsed, fragments: seq<seq<Byte>>, max: nat): Parsed
    decreases |fragments|
  {
    if fragments == [] then p else ResumeAll(Resume(p, fragments[0], max), fragments[1..], max)
  }

  /** Reassembly does not depend on how the stream was cut into reads. */
  lemma {:induction false} FragmentationIndependence(s: seq<Byte>, fragments: seq<seq<Byte>>, max: nat)
    ensures ResumeAll(Parse(s, max), fragments, max) == Parse(s + Joined(fragments), max)
    decreases |fragments|
  {
    hide Parse, Resume;
    if fragments == [] {
      assert s + Joined(fragments) == s;
    } else {
      ParseResumes(s, fragments[0], max);
      FragmentationIndependence(s + fragments[0], fragments[1..], max);
      assert s + Joined(fragments) == s + fragments[0] + Joined(fragments[1..]);
    }
  }

  /** A packet being received; `data` has its final size from the start. */
  datatype IncomingPacket = IncomingPacket(data: seq<Byte>, read: nat)
  {
    predicate Full() { read == |data| }
  }

  /** The last packet of the queue still misses bytes. */
  predicate Open(q: seq<IncomingPacket>)
  {
    |q| > 0 && !q[|q| - 1].Full()
  }

  function Payloads(q: seq<IncomingPacket>): seq<seq<Byte>>
  {
    seq(|q|, i requires 0 <= i < |q| => q[i].data)
  }

  /** The packets of the queue that can be handed out. */
  function Complete(q: seq<IncomingPacket>): seq<seq<Byte>>
  {
    if Open(q) then Payloads(q[..|q| - 1]) else Payloads(q)
  }

  ghost predicate QueueOk(q: seq<IncomingPacket>, max: nat)
  {
    && (forall i :: 0 <= i < |q| ==> 0 < |q[i].data| <= max && |q[i].data| < TWO_32 && q[i].read <= |q[i].data|)
    && (forall i :: 0 <= i < |q| - 1 ==> q[i].Full())
  }

  /** The bytes that the machine holds back: an unfinished packet or an unfinished length. */
  function Partial(q: seq<IncomingPacket>, held: seq<Byte>): seq<Byte>
    requires Open(q) ==> q[|q| - 1].read <= |q[|q| - 1].data| < TWO_32
  {
    if Open(q) then
      var p := q[|q| - 1];
      PutU32(|p.data|) + p.data[..p.read]
    else held
  }

  /** A machine with this queue, this unfinished length prefix, this error flag and these
      delivered packets stands exactly where a parse of `s` ends. */
  ghost predicate At(q: seq<IncomingPacket>, held: seq<Byte>, error: bool, delivered: seq<seq<Byte>>,
                     s: seq<Byte>, max: nat)
  {
    var p := Parse(s, max);
    && QueueOk(q, max) && |held| < 4
    && error == p.overlong
    && delivered + Complete(q) == p.packets
    && (Open(q) ==> !error && held == [])
    && (!error ==> Partial(q, held) == p.rest)
  }

  /** memcpy into the unfinished packet. */
  function Extend(q: seq<IncomingPacket>, bytes: seq<Byte>): seq<IncomingPacket>
    requires |q| > 0 && q[|q| - 1].read + |bytes| <= |q[|q| - 1].data|
  {
    var p := q[|q| - 1];
    var data := p.data[..p.read] + bytes + p.data[p.read + |bytes|..];
    q[|q| - 1 := IncomingPacket(data, p.read + |bytes|)]
  }

  lemma AtExtend(q: seq<IncomingPacket>, delivered: seq<seq<Byte>>, s: seq<Byte>, max: nat, bytes: seq<Byte>)
    requires At(q, [], false, delivered, s, max) && Open(q)
    requires q[|q| - 1].read + |bytes| <= |q[|q| - 1].data|
    ensures At(Extend(q, bytes), [], false, delivered, s + bytes, max)
    ensures Open(Extend(q, bytes)) <==> q[|q| - 1].read + |bytes| < |q[|q| - 1].data|
  {
    hide Parse, U32, PutU32;
    var last := |q| - 1;
    var p, q' := q[last], Extend(q, bytes);
    ParseResumes(s, bytes, max);
    assert q'[..last] == q[..last];
    var data := q'[last].data;
    assert data[..p.read + |bytes|] == p.data[..p.read] + bytes;
    ParseOnePacket(PutU32(|p.data|), data[..p.read + |bytes|], max);
    assert Partial(q, []) + bytes == PutU32(|p.data|) + data[..p.read + |bytes|];
    if p.read + |bytes| == |p.data| {
      assert data == data[..p.read + |bytes|];
      assert Payloads(q') == Payloads(q[..last]) + [data];
    }
  }

  /** Some or all of the next length prefix arrives. */
  lemma AtLength(q: seq<IncomingPacket>, held: seq<Byte>, delivered: seq<seq<Byte>>, s: seq<Byte>, max: nat, bytes: seq<Byte>)
    requires At(q, held, false, delivered, s, max) && !Open(q)
    requires |held + bytes| <= 4
    ensures |held + bytes| < 4 ==> At(q, held + bytes, false, delivered, s + bytes, max)
    ensures |held + bytes| == 4 && U32(held + bytes) == 0 ==> At(q, [], false, delivered, s + bytes, max)
    ensures |held + bytes| == 4 && 0 < U32(held + bytes) <= max ==>
              At(q + [IncomingPacket(seq(U32(held + bytes), _ => 0), 0)], [], false, delivered, s + bytes, max)
  {
    hide Parse, U32, PutU32;
    var header := held + bytes;
    assert header + [] == header;
    ParseResumes(s, bytes, max);
    ParseHeader(header, [], max);
    if |header| == 4 && 0 < U32(header) <= max {
      var q' := q + [IncomingPacket(seq(U32(header), _ => 0), 0)];
      assert q'[..|q|] == q;
      PutOfU32(header);
      ParseOnePacket(header, [], max);
    }
  }

  /** A length above the limit is an error, whatever follows it. */
  lemma AtOverlong(q: seq<IncomingPacket>, held: seq<Byte>, delivered: seq<seq<Byte>>, s: seq<Byte>, max: nat, bytes: seq<Byte>, after: seq<Byte>)
    requires At(q, held, false, delivered, s, max) && !Open(q)
    requires |held + bytes| == 4 && U32(held + bytes) > max
    ensures At(q, [], true, delivered, s + (bytes + after), max)
  {
    hide Parse, U32, PutU32;
    ParseResumes(s, bytes + after, max);
    ParseHeader(held + bytes, after, max);
    assert held + (bytes + after) == held + bytes + after;
  }

  /** Nothing is read after an error. */
  lemma AtError(q: seq<IncomingPacket>, held: seq<Byte>, delivered: seq<seq<Byte>>, s: seq<Byte>, max: nat, t: seq<Byte>)
    requires At(q, held, true, delivered, s, max)
    ensures At(q, held, true, delivered, s + t, max)
  {
    hide Parse;
    ParseResumes(s, t, max);
  }

  lemma OnlyTheLastIsOpen(q: seq<IncomingPacket>, max: nat)
    requires QueueOk(q, max) && |q| > 0
    ensures !q[0].Full() ==> Complete(q) == []
  {
  }

  lemma QueuePop(q: seq<IncomingPacket>, held: seq<Byte>, max: nat)
    requires QueueOk(q, max) && |q| > 0 && q[0].Full()
    ensures QueueOk(q[1..], max) && (Open(q[1..]) <==> Open(q))
    ensures Complete(q) == [q[0].data] + Complete(q[1..])
    ensures Partial(q[1..], held) == Partial(q, held)
  {
    hide PutU32, Payloads;
    if Open(q) {
      PayloadsPop(q[..|q| - 1]);
      assert q[..|q| - 1][1..] == q[1..][..|q[1..]| - 1];
    } else {
      PayloadsPop(q);
    }
  }

  lemma PayloadsPop(q: seq<IncomingPacket>)
    requires |q| > 0
    ensures Payloads(q) == [q[0].data] + Payloads(q[1..])
  {
  }

  /** Taking the packet at the front of the queue. */
  lemma AtPop(q: seq<IncomingPacket>, held: seq<Byte>, error: bool, delivered: seq<seq<Byte>>, s: seq<Byte>, max: nat)
    requires At(q, held, error, delivered, s, max) && |q| > 0
    ensures !q[0].Full() ==> Complete(q) == []
    ensures q[0].Full() ==> Complete(q) == [q[0].data] + Complete(q[1..])
    ensures q[0].Full() ==> At(q[1..], held, error, delivered + [q[0].data], s, max)
  {
    hide Parse, QueueOk, Partial, Complete;
    assert !q[0].Full() ==> Complete(q) == [] by { OnlyTheLastIsOpen(q, max); }
    if q[0].Full() {
      QueuePop(q, held, max);
      assert delivered + Complete(q) == delivered + [q[0].data] + Complete(q[1..]);
    }
  }

  function First(pck: Option<seq<Byte>>): seq<seq<Byte>> { if pck.Some? then [pck.value] else [] }

  class PacketReader {
    var error: bool
    var queue: seq<IncomingPacket>
    const len: array<Byte>
    var lenReceived: int
    const maxPacketSize: nat

    /** Every byte given to OnDataReady, and every payload handed to the peer. */
    ghost var stream: seq<Byte>
    ghost var delivered: seq<seq<Byte>>

    /** The bytes of an unfinished length prefix. */
    ghost function Held(): seq<Byte>
      requires len.Length == 4 && -1 <= lenReceived < 4
      reads this, len
    {
      if lenReceived > 0 then len[..lenReceived] else []
    }

    ghost predicate Tracks(s: seq<Byte>)
      reads this, len
    {
      && len.Length == 4 && -1 <= lenReceived < 4
      && At(queue, Held(), error, delivered, s, maxPacketSize)
    }

    ghost predicate Valid()
      reads this, len
    {
      Tracks(stream)
    }

    constructor (max: nat)
      ensures Valid() && fresh(len)
      ensures maxPacketSize == max && !error && stream == [] && delivered == []
    {
      error, queue, lenReceived := false, [], -1;
      len := new Byte[4](_ => 0);
      maxPacketSize := max;
      stream, delivered := [], [];
    }

    /** The oldest packet, if it is complete. */
    method DequeuePacket() returns (r: Option<seq<Byte>>)
      requires Valid()
      modifies this`queue, this`delivered
      ensures Valid()
      ensures r.None? ==> Complete(queue) == [] && queue == old(queue) && delivered == old(delivered)
      ensures r.Some? ==> [r.value] + Complete(queue) == old(Complete(queue)) && delivered == old(delivered) + [r.value]
      ensures r.Some? ==> |queue| < old(|queue|)
    {
      hide Parse, Partial, QueueOk;
      if |queue| == 0 {
        return None;
      }
      AtPop(queue, Held(), error, delivered, stream, maxPacketSize);
      var pck := queue[0];
      if pck.read != |pck.data| {
        return None;
      }
      queue := queue[1..];
      delivered := delivered + [pck.data];
      return Some(pck.data);
    }

    /** Hands every complete packet to the peer, in order. Does nothing after an error. */
    method Update() returns (handled: seq<seq<Byte>>)
      requires Valid()
      modifies this`queue, this`delivered
      ensures Valid()
      ensures handled == if error then [] else old(Complete(queue))
      ensures delivered == old(delivered) + handled
      ensures !error ==> Complete(queue) == []
    {
      hide At, Complete;
      handled := [];
      if error {
        return;
      }
      ghost var all, start := Complete(queue), delivered;
      var pck := DequeuePacket();
      while pck.Some?
        invariant Valid()
        invariant all == handled + First(pck) + Complete(queue)
        invariant delivered == start + (handled + First(pck))
        invariant pck.None? ==> Complete(queue) == []
        decreases |queue|, pck.Some?
      {
        handled := handled + [pck.value];
        pck := DequeuePacket();
      }
    }

    /** Copies bytes into the unfinished packet; `s` is the stream read so far. */
    method ReadPacket(buf: seq<Byte>, ghost s: seq<Byte>) returns (k: nat)
      requires Tracks(s) && Open(queue) && !error
      modifies this`queue
      ensures k <= |buf|
      ensures |buf| > 0 ==> k > 0
      ensures k < |buf| ==> !Open(queue)
      ensures Tracks(s + buf[..k])
    {
      hide Parse, Complete, Partial;
      if |buf| == 0 {
        assert s + buf[..0] == s;
        return 0;
      }
      var pck := queue[|queue| - 1];
      k := if pck.read + |buf| >= |pck.data| then |pck.data| - pck.read else |buf|;
      AtExtend(queue, delivered, s, maxPacketSize, buf[..k]);
      queue := Extend(queue, buf[..k]);
    }

    /** memcpy into the length buffer. */
    method CopyLength(at: nat, buf: seq<Byte>)
      requires len.Length == 4 && at + |buf| <= 4
      modifies len
      ensures len[..at] == old(len[..at])
      ensures len[at..at + |buf|] == buf
    {
      for i := 0 to |buf|
        invariant len[..at] == old(len[..at])
        invariant len[at..at + i] == buf[..i]
      {
        len[at + i] := buf[i];
      }
    }

    /** Collects the four bytes of the next length, which earlier reads may have begun. */
    method TakeLength(buf: seq<Byte>) returns (lenRead: nat, packetLength: Option<nat>)
      requires len.Length == 4 && -1 <= lenReceived < 4 && |buf| > 0
      modifies this`lenReceived, len
      ensures 0 < lenRead <= |buf| && -1 <= lenReceived < 4
      ensures packetLength.None? ==> lenRead == |buf| && |old(Held()) + buf| < 4 && Held() == old(Held()) + buf
      ensures packetLength.Some? ==> Held() == [] && |old(Held()) + buf[..lenRead]| == 4
      ensures packetLength.Some? ==> packetLength.value == U32(old(Held()) + buf[..lenRead])
    {
      hide U32;
      if lenReceived > 0 {
        if |buf| < 4 - lenReceived {
          CopyLength(lenReceived, buf);
          lenReceived := lenReceived + |buf|;
          return |buf|, None;
        }
        lenRead := 4 - lenReceived;
        CopyLength(lenReceived, buf[..lenRead]);
        assert len[..] == len[..lenReceived] + len[lenReceived..lenReceived + lenRead];
        lenReceived := 0;
        return lenRead, Some(U32(len[..]));
      } else if |buf| < 4 {
        CopyLength(0, buf);
        lenReceived := |buf|;
        return |buf|, None;
      } else {
        assert buf[..4] == [] + buf[..4];
        return 4, Some(U32(buf[..4]));
      }
    }

    /** Starts the next packet: collects its length, then reads what is there of its data. */
    method NewPacket(buf: seq<Byte>, ghost s: seq<Byte>) returns (k: nat)
      requires Tracks(s) && !Open(queue) && !error && |buf| > 0
      modifies this`error, this`queue, this`lenReceived, len
      ensures 0 < k <= |buf|
      ensures k < |buf| ==> !Open(queue)
      ensures Tracks(s + buf[..k])
    {
      hide At, U32, Complete, Partial;
      ghost var held := Held();
      var lenRead, packetLength := TakeLength(buf);
      assert buf[..|buf|] == buf;
      if packetLength.None? {
        AtLength(queue, held, delivered, s, maxPacketSize, buf);
        return lenRead;
      }
      var n := packetLength.value;
      if n > maxPacketSize {
        error := true;
        AtOverlong(queue, held, delivered, s, maxPacketSize, buf[..lenRead], buf[lenRead..]);
        assert buf == buf[..lenRead] + buf[lenRead..];
        return |buf|;
      }
      AtLength(queue, held, delivered, s, maxPacketSize, buf[..lenRead]);
      if n == 0 {
        return lenRead;
      }
      queue := queue + [IncomingPacket(seq(n, _ => 0), 0)];
      var more := ReadPacket(buf[lenRead..], s + buf[..lenRead]);
      assert s + buf[..lenRead] + buf[lenRead..][..more] == s + buf[..lenRead + more];
      return lenRead + more;
    }

    /** Feeds one read of the socket to the machine. */
    method OnDataReady(buf: seq<Byte>)
      requires Valid()
      modifies this`error, this`queue, this`lenReceived, this`stream, len
      ensures Valid()
      ensures stream == old(stream) + buf
      ensures delivered + Complete(queue) == Parse(old(stream) + buf, maxPacketSize).packets
      ensures error == Parse(old(stream) + buf, maxPacketSize).overlong
    {
      hide Parse, Partial, Complete;
      ghost var s := stream;
      if error {
        AtError(queue, Held(), delivered, s, maxPacketSize, buf);
        stream := s + buf;
        return;
      }
      var ret := 0;
      assert s + buf[..0] == s;
      if |queue| != 0 {
        var pck := queue[|queue| - 1];
        if pck.read < |pck.data| {
          ret := ReadPacket(buf, s);
        }
      }
      while ret < |buf| && !error
        invariant ret <= |buf|
        invariant ret < |buf| ==> !Open(queue)
        invariant Tracks(s + buf[..ret])
      {
        var more := NewPacket(buf[ret..], s + buf[..ret]);
        assert s + buf[..ret] + buf[ret..][..more] == s + buf[..ret + more];
        ret := ret + more;
      }
      if error {
        AtError(queue, Held(), delivered, s + buf[..ret], maxPacketSize, buf[ret..]);
        assert s + buf[..ret] + buf[ret..] == s + buf;
      } else {
        assert buf[..ret] == buf;
      }
      stream := s + buf;
    }
  }
}
