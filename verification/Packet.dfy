/** src/download/packet.cpp: outgoing messages of the peer wire protocol. */
module Packets {
  import opened Common

  const PIECE: Byte := 7
  const REJECT_REQUEST: Byte := 16

  datatype Request = Request(index: nat, offset: nat, length: nat)
  {
    predicate Valid() { index < TWO_32 && offset < TWO_32 && length < TWO_32 }
  }

  /** `data` starts with the length of what follows it; `written` bytes have been sent. */
  datatype Packet = Packet(data: seq<Byte>, kind: Byte, written: nat)
  {
    predicate Sending() { written > 0 }

    predicate IsSent() { written == |data| }
  }

  /** What the receiver of the packet sees. */
  function Payload(p: Packet): seq<Byte>
    requires |p.data| >= 4
  {
    p.data[4..]
  }

  /** What every `create` function yields. */
  predicate WellFormed(p: Packet)
  {
    && 5 <= |p.data| < TWO_32
    && U32(p.data[..4]) == |p.data| - 4
    && p.data[4] == p.kind
    && p.written <= |p.data|
    && (p.kind == PIECE ==> |p.data| >= 13)
  }

  /** The constructor, followed by writing the body. */
  function Create(kind: Byte, body: seq<Byte>): Packet
    requires |body| + 5 < TWO_32
  {
    Packet(PutU32(|body| + 1) + [kind] + body, kind, 0)
  }

  function CreateRequest(r: Request, kind: Byte): Packet
    requires r.Valid()
  {
    Create(kind, PutU32(r.index) + PutU32(r.offset) + PutU32(r.length))
  }

  function CreatePiece(index: nat, begin: nat, block: seq<Byte>): Packet
    requires index < TWO_32 && begin < TWO_32 && |block| + 13 < TWO_32
  {
    Create(PIECE, PutU32(index) + PutU32(begin) + block)
  }

  /** A piece packet that answers this request. */
  predicate IsPiece(p: Packet, r: Request)
  {
    |p.data| >= 13 && p.data[4] == PIECE && U32(p.data[5..9]) == r.index && U32(p.data[9..13]) == r.offset && |p.data| - 13 == r.length
  }

  function MakeRejectOfPiece(p: Packet): Option<Packet>
    requires p.kind == PIECE ==> 13 <= |p.data| < TWO_32
  {
    if p.kind != PIECE then None
    else Some(CreateRequest(Request(U32(p.data[5..9]), U32(p.data[9..13]), |p.data| - 13), REJECT_REQUEST))
  }

  lemma CreateIsWellFormed(kind: Byte, body: seq<Byte>)
    requires |body| + 5 < TWO_32 && (kind == PIECE ==> |body| >= 8)
    ensures WellFormed(Create(kind, body))
    ensures Payload(Create(kind, body)) == [kind] + body
  {
    hide PutU32, U32;
    var p := Create(kind, body);
    assert p.data[..4] == PutU32(|body| + 1);
  }

  /** Cancelling finds a piece by exactly the request that it answers, and the reject made of
      it names that request. */
  lemma PieceAnswersOneRequest(index: nat, begin: nat, block: seq<Byte>, r: Request)
    requires index < TWO_32 && begin < TWO_32 && |block| + 13 < TWO_32
    ensures var p := CreatePiece(index, begin, block);
            && WellFormed(p)
            && p.kind == PIECE && p.data[13..] == block
            && (IsPiece(p, r) <==> r == Request(index, begin, |block|))
            && MakeRejectOfPiece(p) == Some(CreateRequest(Request(index, begin, |block|), REJECT_REQUEST))
  {
    hide PutU32, U32;
    var p := CreatePiece(index, begin, block);
    CreateIsWellFormed(PIECE, PutU32(index) + PutU32(begin) + block);
    assert p.data[5..9] == PutU32(index);
    assert p.data[9..13] == PutU32(begin);
  }

  /** A request, and so a reject, carries its three numbers in this order. */
  lemma RequestCarries(r: Request, kind: Byte)
    requires r.Valid()
    ensures var p := CreateRequest(r, kind);
            && p.kind == kind && |p.data| == 17 && (kind != PIECE ==> WellFormed(p))
            && U32(p.data[5..9]) == r.index && U32(p.data[9..13]) == r.offset && U32(p.data[13..17]) == r.length
  {
    hide PutU32, U32;
    var a, b, c := PutU32(r.index), PutU32(r.offset), PutU32(r.length);
    if kind != PIECE {
      CreateIsWellFormed(kind, a + b + c);
    }
    var p := CreateRequest(r, kind);
    assert p.data[5..9] == a && p.data[9..13] == b && p.data[13..17] == c;
  }
}
