/** src/bcodec: what a bencoded byte string means, how values are written, and why reading gives
    back what was written. */
module Bencoding {
  import opened Common

  const D: Byte := 100 // 'd'
  const L: Byte := 108 // 'l'
  const I: Byte := 105 // 'i'
  const E: Byte := 101 // 'e'
  const COLON: Byte := 58
  const ZERO: Byte := 48
  const PLUS: Byte := 43
  const MINUS: Byte := 45

  const TWO_31: int := 0x8000_0000
  const TWO_63: int := 0x8000_0000_0000_0000

  /** Parsed nodes. Every node remembers the bytes that it was parsed from. */
  datatype BNode =
    | Int(val: int, bytes: seq<Byte>)
    | Int64(val: int, bytes: seq<Byte>)
    | Str(str: seq<Byte>, bytes: seq<Byte>)
    | List(children: seq<BNode>, bytes: seq<Byte>)
    | Dict(entries: seq<Entry>, bytes: seq<Byte>)

  datatype Entry = Entry(key: seq<Byte>, node: BNode)

  datatype Result<T> = Ok(value: T, pos: nat) | Null | Error

  // ----- Numbers

  predicate IsDigit(b: Byte) { ZERO <= b <= 57 }

  predicate AllDigits(s: seq<Byte>) { forall i :: 0 <= i < |s| ==> IsDigit(s[i]) }

  /** The number written by decimal digits. */
  function NumOf(s: seq<Byte>): Option<int>
  {
    if s == [] then Some(0)
    else
      var v := NumOf(s[..|s| - 1]);
      if v.None? || !IsDigit(s[|s| - 1]) then None else Some(v.value * 10 + (s[|s| - 1] - ZERO))
  }

  /** A signed 32-bit integer after wrap-around. */
  function Int32(x: int): (r: int)
    ensures -TWO_31 <= r < TWO_31
    ensures -TWO_31 <= x < TWO_31 ==> r == x
  {
    (x + TWO_31) % TWO_32 - TWO_31
  }

  /** The length loop of parseString, which computes in 32 bits. */
  function LenOf(s: seq<Byte>): Option<int>
  {
    if s == [] then Some(0)
    else
      var v := LenOf(s[..|s| - 1]);
      if v.None? || !IsDigit(s[|s| - 1]) then None else Some(Int32(v.value * 10 + (s[|s| - 1] - ZERO)))
  }

  /** QChar::isSpace in Latin-1. */
  predicate IsSpace(b: Byte) { 9 <= b <= 13 || b == 32 || b == 0x85 || b == 0xA0 }

  function Trimmed(s: seq<Byte>): seq<Byte>
  {
    if s == [] then []
    else if IsSpace(s[0]) then Trimmed(s[1..])
    else if IsSpace(s[|s| - 1]) then Trimmed(s[..|s| - 1])
    else s
  }

  /** QString::toLongLong, before its range check: blanks around an optional sign and digits. */
  function ToNumber(s: seq<Byte>): Option<int>
  {
    var t := Trimmed(s);
    if t == [] then None
    else if t[0] == MINUS || t[0] == PLUS then
      var v := NumOf(t[1..]);
      if |t| == 1 || v.None? then None else Some(if t[0] == MINUS then -v.value else v.value)
    else NumOf(t)
  }

  // ----- Decoding

  /** The first position of `b` from `i` on, or the end. */
  function Find(data: seq<Byte>, b: Byte, i: nat): (r: nat)
    requires i <= |data|
    ensures i <= r <= |data|
    ensures r < |data| ==> data[r] == b
    ensures forall k :: i <= k < r ==> data[k] != b
    decreases |data| - i
  {
    if i == |data| || data[i] == b then i else Find(data, b, i + 1)
  }

  function ParseInt(data: seq<Byte>, pos: nat): Result<BNode>
    requires pos < |data|
  {
    var end := Find(data, E, pos + 1);
    if end == |data| then Error
    else
      var v := ToNumber(data[pos + 1..end]);
      if v.None? then Error
      else if -TWO_31 <= v.value < TWO_31 then Ok(Int(v.value, data[pos..end + 1]), end + 1)
      else if -TWO_63 <= v.value < TWO_63 then Ok(Int64(v.value, data[pos..end + 1]), end + 1)
      else Error
  }

  function ParseString(data: seq<Byte>, pos: nat): Result<BNode>
    requires pos < |data|
  {
    var colon := Find(data, COLON, pos);
    if colon == |data| then Error
    else
      var len := LenOf(data[pos..colon]);
      if len.None? || len.value < 0 || colon + 1 + len.value > |data| then Error
      else
        var end := colon + 1 + len.value;
        Ok(Str(data[colon + 1..end], data[pos..end]), end)
  }

  function Decode(data: seq<Byte>, pos: nat): (r: Result<BNode>)
    ensures r.Ok? ==> pos < r.pos <= |data| && r.value.bytes == data[pos..r.pos]
    ensures r.Null? <==> pos >= |data|
    decreases |data| - pos, 0
  {
    if pos >= |data| then Null
    else if data[pos] == D then
      var r := DecodeEntries(data, pos + 1);
      if r.Ok? then Ok(Dict(r.value, data[pos..r.pos]), r.pos) else Error
    else if data[pos] == L then
      var r := DecodeItems(data, pos + 1);
      if r.Ok? then Ok(List(r.value, data[pos..r.pos]), r.pos) else Error
    else if data[pos] == I then ParseInt(data, pos)
    else if IsDigit(data[pos]) then ParseString(data, pos)
    else Error
  }

  /** Nodes up to and including the closing 'e'. */
  function DecodeItems(data: seq<Byte>, pos: nat): (r: Result<seq<BNode>>)
    ensures r.Ok? ==> pos < r.pos <= |data|
    ensures !r.Null?
    decreases |data| - pos, 1
  {
    if pos >= |data| then Error
    else if data[pos] == E then Ok([], pos + 1)
    else
      var n := Decode(data, pos);
      if !n.Ok? then Error
      else
        var rest := DecodeItems(data, n.pos);
        if rest.Ok? then Ok([n.value] + rest.value, rest.pos) else Error
  }

  function DecodeEntries(data: seq<Byte>, pos: nat): (r: Result<seq<Entry>>)
    ensures r.Ok? ==> pos < r.pos <= |data|
    ensures !r.Null?
    decreases |data| - pos, 1
  {
    if pos >= |data| then Error
    else if data[pos] == E then Ok([], pos + 1)
    else
      var k := Decode(data, pos);
      if !(k.Ok? && k.value.Str?) then Error
      else
        var v := Decode(data, k.pos);
        if !v.Ok? then Error
        else
          var rest := DecodeEntries(data, v.pos);
          if rest.Ok? then Ok([Entry(k.value.str, v.value)] + rest.value, rest.pos) else Error
  }

  // ----- A node depends on its own bytes only

  /** The same `len` bytes in two places. */
  ghost predicate Same(data: seq<Byte>, pos: nat, data': seq<Byte>, pos': nat, len: nat)
  {
    pos + len <= |data| && pos' + len <= |data'| && data[pos..pos + len] == data'[pos'..pos' + len]
  }

  lemma SliceOfSlice(s: seq<Byte>, a: nat, b: nat, i: nat, j: nat)
    requires a <= b <= |s| && i <= j <= b - a
    ensures s[a..b][i..j] == s[a + i..a + j]
  {
    var x, y := s[a..b][i..j], s[a + i..a + j];
    forall k | 0 <= k < |x| ensures x[k] == y[k] {
      assert x[k] == s[a..b][i + k] == s[a + (i + k)];
      assert y[k] == s[(a + i) + k];
    }
  }

  lemma SamePart(data: seq<Byte>, pos: nat, data': seq<Byte>, pos': nat, len: nat, i: nat, j: nat)
    requires Same(data, pos, data', pos', len) && i <= j <= len
    ensures Same(data, pos + i, data', pos' + i, j - i)
    ensures i < len ==> pos + i < |data| && pos' + i < |data'| && data[pos + i] == data'[pos' + i]
  {
    SliceOfSlice(data, pos, pos + len, i, j);
    SliceOfSlice(data', pos', pos' + len, i, j);
    if i < len {
      assert data[pos + i] == data[pos..pos + len][i];
      assert data'[pos' + i] == data'[pos'..pos' + len][i];
    }
  }

  lemma {:induction false} FindSame(data: seq<Byte>, pos: nat, data': seq<Byte>, pos': nat, b: Byte, len: nat, i: nat)
    requires Same(data, pos, data', pos', len) && i <= len
    requires Find(data, b, pos + i) < pos + len
    ensures Find(data', b, pos' + i) - pos' == Find(data, b, pos + i) - pos
    decreases len - i
  {
    if i < len {
      SamePart(data, pos, data', pos', len, i, len);
      if data[pos + i] != b {
        FindSame(data, pos, data', pos', b, len, i + 1);
      }
    }
  }

  lemma IntSame(data: seq<Byte>, pos: nat, data': seq<Byte>, pos': nat)
    requires pos < |data| && ParseInt(data, pos).Ok?
    requires Same(data, pos, data', pos', ParseInt(data, pos).pos - pos)
    ensures pos' < |data'| && ParseInt(data', pos') == ParseInt(data, pos).(pos := pos' + (ParseInt(data, pos).pos - pos))
  {
    hide ToNumber, Find;
    var r := ParseInt(data, pos);
    var len := r.pos - pos;
    FindSame(data, pos, data', pos', E, len, 1);
    SamePart(data, pos, data', pos', len, 1, len - 1);
  }

  lemma StrSame(data: seq<Byte>, pos: nat, data': seq<Byte>, pos': nat)
    requires pos < |data| && ParseString(data, pos).Ok?
    requires Same(data, pos, data', pos', ParseString(data, pos).pos - pos)
    ensures pos' < |data'| && ParseString(data', pos') == ParseString(data, pos).(pos := pos' + (ParseString(data, pos).pos - pos))
  {
    hide LenOf, Find;
    var r := ParseString(data, pos);
    var len := r.pos - pos;
    var colon := Find(data, COLON, pos) - pos;
    FindSame(data, pos, data', pos', COLON, len, 0);
    SamePart(data, pos, data', pos', len, 0, colon);
    SamePart(data, pos, data', pos', len, colon + 1, len);
  }

  /** Wherever the bytes of a node stand, they decode to that node. */
  lemma {:induction false} DecodeSame(data: seq<Byte>, pos: nat, data': seq<Byte>, pos': nat)
    requires Decode(data, pos).Ok? && Same(data, pos, data', pos', Decode(data, pos).pos - pos)
    ensures Decode(data', pos') == Decode(data, pos).(pos := pos' + (Decode(data, pos).pos - pos))
    decreases |data| - pos, 0
  {
    hide ParseInt, ParseString, DecodeItems, DecodeEntries;
    var r := Decode(data, pos);
    var len := r.pos - pos;
    SamePart(data, pos, data', pos', len, 0, len);
    SamePart(data, pos, data', pos', len, 1, len);
    if data[pos] == D {
      EntriesSame(data, pos + 1, data', pos' + 1);
    } else if data[pos] == L {
      ItemsSame(data, pos + 1, data', pos' + 1);
    } else if data[pos] == I {
      IntSame(data, pos, data', pos');
    } else {
      StrSame(data, pos, data', pos');
    }
  }

  /** Results collected so far, followed by the rest. */
  function After<T>(done: seq<T>, rest: Result<seq<T>>): Result<seq<T>>
  {
    if rest.Ok? then Ok(done + rest.value, rest.pos) else Error
  }

  lemma ItemsAre(data: seq<Byte>, pos: nat)
    ensures DecodeItems(data, pos) ==
      if pos >= |data| then Error
      else if data[pos] == E then Ok([], pos + 1)
      else
        var n := Decode(data, pos);
        if n.Ok? then After([n.value], DecodeItems(data, n.pos)) else Error
  {
    hide Decode;
  }

  lemma EntriesAre(data: seq<Byte>, pos: nat)
    ensures DecodeEntries(data, pos) ==
      if pos >= |data| then Error
      else if data[pos] == E then Ok([], pos + 1)
      else
        var k := Decode(data, pos);
        if !(k.Ok? && k.value.Str?) then Error
        else
          var v := Decode(data, k.pos);
          if v.Ok? then After([Entry(k.value.str, v.value)], DecodeEntries(data, v.pos)) else Error
  {
    hide Decode;
  }

  lemma {:induction false} ItemsSame(data: seq<Byte>, pos: nat, data': seq<Byte>, pos': nat)
    requires DecodeItems(data, pos).Ok? && Same(data, pos, data', pos', DecodeItems(data, pos).pos - pos)
    ensures DecodeItems(data', pos') == DecodeItems(data, pos).(pos := pos' + (DecodeItems(data, pos).pos - pos))
    decreases |data| - pos, 1
  {
    hide Decode, DecodeItems, Same;
    var len := DecodeItems(data, pos).pos - pos;
    SamePart(data, pos, data', pos', len, 0, len);
    ItemsAre(data, pos);
    ItemsAre(data', pos');
    if data[pos] != E {
      var n := Decode(data, pos).pos - pos;
      SamePart(data, pos, data', pos', len, 0, n);
      DecodeSame(data, pos, data', pos');
      SamePart(data, pos, data', pos', len, n, len);
      ItemsSame(data, pos + n, data', pos' + n);
    }
  }

  lemma {:induction false} EntriesSame(data: seq<Byte>, pos: nat, data': seq<Byte>, pos': nat)
    requires DecodeEntries(data, pos).Ok? && Same(data, pos, data', pos', DecodeEntries(data, pos).pos - pos)
    ensures DecodeEntries(data', pos') == DecodeEntries(data, pos).(pos := pos' + (DecodeEntries(data, pos).pos - pos))
    decreases |data| - pos, 1
  {
    hide Decode, DecodeEntries, Same;
    var len := DecodeEntries(data, pos).pos - pos;
    SamePart(data, pos, data', pos', len, 0, len);
    EntriesAre(data, pos);
    EntriesAre(data', pos');
    if data[pos] != E {
      var n := Decode(data, pos).pos - pos;
      SamePart(data, pos, data', pos', len, 0, n);
      DecodeSame(data, pos, data', pos');
      var m := Decode(data, pos + n).pos - pos;
      SamePart(data, pos, data', pos', len, n, m);
      DecodeSame(data, pos + n, data', pos' + n);
      SamePart(data, pos, data', pos', len, m, len);
      EntriesSame(data, pos + m, data', pos' + m);
    }
  }

  /** The stored bytes of a node, and of every node inside it, decode alone to that node. */
  ghost predicate Local(n: BNode)
    decreases n, 1
  {
    && Decode(n.bytes, 0) == Ok(n, |n.bytes|)
    && (n.List? ==> forall i :: 0 <= i < |n.children| ==> Local(n.children[i]))
    && (n.Dict? ==> forall i :: 0 <= i < |n.entries| ==> Local(n.entries[i].node))
  }

  lemma {:induction false} NodesAreLocal(data: seq<Byte>, pos: nat)
    requires Decode(data, pos).Ok?
    ensures Local(Decode(data, pos).value)
    decreases |data| - pos, 0
  {
    hide ParseInt, ParseString;
    var r := Decode(data, pos);
    var n := r.value;
    DecodeSame(data, pos, n.bytes, 0);
    if data[pos] == D {
      EntriesAreLocal(data, pos + 1);
    } else if data[pos] == L {
      ItemsAreLocal(data, pos + 1);
    } else {
      Leaf(data, pos);
    }
  }

  lemma Leaf(data: seq<Byte>, pos: nat)
    requires Decode(data, pos).Ok? && data[pos] != D && data[pos] != L
    ensures !Decode(data, pos).value.List? && !Decode(data, pos).value.Dict?
  {
  }

  lemma {:induction false} ItemsAreLocal(data: seq<Byte>, pos: nat)
    requires DecodeItems(data, pos).Ok?
    ensures var cs := DecodeItems(data, pos).value; forall i :: 0 <= i < |cs| ==> Local(cs[i])
    decreases |data| - pos, 1
  {
    hide Decode, Local;
    if data[pos] != E {
      NodesAreLocal(data, pos);
      ItemsAreLocal(data, Decode(data, pos).pos);
    }
  }

  lemma {:induction false} EntriesAreLocal(data: seq<Byte>, pos: nat)
    requires DecodeEntries(data, pos).Ok?
    ensures var es := DecodeEntries(data, pos).value; forall i :: 0 <= i < |es| ==> Local(es[i].node)
    decreases |data| - pos, 1
  {
    hide Decode, Local;
    if data[pos] != E {
      var k := Decode(data, pos).pos;
      NodesAreLocal(data, k);
      EntriesAreLocal(data, Decode(data, k).pos);
    }
  }
}
