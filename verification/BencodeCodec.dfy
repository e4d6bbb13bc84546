/** src/bcodec/bencoder.cpp and src/bcodec/bdecoder.cpp: the encoder as an object that appends to
    its output, the decoder as an object that moves a cursor, and the round trip between them. */
module BencodeCodec {
  import opened Common
  import opened Bencoding

  /** What can be written: non-negative integers, byte strings, lists, and dictionaries as
      ordered lists of pairs. */
  datatype Tree =
    | Num(n: nat)
    | Text(s: seq<Byte>)
    | Seq(items: seq<Tree>)
    | Map(pairs: seq<Pair>)

  datatype Pair = Pair(key: seq<Byte>, value: Tree)

  /** QByteArray::number */
  function Decimal(n: nat): (s: seq<Byte>)
    ensures |s| > 0
  {
    if n < 10 then [ZERO + n] else Decimal(n / 10) + [ZERO + n % 10]
  }

  function EncodeText(s: seq<Byte>): seq<Byte> { Decimal(|s|) + [COLON] + s }

  function Encode(t: Tree): seq<Byte>
    decreases t, 0
  {
    match t
    case Num(n) => [I] + Decimal(n) + [E]
    case Text(s) => EncodeText(s)
    case Seq(items) => [L] + EncodeItems(items) + [E]
    case Map(pairs) => [D] + EncodePairs(pairs) + [E]
  }

  function EncodeItems(items: seq<Tree>): seq<Byte>
    decreases items, 1
  {
    if items == [] then [] else Encode(items[0]) + EncodeItems(items[1..])
  }

  function EncodePairs(pairs: seq<Pair>): seq<Byte>
    decreases pairs, 1
  {
    if pairs == [] then [] else EncodeText(pairs[0].key) + Encode(pairs[0].value) + EncodePairs(pairs[1..])
  }

  /** Integers and lengths that the decoder can hold. */
  predicate Readable(t: Tree)
    decreases t
  {
    match t
    case Num(n) => n < TWO_63
    case Text(s) => |s| < TWO_31
    case Seq(items) => forall i :: 0 <= i < |items| ==> Readable(items[i])
    case Map(pairs) => forall i :: 0 <= i < |pairs| ==> |pairs[i].key| < TWO_31 && Readable(pairs[i].value)
  }

  /** A parsed node is this value. */
  predicate Stands(n: BNode, t: Tree)
    decreases t
  {
    match t
    case Num(k) => if k < TWO_31 then n.Int? && n.val == k else n.Int64? && n.val == k
    case Text(s) => n.Str? && n.str == s
    case Seq(items) => n.List? && |n.children| == |items| && forall i :: 0 <= i < |items| ==> Stands(n.children[i], items[i])
    case Map(pairs) =>
      && n.Dict? && |n.entries| == |pairs|
      && forall i :: 0 <= i < |pairs| ==> n.entries[i].key == pairs[i].key && Stands(n.entries[i].node, pairs[i].value)
  }

  // ----- Numbers

  lemma {:induction false} DigitsRead(n: nat)
    ensures AllDigits(Decimal(n))
    ensures NumOf(Decimal(n)) == Some(n)
    ensures n < TWO_31 ==> LenOf(Decimal(n)) == Some(n)
  {
    var s := Decimal(n);
    if n < 10 {
      assert s[..0] == [];
    } else {
      DigitsRead(n / 10);
      assert s[..|s| - 1] == Decimal(n / 10);
    }
  }

  /** Without leading zeros. */
  lemma {:induction false} DecimalIsCanonical(n: nat)
    ensures Decimal(n)[0] == ZERO <==> n == 0
    ensures n == 0 ==> Decimal(n) == [ZERO]
  {
    if n >= 10 {
      DecimalIsCanonical(n / 10);
    }
  }

  lemma DigitsToNumber(n: nat)
    ensures ToNumber(Decimal(n)) == Some(n)
  {
    DigitsRead(n);
  }

  lemma FindIs(data: seq<Byte>, b: Byte, i: nat, r: nat)
    requires i <= r < |data| && data[r] == b && forall k :: i <= k < r ==> data[k] != b
    ensures Find(data, b, i) == r
  {
    hide Find;
  }

  /** An integer comes back exactly when it fits in 63 bits, as an Int64 node if it needs more than 31. */
  lemma IntegerRoundTrip(n: nat)
    ensures var s := Encode(Num(n));
            && (Decode(s, 0).Ok? <==> n < TWO_63)
            && (n < TWO_63 ==> Decode(s, 0).pos == |s| && Stands(Decode(s, 0).value, Num(n)))
  {
    hide Find, ToNumber, Decimal;
    var s, d := Encode(Num(n)), Decimal(n);
    DigitsRead(n);
    DigitsToNumber(n);
    FindIs(s, E, 1, 1 + |d|);
    assert s[1..1 + |d|] == d;
  }

  /** A minus sign negates; then 2^63 fits as well, and 2^31 in an Int node. */
  lemma NegativeIntegers(n: nat)
    ensures var s := [I, MINUS] + Decimal(n) + [E];
            && (Decode(s, 0).Ok? <==> n <= TWO_63)
            && (n <= TWO_63 ==> Decode(s, 0) == Ok(if n <= TWO_31 then Int(0 - n, s) else Int64(0 - n, s), |s|))
  {
    hide Find, ToNumber, Decimal;
    var d := Decimal(n);
    var s := [I, MINUS] + d + [E];
    DigitsRead(n);
    SignedToNumber(MINUS, n);
    FindIs(s, E, 1, 2 + |d|);
    assert s[1..2 + |d|] == [MINUS] + d && s[0..|s|] == s;
  }

  lemma SignedToNumber(sign: Byte, n: nat)
    requires sign == MINUS || sign == PLUS
    ensures ToNumber([sign] + Decimal(n)) == Some(if sign == MINUS then 0 - n else n)
  {
    hide Decimal;
    DigitsRead(n);
    var t := [sign] + Decimal(n);
    assert t[1..] == Decimal(n) && IsDigit(t[|t| - 1]);
    assert Trimmed(t) == t;
  }

  lemma TextRoundTrip(s: seq<Byte>)
    requires |s| < TWO_31
    ensures var e := EncodeText(s);
            Decode(e, 0) == Ok(Str(s, e), |e|) && e[0] != E
  {
    hide Find, LenOf, Decimal;
    var e, d := EncodeText(s), Decimal(|s|);
    DigitsRead(|s|);
    FindIs(e, COLON, 0, |d|);
    assert e[0..|d|] == d;
    assert e[|d| + 1..|e|] == s && e[0..|e|] == e;
    assert e[0] == d[0];
  }

  // ----- Trees

  lemma {:induction false} RoundTrip(t: Tree)
    requires Readable(t)
    ensures var e := Encode(t);
            Decode(e, 0).Ok? && Decode(e, 0).pos == |e| && Stands(Decode(e, 0).value, t) && e[0] != E
    decreases t, 0
  {
    hide ParseInt, ParseString, DecodeItems, DecodeEntries, EncodeItems, EncodePairs, EncodeText;
    var e := Encode(t);
    match t
    case Num(n) => IntegerRoundTrip(n);
    case Text(s) => TextRoundTrip(s);
    case Seq(items) =>
      ItemsRoundTrip(items);
      var inner := EncodeItems(items) + [E];
      assert e == [L] + inner && e[1..1 + |inner|] == inner && inner[0..|inner|] == inner;
      ItemsSame(inner, 0, e, 1);
    case Map(pairs) =>
      PairsRoundTrip(pairs);
      var inner := EncodePairs(pairs) + [E];
      assert e == [D] + inner && e[1..1 + |inner|] == inner && inner[0..|inner|] == inner;
      EntriesSame(inner, 0, e, 1);
  }

  lemma {:induction false} ItemsRoundTrip(items: seq<Tree>)
    requires forall i :: 0 <= i < |items| ==> Readable(items[i])
    ensures var e := EncodeItems(items) + [E];
            var r := DecodeItems(e, 0);
            && r.Ok? && r.pos == |e| && |r.value| == |items|
            && forall i :: 0 <= i < |items| ==> Stands(r.value[i], items[i])
    decreases items, 1
  {
    hide Decode, DecodeItems, Stands, Readable;
    var e := EncodeItems(items) + [E];
    ItemsAre(e, 0);
    if items != [] {
      var head, rest := Encode(items[0]), EncodeItems(items[1..]) + [E];
      RoundTrip(items[0]);
      ItemsRoundTrip(items[1..]);
      assert e == head + rest;
      Beside(head, rest);
      assert e[0] == head[0];
      DecodeSame(head, 0, e, 0);
      ItemsSame(rest, 0, e, |head|);
    }
  }

  /** Both parts of a concatenation stand in it. */
  lemma Beside(a: seq<Byte>, b: seq<Byte>)
    ensures Same(a, 0, a + b, 0, |a|) && Same(b, 0, a + b, |a|, |b|)
  {
    assert (a + b)[0..|a|] == a[0..|a|];
    assert (a + b)[|a|..|a| + |b|] == b[0..|b|];
  }

  lemma {:induction false} PairsRoundTrip(pairs: seq<Pair>)
    requires forall i :: 0 <= i < |pairs| ==> |pairs[i].key| < TWO_31 && Readable(pairs[i].value)
    ensures var e := EncodePairs(pairs) + [E];
            var r := DecodeEntries(e, 0);
            && r.Ok? && r.pos == |e| && |r.value| == |pairs|
            && forall i :: 0 <= i < |pairs| ==> r.value[i].key == pairs[i].key && Stands(r.value[i].node, pairs[i].value)
    decreases pairs, 1
  {
    hide Decode, DecodeEntries, Stands, Readable, EncodeText, Encode, Same;
    var e := EncodePairs(pairs) + [E];
    EntriesAre(e, 0);
    if pairs != [] {
      var key, val, rest := EncodeText(pairs[0].key), Encode(pairs[0].value), EncodePairs(pairs[1..]) + [E];
      TextRoundTrip(pairs[0].key);
      RoundTrip(pairs[0].value);
      PairsRoundTrip(pairs[1..]);
      assert e == key + val + rest;
      ThreeParts(key, val, rest);
      assert e[0] == key[0];
      DecodeSame(key, 0, e, 0);
      DecodeSame(val, 0, e, |key|);
      EntriesSame(rest, 0, e, |key| + |val|);
    }
  }

  lemma ThreeParts(a: seq<Byte>, b: seq<Byte>, c: seq<Byte>)
    ensures Same(a, 0, a + b + c, 0, |a|) && Same(b, 0, a + b + c, |a|, |b|) && Same(c, 0, a + b + c, |a| + |b|, |c|)
  {
    var s := a + b + c;
    assert s[0..|a|] == a[0..|a|];
    assert s[|a|..|a| + |b|] == b[0..|b|];
    assert s[|a| + |b|..|a| + |b| + |c|] == c[0..|c|];
  }

  /** Whatever stands before and after it, what was written is read back, and the cursor stops
      right behind it. */
  lemma RoundTripAnywhere(t: Tree, before: seq<Byte>, after: seq<Byte>)
    requires Readable(t)
    ensures var r := Decode(before + Encode(t) + after, |before|);
            r.Ok? && r.pos == |before + Encode(t)| && Stands(r.value, t) && r.value.bytes == Encode(t)
  {
    hide Decode, Stands, Encode, Same;
    var e := Encode(t);
    RoundTrip(t);
    ThreeParts(before, e, after);
    DecodeSame(e, 0, before + e + after, |before|);
    assert e[0..|e|] == e;
  }

  // ----- What cannot be read back

  /** What the decoder can hold in a node. */
  predicate Holdable(n: BNode)
  {
    match n
    case Int(v, _) => -TWO_63 <= v < TWO_63
    case Int64(v, _) => -TWO_63 <= v < TWO_63
    case Str(s, _) => |s| < TWO_31
    case List(cs, _) => forall i :: 0 <= i < |cs| ==> Holdable(cs[i])
    case Dict(es, _) => forall i :: 0 <= i < |es| ==> |es[i].key| < TWO_31 && Holdable(es[i].node)
  }

  lemma {:induction false} DecodedIsHoldable(data: seq<Byte>, pos: nat)
    requires Decode(data, pos).Ok?
    ensures Holdable(Decode(data, pos).value)
    decreases |data| - pos, 0
  {
    hide ToNumber, Find, DecodeItems, DecodeEntries;
    if data[pos] == D {
      EntriesAreHoldable(data, pos + 1);
    } else if data[pos] == L {
      ItemsAreHoldable(data, pos + 1);
    } else if data[pos] != I {
      LengthIsShort(data[pos..Find(data, COLON, pos)]);
    }
  }

  lemma LengthIsShort(s: seq<Byte>)
    ensures LenOf(s).Some? ==> LenOf(s).value < TWO_31
  {
  }

  lemma {:induction false} ItemsAreHoldable(data: seq<Byte>, pos: nat)
    requires DecodeItems(data, pos).Ok?
    ensures var cs := DecodeItems(data, pos).value; forall i :: 0 <= i < |cs| ==> Holdable(cs[i])
    decreases |data| - pos, 1
  {
    hide Decode, Holdable;
    if data[pos] != E {
      DecodedIsHoldable(data, pos);
      ItemsAreHoldable(data, Decode(data, pos).pos);
    }
  }

  lemma {:induction false} EntriesAreHoldable(data: seq<Byte>, pos: nat)
    requires DecodeEntries(data, pos).Ok?
    ensures var es := DecodeEntries(data, pos).value;
            forall i :: 0 <= i < |es| ==> |es[i].key| < TWO_31 && Holdable(es[i].node)
    decreases |data| - pos, 1
  {
    hide Decode;
    if data[pos] != E {
      var k := Decode(data, pos);
      DecodedIsHoldable(data, pos);
      DecodedIsHoldable(data, k.pos);
      EntriesAreHoldable(data, Decode(data, k.pos).pos);
    }
  }

  lemma {:induction false} HeldIsReadable(n: BNode, t: Tree)
    requires Holdable(n) && Stands(n, t)
    ensures Readable(t)
    decreases t
  {
    match t
    case Num(_) =>
    case Text(_) =>
    case Seq(items) =>
      forall i | 0 <= i < |items| ensures Readable(items[i]) {
        HeldIsReadable(n.children[i], items[i]);
      }
    case Map(pairs) =>
      forall i | 0 <= i < |pairs| ensures |pairs[i].key| < TWO_31 && Readable(pairs[i].value) {
        HeldIsReadable(n.entries[i].node, pairs[i].value);
      }
  }

  /** A tree is read back if and only if all its integers are below 2^63 and all its strings are
      shorter than 2^31 bytes. */
  lemma RoundTripExactly(t: Tree, before: seq<Byte>, after: seq<Byte>)
    ensures var r := Decode(before + Encode(t) + after, |before|);
            Readable(t) <==> r.Ok? && Stands(r.value, t)
  {
    hide Decode, Encode, Stands, Readable, Holdable;
    var r := Decode(before + Encode(t) + after, |before|);
    if Readable(t) {
      RoundTripAnywhere(t, before, after);
    } else if r.Ok? && Stands(r.value, t) {
      DecodedIsHoldable(before + Encode(t) + after, |before|);
      HeldIsReadable(r.value, t);
    }
  }

  // ----- The objects

  class BEncoder {
    var out: seq<Byte>

    constructor ()
      ensures out == []
    {
      out := [];
    }

    method BeginDict()
      modifies this
      ensures out == old(out) + [D]
    {
      out := out + [D];
    }

    method BeginList()
      modifies this
      ensures out == old(out) + [L]
    {
      out := out + [L];
    }

    method WriteInt(val: nat)
      modifies this
      ensures out == old(out) + Encode(Num(val))
    {
      out := out + ([I] + Decimal(val) + [E]);
    }

    method WriteBytes(data: seq<Byte>)
      modifies this
      ensures out == old(out) + EncodeText(data)
    {
      var s := Decimal(|data|);
      out := out + s;
      out := out + [COLON];
      out := out + data;
      assert out == old(out) + (s + [COLON] + data);
    }

    method End()
      modifies this
      ensures out == old(out) + [E]
    {
      out := out + [E];
    }

    /** The calls that write a value, as the classes that save themselves make them. */
    method WriteTree(t: Tree)
      modifies this
      ensures out == old(out) + Encode(t)
      decreases t, 0
    {
      match t
      case Num(n) => WriteInt(n);
      case Text(s) => WriteBytes(s);
      case Seq(items) =>
        BeginList();
        WriteItems(items);
        End();
        assert out == old(out) + ([L] + EncodeItems(items) + [E]);
      case Map(pairs) =>
        BeginDict();
        WritePairs(pairs);
        End();
        assert out == old(out) + ([D] + EncodePairs(pairs) + [E]);
    }

    method WriteItems(items: seq<Tree>)
      modifies this
      ensures out == old(out) + EncodeItems(items)
      decreases items, 1
    {
      if items != [] {
        WriteTree(items[0]);
        WriteItems(items[1..]);
        assert out == old(out) + (Encode(items[0]) + EncodeItems(items[1..]));
      }
    }

    method WritePairs(pairs: seq<Pair>)
      modifies this
      ensures out == old(out) + EncodePairs(pairs)
      decreases pairs, 1
    {
      if pairs != [] {
        WriteBytes(pairs[0].key);
        WriteTree(pairs[0].value);
        WritePairs(pairs[1..]);
        assert out == old(out) + (EncodeText(pairs[0].key) + Encode(pairs[0].value) + EncodePairs(pairs[1..]));
      }
    }
  }

  /** What decode() gives back: a node, nothing at the end of the data, or an exception. */
  datatype Outcome = Node(node: BNode) | Nothing | Thrown

  /** The outcome and the cursor are those of the specification. After an exception the cursor
      may be anywhere. */
  ghost predicate Meets(r: Outcome, pos: nat, spec: Result<BNode>)
  {
    match spec
    case Ok(n, p) => r == Node(n) && pos == p
    case Null => r == Nothing
    case Error => r == Thrown
  }

  lemma AfterNothing<T>(rest: Result<seq<T>>)
    requires !rest.Null?
    ensures After([], rest) == rest
  {
    if rest.Ok? {
      assert [] + rest.value == rest.value;
    }
  }

  lemma AfterOne<T>(done: seq<T>, x: T, rest: Result<seq<T>>)
    ensures After(done, After([x], rest)) == After(done + [x], rest)
  {
    if rest.Ok? {
      assert done + ([x] + rest.value) == done + [x] + rest.value;
    }
  }

  lemma AfterEnd<T>(done: seq<T>, pos: nat)
    ensures After(done, Ok([], pos)) == Ok(done, pos)
  {
    assert done + [] == done;
  }

  lemma AfterError<T>(done: seq<T>)
    ensures After(done, Error) == Error
  {
  }

  class BDecoder {
    const data: seq<Byte>
    var pos: nat

    constructor (data: seq<Byte>)
      ensures this.data == data && pos == 0
    {
      this.data, pos := data, 0;
    }

    method Decode() returns (r: Outcome)
      requires pos <= |data|
      modifies this
      ensures pos <= |data|
      ensures Meets(r, pos, Bencoding.Decode(data, old(pos)))
      ensures r.Nothing? ==> pos == old(pos)
      decreases |data| - pos, 0
    {
      hide Bencoding.ParseInt, Bencoding.ParseString, DecodeItems, DecodeEntries;
      if pos >= |data| {
        return Nothing;
      }
      if data[pos] == D {
        r := ParseDict();
      } else if data[pos] == L {
        r := ParseList();
      } else if data[pos] == I {
        r := ParseInt();
      } else if IsDigit(data[pos]) {
        r := ParseString();
      } else {
        r := Thrown;
      }
    }

    method ParseDict() returns (r: Outcome)
      requires pos < |data| && data[pos] == D
      modifies this
      ensures pos <= |data|
      ensures var s := DecodeEntries(data, old(pos) + 1);
              if s.Ok? then r == Node(Dict(s.value, data[old(pos)..s.pos])) && pos == s.pos else r == Thrown
      decreases |data| - pos - 1, 2
    {
      hide Bencoding.Decode, DecodeEntries, After;
      var off := pos;
      var curr: seq<Entry> := [];
      pos := pos + 1;
      AfterNothing(DecodeEntries(data, pos));
      while pos < |data| && data[pos] != E
        invariant off < pos <= |data|
        invariant DecodeEntries(data, off + 1) == After(curr, DecodeEntries(data, pos))
        decreases |data| - pos
      {
        EntriesAre(data, pos);
        AfterError(curr);
        var k := Decode();
        if !(k.Node? && k.node.Str?) {
          return Thrown;
        }
        var value := Decode();
        if !value.Node? {
          return Thrown;
        }
        var entry := Entry(k.node.str, value.node);
        AfterOne(curr, entry, DecodeEntries(data, pos));
        curr := curr + [entry];
      }
      EntriesAre(data, pos);
      AfterEnd(curr, pos + 1);
      AfterError(curr);
      if pos >= |data| {
        return Thrown;
      }
      pos := pos + 1;
      return Node(Dict(curr, data[off..pos]));
    }

    method ParseList() returns (r: Outcome)
      requires pos < |data| && data[pos] == L
      modifies this
      ensures pos <= |data|
      ensures var s := DecodeItems(data, old(pos) + 1);
              if s.Ok? then r == Node(List(s.value, data[old(pos)..s.pos])) && pos == s.pos else r == Thrown
      decreases |data| - pos - 1, 2
    {
      hide Bencoding.Decode, DecodeItems, After;
      var off := pos;
      var curr: seq<BNode> := [];
      pos := pos + 1;
      AfterNothing(DecodeItems(data, pos));
      while pos < |data| && data[pos] != E
        invariant off < pos <= |data|
        invariant DecodeItems(data, off + 1) == After(curr, DecodeItems(data, pos))
        decreases |data| - pos
      {
        ItemsAre(data, pos);
        AfterError(curr);
        var n := Decode();
        if n.Thrown? {
          return Thrown;
        }
        if n.Node? {
          AfterOne(curr, n.node, DecodeItems(data, pos));
          curr := curr + [n.node];
        }
      }
      ItemsAre(data, pos);
      AfterEnd(curr, pos + 1);
      AfterError(curr);
      if pos >= |data| {
        return Thrown;
      }
      pos := pos + 1;
      return Node(List(curr, data[off..pos]));
    }

    method ParseInt() returns (r: Outcome)
      requires pos < |data|
      modifies this
      ensures pos <= |data|
      ensures Meets(r, pos, Bencoding.ParseInt(data, old(pos)))
    {
      hide Find, ToNumber;
      var off := pos;
      pos := pos + 1;
      var n: seq<Byte> := [];
      while pos < |data| && data[pos] != E
        invariant off < pos <= |data| && n == data[off + 1..pos]
        invariant forall k :: off + 1 <= k < pos ==> data[k] != E
      {
        n := n + [data[pos]];
        pos := pos + 1;
      }
      if pos >= |data| {
        return Thrown;
      }
      var val := ToNumber(n);
      if val.Some? && -TWO_31 <= val.value < TWO_31 {
        pos := pos + 1;
        return Node(Int(val.value, data[off..pos]));
      } else {
        if !(val.Some? && -TWO_63 <= val.value < TWO_63) {
          return Thrown;
        }
        pos := pos + 1;
        return Node(Int64(val.value, data[off..pos]));
      }
    }

    method ParseString() returns (r: Outcome)
      requires pos < |data|
      modifies this
      ensures pos <= |data|
      ensures Meets(r, pos, Bencoding.ParseString(data, old(pos)))
    {
      hide Find, LenOf;
      var off := pos;
      while pos < |data| && data[pos] != COLON
        invariant off <= pos <= |data|
        invariant forall k :: off <= k < pos ==> data[k] != COLON
      {
        pos := pos + 1;
      }
      if pos >= |data| {
        return Thrown;
      }
      var len := ReadLength(data[off..pos]);
      if len.None? || len.value < 0 {
        return Thrown;
      }
      pos := pos + 1;
      if pos + len.value > |data| {
        return Thrown;
      }
      var str := data[pos..pos + len.value];
      pos := pos + len.value;
      return Node(Str(str, data[off..pos]));
    }

    /** The length loop; None for a character that is not a digit. */
    method ReadLength(text: seq<Byte>) returns (len: Option<int>)
      ensures len == LenOf(text)
    {
      var v := 0;
      assert text[..0] == [];
      for i := 0 to |text|
        invariant LenOf(text[..i]) == Some(v)
      {
        assert text[..i + 1][..i] == text[..i];
        if !IsDigit(text[i]) {
          LenFails(text, i + 1);
          return None;
        }
        v := Int32(v * 10 + (text[i] - ZERO));
      }
      assert text[..|text|] == text;
      return Some(v);
    }
  }

  lemma {:induction false} LenFails(text: seq<Byte>, i: nat)
    requires i <= |text| && LenOf(text[..i]).None?
    ensures LenOf(text).None?
    decreases |text| - i
  {
    if i == |text| {
      assert text[..i] == text;
    } else {
      assert text[..i + 1][..i] == text[..i];
      LenFails(text, i + 1);
    }
  }
}
