/** src/bcodec/bdecoder.cpp: the language that the decoder accepts, described without a cursor, and
    why it accepts exactly that. */
module BencodeGrammar {
  import opened Common
  import opened Bencoding
  import Keys

  // ----- Numbers

  /** The number written by decimal digits. */
  function Numeral(d: seq<Byte>): int { Keys.Number(seq(|d|, i requires 0 <= i < |d| => d[i] - ZERO), 10) }

  lemma NumeralSnoc(d: seq<Byte>, b: Byte)
    ensures Numeral(d + [b]) == Numeral(d) * 10 + (b - ZERO)
  {
    hide Keys.Number;
    var s, t := seq(|d|, i requires 0 <= i < |d| => d[i] - ZERO), seq(|d + [b]|, i requires 0 <= i < |d + [b]| => (d + [b])[i] - ZERO);
    Keys.NumberSnoc(s, b - ZERO, 10);
    assert t == s + [b - ZERO];
  }

  lemma {:induction false} NumOfIs(s: seq<Byte>)
    ensures NumOf(s) == if AllDigits(s) then Some(Numeral(s)) else None
  {
    hide Numeral;
    if s == [] {
      assert Numeral([]) == 0 by { EmptyNumeral(); }
    } else {
      var n := |s| - 1;
      NumOfIs(s[..n]);
      NumeralSnoc(s[..n], s[n]);
      assert s[..n] + [s[n]] == s;
    }
  }

  lemma EmptyNumeral()
    ensures Numeral([]) == 0
  {
  }

  /** The length loop computes the number modulo 2^32, as a signed one. */
  lemma {:induction false} LenOfIs(s: seq<Byte>)
    ensures LenOf(s) == if AllDigits(s) then Some(Int32(Numeral(s))) else None
  {
    hide Numeral, Int32;
    if s == [] {
      EmptyNumeral();
      assert Int32(0) == 0;
    } else {
      var n := |s| - 1;
      LenOfIs(s[..n]);
      NumeralSnoc(s[..n], s[n]);
      assert s[..n] + [s[n]] == s;
      Int32Step(Numeral(s[..n]), s[n] - ZERO);
    }
  }

  lemma Int32Step(x: int, d: int)
    ensures Int32(Int32(x) * 10 + d) == Int32(x * 10 + d)
  {
    var k := (x + TWO_31) / TWO_32;
    assert Int32(x) == x - k * TWO_32;
    assert x * 10 + d + TWO_31 == Int32(x) * 10 + d + TWO_31 + (10 * k) * TWO_32;
    ModuloShift(Int32(x) * 10 + d + TWO_31, 10 * k);
  }

  lemma ModuloShift(x: int, k: int)
    ensures (x + k * TWO_32) % TWO_32 == x % TWO_32
  {
  }

  predicate Blank(s: seq<Byte>) { forall i :: 0 <= i < |s| ==> IsSpace(s[i]) }

  /** Digits, perhaps after a sign. */
  predicate Signed(t: seq<Byte>, v: int)
  {
    && |t| > 0
    && var d := if t[0] == MINUS || t[0] == PLUS then t[1..] else t;
       |d| > 0 && AllDigits(d) && v == if t[0] == MINUS then -Numeral(d) else Numeral(d)
  }

  /** A signed number, perhaps between blanks. */
  ghost predicate IsNumber(s: seq<Byte>, v: int)
  {
    exists a: nat, b: nat :: a <= b <= |s| && Blank(s[..a]) && Blank(s[b..]) && Signed(s[a..b], v)
  }

  ghost predicate Trims(s: seq<Byte>, a: nat, b: nat)
  {
    && a <= b <= |s| && Blank(s[..a]) && Blank(s[b..]) && Trimmed(s) == s[a..b]
    && (a < b ==> !IsSpace(s[a]) && !IsSpace(s[b - 1]))
  }

  lemma {:induction false} TrimmedIs(s: seq<Byte>) returns (a: nat, b: nat)
    ensures Trims(s, a, b)
    decreases |s|
  {
    hide IsSpace;
    if s == [] {
      a, b := 0, 0;
    } else if IsSpace(s[0]) {
      a, b := TrimmedIs(s[1..]);
      a, b := a + 1, b + 1;
      assert s[..a] == [s[0]] + s[1..][..a - 1] && s[b..] == s[1..][b - 1..] && s[a..b] == s[1..][a - 1..b - 1];
    } else if IsSpace(s[|s| - 1]) {
      var n := |s| - 1;
      a, b := TrimmedIs(s[..n]);
      assert s[..a] == s[..n][..a] && s[b..] == s[..n][b..] + [s[n]] && s[a..b] == s[..n][a..b];
    } else {
      a, b := 0, |s|;
      assert s[0..|s|] == s;
    }
  }

  /** Between blanks there is only one stretch that begins and ends with something else. */
  lemma OneStretch(s: seq<Byte>, a: nat, b: nat, a': nat, b': nat)
    requires a < b <= |s| && Blank(s[..a]) && Blank(s[b..]) && !IsSpace(s[a]) && !IsSpace(s[b - 1])
    requires a' <= b' <= |s| && Blank(s[..a']) && Blank(s[b'..]) && (a' < b' ==> !IsSpace(s[a']) && !IsSpace(s[b' - 1]))
    ensures a == a' && b == b'
  {
    hide IsSpace;
  }

  lemma SignedIsTight(t: seq<Byte>, v: int)
    requires Signed(t, v)
    ensures !IsSpace(t[0]) && !IsSpace(t[|t| - 1])
  {
    hide Numeral;
    var d := if t[0] == MINUS || t[0] == PLUS then t[1..] else t;
    assert t[|t| - 1] == d[|d| - 1] && IsDigit(d[|d| - 1]);
  }

  lemma ToNumberOf(t: seq<Byte>, s: seq<Byte>, v: int)
    requires t == Trimmed(s)
    ensures ToNumber(s) == Some(v) <==> Signed(t, v)
  {
    hide Numeral, IsSpace, NumOf, Trimmed;
    if |t| > 0 {
      NumOfIs(t);
      NumOfIs(t[1..]);
      SignNotDigit();
    }
  }

  /** The conversion accepts exactly the numbers in this sense, with their value. */
  lemma ToNumberIs(s: seq<Byte>, v: int)
    ensures ToNumber(s) == Some(v) <==> IsNumber(s, v)
  {
    hide ToNumber, Signed, IsSpace, Trimmed;
    var a, b := TrimmedIs(s);
    ToNumberOf(s[a..b], s, v);
    if IsNumber(s, v) {
      var a', b' := Stretch(s, v);
      SignedIsTight(s[a'..b'], v);
      OneStretch(s, a', b', a, b);
    }
  }

  lemma Stretch(s: seq<Byte>, v: int) returns (a: nat, b: nat)
    requires IsNumber(s, v)
    ensures a < b <= |s| && Blank(s[..a]) && Blank(s[b..]) && Signed(s[a..b], v)
  {
    hide Blank;
    a, b :| a <= b <= |s| && Blank(s[..a]) && Blank(s[b..]) && Signed(s[a..b], v);
  }

  lemma SignNotDigit()
    ensures !IsDigit(MINUS) && !IsDigit(PLUS)
  {
  }

  // ----- Nodes

  ghost predicate IntText(b: seq<Byte>, v: int)
  {
    |b| >= 2 && b[0] == I && b[|b| - 1] == E && E !in b[1..|b| - 1] && IsNumber(b[1..|b| - 1], v)
  }

  /** The length of the string, a colon and the string. */
  predicate StrText(b: seq<Byte>, s: seq<Byte>)
  {
    var k := |b| - |s| - 1;
    k > 0 && b == b[..k] + [COLON] + s && AllDigits(b[..k]) && Int32(Numeral(b[..k])) == |s|
  }

  ghost predicate ItemsText(b: seq<Byte>, cs: seq<BNode>)
    decreases |cs|
  {
    if cs == [] then b == [] else cs[0].bytes <= b && ItemsText(b[|cs[0].bytes|..], cs[1..])
  }

  ghost predicate EntriesText(b: seq<Byte>, es: seq<Entry>)
    decreases |es|
  {
    if es == [] then b == []
    else exists k: nat :: k <= |b| && StrText(b[..k], es[0].key) && es[0].node.bytes <= b[k..]
                          && EntriesText(b[k + |es[0].node.bytes|..], es[1..])
  }

  ghost predicate Framed(b: seq<Byte>, mark: Byte) { |b| >= 2 && b[0] == mark && b[|b| - 1] == E }

  /** The bytes of a node are written like this, and those of the nodes inside it as well. */
  ghost predicate Grammar(n: BNode)
  {
    match n
    case Int(v, b) => IntText(b, v) && -TWO_31 <= v < TWO_31
    case Int64(v, b) => IntText(b, v) && -TWO_63 <= v < TWO_63 && !(-TWO_31 <= v < TWO_31)
    case Str(s, b) => StrText(b, s)
    case List(cs, b) => Framed(b, L) && ItemsText(b[1..|b| - 1], cs) && forall i :: 0 <= i < |cs| ==> Grammar(cs[i])
    case Dict(es, b) => Framed(b, D) && EntriesText(b[1..|b| - 1], es) && forall i :: 0 <= i < |es| ==> Grammar(es[i].node)
  }

  // ----- What is decoded is written like this

  lemma ParsedInt(data: seq<Byte>, pos: nat)
    requires pos < |data| && data[pos] == I && ParseInt(data, pos).Ok?
    ensures Grammar(ParseInt(data, pos).value)
  {
    hide Find, ToNumber, IsNumber;
    var end := Find(data, E, pos + 1);
    var b, s := data[pos..end + 1], data[pos + 1..end];
    assert b[1..|b| - 1] == s;
    ToNumberIs(s, ToNumber(s).value);
  }

  lemma ParsedStr(data: seq<Byte>, pos: nat)
    requires pos < |data| && IsDigit(data[pos]) && ParseString(data, pos).Ok?
    ensures ParseString(data, pos).value.Str? && Grammar(ParseString(data, pos).value)
  {
    hide Find, LenOf, Numeral, Int32;
    var colon := Find(data, COLON, pos);
    LenOfIs(data[pos..colon]);
    var r := ParseString(data, pos);
    var b, s := data[pos..r.pos], data[colon + 1..r.pos];
    assert colon > pos;
    assert b[..colon - pos] == data[pos..colon];
    assert b == data[pos..colon] + [COLON] + s;
  }

  lemma {:induction false} DecodedIsGrammar(data: seq<Byte>, pos: nat)
    requires Decode(data, pos).Ok?
    ensures Grammar(Decode(data, pos).value)
    decreases |data| - pos, 0
  {
    hide ParseInt, ParseString, DecodeItems, DecodeEntries, ItemsText, EntriesText;
    if data[pos] == D {
      var r := DecodeEntries(data, pos + 1);
      EntriesAreGrammar(data, pos + 1);
      assert data[pos..r.pos][1..r.pos - pos - 1] == data[pos + 1..r.pos - 1];
    } else if data[pos] == L {
      var r := DecodeItems(data, pos + 1);
      ItemsAreGrammar(data, pos + 1);
      assert data[pos..r.pos][1..r.pos - pos - 1] == data[pos + 1..r.pos - 1];
    } else if data[pos] == I {
      ParsedInt(data, pos);
    } else {
      ParsedStr(data, pos);
    }
  }

  lemma NoItems()
    ensures ItemsText([], []) && EntriesText([], [])
  {
  }

  lemma ItemsCons(n: BNode, b: seq<Byte>, cs: seq<BNode>)
    requires ItemsText(b, cs)
    ensures ItemsText(n.bytes + b, [n] + cs)
  {
    assert ([n] + cs)[1..] == cs && (n.bytes + b)[|n.bytes|..] == b;
  }

  lemma EntriesCons(key: seq<Byte>, e: Entry, b: seq<Byte>, es: seq<Entry>)
    requires EntriesText(b, es) && StrText(key, e.key)
    ensures EntriesText(key + e.node.bytes + b, [e] + es)
  {
    hide StrText;
    var all, k, v := key + e.node.bytes + b, |key|, e.node.bytes;
    assert ([e] + es)[1..] == es && all[..k] == key && all[k..] == v + b && all[k + |v|..] == b;
  }

  lemma {:induction false} ItemsAreGrammar(data: seq<Byte>, pos: nat)
    requires DecodeItems(data, pos).Ok?
    ensures var r := DecodeItems(data, pos);
            && data[r.pos - 1] == E && ItemsText(data[pos..r.pos - 1], r.value)
            && forall i :: 0 <= i < |r.value| ==> Grammar(r.value[i])
    decreases |data| - pos, 1
  {
    hide Decode, Grammar, DecodeItems, ItemsText;
    ItemsAre(data, pos);
    NoItems();
    assert data[pos..pos] == [];
    if data[pos] != E {
      var n, r := Decode(data, pos), DecodeItems(data, pos);
      DecodedIsGrammar(data, pos);
      ItemsAreGrammar(data, n.pos);
      ItemsCons(n.value, data[n.pos..r.pos - 1], DecodeItems(data, n.pos).value);
      assert data[pos..r.pos - 1] == data[pos..n.pos] + data[n.pos..r.pos - 1];
    }
  }

  lemma {:induction false} EntriesAreGrammar(data: seq<Byte>, pos: nat)
    requires DecodeEntries(data, pos).Ok?
    ensures var r := DecodeEntries(data, pos);
            && data[r.pos - 1] == E && EntriesText(data[pos..r.pos - 1], r.value)
            && forall i :: 0 <= i < |r.value| ==> Grammar(r.value[i].node)
    decreases |data| - pos, 1
  {
    hide Decode, Grammar, StrText, DecodeEntries, EntriesText;
    EntriesAre(data, pos);
    NoItems();
    assert data[pos..pos] == [];
    if data[pos] != E {
      var k, r := Decode(data, pos), DecodeEntries(data, pos);
      var v := Decode(data, k.pos);
      DecodedIsGrammar(data, pos);
      StrGrammar(k.value);
      DecodedIsGrammar(data, k.pos);
      EntriesAreGrammar(data, v.pos);
      EntriesCons(k.value.bytes, Entry(k.value.str, v.value), data[v.pos..r.pos - 1], DecodeEntries(data, v.pos).value);
      assert data[pos..r.pos - 1] == data[pos..k.pos] + data[k.pos..v.pos] + data[v.pos..r.pos - 1];
    }
  }

  lemma StrGrammar(n: BNode)
    requires n.Str? && Grammar(n)
    ensures StrText(n.bytes, n.str)
  {
  }

  // ----- What is written like this is decoded

  lemma IntParsed(n: BNode)
    requires (n.Int? || n.Int64?) && Grammar(n)
    ensures Decode(n.bytes, 0) == Ok(n, |n.bytes|)
  {
    hide Find, ToNumber, IsNumber;
    var b := n.bytes;
    var s := b[1..|b| - 1];
    assert forall k :: 1 <= k < |b| - 1 ==> b[k] == s[k - 1];
    FindAt(b, E, 1, |b| - 1);
    ToNumberIs(s, n.val);
    assert b[0..|b|] == b;
  }

  lemma FindAt(data: seq<Byte>, b: Byte, i: nat, r: nat)
    requires i <= r < |data| && data[r] == b && forall k :: i <= k < r ==> data[k] != b
    ensures Find(data, b, i) == r
  {
    hide Find;
  }

  lemma StrParsed(b: seq<Byte>, s: seq<Byte>)
    requires StrText(b, s)
    ensures Decode(b, 0) == Ok(Str(s, b), |b|)
  {
    hide Find, LenOf, Numeral, Int32;
    var k := |b| - |s| - 1;
    assert forall j :: 0 <= j < k ==> b[j] == b[..k][j] && IsDigit(b[j]);
    FindAt(b, COLON, 0, k);
    LenOfIs(b[..k]);
    assert b[0..k] == b[..k] && b[0..|b|] == b && b[k + 1..|b|] == s;
    assert b[0] == b[..k][0];
  }

  lemma {:induction false} GrammarIsDecoded(n: BNode)
    requires Grammar(n)
    ensures Decode(n.bytes, 0) == Ok(n, |n.bytes|)
    decreases n, 0
  {
    hide ParseInt, ParseString, DecodeItems, DecodeEntries, ItemsText, EntriesText, IntText, StrText;
    var b := n.bytes;
    match n
    case Int(_, _) => IntParsed(n);
    case Int64(_, _) => IntParsed(n);
    case Str(s, _) => StrParsed(b, s);
    case List(cs, _) =>
      var inner := b[1..|b| - 1] + [E];
      GrammarItems(b[1..|b| - 1], cs);
      assert b == [L] + inner && b[1..1 + |inner|] == inner && inner[0..|inner|] == inner && b[0..|b|] == b;
      ItemsSame(inner, 0, b, 1);
    case Dict(es, _) =>
      var inner := b[1..|b| - 1] + [E];
      GrammarEntries(b[1..|b| - 1], es);
      assert b == [D] + inner && b[1..1 + |inner|] == inner && inner[0..|inner|] == inner && b[0..|b|] == b;
      EntriesSame(inner, 0, b, 1);
  }

  lemma {:induction false} GrammarItems(b: seq<Byte>, cs: seq<BNode>)
    requires ItemsText(b, cs) && forall i :: 0 <= i < |cs| ==> Grammar(cs[i])
    ensures DecodeItems(b + [E], 0) == Ok(cs, |b| + 1)
    decreases cs, 1
  {
    hide Decode, DecodeItems, Grammar;
    var e := b + [E];
    ItemsAre(e, 0);
    if cs != [] {
      var head := cs[0].bytes;
      var rest := b[|head|..] + [E];
      GrammarIsDecoded(cs[0]);
      GrammarItems(b[|head|..], cs[1..]);
      NotTheEnd(head);
      assert e == head + rest;
      Parts(head, rest, []);
      assert e[0] == head[0];
      DecodeSame(head, 0, e, 0);
      ItemsSame(rest, 0, e, |head|);
      assert [cs[0]] + cs[1..] == cs;
    }
  }

  /** No node begins with the closing mark. */
  lemma NotTheEnd(b: seq<Byte>)
    requires Decode(b, 0).Ok?
    ensures |b| > 0 && b[0] != E
  {
    hide ParseInt, ParseString, DecodeItems, DecodeEntries;
  }

  lemma Parts(a: seq<Byte>, b: seq<Byte>, c: seq<Byte>)
    ensures Same(a, 0, a + b + c, 0, |a|) && Same(b, 0, a + b + c, |a|, |b|) && Same(c, 0, a + b + c, |a| + |b|, |c|)
    ensures a + b + [] == a + b
  {
    var s := a + b + c;
    assert s[0..|a|] == a[0..|a|];
    assert s[|a|..|a| + |b|] == b[0..|b|];
    assert s[|a| + |b|..|a| + |b| + |c|] == c[0..|c|];
  }

  lemma NoEntries(b: seq<Byte>)
    requires EntriesText(b, [])
    ensures b == []
  {
  }

  lemma KeyLength(b: seq<Byte>, es: seq<Entry>) returns (k: nat)
    requires EntriesText(b, es) && es != []
    ensures k <= |b| && StrText(b[..k], es[0].key) && es[0].node.bytes <= b[k..] && EntriesText(b[k + |es[0].node.bytes|..], es[1..])
  {
    hide StrText;
    k :| k <= |b| && StrText(b[..k], es[0].key) && es[0].node.bytes <= b[k..] && EntriesText(b[k + |es[0].node.bytes|..], es[1..]);
  }

  lemma {:induction false} GrammarEntries(b: seq<Byte>, es: seq<Entry>)
    requires EntriesText(b, es) && forall i :: 0 <= i < |es| ==> Grammar(es[i].node)
    ensures DecodeEntries(b + [E], 0) == Ok(es, |b| + 1)
    decreases es, 1
  {
    hide Decode, DecodeEntries, Grammar, StrText, Same, EntriesText;
    var e := b + [E];
    EntriesAre(e, 0);
    if es == [] {
      assert b == [] by { NoEntries(b); }
    } else {
      var v := es[0].node.bytes;
      var k := KeyLength(b, es);
      var key, rest := b[..k], b[k + |v|..] + [E];
      StrParsed(key, es[0].key);
      GrammarIsDecoded(es[0].node);
      GrammarEntries(b[k + |v|..], es[1..]);
      NotTheEnd(key);
      assert e == key + v + rest;
      Parts(key, v, rest);
      assert e[0] == key[0];
      DecodeSame(key, 0, e, 0);
      DecodeSame(v, 0, e, k);
      EntriesSame(rest, 0, e, k + |v|);
      assert es[0] == Entry(es[0].key, es[0].node) && [es[0]] + es[1..] == es;
    }
  }

  /** The decoder returns a node exactly if the bytes from the cursor on begin with that node. */
  lemma DecodesExactly(data: seq<Byte>, pos: nat, n: BNode, end: nat)
    ensures Decode(data, pos) == Ok(n, end) <==> pos <= end <= |data| && n.bytes == data[pos..end] && Grammar(n)
  {
    hide Decode, Grammar;
    if Decode(data, pos) == Ok(n, end) {
      DecodedIsGrammar(data, pos);
    }
    if pos <= end <= |data| && n.bytes == data[pos..end] && Grammar(n) {
      GrammarIsDecoded(n);
      assert n.bytes[0..|n.bytes|] == n.bytes;
      DecodeSame(n.bytes, 0, data, pos);
    }
  }
}
