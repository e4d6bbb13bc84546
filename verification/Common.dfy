/** Values shared by every component: optional results, bytes and the big-endian
    32-bit integers that the peer wire protocol uses. */
module Common {

  datatype Option<+T> = None | Some(value: T)

  type Byte = b: int | 0 <= b < 256

  const TWO_32: nat := 0x1_0000_0000

  /** ReadUint32: four bytes, most significant first. */
  function U32(s: seq<Byte>): (n: nat)
    requires |s| == 4
    ensures n < TWO_32
  {
    var a: int, b: int, c: int, d: int := s[0], s[1], s[2], s[3];
    a * 0x100_0000 + b * 0x1_0000 + c * 0x100 + d
  }

  /** WriteUint32. */
  function PutU32(n: nat): (s: seq<Byte>)
    requires n < TWO_32
    ensures |s| == 4
    ensures U32(s) == n
  {
    var a, r := n / 0x100_0000, n % 0x100_0000;
    var b, r' := r / 0x1_0000, r % 0x1_0000;
    [a, b, r' / 0x100, r' % 0x100]
  }

  /** The other direction of the round trip. */
  lemma PutOfU32(s: seq<Byte>)
    requires |s| == 4
    ensures PutU32(U32(s)) == s
  {
    var n := U32(s);
    var a: int, b: int, c: int, d: int := s[0], s[1], s[2], s[3];
    assert n / 0x100_0000 == a && n % 0x100_0000 == b * 0x1_0000 + c * 0x100 + d;
    assert n % 0x100_0000 / 0x1_0000 == b && n % 0x100_0000 % 0x1_0000 == c * 0x100 + d;
  }

  /** Unsigned 32-bit arithmetic. */
  function Wrap32(n: int): (r: nat)
    ensures r < TWO_32
    ensures 0 <= n < TWO_32 ==> r == n
  {
    n % TWO_32
  }

  /** A wrapped counter may be updated without knowing what it wrapped from. */
  lemma WrapAdd(a: int, b: int)
    ensures Wrap32(Wrap32(a) + b) == Wrap32(a + b)
  {
  }

  /** Moving an amount from one wrapped counter to another keeps their sum. */
  lemma WrapMove(from: nat, to: nat, n: int)
    ensures Wrap32(Wrap32(from - n) + Wrap32(to + n)) == Wrap32(from + to)
  {
  }

  function Min(a: int, b: int): int { if a < b then a else b }

  function Max(a: int, b: int): int { if a < b then b else a }

  ghost predicate Distinct<T>(s: seq<T>)
  {
    forall i, j :: 0 <= i < j < |s| ==> s[i] != s[j]
  }

  /** Erasing one element of a list loses no other. */
  lemma ErasedAt<T>(s: seq<T>, i: nat)
    requires i < |s|
    ensures forall x :: x in s <==> x == s[i] || x in s[..i] + s[i + 1..]
  {
    assert s == s[..i] + [s[i]] + s[i + 1..];
  }

  lemma PickElement<T>(s: set<T>) returns (x: T)
    requires s != {}
    ensures x in s
  {
    x :| x in s;
  }

  lemma {:induction false} LargestExists(s: set<int>) returns (m: int)
    requires s != {}
    ensures m in s && forall x :: x in s ==> x <= m
    decreases s
  {
    m := PickElement(s);
    if s != {m} {
      var rest := s - {m};
      var n := LargestExists(rest);
      assert forall x :: x in s ==> x == m || x in rest;
      m := if m < n then n else m;
    }
  }

  lemma {:induction false} SmallestExists(s: set<int>) returns (m: int)
    requires s != {}
    ensures m in s && forall x :: x in s ==> m <= x
    decreases s
  {
    m := PickElement(s);
    if s != {m} {
      var rest := s - {m};
      var n := SmallestExists(rest);
      assert forall x :: x in s ==> x == m || x in rest;
      m := if n < m then n else m;
    }
  }
}
