/** src/dht/key.cpp: 160-bit keys of the DHT, kept as five 32-bit limbs. Every operation is
    tied to the integer that the limbs stand for. */
module Keys {
  import opened Common

  // ----- Positional notation

  function Power(base: nat, n: nat): nat
  {
    if n == 0 then 1 else base * Power(base, n - 1)
  }

  /** The number written by `digits`, most significant digit first. */
  function Number(digits: seq<int>, base: nat): int
  {
    if digits == [] then 0 else digits[0] * Power(base, |digits| - 1) + Number(digits[1..], base)
  }

  predicate AreDigits(s: seq<int>, base: nat)
  {
    forall i :: 0 <= i < |s| ==> 0 <= s[i] < base
  }

  lemma MulMonotone(x: int, y: int, p: int)
    requires x <= y && 0 <= p
    ensures x * p <= y * p
  {
  }

  lemma MulCancelLess(x: int, y: int, p: int)
    requires x * p < y * p && 0 < p
    ensures x < y
  {
    if y <= x {
      MulMonotone(y, x, p);
    }
  }

  lemma {:induction false} NumberBound(s: seq<int>, base: nat)
    requires base > 0 && AreDigits(s, base)
    ensures 0 <= Number(s, base) < Power(base, |s|)
    decreases |s|
  {
    if s != [] {
      NumberBound(s[1..], base);
      var p := Power(base, |s| - 1);
      MulMonotone(0, s[0], p);
      MulMonotone(s[0] + 1, base, p);
      assert (s[0] + 1) * p == s[0] * p + p;
    }
  }

  /** One more digit at the right. */
  lemma {:induction false} NumberSnoc(s: seq<int>, d: int, base: nat)
    ensures Number(s + [d], base) == Number(s, base) * base + d
    decreases |s|
  {
    if s == [] {
      assert s + [d] == [d];
      assert Power(base, 0) == 1;
    } else {
      var t := s + [d];
      assert t[1..] == s[1..] + [d];
      NumberSnoc(s[1..], d, base);
      var p := Power(base, |s| - 1);
      assert Power(base, |s|) == base * p;
      calc {
        Number(t, base);
        s[0] * (base * p) + (Number(s[1..], base) * base + d);
        { assert s[0] * (base * p) == s[0] * p * base; }
        s[0] * p * base + Number(s[1..], base) * base + d;
        (s[0] * p + Number(s[1..], base)) * base + d;
      }
    }
  }

  /** Lexicographic comparison, as memcmp does it: the sign of the first difference. */
  function Compare(a: seq<int>, b: seq<int>): int
    requires |a| == |b|
  {
    if a == [] then 0
    else if a[0] != b[0] then a[0] - b[0]
    else Compare(a[1..], b[1..])
  }

  /** Comparing digit by digit is comparing the numbers. */
  lemma {:induction false} CompareIsNumericOrder(a: seq<int>, b: seq<int>, base: nat)
    requires |a| == |b| && base > 0 && AreDigits(a, base) && AreDigits(b, base)
    ensures Compare(a, b) < 0 <==> Number(a, base) < Number(b, base)
    ensures Compare(a, b) == 0 <==> Number(a, base) == Number(b, base)
    ensures Compare(a, b) == 0 <==> a == b
    decreases |a|
  {
    if a != [] {
      CompareIsNumericOrder(a[1..], b[1..], base);
      NumberBound(a[1..], base);
      NumberBound(b[1..], base);
      var p := Power(base, |a| - 1);
      if a[0] < b[0] {
        FirstDigitDecides(a[0], b[0], Number(a[1..], base), Number(b[1..], base), p);
      } else if b[0] < a[0] {
        FirstDigitDecides(b[0], a[0], Number(b[1..], base), Number(a[1..], base), p);
      } else {
        assert a == [a[0]] + a[1..] && b == [b[0]] + b[1..];
      }
    }
  }

  lemma FirstDigitDecides(x: int, y: int, low: int, low': int, p: nat)
    requires x < y && 0 <= low < p && 0 <= low' < p
    ensures x * p + low < y * p + low'
  {
    MulMonotone(x + 1, y, p);
    assert (x + 1) * p == x * p + p;
  }

  // ----- Keys

  type Limb = n: int | 0 <= n < TWO_32

  type Key = k: seq<Limb> | |k| == 5 witness [0, 0, 0, 0, 0]

  const KEY_SPACE: nat := 0x1_0000000000_0000000000_0000000000_0000000000

  function Val(k: Key): int
  {
    Number(k, TWO_32)
  }

  lemma ValBound(k: Key)
    ensures 0 <= Val(k) < KEY_SPACE
  {
    NumberBound(k, TWO_32);
    PowerOfLimbs();
  }

  lemma PowerOfLimbs()
    ensures Power(TWO_32, 5) == KEY_SPACE
  {
    assert Power(TWO_32, 1) == TWO_32;
    assert Power(TWO_32, 2) == TWO_32 * TWO_32;
    assert Power(TWO_32, 3) == TWO_32 * TWO_32 * TWO_32;
    assert Power(TWO_32, 4) == TWO_32 * TWO_32 * TWO_32 * TWO_32;
  }

  /** The 20 bytes of a key in memory. */
  function Bytes(k: seq<Limb>): seq<Byte>
  {
    if k == [] then [] else PutU32(k[0]) + Bytes(k[1..])
  }

  lemma {:induction false} BytesAreTheNumber(k: seq<Limb>)
    ensures |Bytes(k)| == 4 * |k|
    ensures Number(Bytes(k), 256) == Number(k, TWO_32)
    ensures Power(256, 4 * |k|) == Power(TWO_32, |k|)
    decreases |k|
  {
    if k != [] {
      var n := 4 * |k| - 4;
      BytesAreTheNumber(k[1..]);
      assert Power(256, n + 1) == 256 * Power(256, n);
      assert Power(256, n + 2) == 256 * Power(256, n + 1);
      assert Power(256, n + 3) == 256 * Power(256, n + 2);
      FourDigits(PutU32(k[0]), Bytes(k[1..]));
    }
  }

  lemma FourDigits(d: seq<Byte>, rest: seq<Byte>)
    requires |d| == 4
    ensures Number(d + rest, 256) == U32(d) * Power(256, |rest|) + Number(rest, 256)
  {
    hide U32, Power;
    var n := |rest|;
    var a: int, b: int, c: int, e: int := d[0], d[1], d[2], d[3];
    var p := Power(256, n);
    var s1, s2, s3 := [b, c, e] + rest, [c, e] + rest, [e] + rest;
    assert (d + rest)[1..] == s1 && s1[1..] == s2 && s2[1..] == s3 && s3[1..] == rest;
    PowersOf256(n);
    assert Number(s3, 256) == e * p + Number(rest, 256);
    assert Number(s2, 256) == c * (256 * p) + Number(s3, 256);
    assert Number(s1, 256) == b * (0x1_0000 * p) + Number(s2, 256);
    assert Number(d + rest, 256) == a * (0x100_0000 * p) + Number(s1, 256);
    Distribute(d, p);
  }

  lemma PowersOf256(n: nat)
    ensures Power(256, n + 1) == 256 * Power(256, n)
    ensures Power(256, n + 2) == 0x1_0000 * Power(256, n)
    ensures Power(256, n + 3) == 0x100_0000 * Power(256, n)
  {
    assert Power(256, n + 2) == 256 * Power(256, n + 1);
    assert Power(256, n + 3) == 256 * Power(256, n + 2);
  }

  lemma Distribute(d: seq<Byte>, p: nat)
    requires |d| == 4
    ensures var a: int, b: int, c: int, e: int := d[0], d[1], d[2], d[3];
            U32(d) * p == a * (0x100_0000 * p) + b * (0x1_0000 * p) + c * (256 * p) + e * p
  {
  }

  /** memcmp over the 20 bytes. */
  function Memcmp(a: Key, b: Key): int
  {
    BytesAreTheNumber(a);
    BytesAreTheNumber(b);
    Compare(Bytes(a), Bytes(b))
  }

  predicate Less(a: Key, b: Key) { Memcmp(a, b) < 0 }

  predicate LessEq(a: Key, b: Key) { Memcmp(a, b) <= 0 }

  /** The comparison operators agree with integer order, and equality with equality. */
  lemma ComparisonIsNumeric(a: Key, b: Key)
    ensures Less(a, b) <==> Val(a) < Val(b)
    ensures LessEq(a, b) <==> Val(a) <= Val(b)
    ensures Val(a) == Val(b) <==> a == b
  {
    hide PutU32, U32;
    BytesAreTheNumber(a);
    BytesAreTheNumber(b);
    CompareIsNumericOrder(Bytes(a), Bytes(b), 256);
    CompareIsNumericOrder(a, b, TWO_32);
  }

  // ----- Arithmetic

  /** The limbs from position `i` on, as a number. */
  function Low(k: Key, i: nat): int
    requires i <= 5
  {
    Number(k[i..], TWO_32)
  }

  lemma LowStep(k: Key, i: nat)
    requires i < 5
    ensures Low(k, i) == k[i] as int * Power(TWO_32, 4 - i) + Low(k, i + 1)
  {
    assert k[i..][1..] == k[i + 1..];
  }

  /** A limb of a sum, with carry in and carry out. */
  lemma AddLimb(a: int, b: int, carry: int, r: int, carry': int, p: int)
    requires r + TWO_32 * carry' == a + b + carry
    ensures r * p + carry' * (TWO_32 * p) == a * p + b * p + carry * p
  {
    assert (r + TWO_32 * carry') * p == (a + b + carry) * p;
  }

  method Add(a: Key, b: Key) returns (result: Key)
    ensures Val(result) == (Val(a) + Val(b)) % KEY_SPACE
  {
    hide Number, Power;
    result := [0, 0, 0, 0, 0];
    var sum: int := 0;
    NumberOfNothing();
    for i := 5 downto 0
      invariant 0 <= sum <= 1
      invariant Low(result, i) + sum * Power(TWO_32, 5 - i) == Low(a, i) + Low(b, i)
    {
      ghost var carry, before := sum, result;
      sum := sum + a[i] as int + b[i] as int;
      result := result[i := sum % TWO_32];
      sum := sum / TWO_32;
      LowStep(a, i);
      LowStep(b, i);
      LowStep(result, i);
      assert result[i + 1..] == before[i + 1..];
      PowerStep(4 - i);
      AddLimb(a[i], b[i], carry, result[i], sum, Power(TWO_32, 4 - i));
    }
    WholeNumber(a);
    WholeNumber(b);
    WholeNumber(result);
    PowerOfLimbs();
  }

  lemma NumberOfNothing()
    ensures Number([], TWO_32) == 0 && Power(TWO_32, 0) == 1
    ensures forall k: Key :: Low(k, 5) == 0
  {
    forall k: Key ensures Low(k, 5) == 0 {
      assert k[5..] == [];
    }
  }

  lemma PowerStep(n: nat)
    ensures Power(TWO_32, n + 1) == TWO_32 * Power(TWO_32, n)
  {
  }

  lemma WholeNumber(k: Key)
    ensures Low(k, 0) == Val(k) && 0 <= Val(k) < KEY_SPACE
  {
    assert k[0..] == k;
    ValBound(k);
  }

  /** Adding a small number; the loop stops as soon as nothing is carried. */
  method AddByte(a: Key, value: Byte) returns (result: Key)
    ensures Val(result) == (Val(a) + value) % KEY_SPACE
  {
    hide Number, Power;
    result := a;
    var sum: int := value;
    var i := 4;
    NumberOfNothing();
    while i >= 0 && sum != 0
      invariant -1 <= i <= 4
      invariant 0 <= sum < 256 && (i < 4 ==> sum <= 1)
      invariant result[..i + 1] == a[..i + 1]
      invariant Low(result, i + 1) + sum * Power(TWO_32, 4 - i) == Low(a, i + 1) + value
    {
      ghost var carry, before := sum, result;
      sum := sum + result[i] as int;
      result := result[i := sum % TWO_32];
      sum := sum / TWO_32;
      LowStep(a, i);
      LowStep(result, i);
      assert before[i] == before[..i + 1][i] == a[i];
      assert result[i + 1..] == before[i + 1..];
      assert result[..i] == before[..i + 1][..i] == a[..i + 1][..i];
      PowerStep(4 - i);
      AddLimb(a[i], 0, carry, result[i], sum, Power(TWO_32, 4 - i));
      i := i - 1;
    }
    SamePrefix(a, result, i + 1);
    WholeNumber(a);
    WholeNumber(result);
    PowerOfLimbs();
  }

  lemma {:induction false} SamePrefix(a: Key, b: Key, n: nat)
    requires n <= 5 && a[..n] == b[..n]
    ensures Low(a, 0) - Low(b, 0) == Low(a, n) - Low(b, n)
  {
    hide Number, Power;
    if n > 0 {
      LowStep(a, n - 1);
      LowStep(b, n - 1);
      assert a[n - 1] == a[..n][n - 1] == b[n - 1];
      assert a[..n - 1] == a[..n][..n - 1] == b[..n - 1];
      SamePrefix(a, b, n - 1);
    }
  }

  const TWO_64: nat := 0x1_0000_0000_0000_0000

  /** The limb that the borrowing branch stores. Its constant `max` is computed in 32 bits
      and so is 0, and the difference is taken in 64 bits and cut to 32. */
  function BorrowedLimb(a: Limb, b: Limb, carry: int): Limb
    requires 0 <= carry <= 1
  {
    var max := Wrap32(0xFFFF_FFFF + 1);
    (max - Wrap32(b - a) - carry) % TWO_64 % TWO_32
  }

  lemma BorrowIsRight(a: Limb, b: Limb, carry: int)
    requires 0 <= carry <= 1 && (a as int) < b as int + carry
    ensures BorrowedLimb(a, b, carry) as int == a as int - b as int - carry + TWO_32
  {
    var d := b as int - a as int;
    assert Wrap32(d) == d;
    assert (0 - d - carry) % TWO_64 == TWO_64 - d - carry;
    assert TWO_64 - d - carry == (TWO_32 - 1) * TWO_32 + (TWO_32 - d - carry);
  }

  method Subtract(a: Key, b: Key) returns (result: Key)
    ensures Val(result) == (Val(a) - Val(b)) % KEY_SPACE
  {
    hide Number, Power, BorrowedLimb;
    result := [0, 0, 0, 0, 0];
    var carry: int := 0;
    NumberOfNothing();
    for i := 5 downto 0
      invariant 0 <= carry <= 1
      invariant Low(result, i) - carry * Power(TWO_32, 5 - i) == Low(a, i) - Low(b, i)
    {
      ghost var borrow, before := carry, result;
      var a32: int, b32: int := a[i], b[i];
      if a32 >= b32 + carry {
        result := result[i := a32 - b32 - carry];
        carry := 0;
      } else {
        BorrowIsRight(a32, b32, carry);
        result := result[i := BorrowedLimb(a32, b32, carry)];
        carry := 1;
      }
      LowStep(a, i);
      LowStep(b, i);
      LowStep(result, i);
      assert result[i + 1..] == before[i + 1..];
      PowerStep(4 - i);
      SubLimb(a32, b32, borrow, result[i], carry, Power(TWO_32, 4 - i));
    }
    WholeNumber(a);
    WholeNumber(b);
    WholeNumber(result);
    PowerOfLimbs();
  }

  lemma SubLimb(a: int, b: int, carry: int, r: int, carry': int, p: int)
    requires r - TWO_32 * carry' == a - b - carry
    ensures r * p - carry' * (TWO_32 * p) == a * p - b * p - carry * p
  {
    assert (r - TWO_32 * carry') * p == (a - b - carry) * p;
  }

  /** Division by a positive 32-bit integer, limb by limb from the top. */
  method Divide(a: Key, value: nat) returns (result: Key)
    requires 0 < value < 0x8000_0000
    ensures Val(result) == Val(a) / value
  {
    hide Number, Power;
    result := [0, 0, 0, 0, 0];
    var remainder: int := 0;
    NumberOfNothing();
    for i := 0 to 5
      invariant 0 <= remainder / TWO_32 < value && remainder == remainder / TWO_32 * TWO_32
      invariant Number(result[..i], TWO_32) * value + remainder / TWO_32 == Number(a[..i], TWO_32)
    {
      ghost var q, before := remainder / TWO_32, result;
      var h: int := a[i];
      DivideLimb(h, q, value, Number(result[..i], TWO_32));
      result := result[i := Wrap32((h + remainder) / value)];
      remainder := ((h + remainder) % value) * TWO_32;
      assert a[..i + 1] == a[..i] + [a[i]];
      assert result[..i + 1] == before[..i] + [result[i]];
      NumberSnoc(a[..i], h, TWO_32);
      NumberSnoc(before[..i], result[i], TWO_32);
    }
    assert a[..5] == a && result[..5] == result;
    QuotientIsUnique(Val(a), Val(result), remainder / TWO_32, value);
  }

  lemma DivideLimb(h: int, q: int, value: nat, high: int)
    requires 0 <= h < TWO_32 && 0 <= q < value
    ensures 0 <= (h + q * TWO_32) / value < TWO_32
    ensures (high * TWO_32 + (h + q * TWO_32) / value) * value + (h + q * TWO_32) % value == (high * value + q) * TWO_32 + h
  {
    var t := h + q * TWO_32;
    var d, m := t / value, t % value;
    assert t == d * value + m;
    MulMonotone(q, value - 1, TWO_32);
    MulCancelLess(d, TWO_32, value);
    MulCancelLess(-1, d, value);
    assert (high * TWO_32 + d) * value == high * TWO_32 * value + d * value;
    assert (high * value + q) * TWO_32 == high * TWO_32 * value + q * TWO_32;
  }

  lemma QuotientIsUnique(x: int, d: int, m: int, value: nat)
    requires value > 0 && d * value + m == x && 0 <= m < value
    ensures x / value == d
  {
    var d', m' := x / value, x % value;
    assert (d - d') * value == m' - m;
    MulCancelLess(d - d', 1, value);
    MulCancelLess(-1, d - d', value);
  }

  /** The middle of two keys, in either order: the floor of their average. */
  method Mid(a: Key, b: Key) returns (m: Key)
    ensures Val(m) == (Val(a) + Val(b)) / 2
    ensures Val(a) <= Val(b) ==> Val(a) <= Val(m) <= Val(b)
    ensures Val(b) <= Val(a) ==> Val(b) <= Val(m) <= Val(a)
  {
    hide Val, Memcmp;
    ComparisonIsNumeric(a, b);
    WholeNumber(a);
    WholeNumber(b);
    if LessEq(a, b) {
      var diff := Subtract(b, a);
      var half := Divide(diff, 2);
      m := Add(a, half);
      HalfWay(Val(a), Val(b));
    } else {
      var diff := Subtract(a, b);
      var half := Divide(diff, 2);
      m := Add(b, half);
      HalfWay(Val(b), Val(a));
    }
  }

  /** No step of the computation of a middle wraps around. */
  lemma HalfWay(x: int, y: int)
    requires 0 <= x <= y < KEY_SPACE
    ensures (x + (y - x) % KEY_SPACE / 2) % KEY_SPACE == (x + y) / 2
    ensures x <= (x + y) / 2 <= y
  {
    assert (y - x) % KEY_SPACE == y - x;
    assert x + (y - x) / 2 == (x + y) / 2;
  }

  // ----- XOR distance

  /** Bitwise exclusive or of the `n` low bits. */
  function Xor(a: nat, b: nat, n: nat): nat
  {
    if n == 0 then 0
    else 2 * Xor(a / 2, b / 2, n - 1) + if a % 2 == b % 2 then 0 else 1
  }

  lemma {:induction false} XorBound(a: nat, b: nat, n: nat)
    ensures Xor(a, b, n) < Power(2, n)
  {
    if n > 0 {
      XorBound(a / 2, b / 2, n - 1);
    }
  }

  /** A metric: symmetric, zero exactly between equal keys, and with the triangle inequality. */
  lemma {:induction false} XorIsAMetric(a: nat, b: nat, c: nat, n: nat)
    requires a < Power(2, n) && b < Power(2, n)
    ensures Xor(a, b, n) == Xor(b, a, n)
    ensures Xor(a, b, n) == 0 <==> a == b
    ensures Xor(a, c, n) <= Xor(a, b, n) + Xor(b, c, n)
  {
    if n > 0 {
      XorIsAMetric(a / 2, b / 2, c / 2, n - 1);
    }
  }

  /** From one key, every distance leads to exactly one key. */
  lemma {:induction false} XorUndoes(a: nat, b: nat, n: nat)
    requires b < Power(2, n)
    ensures Xor(a, Xor(a, b, n), n) == b
  {
    if n > 0 {
      XorUndoes(a / 2, b / 2, n - 1);
    }
  }

  lemma {:induction false} XorOfParts(h: nat, l: nat, h': nat, l': nat, n: nat, k: nat)
    requires l < Power(2, k) && l' < Power(2, k)
    ensures Xor(h * Power(2, k) + l, h' * Power(2, k) + l', n + k) == Xor(h, h', n) * Power(2, k) + Xor(l, l', k)
    decreases k
  {
    hide Power, Xor;
    PowerOfTwoIs(k);
    if k == 0 {
      XorStep(l, l', 0);
      assert h * 1 + l == h && h' * 1 + l' == h';
    } else {
      var p := Power(2, k - 1);
      var x, x' := h * (2 * p) + l, h' * (2 * p) + l';
      Halve(h, l, p);
      Halve(h', l', p);
      XorStep(x, x', n + k);
      XorStep(l, l', k);
      XorOfParts(h, l / 2, h', l' / 2, n, k - 1);
      Twice(Xor(h, h', n), p);
    }
  }

  lemma XorStep(a: nat, b: nat, n: nat)
    ensures Xor(a, b, n) == if n == 0 then 0 else 2 * Xor(a / 2, b / 2, n - 1) + if a % 2 == b % 2 then 0 else 1
  {
  }

  lemma Twice(x: nat, p: nat)
    ensures x * (2 * p) == 2 * (x * p)
  {
  }

  lemma PowerOfTwoIs(k: nat)
    ensures Power(2, k) == if k == 0 then 1 else 2 * Power(2, k - 1)
  {
  }

  lemma Halve(h: nat, l: nat, p: nat)
    ensures (h * (2 * p) + l) / 2 == h * p + l / 2
    ensures (h * (2 * p) + l) % 2 == l % 2
  {
    assert h * (2 * p) == 2 * (h * p);
  }

  /** operator^ works limb by limb. */
  function Distance(a: Key, b: Key): Key
  {
    LimbXor(a, b);
    seq(5, i requires 0 <= i < 5 => Xor(a[i], b[i], 32))
  }

  lemma LimbXor(a: Key, b: Key)
    ensures forall i :: 0 <= i < 5 ==> Xor(a[i], b[i], 32) < TWO_32
  {
    forall i | 0 <= i < 5 ensures Xor(a[i], b[i], 32) < TWO_32 {
      XorBound(a[i], b[i], 32);
      PowersOfTwo();
    }
  }

  lemma PowersOfTwo()
    ensures Power(2, 32) == TWO_32
  {
    assert Power(2, 8) == 0x100;
    assert Power(2, 16) == 0x1_0000;
    assert Power(2, 24) == 0x100_0000;
  }

  /** Limb by limb is the same as on the whole 160-bit number. */
  lemma {:induction false} XorOfLimbs(a: seq<Limb>, b: seq<Limb>, d: seq<Limb>)
    requires |a| == |b| == |d| && forall i :: 0 <= i < |d| ==> d[i] == Xor(a[i], b[i], 32)
    ensures Number(a, TWO_32) >= 0 && Number(b, TWO_32) >= 0
    ensures Number(d, TWO_32) == Xor(Number(a, TWO_32), Number(b, TWO_32), 32 * |a|)
    decreases |a|
  {
    hide Power, Xor;
    NumberBound(a, TWO_32);
    NumberBound(b, TWO_32);
    if a == [] {
      NumberOfNothing();
      XorOfNothing();
    } else {
      var n := |a| - 1;
      assert a == a[..n] + [a[n]] && b == b[..n] + [b[n]] && d == d[..n] + [d[n]];
      NumberSnoc(a[..n], a[n], TWO_32);
      NumberSnoc(b[..n], b[n], TWO_32);
      NumberSnoc(d[..n], d[n], TWO_32);
      XorOfLimbs(a[..n], b[..n], d[..n]);
      PowersOfTwo();
      XorOfParts(Number(a[..n], TWO_32), a[n], Number(b[..n], TWO_32), b[n], 32 * n, 32);
    }
  }

  lemma XorOfNothing()
    ensures Xor(0, 0, 0) == 0
  {
  }

  /** The distance is the exclusive or of the 160-bit numbers. */
  lemma DistanceIsXor(a: Key, b: Key)
    ensures Val(a) >= 0 && Val(b) >= 0
    ensures Val(Distance(a, b)) == Xor(Val(a), Val(b), 160)
  {
    hide Xor, Number, Power;
    XorOfLimbs(a, b, Distance(a, b));
  }

  /** Two keys at the same distance from a third are equal. */
  lemma DistanceIsInjective(k: Key, a: Key, b: Key)
    ensures Val(Distance(k, a)) == Val(Distance(k, b)) ==> a == b
  {
    hide Xor, Number, Power;
    WholeNumber(k);
    WholeNumber(a);
    WholeNumber(b);
    XorOfLimbs(k, a, Distance(k, a));
    XorOfLimbs(k, b, Distance(k, b));
    PowerOf160();
    XorUndoes(Val(k), Val(a), 160);
    XorUndoes(Val(k), Val(b), 160);
    ComparisonIsNumeric(a, b);
  }

  lemma PowerOf160()
    ensures Power(2, 160) == KEY_SPACE
  {
    PowersOfTwo();
    PowerAdds(2, 32, 32);
    PowerAdds(2, 32, 64);
    PowerAdds(2, 32, 96);
    PowerAdds(2, 32, 128);
  }

  lemma Associate(x: int, y: int, z: int)
    ensures x * (y * z) == x * y * z
  {
  }

  lemma {:induction false} PowerAdds(base: nat, m: nat, n: nat)
    ensures Power(base, m + n) == Power(base, m) * Power(base, n)
  {
    if m > 0 {
      PowerAdds(base, m - 1, n);
      Associate(base, Power(base, m - 1), Power(base, n));
    }
  }
}
