/** Bytes and their most-significant-bit-first bit strings. */
module BitString {

  type byte = n: int | 0 <= n < 256

  function Pow2(k: nat): (r: nat)
    ensures r >= 1
  {
    if k == 0 then 1 else 2 * Pow2(k - 1)
  }

  /** Right shift. */
  function Shr(v: nat, k: nat): (r: nat)
    decreases k
  {
    if k == 0 then v else Shr(v / 2, k - 1)
  }

  /** The low `k` bits of `v`, most significant first. */
  function NatBits(v: nat, k: nat): (s: seq<bool>)
    ensures |s| == k
    decreases k
  {
    if k == 0 then [] else NatBits(v / 2, k - 1) + [v % 2 == 1]
  }

  /** The number a bit string spells, most significant bit first. */
  function BitsNat(s: seq<bool>): (v: nat) {
    if |s| == 0 then 0
    else 2 * BitsNat(s[..|s| - 1]) + (if s[|s| - 1] then 1 else 0)
  }

  /** The eight bits of a byte: bit `i` from the top has weight `2^(7-i)`. */
  function ByteBits(b: byte): (s: seq<bool>)
    ensures |s| == 8
  {
    seq(8, i requires 0 <= i < 8 => Shr(b, 7 - i) % 2 == 1)
  }

  /** A byte sequence as one bit string. */
  function Bits(bs: seq<byte>): (s: seq<bool>)
    ensures |s| == 8 * |bs|
  {
    if |bs| == 0 then [] else ByteBits(bs[0]) + Bits(bs[1..])
  }

  lemma {:induction false} FieldBound(s: seq<bool>)
    ensures BitsNat(s) < Pow2(|s|)
    decreases |s|
  {
    if |s| > 0 { FieldBound(s[..|s| - 1]); }
  }

  /** Reading back a field gives the value that was written, if it fits. */
  lemma {:induction false} ReadWritten(v: nat, k: nat)
    requires v < Pow2(k)
    ensures BitsNat(NatBits(v, k)) == v
    decreases k
  {
    if k > 0 {
      ReadWritten(v / 2, k - 1);
      assert NatBits(v, k)[..k - 1] == NatBits(v / 2, k - 1);
    }
  }

  /** Writing back a read field gives the bits that were read. */
  lemma {:induction false} WriteRead(s: seq<bool>)
    ensures NatBits(BitsNat(s), |s|) == s
    decreases |s|
  {
    if |s| > 0 {
      var n := |s| - 1;
      WriteRead(s[..n]);
      assert BitsNat(s) == 2 * BitsNat(s[..n]) + (if s[n] then 1 else 0);
      hide BitsNat;
      assert BitsNat(s) / 2 == BitsNat(s[..n]) && (BitsNat(s) % 2 == 1 <==> s[n]);
      assert s == s[..n] + [s[n]];
    }
  }

  lemma {:induction false} BitsAppend(a: seq<byte>, b: seq<byte>)
    ensures Bits(a + b) == Bits(a) + Bits(b)
    decreases |a|
  {
    if |a| == 0 {
      assert a + b == b;
    } else {
      BitsAppend(a[1..], b);
      assert (a + b)[1..] == a[1..] + b;
      var first := ByteBits(a[0]);
      assert first + (Bits(a[1..]) + Bits(b)) == (first + Bits(a[1..])) + Bits(b);
    }
  }

  lemma BitsPush(a: seq<byte>, b: byte)
    ensures Bits(a + [b]) == Bits(a) + ByteBits(b)
  {
    BitsAppend(a, [b]);
    assert Bits([b]) == ByteBits(b) + Bits([b][1..]);
  }

  lemma ByteIsField(b: byte)
    ensures ByteBits(b) == NatBits(b, 8)
  {
    forall i | 0 <= i < 8 ensures ByteBits(b)[i] == NatBits(b, 8)[i] {
      BitAt(b, 8, i);
    }
  }

  /** Shifting by up to seven is division by the bit's weight. */
  lemma ShiftIsDivision(v: nat)
    ensures Shr(v, 0) == v && Shr(v, 1) == v / 2 && Shr(v, 2) == v / 4 && Shr(v, 3) == v / 8
    ensures Shr(v, 4) == v / 16 && Shr(v, 5) == v / 32 && Shr(v, 6) == v / 64 && Shr(v, 7) == v / 128
  {
    ShiftMore(v, 0);
    ShiftMore(v, 1);
    ShiftMore(v, 2);
    ShiftMore(v, 3);
    ShiftMore(v, 4);
    ShiftMore(v, 5);
    ShiftMore(v, 6);
  }

  lemma {:induction false} ShiftMore(v: nat, k: nat)
    ensures Shr(v, k + 1) == Shr(v, k) / 2
    decreases k
  {
    if k > 0 { ShiftMore(v / 2, k - 1); }
  }

  lemma ReadByte(b: byte)
    ensures BitsNat(ByteBits(b)) == b
  {
    ByteIsField(b);
    Powers();
    ReadWritten(b, 8);
  }

  lemma ByteRead(s: seq<bool>)
    requires |s| == 8
    ensures BitsNat(s) < 256 && ByteBits(BitsNat(s)) == s
  {
    Powers();
    FieldBound(s);
    ByteIsField(BitsNat(s));
    WriteRead(s);
  }

  /** Bit `i` of a field, counted from the top, is the arithmetic bit `k - 1 - i`. */
  lemma {:induction false} BitAt(v: nat, k: nat, i: nat)
    requires i < k
    ensures NatBits(v, k)[i] == (Shr(v, k - 1 - i) % 2 == 1)
    decreases k
  {
    if i < k - 1 {
      BitAt(v / 2, k - 1, i);
    }
  }

  lemma DivUnique(v: nat, d: nat, q: nat, r: nat)
    requires d > 0 && r < d && v == d * q + r
    ensures v / d == q && v % d == r
  {
    var e := v / d - q;
    assert d * (v / d) == d * q + d * e;
    assert 0 - d < d * e < d;
    ScaledAtLeast(d, e);
  }

  lemma ScaledAtLeast(d: nat, e: int)
    ensures e >= 1 ==> d * e >= d
    ensures e <= -1 ==> d * e <= 0 - d
  {
  }

  /** A field splits into its upper part and its lower `j` bits. */
  lemma {:induction false} SplitField(v: nat, k: nat, j: nat)
    requires j <= k
    ensures NatBits(v, k) == NatBits(Shr(v, j), k - j) + NatBits(v, j)
    decreases j
  {
    if j == 0 {
      assert NatBits(v, k) + [] == NatBits(v, k);
    } else {
      SplitField(v / 2, k - 1, j - 1);
      Associative(NatBits(Shr(v, j), k - j), NatBits(v / 2, j - 1), [v % 2 == 1]);
    }
  }

  lemma Associative(a: seq<bool>, b: seq<bool>, c: seq<bool>)
    ensures (a + b) + c == a + (b + c)
  {
  }

  /** Only the low `k` bits of a value reach a `k`-bit field. */
  lemma {:induction false} LowBitsOnly(v: nat, k: nat, m: nat)
    requires k <= m
    ensures NatBits(v % Pow2(m), k) == NatBits(v, k)
    decreases k
  {
    if k > 0 {
      ModHalf(v, Pow2(m - 1));
      LowBitsOnly(v / 2, k - 1, m - 1);
    }
  }

  lemma ModHalf(v: nat, d: nat)
    requires d > 0
    ensures (v % (2 * d)) / 2 == (v / 2) % d
    ensures (v % (2 * d)) % 2 == v % 2
  {
    var h, b := v / 2, v % 2;
    var q, r := h / d, h % d;
    assert v == (2 * d) * q + (2 * r + b) by {
      assert h == d * q + r;
      assert 2 * (d * q) == (2 * d) * q;
    }
    DivUnique(v, 2 * d, q, 2 * r + b);
    assert v % (2 * d) == 2 * r + b;
  }

  lemma {:induction false} BitsNatAppend(a: seq<bool>, b: seq<bool>)
    ensures BitsNat(a + b) == BitsNat(a) * Pow2(|b|) + BitsNat(b)
    decreases |b|
  {
    if |b| == 0 {
      assert a + b == a;
    } else {
      var b', c := b[..|b| - 1], if b[|b| - 1] then 1 else 0;
      calc {
        BitsNat(a + b);
        { assert (a + b)[..|a + b| - 1] == a + b' && (a + b)[|a + b| - 1] == b[|b| - 1]; }
        2 * BitsNat(a + b') + c;
        { BitsNatAppend(a, b'); }
        2 * (BitsNat(a) * Pow2(|b'|)) + (2 * BitsNat(b') + c);
        { DoubleProduct(BitsNat(a), Pow2(|b'|)); }
        BitsNat(a) * Pow2(|b|) + BitsNat(b);
      }
    }
  }

  lemma DoubleProduct(x: int, y: int)
    ensures 2 * (x * y) == x * (2 * y)
  {
  }

  /** Bitwise inclusive or, by binary digits. */
  function Or(a: nat, b: nat): (r: nat) {
    if a == 0 && b == 0 then 0
    else 2 * Or(a / 2, b / 2) + (if a % 2 == 1 || b % 2 == 1 then 1 else 0)
  }

  function And(a: nat, b: nat): (r: nat)
    ensures r <= a && r <= b
  {
    if a == 0 || b == 0 then 0 else And(a / 2, b / 2) * 2 + (if a % 2 == 1 && b % 2 == 1 then 1 else 0)
  }

  /** Binary digit `i` of a number, the lowest first. */
  predicate Digit(v: nat, i: nat) { v / Pow2(i) % 2 == 1 }

  lemma DigitUp(v: nat, i: nat)
    ensures Digit(v, 0) <==> v % 2 == 1
    ensures Digit(v, i + 1) <==> Digit(v / 2, i)
  {
    HalfThen(v, Pow2(i));
  }

  lemma HalfThen(v: nat, n: nat)
    requires n > 0
    ensures v / (2 * n) == v / 2 / n
  {
    var h := v / 2;
    var q, r := h / n, h % n;
    DoubleProduct(n, q);
    assert (2 * n) * q == 2 * (n * q);
    DivUnique(v, 2 * n, q, 2 * r + v % 2);
  }

  /** A digit of a conjunction is set if and only if it is set in both. */
  lemma {:induction false} AndDigits(a: nat, b: nat, i: nat)
    ensures Digit(And(a, b), i) <==> Digit(a, i) && Digit(b, i)
    decreases i
  {
    hide Digit, Pow2;
    var r := And(a, b);
    AndStep(a, b);
    if i == 0 {
      DigitUp(a, 0);
      DigitUp(b, 0);
      DigitUp(r, 0);
    } else {
      AndDigits(a / 2, b / 2, i - 1);
      DigitUp(a, i - 1);
      DigitUp(b, i - 1);
      DigitUp(r, i - 1);
    }
  }

  lemma AndStep(a: nat, b: nat)
    ensures And(a, b) / 2 == And(a / 2, b / 2) && (And(a, b) % 2 == 1 <==> a % 2 == 1 && b % 2 == 1)
  {
    if a == 0 || b == 0 { AndNothing(a / 2, b / 2); }
  }

  lemma AndNothing(a: nat, b: nat)
    requires a == 0 || b == 0
    ensures And(a, b) == 0
  {
  }

  /** The bits of a byte are its digits, the highest first. */
  lemma ByteDigits(b: byte, i: nat)
    requires i < 8
    ensures ByteBits(b)[i] <==> Digit(b, 7 - i)
  {
    ByteIsField(b);
    FieldDigits(b, 8, i);
  }

  lemma {:induction false} FieldDigits(v: nat, k: nat, i: nat)
    requires i < k
    ensures NatBits(v, k)[i] <==> Digit(v, k - 1 - i)
    decreases k
  {
    hide Digit, Pow2;
    DigitUp(v, 0);
    if i < k - 1 {
      FieldDigits(v / 2, k - 1, i);
      DigitUp(v, k - 2 - i);
    }
  }

  /** One more bit at the top. */
  lemma {:induction false} TopBit(v: nat, k: nat, b: bool)
    requires v < Pow2(k)
    ensures NatBits(v + (if b then Pow2(k) else 0), k + 1) == [b] + NatBits(v, k)
    decreases k
  {
    var w := v + (if b then Pow2(k) else 0);
    if k > 0 {
      TopBit(v / 2, k - 1, b);
      assert w / 2 == v / 2 + (if b then Pow2(k - 1) else 0) && w % 2 == v % 2;
    }
  }

  /** Equal digits make equal numbers. */
  lemma {:induction false} SameDigits(a: nat, b: nat)
    requires forall i: nat :: Digit(a, i) <==> Digit(b, i)
    ensures a == b
    decreases a + b
  {
    hide Digit, Pow2;
    DigitUp(a, 0);
    DigitUp(b, 0);
    assert Digit(a, 0) <==> Digit(b, 0);
    if a > 0 || b > 0 {
      forall i: nat ensures Digit(a / 2, i) <==> Digit(b / 2, i) {
        DigitUp(a, i);
        DigitUp(b, i);
        assert Digit(a, i + 1) <==> Digit(b, i + 1);
      }
      SameDigits(a / 2, b / 2);
    }
  }

  /** Masking changes nothing exactly when the mask has every bit that is set. */
  lemma AndKeepsIff(a: nat, b: nat)
    ensures And(a, b) == b <==> forall i: nat :: Digit(b, i) ==> Digit(a, i)
  {
    hide Digit, And;
    forall i: nat ensures Digit(And(a, b), i) <==> Digit(a, i) && Digit(b, i) { AndDigits(a, b, i); }
    if forall i: nat :: Digit(b, i) ==> Digit(a, i) { SameDigits(And(a, b), b); }
  }

  lemma {:induction false} AndOnes(k: nat, b: nat)
    requires b < Pow2(k)
    ensures And(Pow2(k) - 1, b) == b
    decreases k
  {
    if k > 0 && b > 0 {
      assert (Pow2(k) - 1) / 2 == Pow2(k - 1) - 1;
      AndOnes(k - 1, b / 2);
    }
  }

  lemma AndOdd(v: nat, m: nat)
    ensures And(v, 2 * m + 1) == 2 * And(v / 2, m) + v % 2
  {
    assert (2 * m + 1) / 2 == m && (2 * m + 1) % 2 == 1;
  }

  lemma DoubledRemainder(v: nat, n: nat)
    requires n > 0
    ensures v % (2 * n) == 2 * (v / 2 % n) + v % 2
  {
    var h := v / 2;
    var q, r := h / n, h % n;
    DoubleProduct(n, q);
    assert v == 2 * h + v % 2;
    assert (2 * n) * q == 2 * (n * q);
    DivUnique(v, 2 * n, q, 2 * r + v % 2);
  }

  /** Masking with `2^k - 1` is the remainder. */
  lemma {:induction false} AndMask(v: nat, k: nat)
    ensures And(v, Pow2(k) - 1) == v % Pow2(k)
    decreases k
  {
    hide And;
    if k == 0 {
      AndZero(v);
    } else {
      var n := Pow2(k - 1);
      AndOdd(v, n - 1);
      AndMask(v / 2, k - 1);
      DoubledRemainder(v, n);
    }
  }

  lemma AndZero(v: nat)
    ensures And(v, 0) == 0 == v % 1
  {
  }

  lemma {:induction false} OrZero(a: nat)
    ensures Or(a, 0) == a
  {
    if a > 0 { OrZero(a / 2); }
  }

  /** Setting bits below the lowest bit in use is an addition. */
  lemma {:induction false} OrDisjoint(a: nat, k: nat, b: nat)
    requires b < Pow2(k)
    ensures Or(a * Pow2(k), b) == a * Pow2(k) + b
    decreases k
  {
    if k == 0 {
      OrZero(a);
    } else {
      assert a * Pow2(k) == 2 * (a * Pow2(k - 1));
      OrDisjoint(a, k - 1, b / 2);
    }
  }

  lemma Powers()
    ensures Pow2(0) == 1 && Pow2(1) == 2 && Pow2(2) == 4 && Pow2(3) == 8 && Pow2(4) == 16
    ensures Pow2(5) == 32 && Pow2(6) == 64 && Pow2(7) == 128 && Pow2(8) == 256
    ensures Pow2(9) == 512 && Pow2(10) == 1024 && Pow2(11) == 2048 && Pow2(12) == 4096
    ensures Pow2(13) == 8192 && Pow2(14) == 16384 && Pow2(15) == 32768 && Pow2(16) == 65536
  {
    assert Pow2(4) == 16;
    assert Pow2(8) == 256;
    assert Pow2(12) == 4096;
  }

  lemma PowMono(a: nat, b: nat)
    requires a <= b
    ensures Pow2(a) <= Pow2(b)
    decreases b - a
  {
    if a < b { PowMono(a + 1, b); }
  }

  lemma NoBits()
    ensures BitsNat([]) == 0
  {
  }

  /** Two numbers less than `n` apart leave different remainders. */
  lemma ModApart(a: int, b: int, n: nat)
    requires a < b < a + n
    ensures a % n != b % n
  {
    var q, q' := a / n, b / n;
    if a % n == b % n {
      assert n * (q' - q) == b - a;
      ScaledAtLeast(n, q' - q);
    }
  }

  /** How many bits of a byte lie at or below the given one-bit mask; zero means none. */
  function BitsLeft(mask: nat): (n: nat)
    ensures n <= 8
  {
    if mask == 0 then 0 else if mask == 1 then 1 else if mask == 2 then 2
    else if mask == 4 then 3 else if mask == 8 then 4 else if mask == 16 then 5
    else if mask == 32 then 6 else if mask == 64 then 7 else 8
  }

  predicate IsMask(mask: nat) {
    mask in {0, 1, 2, 4, 8, 16, 32, 64, 128}
  }
}
