/** Counts and spaces of a ring computed from its two indices by masking, as a power-of-two size allows. */
module CircBuf {
  import opened BitString
  import opened RingIndex

  /** Masking a machine integer of `w` bits, negative ones in two's complement, with `size - 1`. */
  function Mask(w: nat, x: int, size: nat): (r: nat)
    requires size > 0
    ensures r < size
  {
    And(x % Pow2(w), size - 1)
  }

  function Cnt(w: nat, head: int, tail: int, size: nat): nat
    requires size > 0
  {
    Mask(w, head - tail, size)
  }

  function Space(w: nat, head: int, tail: int, size: nat): nat
    requires size > 0
  {
    Cnt(w, tail, head + 1, size)
  }

  function CntToEnd(w: nat, head: int, tail: int, size: nat): int
    requires size > 0
  {
    var end := size - tail;
    var n := Mask(w, head + end, size);
    if n < end then n else end
  }

  function SpaceToEnd(w: nat, head: int, tail: int, size: nat): int
    requires size > 0
  {
    var end := size - 1 - head;
    var n := Mask(w, end + tail, size);
    if n <= end then n else end + 1
  }

  // ---- Masking is the remainder, also below zero ----

  lemma {:induction false} PowSplit(k: nat, w: nat)
    requires k <= w
    ensures Pow2(w) == Pow2(k) * Pow2(w - k)
    decreases w
  {
    if k < w {
      PowSplit(k, w - 1);
      DoubleProduct(Pow2(k), Pow2(w - 1 - k));
    }
  }

  /** Taking the remainder by a multiple first changes nothing. */
  lemma RemainderTwice(x: int, n: nat, m: nat)
    requires n > 0 && m > 0
    ensures n * m > 0 && (x % (n * m)) % n == x % n
  {
    Positive(n, m);
    var p := n * m;
    var q, r := x / p, x % p;
    var a := n * (m * q);
    assert p * q == a by { Associate(n, m, q); }
    assert x == a + r;
    RemainderOfSum(m * q, r, n);
  }

  lemma Positive(n: nat, m: nat)
    requires n > 0 && m > 0
    ensures n * m > 0
  {
  }

  lemma Associate(n: int, m: int, q: int)
    ensures n * m * q == n * (m * q)
  {
  }

  lemma RemainderOfSum(c: int, r: int, n: nat)
    requires n > 0
    ensures (n * c + r) % n == r % n
  {
    var d := (n * c + r) / n - r / n - c;
    var u, v := (n * c + r) % n, r % n;
    assert n * c + r == n * ((n * c + r) / n) + u;
    assert r == n * (r / n) + v;
    assert n * ((n * c + r) / n) == n * (r / n) + n * c + n * d by { Distribute(n, r / n, c, d); }
    if d != 0 { ScaledAtLeast(n, d); }
  }

  lemma Distribute(n: int, a: int, b: int, c: int)
    ensures n * (a + b + c) == n * a + n * b + n * c
  {
  }

  lemma MaskIs(w: nat, x: int, k: nat)
    requires k <= w
    ensures Mask(w, x, Pow2(k)) == x % Pow2(k)
  {
    PowSplit(k, w);
    RemainderTwice(x, Pow2(k), Pow2(w - k));
    AndMask(x % Pow2(w), k);
  }

  // ---- What the macros compute ----

  function Min(a: int, b: int): int { if a < b then a else b }

  lemma Inside(x: int, n: nat)
    requires 0 <= x < n
    ensures x % n == x
  {
  }

  lemma OneRound(x: int, n: nat)
    requires n > 0
    ensures (x + n) % n == x % n
  {
    RemainderOfSum(1, x, n);
  }

  lemma SmallRemainder(x: int, n: nat)
    requires n > 0 && 0 - n <= x < 2 * n
    ensures x % n == if x < 0 then x + n else if x < n then x else x - n
  {
    if x < 0 {
      OneRound(x, n);
      Inside(x + n, n);
    } else if x < n {
      Inside(x, n);
    } else {
      OneRound(x - n, n);
      Inside(x - n, n);
    }
  }

  /** For indices inside the ring: bytes held, bytes free with one kept back, and both up to the end. */
  lemma Counts(w: nat, k: nat, head: nat, tail: nat)
    requires k <= w && head < Pow2(k) && tail < Pow2(k)
    ensures var n := Pow2(k);
      var held := if tail <= head then head - tail else head - tail + n;
      && Cnt(w, head, tail, n) == held
      && Cnt(w, head, tail, n) + Space(w, head, tail, n) == n - 1
      && CntToEnd(w, head, tail, n) == Min(held, n - tail)
      && SpaceToEnd(w, head, tail, n) == Min(n - 1 - held, n - head)
  {
    hide Mask, Pow2;
    var n := Pow2(k);
    MaskIs(w, head - tail, k);
    MaskIs(w, tail - (head + 1), k);
    MaskIs(w, head + (n - tail), k);
    MaskIs(w, n - 1 - head + tail, k);
    SmallRemainder(head - tail, n);
    SmallRemainder(tail - (head + 1), n);
    SmallRemainder(head + (n - tail), n);
    SmallRemainder(n - 1 - head + tail, n);
  }

  /** The same in terms of the bytes that went in and came out so far. */
  lemma CountsOfStream(w: nat, k: nat, h: nat, t: nat)
    requires k <= w && t <= h < t + Pow2(k)
    ensures var n := Pow2(k);
      var head, tail := At(h, n), At(t, n);
      && Cnt(w, head, tail, n) == h - t
      && Space(w, head, tail, n) == n - 1 - (h - t)
      && CntToEnd(w, head, tail, n) == Min(h - t, n - tail)
      && SpaceToEnd(w, head, tail, n) == Min(n - 1 - (h - t), n - head)
  {
    hide Cnt, Space, CntToEnd, SpaceToEnd, Pow2;
    var n := Pow2(k);
    ModStep(t, h - t, n);
    Counts(w, k, At(h, n), At(t, n));
  }

  /** Moving an index on by masking. */
  lemma MaskAdvances(w: nat, k: nat, i: nat, d: nat)
    requires k <= w && d <= Pow2(k)
    ensures Mask(w, At(i, Pow2(k)) + d, Pow2(k)) == At(i + d, Pow2(k))
  {
    hide Pow2, Mask;
    var n := Pow2(k);
    MaskIs(w, At(i, n) + d, k);
    ModStep(i, d, n);
    SmallRemainder(At(i, n) + d, n);
  }

  // ---- Only powers of two will do ----

  ghost predicate IsPowerOfTwo(n: nat) {
    exists k: nat :: n == Pow2(k)
  }

  ghost predicate CountsRight(w: nat, size: nat)
    requires size > 0
  {
    forall head: nat, tail: nat | tail <= head < size :: Cnt(w, head, tail, size) == head - tail
  }

  /** A mask that is not all ones below its top bit loses some number it should keep. */
  lemma {:induction false} LosesBit(m: nat) returns (v: nat)
    requires !IsPowerOfTwo(m + 1)
    ensures v <= m && And(v, m) != v
    decreases m
  {
    OneIsPower();
    if m % 2 == 0 {
      v := 1;
    } else {
      var h := m / 2;
      DoubleIsPower(h + 1);
      var u := LosesBit(h);
      v := 2 * u;
      AndDouble(u, h);
    }
  }

  lemma OneIsPower()
    ensures IsPowerOfTwo(1)
  {
    assert Pow2(0) == 1;
  }

  lemma DoubleIsPower(n: nat)
    ensures IsPowerOfTwo(n) ==> IsPowerOfTwo(2 * n)
  {
    if IsPowerOfTwo(n) {
      var k: nat :| n == Pow2(k);
      assert 2 * n == Pow2(k + 1);
    }
  }

  lemma AndDouble(u: nat, h: nat)
    ensures And(2 * u, 2 * h + 1) == 2 * And(u, h)
  {
  }

  /** Counting is right for all indices exactly when the size is a power of two; an even size is not enough. */
  lemma SizeMustBePower(w: nat, size: nat)
    requires 0 < size <= Pow2(w)
    ensures CountsRight(w, size) <==> IsPowerOfTwo(size)
  {
    if IsPowerOfTwo(size) {
      var k: nat :| size == Pow2(k);
      PowerCounts(w, k);
    } else {
      var v := LosesBit(size - 1);
      SmallRemainder(v, Pow2(w));
      assert Cnt(w, v, 0, size) != v - 0;
    }
  }

  lemma PowerCounts(w: nat, k: nat)
    requires Pow2(k) <= Pow2(w)
    ensures CountsRight(w, Pow2(k))
  {
    if k > w { PowStrict(w, k); }
    forall head: nat, tail: nat | tail <= head < Pow2(k) ensures Cnt(w, head, tail, Pow2(k)) == head - tail {
      Counts(w, k, head, tail);
    }
  }

  lemma {:induction false} PowStrict(a: nat, b: nat)
    requires a < b
    ensures Pow2(a) < Pow2(b)
    decreases b
  {
    if a < b - 1 { PowStrict(a, b - 1); }
  }

  /** An even size that passes the compile-time test but miscounts. */
  lemma SixMiscounts()
    ensures 6 % 2 == 0 && !IsPowerOfTwo(6) && Cnt(16, 3, 1, 6) == 0
  {
    assert Pow2(16) == 65536 by { Powers(); }
    assert And(2, 5) == 0;
    forall k: nat ensures Pow2(k) != 6 {
      if k >= 3 { PowMono(3, k); }
    }
  }
}
