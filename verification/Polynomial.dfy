/** What the CRC is: divisibility of polynomials over two elements, first coefficient first. */
module Polynomial {
  import opened Crc16

  function Zeros(n: nat): (r: seq<bool>)
    ensures |r| == n && AllFalse(r)
  {
    seq(n, _ => false)
  }

  /** The generator x^16 + x^12 + x^5 + 1. */
  function Generator(): (g: seq<bool>)
    ensures |g| == 17
  {
    seq(17, i => i == 0 || i == 4 || i == 11 || i == 16)
  }

  /** The generator, as long as a product with it. */
  function Leading(b: bool, n: nat): (r: seq<bool>)
    ensures |r| == n + 17
  {
    if b then Generator() + Zeros(n) else Zeros(n + 17)
  }

  /** The generator times a polynomial, by schoolbook multiplication. */
  function Times(q: seq<bool>): (r: seq<bool>)
    ensures |r| == |q| + 16
  {
    if q == [] then Zeros(16) else Xor(Leading(q[0], |q| - 1), [false] + Times(q[1..]))
  }

  lemma FeedOne(crc: bv16, s: seq<bool>, b: bool)
    ensures Feed(crc, s + [b]) == ShiftBit(Plus(Feed(crc, s), Top(b)))
  {
    hide ShiftBit, Plus;
    assert (s + [b])[..|s|] == s;
  }

  lemma Bit(crc: bv16)
    ensures Plus(crc, Top(false)) == crc && Plus(crc, Top(true)) == crc ^ 0x8000
  {
  }

  /** Feeding zeros shifts. */
  lemma {:induction false} FeedShifts(crc: bv16, n: nat)
    ensures Feed(crc, Zeros(n)) == Shift(crc, n)
    decreases n
  {
    hide ShiftBit, Plus;
    if n > 0 {
      assert Zeros(n) == Zeros(n - 1) + [false];
      FeedOne(crc, Zeros(n - 1), false);
      FeedShifts(crc, n - 1);
      Bit(Shift(crc, n - 1));
    }
  }

  /** From the top, a bit is carried around once. */
  lemma Carried()
    ensures ShiftBit(0x8000) == 0x1021
  {
  }

  lemma FeedTop(s: seq<bool>)
    ensures Feed(0, [true] + s) == Feed(0x1021, s)
  {
    hide ShiftBit;
    FeedAppend(0, [true], s);
    FeedOne(0, [], true);
    assert [] + [true] == [true];
    Bit(0);
    Carried();
  }

  lemma GeneratorSplits()
    ensures Generator() == [true] + (Zeros(3) + ([true] + (Zeros(6) + ([true] + (Zeros(4) + [true])))))
  {
  }

  lemma Step(crc: bv16, b: bool, s: seq<bool>)
    ensures Feed(crc, [b] + s) == Feed(ShiftBit(if b then crc ^ 0x8000 else crc), s)
  {
    hide ShiftBit, Plus;
    FeedAppend(crc, [b], s);
    FeedOne(crc, [], b);
    assert [] + [b] == [b];
    Bit(crc);
  }

  lemma Shifted()
    ensures ShiftBit(ShiftBit(ShiftBit(0x1021))) == 0x8108
    ensures ShiftBit(0x8108 ^ 0x8000) == 0x0210
    ensures ShiftBit(ShiftBit(ShiftBit(0x0210))) == 0x1080 && ShiftBit(ShiftBit(ShiftBit(0x1080))) == 0x8400
    ensures ShiftBit(0x8400 ^ 0x8000) == 0x0800
    ensures ShiftBit(ShiftBit(ShiftBit(ShiftBit(0x0800)))) == 0x8000 && ShiftBit(0x8000 ^ 0x8000) == 0
  {
  }

  lemma Unrolled(crc: bv16)
    ensures Shift(crc, 3) == ShiftBit(ShiftBit(ShiftBit(crc)))
    ensures Shift(crc, 4) == ShiftBit(ShiftBit(ShiftBit(ShiftBit(crc))))
    ensures Shift(crc, 6) == ShiftBit(ShiftBit(ShiftBit(ShiftBit(ShiftBit(ShiftBit(crc))))))
  {
    hide ShiftBit;
    assert Shift(crc, 1) == ShiftBit(crc);
    assert Shift(crc, 2) == ShiftBit(ShiftBit(crc));
    assert Shift(crc, 4) == ShiftBit(Shift(crc, 3));
    assert Shift(crc, 5) == ShiftBit(Shift(crc, 4));
  }

  /** The generator itself leaves nothing. */
  lemma GeneratorVanishes()
    ensures Feed(0, Generator()) == 0
  {
    hide ShiftBit, Feed, Shift;
    GeneratorSplits();
    var c := Zeros(4) + [true];
    var b := Zeros(6) + ([true] + c);
    var a := Zeros(3) + ([true] + b);
    Shifted();
    FeedTop(a);
    FeedAppend(0x1021, Zeros(3), [true] + b);
    FeedShifts(0x1021, 3);
    Unrolled(0x1021);
    Step(0x8108, true, b);
    FeedAppend(0x0210, Zeros(6), [true] + c);
    FeedShifts(0x0210, 6);
    Unrolled(0x0210);
    Step(0x8400, true, c);
    FeedAppend(0x0800, Zeros(4), [true]);
    FeedShifts(0x0800, 4);
    Unrolled(0x0800);
    FeedLast(0x8000);
  }

  lemma FeedLast(crc: bv16)
    ensures Feed(crc, [true]) == ShiftBit(crc ^ 0x8000)
  {
    hide ShiftBit;
    FeedOne(crc, [], true);
    assert [] + [true] == [true];
    Bit(crc);
  }

  lemma LeadingVanishes(b: bool, n: nat)
    ensures Feed(0, Leading(b, n)) == 0
  {
    hide Feed;
    if b {
      GeneratorVanishes();
      FeedAppend(0, Generator(), Zeros(n));
      FeedZeros(0, Zeros(n));
    } else {
      FeedZeros(0, Zeros(n + 17));
    }
  }

  lemma Skips(s: seq<bool>)
    ensures Feed(0, [false] + s) == Feed(0, s)
  {
    hide Feed;
    FeedAppend(0, [false], s);
    FeedZeros(0, [false]);
  }

  lemma Sum(a: seq<bool>, b: seq<bool>)
    requires |a| == |b| && Feed(0, a) == 0
    ensures Feed(0, Xor(a, b)) == Feed(0, b)
  {
    hide Feed, Plus;
    FeedLinear(0, 0, a, b);
    PlusRules(0, 0, 0);
    PlusRules(Feed(0, b), 0, 0);
  }

  /** Multiples of the generator leave nothing. */
  lemma {:induction false} MultiplesVanish(q: seq<bool>)
    ensures Feed(0, Times(q)) == 0
    decreases |q|
  {
    hide Feed;
    if q == [] {
      FeedZeros(0, Zeros(16));
    } else {
      MultiplesVanish(q[1..]);
      Skips(Times(q[1..]));
      LeadingVanishes(q[0], |q| - 1);
      Sum(Leading(q[0], |q| - 1), [false] + Times(q[1..]));
    }
  }

  /** Long division: what leaves nothing is a multiple. */
  lemma {:induction false} Quotient(s: seq<bool>) returns (q: seq<bool>)
    requires |s| >= 16 && Feed(0, s) == 0
    ensures |q| == |s| - 16 && s == Times(q)
    decreases |s|
  {
    hide Feed;
    if |s| == 16 {
      q := [];
      if !AllFalse(s) {
        var i := FirstDifference(s);
        InThree(s, i, 16 - i);
        assert s[i + (16 - i)..] == [] && s[i..i + (16 - i)] == s[i..16];
        BurstShows(s[..i], s[i..16], []);
      }
      assert s == Zeros(16);
    } else {
      var n := |s| - 17;
      var lead := Leading(s[0], n);
      var rest := Xor(lead, s);
      LeadingVanishes(s[0], n);
      Sum(lead, s);
      assert rest == [false] + rest[1..];
      Skips(rest[1..]);
      var q1 := Quotient(rest[1..]);
      q := [s[0]] + q1;
      assert q[1..] == q1;
      XorBack(lead, s, rest);
    }
  }

  lemma XorBack(a: seq<bool>, b: seq<bool>, c: seq<bool>)
    requires |a| == |b| && c == Xor(a, b)
    ensures b == Xor(a, c)
  {
  }

  /**
   * A frame passes if and only if its bits, trailer included, are a multiple of the generator. So the trailer is the
   * remainder of the data, sixteen places up, by x^16 + x^12 + x^5 + 1.
   */
  lemma PassesIffMultiple(frame: seq<bv8>)
    requires |frame| >= 2
    ensures Passes(frame) <==> exists q :: Bits(frame) == Times(q)
  {
    hide Passes, Crc, Feed, Bits, Times;
    PassesIffZero(frame);
    CrcIsFeed(0, frame);
    if Passes(frame) {
      var q := Quotient(Bits(frame));
    } else {
      forall q ensures Bits(frame) != Times(q) { MultiplesVanish(q); }
    }
  }
}
