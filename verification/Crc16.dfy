/** CRC-16 with generator x^16 + x^12 + x^5 + 1, bit by bit and byte by byte, and what errors it finds. */
module Crc16 {

  // ---- The code ----

  /** Addition of registers: bitwise exclusive or. */
  function Plus(a: bv16, b: bv16): bv16 { a ^ b }

  function ShiftBit(crc: bv16): bv16 {
    if crc & 0x8000 != 0 then (crc << 1) ^ 0x1021 else crc << 1
  }

  /** Shift `k` times. */
  function Shift(crc: bv16, k: nat): bv16 {
    if k == 0 then crc else ShiftBit(Shift(crc, k - 1))
  }

  /** A byte moved to the top of the register. */
  function High(b: bv8): bv16 { (b as bv16) << 8 }

  function CrcByte(crc: bv16, b: bv8): bv16 {
    Shift(Plus(crc, High(b)), 8)
  }

  function Crc(crc: bv16, data: seq<bv8>): bv16
    decreases |data|
  {
    if data == [] then crc else Crc(CrcByte(crc, data[0]), data[1..])
  }

  /** The inner loop: eight shifts. */
  method ShiftEight(start: bv16) returns (crc: bv16)
    ensures crc == Shift(start, 8)
  {
    hide Shift, ShiftBit;
    crc := start;
    ShiftNone(start);
    for i := 0 to 8
      invariant crc == Shift(start, i)
    {
      ShiftOnce(crc);
      ShiftNext(start, i);
      if crc & 0x8000 != 0 {
        crc := (crc << 1) ^ 0x1021;
      } else {
        crc := crc << 1;
      }
    }
  }

  lemma ShiftOnce(crc: bv16)
    ensures crc & 0x8000 != 0 ==> ShiftBit(crc) == (crc << 1) ^ 0x1021
    ensures crc & 0x8000 == 0 ==> ShiftBit(crc) == crc << 1
  {
  }

  lemma ShiftNone(crc: bv16)
    ensures Shift(crc, 0) == crc
  {
  }

  lemma ShiftNext(crc: bv16, k: nat)
    ensures Shift(crc, k + 1) == ShiftBit(Shift(crc, k))
  {
  }

  method Crc16(seed: bv16, data: seq<bv8>) returns (crc: bv16)
    ensures crc == Crc(seed, data)
  {
    hide ShiftBit, Shift, High, Plus;
    crc := seed;
    var at := 0;
    while at < |data|
      invariant at <= |data| && Crc(seed, data) == Crc(crc, data[at..])
    {
      crc := ShiftEight(Plus(crc, High(data[at])));
      assert data[at..][1..] == data[at + 1..];
      at := at + 1;
    }
  }

  /** A running value may be carried from one block to the next. */
  lemma {:induction false} CrcAppend(crc: bv16, a: seq<bv8>, b: seq<bv8>)
    ensures Crc(crc, a + b) == Crc(Crc(crc, a), b)
    decreases |a|
  {
    hide CrcByte;
    if a == [] {
      assert a + b == b;
    } else {
      assert (a + b)[1..] == a[1..] + b;
      CrcAppend(CrcByte(crc, a[0]), a[1..], b);
    }
  }

  // ---- The shift register is linear and loses nothing ----

  lemma XorRules(a: bv16, b: bv16, c: bv16)
    ensures a ^ b == b ^ a && (a ^ b) ^ c == a ^ (b ^ c)
    ensures a ^ 0 == a && 0 ^ a == a && (a ^ b == 0 <==> a == b)
  {
  }

  lemma PlusRules(a: bv16, b: bv16, c: bv16)
    ensures Plus(a, b) == Plus(b, a) && Plus(Plus(a, b), c) == Plus(a, Plus(b, c))
    ensures Plus(a, 0) == a && Plus(0, a) == a && (Plus(a, b) == 0 <==> a == b)
  {
    XorRules(a, b, c);
  }

  lemma Swap(a: bv16, b: bv16, c: bv16, d: bv16)
    ensures Plus(Plus(a, b), Plus(c, d)) == Plus(Plus(a, c), Plus(b, d))
  {
    hide Plus;
    PlusRules(a, b, Plus(c, d));
    PlusRules(b, c, d);
    PlusRules(c, b, d);
    PlusRules(a, c, Plus(b, d));
  }

  function Carry(crc: bv16): bv16 { if crc & 0x8000 != 0 then 0x1021 else 0 }

  lemma ShiftIs(a: bv16)
    ensures ShiftBit(a) == Plus(a << 1, Carry(a))
  {
    hide Plus, ShiftBit, Carry;
    ShiftOnce(a);
    CarryIs(a);
    PlusRules(a << 1, 0, 0);
    PlusIs(a << 1, 0x1021);
  }

  lemma CarryIs(a: bv16)
    ensures a & 0x8000 != 0 ==> Carry(a) == 0x1021
    ensures a & 0x8000 == 0 ==> Carry(a) == 0
  {
  }

  lemma PlusIs(a: bv16, b: bv16)
    ensures Plus(a, b) == a ^ b
  {
  }

  lemma CarryLinear(a: bv16, b: bv16)
    ensures Carry(Plus(a, b)) == Plus(Carry(a), Carry(b))
  {
    hide Plus;
    TopBits(a, b);
    CarryTable();
  }

  /** The top bits add up. */
  lemma TopBits(a: bv16, b: bv16)
    ensures Plus(a, b) & 0x8000 != 0 <==> ((a & 0x8000 != 0) != (b & 0x8000 != 0))
  {
  }

  lemma CarryTable()
    ensures Plus(0, 0) == 0 && Plus(0x1021, 0x1021) == 0 && Plus(0, 0x1021) == Plus(0x1021, 0) == 0x1021
  {
  }

  lemma DoubleLinear(a: bv16, b: bv16)
    ensures Plus(a, b) << 1 == Plus(a << 1, b << 1)
  {
    hide Plus;
    PlusIs(a, b);
    PlusIs(a << 1, b << 1);
  }

  lemma ShiftBitLinear(a: bv16, b: bv16)
    ensures ShiftBit(Plus(a, b)) == Plus(ShiftBit(a), ShiftBit(b))
  {
    hide ShiftBit, Carry, Plus;
    ShiftIs(a);
    ShiftIs(b);
    ShiftIs(Plus(a, b));
    CarryLinear(a, b);
    DoubleLinear(a, b);
    Swap(a << 1, b << 1, Carry(a), Carry(b));
  }

  lemma ShiftBitInjective(a: bv16)
    ensures ShiftBit(a) == 0 <==> a == 0
  {
  }

  lemma {:induction false} ShiftLinear(a: bv16, b: bv16, k: nat)
    ensures Shift(Plus(a, b), k) == Plus(Shift(a, k), Shift(b, k))
    decreases k
  {
    hide ShiftBit, Plus;
    if k > 0 {
      ShiftLinear(a, b, k - 1);
      ShiftBitLinear(Shift(a, k - 1), Shift(b, k - 1));
    }
  }

  lemma {:induction false} ShiftInjective(a: bv16, k: nat)
    ensures Shift(a, k) == 0 <==> a == 0
    decreases k
  {
    hide ShiftBit;
    if k > 0 {
      ShiftInjective(a, k - 1);
      ShiftBitInjective(Shift(a, k - 1));
    }
  }

  // ---- The same value, one message bit at a time ----

  function Top(b: bool): bv16 { if b then 0x8000 else 0 }

  function Feed(crc: bv16, bits: seq<bool>): bv16
    decreases |bits|
  {
    if bits == [] then crc else ShiftBit(Plus(Feed(crc, bits[..|bits| - 1]), Top(bits[|bits| - 1])))
  }

  lemma {:induction false} FeedAppend(crc: bv16, a: seq<bool>, b: seq<bool>)
    ensures Feed(crc, a + b) == Feed(Feed(crc, a), b)
    decreases |b|
  {
    hide ShiftBit, Plus, Top;
    if b == [] {
      assert a + b == a;
    } else {
      assert (a + b)[..|a + b| - 1] == a + b[..|b| - 1];
      FeedAppend(crc, a, b[..|b| - 1]);
    }
  }

  function Xor(a: seq<bool>, b: seq<bool>): (r: seq<bool>)
    requires |a| == |b|
    ensures |r| == |a| && forall i | 0 <= i < |a| :: r[i] == (a[i] != b[i])
  {
    seq(|a|, i requires 0 <= i < |a| => a[i] != b[i])
  }

  lemma TopLinear(a: bool, b: bool)
    ensures Top(a != b) == Plus(Top(a), Top(b))
  {
  }

  lemma {:induction false} FeedLinear(x: bv16, y: bv16, a: seq<bool>, b: seq<bool>)
    requires |a| == |b|
    ensures Feed(Plus(x, y), Xor(a, b)) == Plus(Feed(x, a), Feed(y, b))
    decreases |a|
  {
    hide ShiftBit, Plus, Top, Xor;
    if a != [] {
      var n := |a| - 1;
      var p, q := Feed(x, a[..n]), Feed(y, b[..n]);
      FeedLinear(x, y, a[..n], b[..n]);
      assert Xor(a, b)[..n] == Xor(a[..n], b[..n]);
      TopLinear(a[n], b[n]);
      Swap(p, q, Top(a[n]), Top(b[n]));
      ShiftBitLinear(Plus(p, Top(a[n])), Plus(q, Top(b[n])));
    }
  }

  /** The register bit that message bit `i` of a block ends up on. */
  function Unit(i: nat): bv16
    requires i < 16
  {
    var units: seq<bv16> :=
      [0x8000, 0x4000, 0x2000, 0x1000, 0x0800, 0x0400, 0x0200, 0x0100,
       0x0080, 0x0040, 0x0020, 0x0010, 0x0008, 0x0004, 0x0002, 0x0001];
    units[i]
  }

  lemma UnitStep(i: nat)
    requires 0 < i < 16
    ensures ShiftBit(Unit(i)) == Unit(i - 1)
  {
  }

  lemma {:induction false} UnitDown(i: nat, k: nat)
    requires k <= i < 16
    ensures Shift(Unit(i), k) == Unit(i - k)
    decreases k
  {
    hide ShiftBit, Unit;
    if k > 0 {
      UnitDown(i, k - 1);
      UnitStep(i - (k - 1));
    }
  }

  function Mark(b: bool, i: nat): bv16
    requires i < 16
  {
    if b then Unit(i) else 0
  }

  lemma MarkShifts(b: bool, i: nat)
    requires i < 16
    ensures Shift(Mark(b, i), i) == Top(b)
  {
    hide ShiftBit, Shift, Unit;
    UnitDown(i, i);
    FirstUnit();
    ShiftInjective(0, i);
  }

  lemma FirstUnit()
    ensures Unit(0) == 0x8000
  {
  }

  /** Up to sixteen message bits laid over the register, the first at the top. */
  function Over(p: seq<bool>): bv16
    requires |p| <= 16
    decreases |p|
  {
    if p == [] then 0 else Plus(Over(p[..|p| - 1]), Mark(p[|p| - 1], |p| - 1))
  }

  /** Feeding a block is laying it over the register and shifting it out. */
  lemma {:induction false} FeedBlock(s: bv16, p: seq<bool>)
    requires |p| <= 16
    ensures Feed(s, p) == Shift(Plus(s, Over(p)), |p|)
    decreases |p|
  {
    hide ShiftBit, Plus, Top, Mark;
    PlusRules(s, 0, 0);
    if p != [] {
      var n := |p| - 1;
      var o, u := Over(p[..n]), Mark(p[n], n);
      FeedBlock(s, p[..n]);
      MarkShifts(p[n], n);
      PlusRules(s, o, u);
      ShiftLinear(Plus(s, o), u, n);
    }
  }

  // ---- Bytes as message bits ----

  function ByteBits(b: bv8): (r: seq<bool>)
    ensures |r| == 8
  {
    [b & 0x80 != 0, b & 0x40 != 0, b & 0x20 != 0, b & 0x10 != 0,
     b & 0x08 != 0, b & 0x04 != 0, b & 0x02 != 0, b & 0x01 != 0]
  }

  function Bits(data: seq<bv8>): (r: seq<bool>)
    ensures |r| == 8 * |data|
  {
    if data == [] then [] else Bits(data[..|data| - 1]) + ByteBits(data[|data| - 1])
  }

  lemma HighIs(b: bv8)
    ensures High(b) ==
      ((((((((if b & 0x80 != 0 then 0x8000 else 0) ^ (if b & 0x40 != 0 then 0x4000 else 0))
      ^ (if b & 0x20 != 0 then 0x2000 else 0)) ^ (if b & 0x10 != 0 then 0x1000 else 0))
      ^ (if b & 0x08 != 0 then 0x0800 else 0)) ^ (if b & 0x04 != 0 then 0x0400 else 0))
      ^ (if b & 0x02 != 0 then 0x0200 else 0)) ^ (if b & 0x01 != 0 then 0x0100 else 0))
  {
  }

  lemma LowIs(b: bv8)
    ensures (b as bv16) ==
      ((((((((if b & 0x80 != 0 then 0x80 else 0) ^ (if b & 0x40 != 0 then 0x40 else 0))
      ^ (if b & 0x20 != 0 then 0x20 else 0)) ^ (if b & 0x10 != 0 then 0x10 else 0))
      ^ (if b & 0x08 != 0 then 0x08 else 0)) ^ (if b & 0x04 != 0 then 0x04 else 0))
      ^ (if b & 0x02 != 0 then 0x02 else 0)) ^ (if b & 0x01 != 0 then 0x01 else 0))
  {
  }

  lemma OverTake(p: seq<bool>, k: nat)
    requires k < |p| && k < 16
    ensures Over(p[..k + 1]) == Plus(Over(p[..k]), Mark(p[k], k))
  {
    hide Plus, Mark;
    assert p[..k + 1][..k] == p[..k];
  }

  lemma HighMarks(b: bool)
    ensures Mark(b, 0) == (if b then 0x8000 else 0) && Mark(b, 1) == (if b then 0x4000 else 0)
    ensures Mark(b, 2) == (if b then 0x2000 else 0) && Mark(b, 3) == (if b then 0x1000 else 0)
    ensures Mark(b, 4) == (if b then 0x0800 else 0) && Mark(b, 5) == (if b then 0x0400 else 0)
    ensures Mark(b, 6) == (if b then 0x0200 else 0) && Mark(b, 7) == (if b then 0x0100 else 0)
  {
  }

  lemma LowMarks(b: bool)
    ensures Mark(b, 8) == (if b then 0x80 else 0) && Mark(b, 9) == (if b then 0x40 else 0)
    ensures Mark(b, 10) == (if b then 0x20 else 0) && Mark(b, 11) == (if b then 0x10 else 0)
    ensures Mark(b, 12) == (if b then 0x08 else 0) && Mark(b, 13) == (if b then 0x04 else 0)
    ensures Mark(b, 14) == (if b then 0x02 else 0) && Mark(b, 15) == (if b then 0x01 else 0)
  {
  }

  /** Eight more bits behind a block of length `k`, written out. */
  lemma OverEight(p: seq<bool>, k: nat)
    requires k + 8 <= |p| <= 16
    ensures Over(p[..k + 8]) ==
      Plus(Plus(Plus(Plus(Plus(Plus(Plus(Plus(Over(p[..k]), Mark(p[k], k)), Mark(p[k + 1], k + 1)),
        Mark(p[k + 2], k + 2)), Mark(p[k + 3], k + 3)), Mark(p[k + 4], k + 4)), Mark(p[k + 5], k + 5)),
        Mark(p[k + 6], k + 6)), Mark(p[k + 7], k + 7))
  {
    hide Over, Mark, Plus;
    OverTake(p, k);
    OverTake(p, k + 1);
    OverTake(p, k + 2);
    OverTake(p, k + 3);
    OverTake(p, k + 4);
    OverTake(p, k + 5);
    OverTake(p, k + 6);
    OverTake(p, k + 7);
  }

  lemma HighChain(b: bv8)
    ensures High(b) ==
      Plus(Plus(Plus(Plus(Plus(Plus(Plus(Plus(0, Mark(b & 0x80 != 0, 0)), Mark(b & 0x40 != 0, 1)),
        Mark(b & 0x20 != 0, 2)), Mark(b & 0x10 != 0, 3)), Mark(b & 0x08 != 0, 4)), Mark(b & 0x04 != 0, 5)),
        Mark(b & 0x02 != 0, 6)), Mark(b & 0x01 != 0, 7))
  {
    hide High, Mark;
    HighIs(b);
    HighMarks(true);
    HighMarks(false);
  }

  lemma LowChain(b: bv8)
    ensures (b as bv16) ==
      Plus(Plus(Plus(Plus(Plus(Plus(Plus(Plus(0, Mark(b & 0x80 != 0, 8)), Mark(b & 0x40 != 0, 9)),
        Mark(b & 0x20 != 0, 10)), Mark(b & 0x10 != 0, 11)), Mark(b & 0x08 != 0, 12)), Mark(b & 0x04 != 0, 13)),
        Mark(b & 0x02 != 0, 14)), Mark(b & 0x01 != 0, 15))
  {
    hide Mark;
    LowIs(b);
    LowMarks(true);
    LowMarks(false);
  }

  lemma Lift(x: bv16, a: bv16, b: bv16, c: bv16, d: bv16, e: bv16, f: bv16, g: bv16, h: bv16)
    ensures Plus(x, Plus(Plus(Plus(Plus(Plus(Plus(Plus(Plus(0, a), b), c), d), e), f), g), h))
         == Plus(Plus(Plus(Plus(Plus(Plus(Plus(Plus(x, a), b), c), d), e), f), g), h)
  {
    hide Plus;
    PlusRules(x, a, 0);
    PlusRules(a, x, 0);
    PlusRules(x, a, b);
    PlusRules(x, Plus(a, b), c);
    PlusRules(x, Plus(Plus(a, b), c), d);
    PlusRules(x, Plus(Plus(Plus(a, b), c), d), e);
    PlusRules(x, Plus(Plus(Plus(Plus(a, b), c), d), e), f);
    PlusRules(x, Plus(Plus(Plus(Plus(Plus(a, b), c), d), e), f), g);
    PlusRules(x, Plus(Plus(Plus(Plus(Plus(Plus(a, b), c), d), e), f), g), h);
  }

  lemma OverByte(b: bv8)
    ensures Over(ByteBits(b)) == High(b)
  {
    hide High, Over, Mark, Plus;
    var p := ByteBits(b);
    assert p[..0] == [] && p[..8] == p;
    OverEight(p, 0);
    OverEmpty();
    HighChain(b);
  }

  lemma OverWord(hi: bv8, lo: bv8)
    ensures Over(ByteBits(hi) + ByteBits(lo)) == Plus(High(hi), lo as bv16)
  {
    hide High, Over, Mark, Plus;
    var p := ByteBits(hi) + ByteBits(lo);
    assert p[..8] == ByteBits(hi) && p[..16] == p;
    OverByte(hi);
    OverEight(p, 8);
    LowChain(lo);
    Lift(High(hi), Mark(p[8], 8), Mark(p[9], 9), Mark(p[10], 10), Mark(p[11], 11),
         Mark(p[12], 12), Mark(p[13], 13), Mark(p[14], 14), Mark(p[15], 15));
  }

  lemma OverEmpty()
    ensures Over([]) == 0
  {
  }

  lemma ByteFeed(crc: bv16, b: bv8)
    ensures CrcByte(crc, b) == Feed(crc, ByteBits(b))
  {
    hide ByteBits, High, Plus, Shift, Over, Feed;
    OverByte(b);
    FeedBlock(crc, ByteBits(b));
  }

  /** The byte-wise code computes the bit-serial remainder. */
  lemma {:induction false} CrcIsFeed(crc: bv16, data: seq<bv8>)
    ensures Crc(crc, data) == Feed(crc, Bits(data))
    decreases |data|
  {
    hide ByteBits, CrcByte, ShiftBit, Plus, Top;
    if data != [] {
      var front, b := data[..|data| - 1], data[|data| - 1];
      assert data == front + [b];
      CrcAppend(crc, front, [b]);
      CrcIsFeed(crc, front);
      OneByte(Crc(crc, front), b);
      FeedAppend(crc, Bits(front), ByteBits(b));
    }
  }

  lemma OneByte(crc: bv16, b: bv8)
    ensures Crc(crc, [b]) == Feed(crc, ByteBits(b))
  {
    hide CrcByte, Feed;
    ByteFeed(crc, b);
    assert [b][1..] == [];
  }

  // ---- Checking a frame ----

  /** The trailer as a number, high byte first. */
  function Word(hi: bv8, lo: bv8): bv16 {
    ((hi as bv16) << 8) + (lo as bv16)
  }

  lemma WordIs(hi: bv8, lo: bv8)
    ensures Word(hi, lo) == Plus(High(hi), lo as bv16)
  {
  }

  /** Running on over the trailer leaves nothing exactly when the trailer is the value so far. */
  lemma TrailerCancels(crc: bv16, hi: bv8, lo: bv8)
    ensures Crc(crc, [hi, lo]) == 0 <==> crc == Word(hi, lo)
  {
    hide ByteBits, Feed, Plus, Shift, Over, High, Word, Crc;
    var p := ByteBits(hi) + ByteBits(lo);
    TwoBytes(crc, hi, lo);
    FeedBlock(crc, p);
    OverWord(hi, lo);
    WordIs(hi, lo);
    ShiftInjective(Plus(crc, Word(hi, lo)), 16);
    PlusRules(crc, Word(hi, lo), 0);
  }

  lemma TwoBytes(crc: bv16, hi: bv8, lo: bv8)
    ensures Crc(crc, [hi, lo]) == Feed(crc, ByteBits(hi) + ByteBits(lo))
  {
    hide ByteBits, Feed, Crc;
    assert [hi, lo] == [hi] + [lo];
    CrcAppend(crc, [hi], [lo]);
    OneByte(crc, hi);
    OneByte(Feed(crc, ByteBits(hi)), lo);
    FeedAppend(crc, ByteBits(hi), ByteBits(lo));
  }

  /** A frame passes when its trailer is the CRC of its data. */
  predicate Passes(frame: seq<bv8>) {
    |frame| >= 2 && Crc(0, frame[..|frame| - 2]) == Word(frame[|frame| - 2], frame[|frame| - 1])
  }

  /** Passing means that the CRC over data and trailer together is zero. */
  lemma PassesIffZero(frame: seq<bv8>)
    requires |frame| >= 2
    ensures Passes(frame) <==> Crc(0, frame) == 0
  {
    hide Crc, Word;
    var n := |frame| - 2;
    assert frame == frame[..n] + [frame[n], frame[n + 1]];
    CrcAppend(0, frame[..n], [frame[n], frame[n + 1]]);
    TrailerCancels(Crc(0, frame[..n]), frame[n], frame[n + 1]);
  }

  // ---- Burst errors ----

  predicate AllFalse(p: seq<bool>) {
    forall i | 0 <= i < |p| :: !p[i]
  }

  lemma {:induction false} FeedZeros(x: bv16, p: seq<bool>)
    requires AllFalse(p)
    ensures Feed(x, p) == 0 <==> x == 0
    decreases |p|
  {
    hide ShiftBit, Plus;
    if p != [] {
      var n := |p| - 1;
      FeedZeros(x, p[..n]);
      PlusRules(Feed(x, p[..n]), 0, 0);
      ShiftBitInjective(Feed(x, p[..n]));
    }
  }

  lemma LaterUnits(x: bv16, b: bool, i: nat)
    requires 0 < i < 16
    ensures Plus(x, Mark(b, i)) & 0x8000 == x & 0x8000
  {
  }

  /** A block whose first bit is set is not lost in the register. */
  lemma {:induction false} FirstBitShows(p: seq<bool>)
    requires 0 < |p| <= 16 && p[0]
    ensures Over(p) & 0x8000 != 0
    decreases |p|
  {
    hide Plus, Mark;
    if |p| == 1 {
      OverTake(p, 0);
      OverEmpty();
      assert p[..0] == [] && p[..1] == p;
      HighMarks(true);
      PlusRules(0x8000, 0, 0);
    } else {
      var n := |p| - 1;
      FirstBitShows(p[..n]);
      LaterUnits(Over(p[..n]), p[n], n);
    }
  }

  /** An error pattern that starts with a set bit and spans at most sixteen never divides out. */
  lemma BurstShows(before: seq<bool>, p: seq<bool>, after: seq<bool>)
    requires AllFalse(before) && AllFalse(after) && 0 < |p| <= 16 && p[0]
    ensures Feed(0, before + p + after) != 0
  {
    hide Feed, Over, Plus, Shift;
    FeedAppend(0, before + p, after);
    FeedAppend(0, before, p);
    FeedZeros(0, before);
    FeedBlock(0, p);
    FirstBitShows(p);
    PlusRules(Over(p), 0, 0);
    assert Over(p) != 0 by { ZeroHasNoBit(); }
    ShiftInjective(Over(p), |p|);
    FeedZeros(Feed(0, p), after);
  }

  lemma ZeroHasNoBit()
    ensures (0 as bv16) & 0x8000 == 0
  {
  }

  lemma BitsParts(f: seq<bv8>)
    requires f != []
    ensures Bits(f)[..8 * (|f| - 1)] == Bits(f[..|f| - 1]) && Bits(f)[8 * (|f| - 1)..] == ByteBits(f[|f| - 1])
  {
    hide ByteBits;
  }

  lemma {:induction false} BitsDiffer(f: seq<bv8>, g: seq<bv8>)
    requires |f| == |g| && f != g
    ensures Bits(f) != Bits(g)
    decreases |f|
  {
    hide ByteBits, Bits;
    var n := |f| - 1;
    BitsParts(f);
    BitsParts(g);
    if f[..n] != g[..n] {
      BitsDiffer(f[..n], g[..n]);
    } else {
      assert f == f[..n] + [f[n]] && g == g[..n] + [g[n]];
      ByteDiffers(f[n], g[n]);
    }
  }

  lemma ByteDiffers(a: bv8, b: bv8)
    requires a != b
    ensures ByteBits(a) != ByteBits(b)
  {
  }

  lemma FirstDifference(e: seq<bool>) returns (i: nat)
    requires !AllFalse(e)
    ensures i < |e| && e[i] && AllFalse(e[..i])
  {
    i := 0;
    while !e[i]
      invariant i < |e| && AllFalse(e[..i]) && exists k :: i <= k < |e| && e[k]
      decreases |e| - i
    {
      i := i + 1;
    }
  }

  /**
   * Burst detection: if a passing frame of any length is changed anywhere within sixteen consecutive
   * bits, data and trailer alike, it no longer passes.
   */
  lemma BurstDetected(f: seq<bv8>, g: seq<bv8>, start: nat)
    requires |f| == |g| && f != g && Passes(f)
    requires forall j | 0 <= j < 8 * |f| && !(start <= j < start + 16) :: Bits(f)[j] == Bits(g)[j]
    ensures !Passes(g)
  {
    hide Passes, Crc, Feed, Bits, Plus, Xor;
    PassesNeedsTwo(f);
    var e := Xor(Bits(f), Bits(g));
    BitsDiffer(f, g);
    var i := FirstDifference(e);
    var n := if i + 16 <= |e| then 16 else |e| - i;
    InThree(e, i, n);
    BurstShows(e[..i], e[i..i + n], e[i + n..]);
    FeedLinear(0, 0, Bits(f), Bits(g));
    PlusRules(0, 0, 0);
    CrcIsFeed(0, f);
    CrcIsFeed(0, g);
    PassesIffZero(f);
    PassesIffZero(g);
    PlusRules(Feed(0, Bits(g)), 0, 0);
  }

  lemma InThree(e: seq<bool>, i: nat, n: nat)
    requires i + n <= |e|
    ensures e == e[..i] + e[i..i + n] + e[i + n..]
  {
  }

  lemma PassesNeedsTwo(f: seq<bv8>)
    requires Passes(f)
    ensures |f| >= 2
  {
  }
}
