/** What the heatshrink decoder's fields mean: unread bits, window ring, progress inside a token. */
module DecoderModel {
  import opened BitString
  import opened Lzss

  datatype State =
    | Empty | InputAvailable | YieldLiteral
    | BackrefIndexMsb | BackrefIndexLsb | BackrefCountMsb | BackrefCountLsb
    | YieldBackref | CheckForMoreInput

  // ---- Bit reader ----

  /** The unread bits: the tail of the current byte, then the bytes not pulled yet. */
  function Unread(bitIndex: nat, current: byte, pending: seq<byte>): (s: seq<bool>)
    ensures |s| == BitsLeft(bitIndex) + 8 * |pending|
  {
    ByteBits(current)[8 - BitsLeft(bitIndex)..] + Bits(pending)
  }

  lemma ReadOneBit(bitIndex: nat, current: byte, pending: seq<byte>)
    requires IsMask(bitIndex) && bitIndex != 0
    ensures IsMask(bitIndex / 2) && BitsLeft(bitIndex / 2) == BitsLeft(bitIndex) - 1
    ensures Unread(bitIndex, current, pending)
         == [(current / bitIndex) % 2 == 1] + Unread(bitIndex / 2, current, pending)
  {
    var k := 8 - BitsLeft(bitIndex);
    MaskedBit(bitIndex, current);
    var bits := ByteBits(current);
    assert bits[k..] == [bits[k]] + bits[k + 1..];
    Associative([bits[k]], bits[k + 1..], Bits(pending));
  }

  lemma MaskedBit(bitIndex: nat, current: byte)
    requires IsMask(bitIndex) && bitIndex != 0
    ensures ByteBits(current)[8 - BitsLeft(bitIndex)] == ((current / bitIndex) % 2 == 1)
  {
    hide Shr;
    ShiftIsDivision(current);
  }

  lemma PullOneByte(current: byte, pending: seq<byte>)
    requires pending != []
    ensures Unread(0, current, pending) == Unread(128, pending[0], pending[1..])
  {
    assert ByteBits(pending[0])[0..] == ByteBits(pending[0]);
    assert [] + Bits(pending) == Bits(pending);
  }

  /** With input left a request of at most eight bits can be met; without, the mask tells. */
  lemma MaskTest(bitIndex: nat, count: nat)
    requires IsMask(bitIndex) && 1 <= count <= 8
    ensures bitIndex < Pow2(count - 1) <==> BitsLeft(bitIndex) < count
  {
    Powers();
  }

  lemma AccumulateBit(s: seq<bool>, i: nat)
    requires i < |s|
    ensures BitsNat(s[..i + 1]) == if s[i] then Or(2 * BitsNat(s[..i]), 1) else 2 * BitsNat(s[..i])
    ensures s[i..] == [s[i]] + s[i + 1..]
  {
    assert s[..i + 1][..i] == s[..i];
    OrZero(BitsNat(s[..i]));
  }

  lemma ByteValue(s: seq<bool>)
    requires |s| <= 8
    ensures BitsNat(s) < 256
  {
    Powers();
    FieldBound(s);
    PowMono(|s|, 8);
  }

  ghost predicate IsSuffix(s: seq<bool>, all: seq<bool>) {
    |s| <= |all| && all[|all| - |s|..] == s
  }

  lemma SuffixTail(all: seq<bool>, s: seq<bool>, n: nat)
    requires IsSuffix(s, all) && n <= |s|
    ensures IsSuffix(s[n..], all)
  {
    assert all[|all| - |s[n..]|..] == all[|all| - |s|..][n..];
  }

  lemma UnreadGrows(bitIndex: nat, current: byte, pending: seq<byte>, more: seq<byte>)
    ensures Unread(bitIndex, current, pending + more) == Unread(bitIndex, current, pending) + Bits(more)
  {
    BitsAppend(pending, more);
    Associative(ByteBits(current)[8 - BitsLeft(bitIndex)..], Bits(pending), Bits(more));
  }

  lemma SuffixGrows(all: seq<bool>, s: seq<bool>, more: seq<bool>)
    requires IsSuffix(s, all)
    ensures IsSuffix(s + more, all + more)
  {
  }

  // ---- Window ring ----

  /** Every byte within reach of a back-reference sits at its ring position. */
  ghost predicate RingHolds(ring: seq<byte>, out: seq<byte>)
    requires |ring| > 0
  {
    forall d | 1 <= d <= |ring| :: ring[(|out| - d) % |ring|] == At(out, d)
  }

  lemma FreshRing(ring: seq<byte>)
    requires |ring| > 0 && forall i | 0 <= i < |ring| :: ring[i] == 0
    ensures RingHolds(ring, [])
  {
  }

  lemma RingPush(ring: seq<byte>, out: seq<byte>, c: byte)
    requires |ring| > 0 && RingHolds(ring, out)
    ensures RingHolds(ring[|out| % |ring| := c], out + [c])
  {
    var n := |ring|;
    var ring', out' := ring[|out| % n := c], out + [c];
    forall d | 1 <= d <= n ensures ring'[(|out'| - d) % n] == At(out', d) {
      if d > 1 {
        ModApart(|out| - (d - 1), |out|, n);
        assert |out'| - d == |out| - (d - 1);
        assert ring[(|out| - (d - 1)) % n] == At(out, d - 1);
      }
    }
  }

  /** A 16-bit head counter masked to the window is the output length modulo the window. */
  lemma HeadMasked(total: nat, back: int, w: nat)
    requires w <= 16
    ensures (total % 65536 - back) % Pow2(w) == (total - back) % Pow2(w)
  {
    hide Pow2;
    PowSum(w, 16 - w);
    Powers();
    MaskOfWrapped(total, back, Pow2(w), Pow2(16 - w));
  }

  lemma NextHead(total: nat)
    ensures (total % 65536 + 1) % 65536 == (total + 1) % 65536
  {
  }

  lemma MaskOfWrapped(total: nat, back: int, n: nat, m: nat)
    requires n > 0 && n * m == 65536
    ensures (total % 65536 - back) % n == (total - back) % n
  {
    var q := total / 65536;
    assert (n * m) * q == n * (m * q);
    ModShift(total % 65536 - back, n, m * q);
  }

  lemma PowSum(a: nat, b: nat)
    ensures Pow2(a) * Pow2(b) == Pow2(a + b)
  {
    if b > 0 {
      PowSum(a, b - 1);
      DoubleProduct(Pow2(a), Pow2(b - 1));
    }
  }

  lemma ModShift(a: int, n: nat, k: int)
    requires n > 0
    ensures (a + n * k) % n == a % n
  {
    var q, r := a / n, a % n;
    assert a + n * k == n * (q + k) + r;
    var q' := (a + n * k) / n;
    var r' := (a + n * k) % n;
    assert n * (q + k - q') == r' - r;
    ScaledAtLeast(n, q + k - q');
  }

  // ---- Where a suspended decoder is inside a token ----

  /** Bits of a field that are read before its low byte, and in its low byte. */
  function High(k: nat): nat { if k > 8 then k - 8 else 0 }
  function Low(k: nat): nat { if k < 8 then k else 8 }

  /**
   * `t` is the stream from the start of the current token on, of which `used` bits have been read
   * into the output index and count.
   */
  ghost predicate InToken(p: Params, s: State, t: seq<bool>, used: nat, index: nat, count: nat)
    requires Legal(p)
  {
    && 1 <= |t| && used <= |t|
    && match s
       case YieldLiteral => t[0] && used == 1
       case BackrefIndexMsb => !t[0] && p.w > 8 && used == 1
       case BackrefIndexLsb =>
         !t[0] && used == 1 + High(p.w) && index == 256 * BitsNat(t[1..1 + High(p.w)])
       case BackrefCountMsb =>
         !t[0] && p.l > 8 && used == 1 + p.w && index == BitsNat(t[1..1 + p.w]) + 1
       case BackrefCountLsb =>
         && !t[0] && used == 1 + p.w + High(p.l) && index == BitsNat(t[1..1 + p.w]) + 1
         && count == 256 * BitsNat(t[1 + p.w..1 + p.w + High(p.l)])
       case _ => false
  }

  /** The two halves of a field join to its value. */
  lemma JoinField(t: seq<bool>, at: nat, k: nat)
    requires at + k <= |t| && k <= 16
    ensures Or(256 * BitsNat(t[at..at + High(k)]), BitsNat(t[at + High(k)..at + k])) == BitsNat(t[at..at + k])
    ensures BitsNat(t[at..at + k]) < Pow2(k)
  {
    var a, b := t[at..at + High(k)], t[at + High(k)..at + k];
    assert t[at..at + k] == a + b;
    JoinBits(a, b);
    FieldBound(t[at..at + k]);
  }

  lemma JoinBits(a: seq<bool>, b: seq<bool>)
    requires |b| == 8 || (|b| < 8 && a == [])
    ensures Or(256 * BitsNat(a), BitsNat(b)) == BitsNat(a + b)
  {
    hide Or, Pow2, BitsNat;
    Powers();
    NoBits();
    BitsNatAppend(a, b);
    ByteValue(b);
    OrDisjoint(BitsNat(a), 8, BitsNat(b));
  }

  lemma DecodeLiteral(p: Params, t: seq<bool>, out: seq<byte>)
    requires Legal(p) && |t| >= 9 && t[0]
    ensures BitsNat(t[1..9]) < 256
    ensures Decode(p, t, out) == Decode(p, t[9..], out + [BitsNat(t[1..9])])
  {
    ByteValue(t[1..9]);
  }

  lemma NextIsBackref(p: Params, t: seq<bool>)
    requires Legal(p) && |t| >= 8 && |t| >= 1 + p.w + p.l && !t[0]
    ensures NextToken(p, t)
         == Some(Backref(BitsNat(t[1..1 + p.w]) + 1, BitsNat(t[1 + p.w..1 + p.w + p.l]) + 1))
  {
    hide BitsNat, Pow2;
  }

  lemma DecodeBackref(p: Params, t: seq<bool>, out: seq<byte>)
    requires Legal(p) && |t| >= 8 && |t| >= 1 + p.w + p.l && !t[0]
    ensures Decode(p, t, out)
         == Decode(p, t[1 + p.w + p.l..],
                   CopyBack(out, BitsNat(t[1..1 + p.w]) + 1, BitsNat(t[1 + p.w..1 + p.w + p.l]) + 1))
  {
    hide BitsNat, Pow2, NextToken, CopyBack;
    NextIsBackref(p, t);
  }

  /** A token whose bits have not all arrived yields nothing yet. */
  lemma DecodeStalled(p: Params, t: seq<bool>, out: seq<byte>)
    requires Legal(p) && |t| > 0
    requires |t| < 8 || |t| < TokenLen(p, t[0])
    ensures Decode(p, t, out) == (out, t)
  {
  }

  /**
   * What the decoder still has to do, as a fact about the stream: the goal is a decode of all bits
   * sunk so far, `rem` are the bits not read yet, and `token` is where the current token began.
   */
  ghost predicate Pending(p: Params, s: State, all: seq<bool>, rem: seq<bool>, out: seq<byte>,
                          token: nat, index: nat, count: nat)
    requires Legal(p)
  {
    var goal := Decode(p, all, []);
    IsSuffix(rem, all) &&
    match s
    case Empty => |rem| < 8 && goal == Decode(p, rem, out)
    case InputAvailable => goal == Decode(p, rem, out)
    case CheckForMoreInput => goal == Decode(p, rem, out)
    case YieldBackref =>
      && 1 <= index <= Pow2(p.w) && 1 <= count <= Pow2(p.l)
      && goal == Decode(p, rem, CopyBack(out, index, count))
    case _ =>
      && token <= |all| - |rem|
      && InToken(p, s, all[token..], |all| - |rem| - token, index, count)
      && goal == Decode(p, all[token..], out)
  }

  /** A token may be begun: there is a bit to read, and the token is not complete while less than a byte is left. */
  predicate Startable(p: Params, bits: seq<bool>) {
    bits != [] && (|bits| >= 8 || |bits| < TokenLen(p, bits[0]))
  }

  /** States in which a token has been begun and not read to its end. */
  predicate InField(s: State) {
    s == YieldLiteral || s == BackrefIndexMsb || s == BackrefIndexLsb || s == BackrefCountMsb || s == BackrefCountLsb
  }

  lemma NoBitLeft(bitIndex: nat)
    requires IsMask(bitIndex)
    ensures BitsLeft(bitIndex) == 0 <==> bitIndex == 0
  {
  }

  /** With tokens of a byte or more, any unread bit will do. */
  lemma AnyBitStarts(p: Params, bits: seq<bool>)
    requires Legal(p) && p.w + p.l >= 7
    ensures Startable(p, bits) <==> bits != []
  {
  }

  /** A whole back-reference in seven bits, at the end of the stream. */
  predicate IsShort(p: Params, all: seq<bool>, token: nat) {
    p.w == 4 && p.l == 2 && token <= |all| && |all| - token == 7 && !all[token]
  }

  function ShortCopy(out: seq<byte>, t: seq<bool>): seq<byte>
    requires |t| == 7
  {
    CopyBack(out, BitsNat(t[1..5]) + 1, BitsNat(t[5..7]) + 1)
  }

  lemma SuffixIs(p: Params, all: seq<bool>, rem: seq<bool>, out: seq<byte>, token: nat, index: nat, count: nat)
    requires Legal(p) && Pending(p, InputAvailable, all, rem, out, token, index, count)
    ensures |rem| <= |all| && all[|all| - |rem|..] == rem
  {
  }

  lemma NoNeed(p: Params)
    requires Legal(p)
    ensures Need(p, InputAvailable) == 0
  {
  }

  lemma TokenInside(p: Params, s: State, all: seq<bool>, rem: seq<bool>, out: seq<byte>,
                    token: nat, index: nat, count: nat)
    requires Legal(p) && Pending(p, s, all, rem, out, token, index, count)
    ensures InField(s) ==> token <= |all|
  {
  }

  lemma BitsSize(data: seq<byte>)
    ensures |Bits(data)| == 8 * |data|
  {
  }

  lemma NothingMore(a: seq<bool>, b: seq<bool>, data: seq<byte>)
    ensures a + Bits(data[..0]) == a && b + Bits(data[..0]) == b
  {
  }

  lemma IdleHasNoByte(p: Params, s: State, all: seq<bool>, rem: seq<bool>, out: seq<byte>,
                      token: nat, index: nat, count: nat)
    requires Legal(p) && Pending(p, s, all, rem, out, token, index, count)
    ensures s == Empty ==> |rem| < 8
  {
  }

  lemma InTokenGrows(p: Params, s: State, t: seq<bool>, used: nat, index: nat, count: nat, more: seq<bool>)
    requires Legal(p) && InToken(p, s, t, used, index, count)
    ensures InToken(p, s, t + more, used, index, count)
  {
    hide BitsNat;
    var t' := t + more;
    match s {
      case BackrefIndexLsb =>
        assert t'[1..1 + High(p.w)] == t[1..1 + High(p.w)];
      case BackrefCountMsb =>
        assert t'[1..1 + p.w] == t[1..1 + p.w];
      case BackrefCountLsb =>
        assert t'[1..1 + p.w] == t[1..1 + p.w];
        assert t'[1 + p.w..1 + p.w + High(p.l)] == t[1 + p.w..1 + p.w + High(p.l)];
      case _ =>
    }
  }

  /** New input changes nothing about the work at hand; a waiting decoder becomes ready. */
  lemma PendingGrows(p: Params, s: State, all: seq<bool>, rem: seq<bool>, out: seq<byte>,
                     token: nat, index: nat, count: nat, more: seq<bool>)
    requires Legal(p) && Pending(p, s, all, rem, out, token, index, count)
    ensures Pending(p, if s == Empty then InputAvailable else s, all + more, rem + more, out, token, index, count)
  {
    hide Decode, CopyBack, InToken, Pow2;
    SuffixGrows(all, rem, more);
    match s {
      case Empty => DecodeExtend(p, all, [], rem, out, more);
      case InputAvailable => DecodeExtend(p, all, [], rem, out, more);
      case CheckForMoreInput => DecodeExtend(p, all, [], rem, out, more);
      case YieldBackref => DecodeExtend(p, all, [], rem, CopyBack(out, index, count), more);
      case _ =>
        InTokenGrows(p, s, all[token..], |all| - |rem| - token, index, count, more);
        DecodeExtend(p, all, [], all[token..], out, more);
        assert (all + more)[token..] == all[token..] + more;
    }
  }

  // ---- One field at a time ----

  lemma EnterToken(p: Params, all: seq<bool>, rem: seq<bool>, out: seq<byte>, token: nat, index: nat, count: nat)
    requires Legal(p)
    requires Pending(p, InputAvailable, all, rem, out, token, index, count) && rem != []
    ensures |rem| <= |all| && BitsNat(rem[..1]) == if rem[0] then 1 else 0
    ensures rem[0] ==> Pending(p, YieldLiteral, all, rem[1..], out, |all| - |rem|, index, count)
    ensures !rem[0] && p.w > 8 ==> Pending(p, BackrefIndexMsb, all, rem[1..], out, |all| - |rem|, index, count)
    ensures !rem[0] && p.w <= 8 ==> Pending(p, BackrefIndexLsb, all, rem[1..], out, |all| - |rem|, 0, count)
  {
    hide Decode, Pow2;
    NoBits();
    SuffixTail(all, rem, 1);
    assert rem[..1][..0] == [];
    assert rem[1..1] == [];
  }

  /** Without a bit to read, the missing tag passes for that of a literal: as if a set bit had come in. */
  lemma SpuriousTag(p: Params, all: seq<bool>, out: seq<byte>, token: nat, index: nat, count: nat)
    requires Legal(p) && Pending(p, InputAvailable, all, [], out, token, index, count)
    ensures Pending(p, YieldLiteral, all + [true], [], out, |all|, index, count)
  {
    hide Decode, Pow2;
    DecodeExtend(p, all, [], [], out, [true]);
    assert (all + [true])[|all|..] == [true] == [] + [true];
  }

  lemma AfterLiteral(p: Params, all: seq<bool>, rem: seq<bool>, out: seq<byte>, token: nat, index: nat, count: nat)
    requires Legal(p)
    requires Pending(p, YieldLiteral, all, rem, out, token, index, count) && |rem| >= 8
    ensures BitsNat(rem[..8]) < 256
    ensures Pending(p, CheckForMoreInput, all, rem[8..], out + [BitsNat(rem[..8])], token, index, count)
  {
    hide Decode, Pow2, BitsNat;
    var t := all[token..];
    SuffixTail(all, rem, 8);
    DecodeLiteral(p, t, out);
    assert t[1..] == rem;
    assert t[1..9] == rem[..8] && t[9..] == rem[8..];
  }

  lemma AfterIndexMsb(p: Params, all: seq<bool>, rem: seq<bool>, out: seq<byte>, token: nat, index: nat, count: nat)
    requires Legal(p)
    requires Pending(p, BackrefIndexMsb, all, rem, out, token, index, count) && |rem| >= p.w - 8
    ensures Pending(p, BackrefIndexLsb, all, rem[p.w - 8..], out, token, 256 * BitsNat(rem[..p.w - 8]), count)
  {
    hide Decode, Pow2, BitsNat;
    var t := all[token..];
    SuffixTail(all, rem, p.w - 8);
    assert t[1..] == rem;
    assert t[1..1 + High(p.w)] == rem[..p.w - 8];
  }

  lemma AfterIndexLsb(p: Params, all: seq<bool>, rem: seq<bool>, out: seq<byte>, token: nat, index: nat, count: nat)
    requires Legal(p)
    requires Pending(p, BackrefIndexLsb, all, rem, out, token, index, count) && |rem| >= Low(p.w)
    ensures Pending(p, if p.l > 8 then BackrefCountMsb else BackrefCountLsb, all, rem[Low(p.w)..], out, token,
                    Or(index, BitsNat(rem[..Low(p.w)])) + 1, 0)
  {
    hide Decode, Pow2, BitsNat, Or;
    NoBits();
    var t := all[token..];
    SuffixTail(all, rem, Low(p.w));
    assert t[1 + High(p.w)..] == rem;
    assert t[1 + High(p.w)..1 + p.w] == rem[..Low(p.w)];
    JoinField(t, 1, p.w);
    assert p.l <= 8 ==> t[1 + p.w..1 + p.w + High(p.l)] == [];
  }

  /** Where the bits that are left stand in the token that was begun. */
  lemma SuffixFrom(all: seq<bool>, rem: seq<bool>, token: nat, at: nat, n: nat)
    requires IsSuffix(rem, all) && token + at == |all| - |rem| && n <= |rem|
    ensures all[token..][at..] == rem
    ensures all[token..][at..at + n] == rem[..n] && all[token..][at + n..] == rem[n..]
  {
    assert all[token..][at..] == all[|all| - |rem|..];
  }

  lemma AfterCountMsb(p: Params, all: seq<bool>, rem: seq<bool>, out: seq<byte>, token: nat, index: nat, count: nat)
    requires Legal(p)
    requires Pending(p, BackrefCountMsb, all, rem, out, token, index, count) && |rem| >= p.l - 8
    ensures Pending(p, BackrefCountLsb, all, rem[p.l - 8..], out, token, index, 256 * BitsNat(rem[..p.l - 8]))
  {
    hide Decode, Pow2, BitsNat;
    var t := all[token..];
    SuffixTail(all, rem, p.l - 8);
    assert t[1 + p.w..] == rem;
    assert t[1 + p.w..1 + p.w + High(p.l)] == rem[..p.l - 8];
  }

  lemma AfterCountLsb(p: Params, all: seq<bool>, rem: seq<bool>, out: seq<byte>, token: nat, index: nat, count: nat)
    requires Legal(p)
    requires Pending(p, BackrefCountLsb, all, rem, out, token, index, count) && |rem| >= Low(p.l)
    requires |all| - token >= 8
    ensures Pending(p, YieldBackref, all, rem[Low(p.l)..], out, token, index,
                    Or(count, BitsNat(rem[..Low(p.l)])) + 1)
  {
    hide Decode, Pow2, BitsNat, Or, CopyBack;
    var t := all[token..];
    var at := 1 + p.w + High(p.l);
    SuffixTail(all, rem, Low(p.l));
    SuffixFrom(all, rem, token, at, Low(p.l));
    JoinField(t, 1, p.w);
    JoinField(t, 1 + p.w, p.l);
    DecodeBackref(p, t, out);
  }

  /** The copy of `n` bytes from distance `d`, alone. */
  function Copied(out: seq<byte>, d: nat, n: nat): seq<byte>
    requires d >= 1
  {
    CopyBack(out, d, n)[|out|..]
  }

  /**
   * A token of only seven bits that was begun without a byte of input left is taken to its end, as if its
   * bytes had come in as literals.
   */
  lemma AfterShort(p: Params, all: seq<bool>, rem: seq<bool>, out: seq<byte>, token: nat, index: nat, count: nat)
    requires Legal(p)
    requires Pending(p, BackrefCountLsb, all, rem, out, token, index, count) && |rem| >= Low(p.l)
    requires |all| - token < 8
    ensures index >= 1 && rem[Low(p.l)..] == [] && IsShort(p, all, token)
    ensures var t, c := all[token..], Or(count, BitsNat(rem[..Low(p.l)])) + 1;
      && index == BitsNat(t[1..5]) + 1 && c == BitsNat(t[5..7]) + 1
      && Pending(p, YieldBackref, all[..token] + Literals(Copied(out, index, c)), [], out, token, index, c)
      && Decode(p, all[..token] + Literals(Copied(out, index, c)), []) == (CopyBack(out, index, c), [])
  {
    hide Decode, Pow2, BitsNat, Or, CopyBack;
    var t := all[token..];
    var at := 1 + p.w + High(p.l);
    assert t[at..] == rem;
    assert t[at..1 + p.w + p.l] == rem[..Low(p.l)];
    JoinField(t, 1, p.w);
    JoinField(t, 1 + p.w, p.l);
    ShortGoal(p, all, out, token, index, Or(count, BitsNat(rem[..Low(p.l)])) + 1);
  }

  lemma ShortGoal(p: Params, all: seq<bool>, out: seq<byte>, token: nat, d: nat, n: nat)
    requires Legal(p) && token <= |all| && 0 < |all| - token < 8 && d >= 1 && n >= 1
    requires Decode(p, all, []) == Decode(p, all[token..], out)
    ensures Decode(p, all[..token] + Literals(Copied(out, d, n)), []) == (CopyBack(out, d, n), [])
    ensures Decode(p, [], CopyBack(out, d, n)) == (CopyBack(out, d, n), [])
  {
    hide CopyBack, Decode, Literals;
    var x := Literals(Copied(out, d, n));
    DecodeStalled(p, all[token..], out);
    LiteralsSome(Copied(out, d, n));
    assert all == all[..token] + all[token..];
    DecodeOther(p, all[..token], [], all[token..], out, x);
    DecodeLiterals(p, Copied(out, d, n), out);
    assert out + Copied(out, d, n) == CopyBack(out, d, n);
    DecodeNothing(p, CopyBack(out, d, n));
  }

  lemma LiteralsSome(bytes: seq<byte>)
    ensures bytes != [] ==> Literals(bytes) != []
  {
  }

  lemma DecodeNothing(p: Params, out: seq<byte>)
    requires Legal(p)
    ensures Decode(p, [], out) == (out, [])
  {
  }

  /** How many bits a field-reading state asks for at once. */
  function Need(p: Params, s: State): nat
    requires Legal(p)
  {
    match s
    case YieldLiteral => 8
    case BackrefIndexMsb => High(p.w)
    case BackrefIndexLsb => Low(p.w)
    case BackrefCountMsb => High(p.l)
    case BackrefCountLsb => Low(p.l)
    case _ => 0
  }

  /** When a field cannot be read, everything decodable has been output already. */
  lemma Stalled(p: Params, s: State, all: seq<bool>, rem: seq<bool>, out: seq<byte>, token: nat, index: nat, count: nat)
    requires Legal(p)
    requires Pending(p, s, all, rem, out, token, index, count) && |rem| < Need(p, s)
    ensures Decode(p, all, []).0 == out
  {
    hide Decode, Pow2, BitsNat;
    DecodeStalled(p, all[token..], out);
  }

  /** The upper half of a field is only read when the field is wider than a byte. */
  lemma WideField(p: Params, s: State, all: seq<bool>, rem: seq<bool>, out: seq<byte>, token: nat, index: nat,
                  count: nat)
    requires Legal(p) && Pending(p, s, all, rem, out, token, index, count)
    ensures s == BackrefIndexMsb ==> p.w > 8
    ensures s == BackrefCountMsb ==> p.l > 8
    ensures s == YieldBackref ==> 1 <= index <= Pow2(p.w) && 1 <= count
  {
  }

  lemma IdleIsDone(p: Params, all: seq<bool>, rem: seq<bool>, out: seq<byte>, token: nat, index: nat, count: nat)
    requires Legal(p) && Pending(p, Empty, all, rem, out, token, index, count)
    ensures Decode(p, all, []) == (out, rem)
  {
  }

  lemma NextRound(p: Params, all: seq<bool>, rem: seq<bool>, out: seq<byte>, token: nat, index: nat, count: nat)
    requires Legal(p) && Pending(p, CheckForMoreInput, all, rem, out, token, index, count)
    ensures Pending(p, if |rem| < 8 then Empty else InputAvailable, all, rem, out, token, index, count)
  {
  }

  /** One copied byte leaves a shorter copy. */
  lemma CopyOne(p: Params, all: seq<bool>, rem: seq<bool>, out: seq<byte>, token: nat, index: nat, count: nat)
    requires Legal(p) && Pending(p, YieldBackref, all, rem, out, token, index, count)
    ensures Pending(p, if count > 1 then YieldBackref else CheckForMoreInput, all, rem, out + [At(out, index)],
                    token, index, count - 1)
  {
    hide Decode, Pow2, At;
  }

  /** Rank of a state among those that need no further input bit. */
  function Rank(s: State): nat {
    match s
    case YieldBackref => 3
    case CheckForMoreInput => 2
    case InputAvailable => 1
    case _ => 0
  }

  // ---- What a poll does to the stream taken in ----

  datatype View = View(s: State, seen: seq<bool>, rem: seq<bool>, token: nat, out: seq<byte>)

  /** Every token begun, or about to be, was fit to be. */
  ghost predicate Fair(p: Params, v: View) {
    && (v.s == InputAvailable ==> Startable(p, v.rem))
    && (InField(v.s) ==> v.token <= |v.seen| && Startable(p, v.seen[v.token..]))
  }

  /** Every token was begun with a byte of input left. */
  predicate Ample(v: View) {
    (v.s == InputAvailable ==> |v.rem| >= 8) && (InField(v.s) ==> |v.seen| - v.token >= 8)
  }

  predicate NoBit(v: View) { v.s == InputAvailable && v.rem == [] }

  /** The tag that was not there has been taken for that of a literal. */
  predicate Tagged(v0: View, v: View) {
    v.s == YieldLiteral && v.rem == [] && v.seen == v0.seen + [true] && v.out == v0.out
  }

  /** A whole seven-bit token is being read without a byte of input left. */
  ghost predicate InShort(p: Params, v: View) {
    && |v.seen| >= 7 && IsShort(p, v.seen, |v.seen| - 7)
    && match v.s
       case InputAvailable => v.rem == v.seen[|v.seen| - 7..]
       case BackrefIndexLsb => v.token == |v.seen| - 7 && |v.rem| == 6
       case BackrefCountLsb => v.token == |v.seen| - 7 && |v.rem| == 2
       case _ => false
  }

  /** That token has been read, and its copy will be delivered. */
  ghost predicate ShortRead(p: Params, v0: View, v: View)
    requires Legal(p) && |v0.seen| >= 7
  {
    Fair(p, v) && Decode(p, v.seen, []).0 == ShortCopy(v0.out, v0.seen[|v0.seen| - 7..])
  }

  /** What one turn of the machine does. */
  ghost predicate Moves(p: Params, v: View, v': View)
    requires Legal(p)
  {
    && (Fair(p, v) ==> Fair(p, v') && v'.seen == v.seen)
    && (Ample(v) ==> Ample(v') && v'.seen == v.seen)
    && (NoBit(v) ==> Tagged(v, v'))
    && (v.s == YieldLiteral && v.rem == [] ==> v' == v)
    && (InShort(p, v) ==> (InShort(p, v') && v'.seen == v.seen && v'.out == v.out) || ShortRead(p, v, v'))
  }

  lemma MoveEnter(p: Params, v: View, v': View)
    requires Legal(p) && v.s == InputAvailable && v'.out == v.out
    requires v.rem == [] ==> Tagged(v, v') && v'.token == |v.seen|
    requires v.rem != [] ==>
               && v'.seen == v.seen && |v.rem| <= |v.seen|
               && v'.token == |v.seen| - |v.rem| && v.seen[v'.token..] == v.rem
               && |v'.rem| == |v.rem| - 1
               && v'.s == if v.rem[0] then YieldLiteral else if p.w > 8 then BackrefIndexMsb else BackrefIndexLsb
    ensures Moves(p, v, v')
  {
    hide Decode, CopyBack, BitsNat;
  }

  /** A field is read, or not yet, inside one token. */
  lemma MoveField(p: Params, v: View, v': View)
    requires Legal(p) && (v.s == BackrefIndexMsb || v.s == BackrefIndexLsb || v.s == BackrefCountMsb)
    requires v'.seen == v.seen && v'.token == v.token && v'.out == v.out && InField(v'.s)
    requires v.s == BackrefIndexLsb && Low(p.w) <= |v.rem| ==>
               v'.s == (if p.l > 8 then BackrefCountMsb else BackrefCountLsb) && |v'.rem| == |v.rem| - Low(p.w)
    ensures Moves(p, v, v')
  {
    hide Decode, CopyBack, BitsNat;
  }

  lemma MoveCount(p: Params, v: View, v': View)
    requires Legal(p) && v.s == BackrefCountLsb && v'.token == v.token <= |v.seen| && v'.out == v.out
    requires v'.s == BackrefCountLsb ==> v' == v && |v.rem| < Low(p.l)
    requires v'.s == BackrefCountLsb || v'.s == YieldBackref
    requires |v.seen| - v.token >= 8 ==> v'.seen == v.seen
    requires |v.seen| - v.token < 8 && v'.s != BackrefCountLsb ==>
               IsShort(p, v.seen, v.token) && Decode(p, v'.seen, []).0 == ShortCopy(v.out, v.seen[v.token..])
    ensures Moves(p, v, v')
  {
    hide Decode, CopyBack, BitsNat;
  }

  lemma MoveOut(p: Params, v: View, v': View)
    requires Legal(p) && (v.s == YieldLiteral || v.s == YieldBackref || v.s == CheckForMoreInput)
    requires v'.seen == v.seen && v'.token == v.token
    requires v.s == YieldLiteral ==> (v' == v || v'.s == CheckForMoreInput) && (v.rem == [] ==> v' == v)
    requires v.s == YieldBackref ==> v'.s == YieldBackref || v'.s == CheckForMoreInput
    requires v.s == CheckForMoreInput ==> v'.s == Empty || (v'.s == InputAvailable && |v'.rem| >= 8)
    ensures Moves(p, v, v')
  {
    hide Decode, CopyBack, BitsNat;
  }

  /** What any number of turns does. */
  ghost predicate Since(p: Params, v0: View, v: View)
    requires Legal(p)
  {
    && (Fair(p, v0) ==> Fair(p, v) && v.seen == v0.seen)
    && (Ample(v0) ==> Ample(v) && v.seen == v0.seen)
    && (NoBit(v0) ==> v == v0 || Tagged(v0, v))
    && (InShort(p, v0) ==> (InShort(p, v) && v.seen == v0.seen && v.out == v0.out) || ShortRead(p, v0, v))
  }

  lemma SinceStart(p: Params, v: View)
    requires Legal(p)
    ensures Since(p, v, v)
  {
  }

  lemma SinceNext(p: Params, v0: View, v: View, v': View)
    requires Legal(p) && Since(p, v0, v) && Moves(p, v, v')
    ensures Since(p, v0, v')
  {
    hide Decode, CopyBack, BitsNat, Fair;
  }

  /** A machine at rest inside a token waits for bits that are not there yet. */
  lemma RestIsFair(p: Params, v: View, index: nat, count: nat)
    requires Legal(p) && Pending(p, v.s, v.seen, v.rem, v.out, v.token, index, count)
    requires Need(p, v.s) > 0 && |v.rem| < 8 ==> |v.rem| < Need(p, v.s)
    requires v.s == InputAvailable ==> Startable(p, v.rem)
    ensures Fair(p, v)
  {
    hide Decode, BitsNat, Pow2;
  }

  lemma RestIsNotShort(p: Params, v: View)
    requires Legal(p) && v.s != InputAvailable && (Need(p, v.s) > 0 && |v.rem| < 8 ==> |v.rem| < Need(p, v.s))
    ensures !InShort(p, v)
  {
  }
}
