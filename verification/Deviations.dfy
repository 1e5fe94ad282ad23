/** Runs of the encoder and the decoder in which they do not do what one would expect. */
module Deviations {
  import opened BitString
  import opened Lzss
  import opened MatchSearch
  import opened TokenChoice
  import EM = EncoderModel
  import E = Encoder
  import DM = DecoderModel
  import D = Decoder
  import opened RoundTrip

  // ---- A tail is lost ----

  function Four(c: byte): seq<byte> { [c, c, c, c] }

  function FourTokens(c: byte): seq<Token> { [Literal(c), Backref(1, 3)] }

  /** With a window of four bits and a lookahead of two, four equal bytes call for a literal and a copy of three. */
  lemma FourChosen(c: byte)
    ensures Chosen(Params(4, 2), Four(c), FourTokens(c)) && Span(FourTokens(c)) == 4
  {
    Powers();
    var p, data, ts := Params(4, 2), Four(c), FourTokens(c);
    assert ts[..0] == [] && ts[..1] == [Literal(c)] && ts[..1][..0] == [];
    assert SpotAt(p, 4, ts[..0]) == SpotAt(p, 4, ts[..1]) == Spot(0, 0);
    assert Span(ts[..0]) == 0 && Span(ts[..1]) == 1;
    assert MatchLen(data, 0, 1, 3) == 3;
    assert RightToken(p, data, Spot(0, 0), 0, ts[0]);
    assert RightToken(p, data, Spot(0, 0), 1, ts[1]);
  }

  lemma FourBits(c: byte)
    ensures var p, ts := Params(4, 2), FourTokens(c);
      && AllFit(p, ts) && |TokensBits(p, ts)| == 16 && Expand(p, ts) == Four(c)
      && Decode(p, TokensBits(p, ts), []) == ([c], TokenBits(p, Backref(1, 3)))
  {
    Powers();
    var p, ts := Params(4, 2), FourTokens(c);
    assert ts[..1] == [Literal(c)] && ts[..1][..0] == [];
    CopyThree(c);
    assert Expand(p, ts[..1]) == [] + [c] == [c];
    assert |TokenBits(p, ts[1])| == 7 && !LastTokenStarts(p, ts, []);
    hide Decode;
    DecodeEncoded(p, ts, []);
    assert TokensBits(p, ts) + [] == TokensBits(p, ts);
    assert TokenBits(p, ts[1]) + [] == TokenBits(p, ts[1]);
  }

  lemma CopyThree(c: byte)
    ensures CopyBack([c], 1, 3) == Four(c)
  {
    assert CopyBack([c], 1, 3) == CopyBack([c, c], 1, 2) == CopyBack([c, c, c], 1, 1) == [c, c, c, c];
  }

  lemma FourPacked(c: byte, ts: seq<Token>, packed: seq<byte>)
    requires PacksTo(Params(4, 2), Four(c), ts, packed)
    ensures ts == FourTokens(c) && |packed| == 2 && Bits(packed) == TokensBits(Params(4, 2), ts)
  {
    hide Chosen, Expand, TokensBits, Bits;
    FourChosen(c);
    FourBits(c);
    OneChoice(Params(4, 2), Four(c), ts, FourTokens(c));
    assert TokensBits(Params(4, 2), ts) + EM.Zeros(0) == TokensBits(Params(4, 2), ts);
  }

  /** In numbers: a one and the literal, then a zero, the distance less one and the length less one. */
  function FourPack(c: byte): seq<byte> { [128 + c / 2, if c % 2 == 1 then 130 else 2] }

  lemma FourBytes(c: byte, packed: seq<byte>)
    requires |packed| == 2 && Bits(packed) == TokensBits(Params(4, 2), FourTokens(c))
    ensures packed == FourPack(c)
  {
    hide NatBits, ByteBits, Bits, TokensBits;
    var b := FourPack(c);
    FirstByte(c);
    SecondByte(c);
    TwoBytes(b[0], b[1]);
    FourSpelled(c);
    Recut(ByteBits(c), [false] + NatBits(0, 4) + NatBits(2, 2));
    SameBits(packed, b);
  }

  lemma FourSpelled(c: byte)
    ensures TokensBits(Params(4, 2), FourTokens(c))
         == ([true] + ByteBits(c)) + ([false] + NatBits(0, 4) + NatBits(2, 2))
  {
    hide NatBits, ByteBits;
    var p, ts := Params(4, 2), FourTokens(c);
    assert ts[..1] == [Literal(c)] && ts[..1][..0] == [];
    assert TokensBits(p, ts[..1]) == [] + TokenBits(p, Literal(c)) == [true] + ByteBits(c);
    assert TokenBits(p, ts[1]) == [false] + NatBits(0, 4) + NatBits(2, 2);
    assert TokensBits(p, ts) == TokensBits(p, ts[..1]) + TokenBits(p, ts[1]);
  }

  lemma TwoBytes(a: byte, b: byte)
    ensures Bits([a, b]) == ByteBits(a) + ByteBits(b)
  {
    hide ByteBits;
    assert [a, b] == [a] + [b] && [a] == [] + [a];
    BitsPush([a], b);
    BitsPush([], a);
  }

  lemma Recut(a: seq<bool>, b: seq<bool>)
    requires |a| == 8
    ensures ([true] + a[..7]) + ([a[7]] + b) == ([true] + a) + b
  {
    assert a == a[..7] + [a[7]];
  }

  lemma FirstByte(c: byte)
    ensures ByteBits(128 + c / 2) == [true] + ByteBits(c)[..7]
  {
    Powers();
    ByteIsField(c);
    ByteIsField(128 + c / 2);
    TopBit(c / 2, 7, true);
    assert ByteBits(c)[..7] == NatBits(c / 2, 7);
  }

  lemma SecondByte(c: byte)
    ensures ByteBits(if c % 2 == 1 then 130 else 2) == [ByteBits(c)[7]] + ([false] + NatBits(0, 4) + NatBits(2, 2))
  {
    LastBit(c);
    Powers();
    hide NatBits, ByteBits, Pow2;
    var odd := c % 2 == 1;
    ByteIsField(if odd then 130 else 2);
    TopBit(2, 7, odd);
    TopBit(2, 6, false);
    FourFields();
  }

  lemma LastBit(c: byte)
    ensures ByteBits(c)[7] <==> c % 2 == 1
  {
    hide Digit, ByteBits;
    ByteDigits(c, 7);
    DigitUp(c, 0);
  }

  lemma FourFields()
    ensures NatBits(2, 6) == NatBits(0, 4) + NatBits(2, 2)
  {
    SplitField(2, 6, 2);
  }

  /**
   * Whatever the cuts, four equal bytes packed with the smallest parameters come back as one: the decoder
   * never begins the last token.
   */
  method SmallestLosesTail(c: byte, useIndex: bool, inputBufferSize: nat, piecesIn: nat -> nat, sizesIn: nat -> nat,
                           piecesOut: nat -> nat, sizesOut: nat -> nat)
    returns (d: D.HeatshrinkDecoder, packed: seq<byte>, out: seq<byte>)
    requires 0 < inputBufferSize < 65536
    requires (forall i :: piecesIn(i) > 0) && (forall i :: sizesIn(i) > 0)
    requires (forall i :: piecesOut(i) > 0) && (forall i :: sizesOut(i) > 0)
    ensures packed == FourPack(c) && out == [c]
    ensures fresh(d) && fresh(d.buffers) && d.out == out && d.p == Params(4, 2)
    ensures d.Valid() && d.Regular() && d.inputSize == 0 && d.sunk == packed
    ensures Bits(packed) == TokensBits(d.p, FourTokens(c))
  {
    hide *;
    SmallestSuits();
    var e;
    e, packed := Compress(Params(4, 2), useIndex, Four(c), piecesIn, sizesIn);
    FourPacked(c, e.tokens, packed);
    FourBytes(c, packed);
    d, out := Decompress(Params(4, 2), packed, inputBufferSize, piecesOut, sizesOut);
    FourBits(c);
  }

  lemma SmallestSuits()
    ensures E.Usable(Params(4, 2)) && Legal(Params(4, 2))
  {
  }

  /** A zero-length sink and a poll afterwards bring out the tail: the token is begun although no byte is left. */
  method ZeroSinkRecovers(c: byte, useIndex: bool, pieces: nat -> nat, sizes: nat -> nat) returns (out: seq<byte>)
    requires (forall i :: pieces(i) > 0) && (forall i :: sizes(i) > 0)
    ensures out == Four(c)
  {
    hide *;
    var d, packed, first := SmallestLosesTail(c, useIndex, 1, pieces, sizes, pieces, sizes);
    TailWaits(d, c);
    var res, n := d.Sink([]);
    NothingAdded(d.rem, d.seen);
    TailReady(d, c);
    var buf := new byte[8];
    var res2, k := d.Poll(buf, 8);
    OutputSoFar(d);
    TailCopy(c);
    FourLong(c);
    out := first + buf[..k];
  }

  lemma FourLong(c: byte)
    ensures |Four(c)| == 4
  {
  }

  lemma NothingAdded(a: seq<bool>, b: seq<bool>)
    ensures forall x: seq<bool> :: x + Bits([][..0]) == x
  {
  }

  /** Drained, the decoder waits with the last token's seven bits unread. */
  lemma TailWaits(d: D.HeatshrinkDecoder, c: byte)
    requires d.Valid() && d.Regular() && d.p == Params(4, 2)
    requires Bits(d.sunk) == TokensBits(d.p, FourTokens(c)) && d.out == [c]
    ensures d.state == DM.Empty && d.rem == TokenBits(d.p, Backref(1, 3)) && |d.seen| == 16 && d.seen[9..] == d.rem
  {
    hide Pow2, Decode, Bits, TokensBits, TokenBits, d.WindowOk, d.ReaderOk, DM.InToken, CopyBack;
    FourBits(c);
    DrainedIsIdle(d.p, d.state, d.seen, d.rem, d.out, d.tokenStart, d.outputIndex, d.outputCount);
    DM.IdleIsDone(d.p, d.seen, d.rem, d.out, d.tokenStart, d.outputIndex, d.outputCount);
  }

  lemma TailReady(d: D.HeatshrinkDecoder, c: byte)
    requires d.Valid() && d.p == Params(4, 2) && d.state == DM.InputAvailable && d.rem == TokenBits(d.p, Backref(1, 3))
    requires |d.seen| == 16 && d.seen[9..] == d.rem
    ensures DM.InShort(d.p, d.Now(d.state)) && d.seen[|d.seen| - 7..] == d.rem
  {
    hide Pow2, d.Valid;
  }

  lemma TailCopy(c: byte)
    ensures DM.ShortCopy([c], TokenBits(Params(4, 2), Backref(1, 3))) == Four(c)
  {
    Powers();
    hide BitsNat, NatBits, CopyBack, Pow2;
    FieldSlices(false, NatBits(0, 4), NatBits(2, 2));
    ReadFields(Params(4, 2), 1, 3);
    CopyThree(c);
  }

  // ---- A match costs more than it saves ----

  const RECURRING: seq<byte> := [1, 2, 3, 4, 5, 1, 2, 3]

  function RecurringTokens(): seq<Token> {
    [Literal(1), Literal(2), Literal(3), Literal(4), Literal(5), Backref(5, 3)]
  }

  lemma FirstFive(pos: nat)
    requires pos < 5
    ensures Answers(RECURRING, 0, pos, 8 - pos, MATCH_NOT_FOUND, 0)
  {
    var cap := 8 - pos;
    forall q | 0 <= q < pos ensures MatchLen(RECURRING, q, pos, cap) == 0 {
      assert !EqualAt(RECURRING, q, pos, 0);
    }
  }

  lemma LastThree()
    ensures Answers(RECURRING, 0, 5, 3, 5, 3)
  {
    assert MatchLen(RECURRING, 0, 5, 3) == 3;
    forall q | 1 <= q < 5 ensures MatchLen(RECURRING, q, 5, 3) == 0 {
      assert !EqualAt(RECURRING, q, 5, 0);
    }
  }

  lemma RecurringSpot(k: nat)
    requires k <= 5
    ensures var ts := RecurringTokens()[..k];
      SpotAt(Params(14, 13), 8, ts) == Spot(0, 0) && Span(ts) == k
    decreases k
  {
    Powers();
    if k > 0 {
      assert RecurringTokens()[..k][..k - 1] == RecurringTokens()[..k - 1];
      RecurringSpot(k - 1);
    }
  }

  /** At the widest, five different bytes and three of them again call for five literals and a copy. */
  lemma RecurringChosen()
    ensures Chosen(Params(14, 13), RECURRING, RecurringTokens()) && Span(RecurringTokens()) == 8
  {
    Powers();
    var p, ts := Params(14, 13), RecurringTokens();
    forall i | 0 <= i < 6 ensures RightToken(p, RECURRING, SpotAt(p, 8, ts[..i]), Span(ts[..i]), ts[i]) {
      RecurringSpot(i);
      if i < 5 { FirstFive(i); } else { LastThree(); }
      hide Answers, SpotAt, Span;
    }
    RecurringSpot(5);
    assert ts[..5] == ts[..|ts| - 1];
  }

  lemma {:induction false} LiteralBits(k: nat)
    requires k <= 5
    ensures var p, ts := Params(14, 13), RecurringTokens()[..k]; AllFit(p, ts) && |TokensBits(p, ts)| == 9 * k
    decreases k
  {
    hide TokenBits, ByteBits, NatBits, Pow2;
    if k > 0 {
      assert RecurringTokens()[..k][..k - 1] == RecurringTokens()[..k - 1];
      LiteralBits(k - 1);
    }
  }

  lemma RecurringBits()
    ensures AllFit(Params(14, 13), RecurringTokens()) && |TokensBits(Params(14, 13), RecurringTokens())| == 73
  {
    Powers();
    LiteralBits(5);
    assert RecurringTokens()[..5] == RecurringTokens()[..|RecurringTokens()| - 1];
  }

  /** Whatever the cuts, eight bytes packed at w = 14 and l = 13 take ten, one more than nine bits a byte would. */
  method WidestFieldsExceed(useIndex: bool, pieces: nat -> nat, sizes: nat -> nat) returns (packed: seq<byte>)
    requires (forall i :: pieces(i) > 0) && (forall i :: sizes(i) > 0)
    ensures |packed| == 10 > (9 * |RECURRING| + 7) / 8
  {
    hide Chosen, Expand, TokensBits, Bits, EM.Zeros, PacksTo;
    WidestSuits();
    var e;
    e, packed := Compress(Params(14, 13), useIndex, RECURRING, pieces, sizes);
    RecurringPacked(e.tokens, packed);
  }

  lemma WidestSuits()
    ensures E.Usable(Params(14, 13))
  {
  }

  lemma RecurringPacked(ts: seq<Token>, packed: seq<byte>)
    requires PacksTo(Params(14, 13), RECURRING, ts, packed)
    ensures |packed| == 10
  {
    hide Chosen, Expand, TokensBits, Bits, EM.Zeros, Span;
    RecurringChosen();
    RecurringBits();
    OneChoice(Params(14, 13), RECURRING, ts, RecurringTokens());
  }

  // ---- A byte is held back ----

  /**
   * One byte packed, polled with room for one: the poll reports that it is empty, yet finishing asks for more
   * and another poll brings a second byte.
   */
  method HeldBack(p: Params, c: byte) returns (res: E.PollRes, finish: E.FinishRes, more: nat)
    requires E.Usable(p)
    ensures res == E.PollEmpty && finish == E.FinishMore && more == 1
  {
    hide *;
    var e := new E.HeatshrinkEncoder(p, false);
    Phases(e);
    var sunk, n := e.Sink([c]);
    var _ := e.Finish();
    var buf := new byte[1];
    var k;
    res, k := e.Poll(buf, 1);
    Phases(e);
    OneByteOut(e);
    finish := e.Finish();
    var res2;
    res2, more := e.Poll(buf, 1);
    OneByteOut(e);
  }

  /** With one byte sunk, nine bits are the most: eight of them are the byte that is out, and one is left. */
  lemma OneByteOut(e: E.HeatshrinkEncoder)
    requires e.Valid() && |e.sunk| == 1
    ensures E.Yields(e.state) ==> |e.emitted| == 0
    ensures e.state == EM.Done ==> |e.emitted| == 2
    ensures e.state == EM.FlushBits ==> |e.emitted| == 1
  {
    hide Pow2, Bits, e.WindowOk, e.IndexOk, e.PhaseOk, e.Choosing;
    if e.state == EM.Done || e.state == EM.FlushBits {
      OneToken(e.p, e.tokens);
    }
  }

  lemma OneToken(p: Params, ts: seq<Token>)
    requires AllFit(p, ts) && AllEmittable(p, ts) && |Expand(p, ts)| == 1
    ensures |TokensBits(p, ts)| == 9
  {
    ExpandAtLeast(p, ts);
    assert Emittable(p, ts[0]) && ts[..0] == [];
  }

  lemma {:induction false} ExpandAtLeast(p: Params, ts: seq<Token>)
    requires AllFit(p, ts)
    ensures |Expand(p, ts)| >= |ts|
    decreases |ts|
  {
    if ts != [] {
      ExpandAtLeast(p, ts[..|ts| - 1]);
      ApplyGrows(p, Expand(p, ts[..|ts| - 1]), ts[|ts| - 1]);
    }
  }

  // ---- A tag is read where there is none ----

  /**
   * A zero-length sink and a poll on a fresh decoder: the tag that is not there is taken for that of a literal,
   * so a byte sunk afterwards comes out as it is, although its first bit makes it the beginning of a token that
   * is not complete.
   */
  method ZeroSinkSpoils(p: Params, c: byte) returns (out: seq<byte>)
    requires Legal(p) && c >= 128
    ensures out == [c] && Decode(p, Bits([c]), []).0 == []
  {
    hide *;
    var d := new D.HeatshrinkDecoder(p, 1);
    var res, n := d.Sink([]);
    NothingAdded([], []);
    PollNothing(d);
    LegalParams(d);
    var res3, m := d.Sink([c]);
    assert [c][..1] == [c] && d.seen == [true] + Bits([c]);
    var buf := new byte[2];
    CleanInside(d);
    var res4, j := d.Poll(buf, 2);
    OutputSoFar(d);
    DecodedIs(d);
    Untagged(p, c);
    assert d.out == buf[..j];
    out := buf[..j];
  }

  /** Polling a decoder that was told of input but given none. */
  method PollNothing(d: D.HeatshrinkDecoder)
    requires d.Valid() && d.state == DM.InputAvailable && d.rem == []
    modifies d, d.buffers
    ensures d.Valid() && d.state == DM.YieldLiteral && d.rem == [] && d.inputSize == 0
    ensures d.seen == old(d.seen) + [true] && d.out == old(d.out) && d.sunk == old(d.sunk)
  {
    hide d.Valid, d.Regular, d.Decoded, DM.InShort;
    var buf := new byte[1];
    var res, k := d.Poll(buf, 1);
    NoInput(d);
  }

  lemma NoInput(d: D.HeatshrinkDecoder)
    requires d.Valid() && d.rem == []
    ensures d.inputSize == 0
  {
    hide Pow2, DM.Pending, DM.RingHolds;
    d.Drained();
  }

  lemma CleanInside(d: D.HeatshrinkDecoder)
    requires d.Valid() && d.state == DM.YieldLiteral
    ensures Legal(d.p) && d.Clean()
  {
    hide Pow2, DM.Pending, DM.RingHolds, DM.Unread;
  }

  lemma DecodedIs(d: D.HeatshrinkDecoder)
    requires Legal(d.p)
    ensures d.Decoded() == Decode(d.p, d.seen, []).0
  {
  }

  lemma Untagged(p: Params, c: byte)
    requires Legal(p) && c >= 128
    ensures Decode(p, [true] + Bits([c]), []).0 == [c] && Decode(p, Bits([c]), []).0 == []
  {
    Powers();
    ShiftIsDivision(c);
    assert Bits([c]) == ByteBits(c) && ByteBits(c)[0];
    assert Literals([c]) == [true] + ByteBits(c);
    DecodeLiterals(p, [c], []);
    assert [] + [c] == [c];
  }
}
