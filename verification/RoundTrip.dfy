/** Encoder and decoder together: what goes in comes out, however the calls are cut up. */
module RoundTrip {
  import opened BitString
  import opened Lzss
  import opened TokenChoice
  import opened Reach
  import EM = EncoderModel
  import E = Encoder
  import DM = DecoderModel
  import D = Decoder

  // ---- What a finished encoder has written ----

  lemma TokenCost(p: Params, ts: seq<Token>, t: Token, n: nat, total: nat)
    requires AllFit(p, ts) && AllEmittable(p, ts) && Fits(p, t) && Emittable(p, t) && p.w + p.l <= 27
    requires n <= |TokensBits(p, ts)| + |TokenBits(p, t)| && |Expand(p, ts + [t])| <= total
    ensures 3 * n <= 28 * total
    ensures p.w + p.l <= 26 ==> n <= 9 * total
  {
    assert (ts + [t])[..|ts|] == ts;
    SizeBound(p, ts + [t]);
  }

  /** At no time are more bits written than the size bound allows for the bytes taken in. */
  lemma BitsBound(p: Params, s: EM.State, sunk: seq<byte>, pos: nat, ts: seq<Token>, bits: seq<bool>,
                  len: nat, dist: nat, ob: nat, oc: nat)
    requires EM.Encodes(p, s, sunk, pos, ts, bits, len, dist, ob, oc) && p.w + p.l <= 27
    ensures 3 * |bits| <= 28 * |sunk|
    ensures p.w + p.l <= 26 ==> |bits| <= 9 * |sunk|
  {
    hide TokensBits, CopyBack, NatBits;
    SizeBound(p, ts);
    match s {
      case YieldLiteral => TokenCost(p, ts, Literal(sunk[pos]), |bits|, |sunk|);
      case YieldBrIndex => TokenCost(p, ts, Backref(dist, len), |bits|, |sunk|);
      case YieldBrLength => TokenCost(p, ts, Backref(dist, len), |bits|, |sunk|);
      case _ =>
    }
  }

  /** At any time the bytes out: nine bits for each byte in, rounded up, unless w + l = 27. */
  lemma EmittedBound(e: E.HeatshrinkEncoder)
    requires e.Valid()
    ensures |e.emitted| <= 2 * |e.sunk|
    ensures e.p.w + e.p.l <= 26 ==> |e.emitted| <= (9 * |e.sunk| + 7) / 8
  {
    hide EM.Encodes, Bits, Pow2, BitsNat, e.WindowOk, e.IndexOk, e.PhaseOk;
    BitsBound(e.p, e.state, e.sunk, e.Pos(), e.tokens, e.bits, e.matchLength, e.matchPos,
              e.outgoingBits, e.outgoingBitsCount);
  }

  /** The bits of a finished encoder are its tokens and fewer than eight zeros, and the tokens are the input. */
  lemma FinishedStream(e: E.HeatshrinkEncoder)
    requires e.Valid() && e.state == EM.Done
    ensures AllFit(e.p, e.tokens) && AllEmittable(e.p, e.tokens) && Expand(e.p, e.tokens) == e.sunk
    ensures var n := 8 * |e.emitted| - |TokensBits(e.p, e.tokens)|;
      0 <= n < 8 && Bits(e.emitted) == TokensBits(e.p, e.tokens) + EM.Zeros(n)
  {
    hide Bits, Pow2, TokensBits, EM.Zeros, e.WindowOk, e.IndexOk, e.PhaseOk, e.Choosing;
    assert e.sunk[..|e.sunk|] == e.sunk;
  }

  /** `packed` is the encoding of the tokens the data calls for, padded with fewer than eight zeros. */
  ghost predicate PacksTo(p: Params, data: seq<byte>, ts: seq<Token>, packed: seq<byte>) {
    && AllFit(p, ts) && Chosen(p, data, ts) && Span(ts) == |data| && Expand(p, ts) == data
    && |TokensBits(p, ts)| <= 8 * |packed| < |TokensBits(p, ts)| + 8
    && Bits(packed) == TokensBits(p, ts) + EM.Zeros(8 * |packed| - |TokensBits(p, ts)|)
  }

  /** There is one packing of the data, so it cannot depend on how the data was cut or searched. */
  lemma OnePacking(p: Params, data: seq<byte>, ts: seq<Token>, a: seq<byte>, us: seq<Token>, b: seq<byte>)
    requires PacksTo(p, data, ts, a) && PacksTo(p, data, us, b)
    ensures ts == us && a == b
  {
    hide Bits, TokensBits, EM.Zeros, Expand, Chosen, Span;
    OneChoice(p, data, ts, us);
    SameBits(a, b);
  }

  /** What the packing is: no token is beaten by anything within the reach of the search. */
  lemma PackingReaches(p: Params, data: seq<byte>, ts: seq<Token>, packed: seq<byte>)
    requires E.Usable(p) && PacksTo(p, data, ts, packed)
    ensures AllUnbeaten(p, data, ts)
  {
    hide Bits, TokensBits, EM.Zeros, Expand, Chosen, Span, Pow2, AllUnbeaten;
    E.Sizes(p);
    ReachFar(p, data, ts);
  }

  lemma {:induction false} SameBits(a: seq<byte>, b: seq<byte>)
    requires |a| == |b| && Bits(a) == Bits(b)
    ensures a == b
    decreases |a|
  {
    if a != [] {
      var n := |a| - 1;
      assert a == a[..n] + [a[n]] && b == b[..n] + [b[n]];
      BitsPush(a[..n], a[n]);
      BitsPush(b[..n], b[n]);
      hide ByteBits;
      assert Bits(a)[8 * n..] == ByteBits(a[n]) && Bits(b)[8 * n..] == ByteBits(b[n]);
      assert Bits(a)[..8 * n] == Bits(a[..n]) && Bits(b)[..8 * n] == Bits(b[..n]);
      ReadByte(a[n]);
      ReadByte(b[n]);
      SameBits(a[..n], b[..n]);
    }
  }

  lemma FinishedPacks(e: E.HeatshrinkEncoder)
    requires e.Valid() && e.state == EM.Done && e.orderly
    ensures PacksTo(e.p, e.sunk, e.tokens, e.emitted)
  {
    hide Bits, Pow2, TokensBits, EM.Zeros, e.WindowOk, e.IndexOk, e.PhaseOk, Chosen, Expand;
    FinishedStream(e);
    SpanIs(e.p, e.tokens);
  }

  lemma {:induction false} SpanIs(p: Params, ts: seq<Token>)
    requires AllFit(p, ts)
    ensures Span(ts) == |Expand(p, ts)|
    decreases |ts|
  {
    if ts != [] { SpanIs(p, ts[..|ts| - 1]); }
  }

  // ---- What a drained decoder has delivered ----

  /** If nothing decodable is held back and less than a byte is left over, the machine is idle. */
  lemma DrainedIsIdle(p: Params, s: DM.State, all: seq<bool>, rem: seq<bool>, out: seq<byte>,
                      token: nat, index: nat, count: nat)
    requires Legal(p) && DM.Pending(p, s, all, rem, out, token, index, count)
    requires Decode(p, all, []).0 == out && |Decode(p, all, []).1| < 8
    requires s == DM.InputAvailable ==> |rem| >= 8
    requires DM.InField(s) ==> |all| - token >= 8
    ensures s == DM.Empty || s == DM.CheckForMoreInput
  {
    hide Decode, CopyBack, Pow2, BitsNat, DM.IsSuffix;
    match s {
      case Empty =>
      case CheckForMoreInput =>
      case InputAvailable => DecodeGrows(p, rem, out);
      case YieldBackref =>
      case _ => DecodeGrows(p, all[token..], out);
    }
  }

  // ---- Round trip ----

  /**
   * A decoder fed with a finished encoder's output stands for all of the encoder's input exactly when the
   * start rule lets the last token begin.
   */
  lemma RoundTripExactly(e: E.HeatshrinkEncoder, d: D.HeatshrinkDecoder)
    requires e.Valid() && e.state == EM.Done && d.Valid() && d.Regular() && d.p == e.p && d.sunk == e.emitted
    ensures AllFit(e.p, e.tokens) && |TokensBits(e.p, e.tokens)| <= 8 * |e.emitted|
    ensures d.Decoded() == e.sunk
       <==> LastTokenStarts(e.p, e.tokens, EM.Zeros(8 * |e.emitted| - |TokensBits(e.p, e.tokens)|))
    ensures d.Decoded() == e.sunk ==> |Decode(d.p, d.seen, []).1| < 8
  {
    hide Bits, Pow2, TokensBits, EM.Zeros, Decode, LastTokenStarts, d.WindowOk, d.ProgressOk, e.Valid;
    FinishedStream(e);
    DecodeEncoded(e.p, e.tokens, EM.Zeros(8 * |e.emitted| - |TokensBits(e.p, e.tokens)|));
  }

  /**
   * For every parameter pair but the smallest: whatever calls brought a finished encoder and a decoder
   * fed with its output to their present states, the decoder stands for the encoder's input, and once
   * nothing decodable is held back it has delivered exactly that and is idle.
   */
  lemma RoundTrips(e: E.HeatshrinkEncoder, d: D.HeatshrinkDecoder)
    requires e.Valid() && e.state == EM.Done && d.Valid() && d.Regular() && d.p == e.p && d.sunk == e.emitted
    requires e.p.w + e.p.l >= 7
    ensures d.Decoded() == e.sunk
    ensures d.out == d.Decoded() ==> d.out == e.sunk && d.state == DM.Empty
  {
    hide Bits, Pow2, TokensBits, EM.Zeros, Decode, LastTokenStarts, DM.Pending, e.Valid, d.WindowOk;
    RoundTripExactly(e, d);
    StartRuleHarmless(e.p, e.tokens, EM.Zeros(8 * |e.emitted| - |TokensBits(e.p, e.tokens)|));
    if d.out == d.Decoded() {
      DrainedIsIdle(d.p, d.state, d.seen, d.rem, d.out, d.tokenStart, d.outputIndex, d.outputCount);
    }
  }

  // ---- Driving the two machines as their headers ask ----

  /** Poll until no more output is reported, with output buffers of any sizes. */
  method Drain(e: E.HeatshrinkEncoder, sizes: nat -> nat, k0: nat) returns (out: seq<byte>, k: nat)
    requires e.Valid() && forall i :: sizes(i) > 0
    modifies e, e.buffer, e.index
    ensures e.Valid() && e.sunk == old(e.sunk) && e.isFinishing == old(e.isFinishing) && e.orderly == old(e.orderly)
    ensures e.emitted == old(e.emitted) + out && E.Resting(e.state)
    ensures old(e.state) == EM.FlushBits ==> e.state == EM.Done
  {
    hide *;
    out, k := [], k0;
    var more := true;
    while more
      invariant e.Valid() && e.sunk == old(e.sunk) && e.isFinishing == old(e.isFinishing) && e.orderly == old(e.orderly)
      invariant e.emitted == old(e.emitted) + out
      invariant !more ==> E.Resting(e.state)
      invariant more && old(e.state) == EM.FlushBits ==> e.state == EM.FlushBits
      invariant !more && old(e.state) == EM.FlushBits ==> e.state == EM.Done
      decreases more, 2 * |e.sunk| - |e.emitted|
    {
      EmittedBound(e);
      var buf := new byte[sizes(k)];
      var res, n := e.Poll(buf, buf.Length);
      out, k := out + buf[..n], k + 1;
      more := res == E.PollMore;
      EmittedBound(e);
    }
  }

  /** Sink all data in pieces of any non-empty sizes, draining after each, then finish and drain to the end. */
  method Compress(p: Params, useIndex: bool, data: seq<byte>, pieces: nat -> nat, sizes: nat -> nat)
    returns (e: E.HeatshrinkEncoder, out: seq<byte>)
    requires E.Usable(p) && (forall i :: pieces(i) > 0) && (forall i :: sizes(i) > 0)
    ensures fresh(e) && e.Valid() && e.state == EM.Done && e.p == p && e.sunk == data && e.emitted == out
    ensures PacksTo(p, data, e.tokens, out) && AllUnbeaten(p, data, e.tokens)
  {
    hide *;
    e := new E.HeatshrinkEncoder(p, useIndex);
    out := [];
    var at, i, k := 0, 0, 0;
    while at < |data|
      invariant fresh(e) && fresh(e.buffer) && fresh(e.index) && e.p == p && e.Valid()
      invariant at <= |data| && e.sunk == data[..at] && e.emitted == out
      invariant e.state == EM.NotFull && e.orderly
    {
      var piece := if pieces(i) < |data| - at then data[at..at + pieces(i)] else data[at..];
      Phases(e);
      var res, n := e.Sink(piece);
      Phases(e);
      var got: seq<byte>;
      got, k := Drain(e, sizes, k);
      Phases(e);
      NextPiece(data, at, piece, n);
      at, i, out := at + n, i + 1, out + got;
    }
    var res := e.Finish();
    while res == E.FinishMore
      invariant fresh(e) && fresh(e.buffer) && fresh(e.index) && e.p == p && e.Valid()
      invariant e.sunk == data && e.emitted == out && e.isFinishing && e.orderly
      invariant res == E.FinishDone <==> e.state == EM.Done
      decreases if e.state == EM.Done then 0 else if e.state == EM.FlushBits then 1 else 2
    {
      var got: seq<byte>;
      got, k := Drain(e, sizes, k);
      Phases(e);
      out := out + got;
      res := e.Finish();
    }
    FinishedPacks(e);
    PackingReaches(p, data, e.tokens, out);
  }

  lemma NextPiece(data: seq<byte>, at: nat, piece: seq<byte>, n: nat)
    requires at + |piece| <= |data| && piece == data[at..at + |piece|] && n <= |piece|
    ensures data[..at] + piece[..n] == data[..at + n]
  {
  }

  lemma Phases(e: E.HeatshrinkEncoder)
    requires e.Valid()
    ensures e.state == EM.NotFull ==> !e.isFinishing && e.inputSize < Pow2(e.p.w)
    ensures E.Resting(e.state) ==> (e.state == EM.NotFull <==> !e.isFinishing)
    ensures E.Resting(e.state) <==> e.state == EM.NotFull || e.state == EM.FlushBits || e.state == EM.Done
  {
    hide Pow2, e.WindowOk, e.WriterOk, e.IndexOk, e.TokensOk, e.Choosing;
    e.PhaseFacts();
  }

  /** Poll a decoder until it reports that its input is used up. */
  method DrainDecoder(d: D.HeatshrinkDecoder, sizes: nat -> nat, k0: nat) returns (out: seq<byte>, k: nat)
    requires d.Valid() && d.Regular() && forall i :: sizes(i) > 0
    modifies d, d.buffers
    ensures d.Valid() && d.Regular() && d.sunk == old(d.sunk) && d.out == old(d.out) + out
    ensures d.out == d.Decoded() && d.inputSize == 0
  {
    hide *;
    out, k := [], k0;
    var more := true;
    LegalParams(d);
    RegularSeen(d);
    while more
      invariant d.Valid() && d.Regular() && d.sunk == old(d.sunk) && d.seen == old(d.seen) && d.out == old(d.out) + out
      invariant !more ==> d.out == d.Decoded() && d.inputSize == 0
      decreases more, |d.Decoded()| - |d.out|
    {
      OutputSoFar(d);
      var buf := new byte[sizes(k)];
      var res, n := d.Poll(buf, buf.Length);
      out, k := out + buf[..n], k + 1;
      more := res == D.PollMore;
      RegularSeen(d);
      OutputSoFar(d);
    }
  }

  lemma RegularSeen(d: D.HeatshrinkDecoder)
    requires d.Regular()
    ensures d.seen == Bits(d.sunk)
  {
  }

  lemma LegalParams(d: D.HeatshrinkDecoder)
    requires d.Valid()
    ensures Legal(d.p) && d.inputBufferSize > 0
  {
    hide Pow2, DM.Pending, DM.RingHolds, DM.Unread;
  }

  /** Everything output so far is a prefix of what the sunk bytes stand for. */
  lemma OutputSoFar(d: D.HeatshrinkDecoder)
    requires d.Valid()
    ensures Legal(d.p) && d.out <= d.Decoded()
  {
    hide Pow2, DM.RingHolds, DM.Unread, CopyBack, DM.InToken, DM.IsSuffix, d.AtRest;
  }

  /** Feed a stream in pieces of any non-empty sizes, draining after each. */
  method Decompress(p: Params, stream: seq<byte>, inputBufferSize: nat, pieces: nat -> nat, sizes: nat -> nat)
    returns (d: D.HeatshrinkDecoder, out: seq<byte>)
    requires Legal(p) && 0 < inputBufferSize < 65536
    requires (forall i :: pieces(i) > 0) && (forall i :: sizes(i) > 0)
    ensures fresh(d) && fresh(d.buffers) && d.Valid() && d.Regular() && d.p == p && d.sunk == stream && d.inputSize == 0
    ensures d.out == out == Decode(p, Bits(stream), []).0
  {
    hide *;
    d := new D.HeatshrinkDecoder(p, inputBufferSize);
    out := [];
    var at, i, k := 0, 0, 0;
    NothingSunk(d);
    while at < |stream|
      invariant fresh(d) && fresh(d.buffers) && d.p == p && d.Valid() && d.Regular()
      invariant at <= |stream| && d.sunk == stream[..at] && d.out == out == d.Decoded()
      invariant d.inputSize == 0
    {
      LegalParams(d);
      var piece := if pieces(i) < |stream| - at then stream[at..at + pieces(i)] else stream[at..];
      var res, n := d.Sink(piece);
      var got: seq<byte>;
      got, k := DrainDecoder(d, sizes, k);
      NextPiece(stream, at, piece, n);
      at, i, out := at + n, i + 1, out + got;
    }
    assert stream[..at] == stream;
    Delivered(d);
  }

  lemma NothingSunk(d: D.HeatshrinkDecoder)
    requires Legal(d.p) && d.seen == []
    ensures d.Decoded() == []
  {
  }

  lemma Delivered(d: D.HeatshrinkDecoder)
    requires Legal(d.p) && d.Regular()
    ensures d.Decoded() == Decode(d.p, Bits(d.sunk), []).0
  {
  }

  /** Compressing and decompressing, with every cut of the data on either side, gives back the data. */
  method CompressDecompress(p: Params, useIndex: bool, data: seq<byte>, inputBufferSize: nat,
                            piecesIn: nat -> nat, sizesIn: nat -> nat, piecesOut: nat -> nat, sizesOut: nat -> nat)
    returns (packed: seq<byte>, out: seq<byte>, finish: D.FinishRes)
    requires E.Usable(p) && p.w + p.l >= 7 && 0 < inputBufferSize < 65536
    requires (forall i :: piecesIn(i) > 0) && (forall i :: sizesIn(i) > 0)
    requires (forall i :: piecesOut(i) > 0) && (forall i :: sizesOut(i) > 0)
    ensures out == data && finish == D.FinishDone
    ensures exists ts :: PacksTo(p, data, ts, packed)
    ensures p.w + p.l <= 26 ==> |packed| <= (9 * |data| + 7) / 8
  {
    hide *;
    var e, d;
    e, packed := Compress(p, useIndex, data, piecesIn, sizesIn);
    SuitsDecoder(p);
    d, out := Decompress(p, packed, inputBufferSize, piecesOut, sizesOut);
    EmittedBound(e);
    RoundTrips(e, d);
    Delivered(d);
    finish := d.Finish();
  }

  lemma SuitsDecoder(p: Params)
    requires E.Usable(p)
    ensures Legal(p)
  {
  }
}
