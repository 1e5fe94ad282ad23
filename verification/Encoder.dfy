/** The heatshrink encoder: a polled state machine over a sliding buffer of twice the window size. */
module Encoder {
  import opened BitString
  import opened Lzss
  import opened Output
  import opened MatchSearch
  import opened EncoderModel
  import opened TokenChoice
  import R = Reach

  datatype SinkRes = SinkOk | SinkMisuse
  datatype PollRes = PollEmpty | PollMore | PollMisuse
  datatype FinishRes = FinishDone | FinishMore

  const LITERAL_MARKER: byte := 1
  const BACKREF_MARKER: byte := 0

  /** Positions fit signed 16-bit words, and a full buffer leaves something to search. */
  predicate Usable(p: Params) {
    Legal(p) && p.w <= 14 && p.l < p.w
  }

  lemma Sizes(p: Params)
    requires Usable(p)
    ensures 4 <= Pow2(p.l) && 2 * Pow2(p.l) <= Pow2(p.w) <= 16384
  {
    Powers();
    PowMono(2, p.l);
    PowMono(p.l + 1, p.w);
    PowMono(p.w, 14);
  }

  /** States in which the buffer is being searched, so the index must fit it. */
  predicate InRound(s: State) {
    s == Search || s == SaveBacklog || Yields(s)
  }

  predicate Yields(s: State) {
    s == YieldTagBit || s == YieldLiteral || s == YieldBrIndex || s == YieldBrLength
  }

  /** States in which a poll has nothing more to do. */
  predicate Resting(s: State) {
    s == NotFull || s == FlushBits || s == Done
  }

  /** All bits went out, padded with fewer than eight zeros. */
  ghost predicate Flushed(bits: seq<bool>, emitted: seq<byte>) {
    |bits| <= 8 * |emitted| < |bits| + 8 && Bits(emitted) == bits + Zeros(8 * |emitted| - |bits|)
  }

  lemma FlushedNow(bits: seq<bool>, emitted: seq<byte>, bitIndex: nat, current: byte)
    requires Writes(bits, emitted, bitIndex, current)
    ensures bitIndex == 0x80 ==> Flushed(bits, emitted)
    ensures bitIndex != 0x80 ==> Flushed(bits, emitted + [current])
  {
    hide Bits, BitsNat;
    FlushByte(bits, emitted, bitIndex, current);
    assert bits + Zeros(0) == bits;
  }

  /** Order of the states that follow one another without taking on more input. */
  function Rank(s: State): nat {
    match s
    case Filled => 7
    case YieldTagBit => 6
    case YieldLiteral => 5
    case YieldBrIndex => 5
    case YieldBrLength => 4
    case Search => 3
    case SaveBacklog => 2
    case _ => 1
  }

  class HeatshrinkEncoder {
    const p: Params
    const useIndex: bool
    const buffer: array<byte>
    const index: array<int>
    var inputSize: nat
    var matchScanIndex: nat
    var matchLength: nat
    var matchPos: nat
    var outgoingBits: nat
    var outgoingBitsCount: nat
    var isFinishing: bool
    var hasLiteral: bool
    var onFinalLiteral: bool
    var backlogIsPartial: bool
    var backlogIsFilled: bool
    var state: State
    var currentByte: byte
    var bitIndex: nat

    /** All bytes sunk, the stream position of the input buffer, and what has been written. */
    ghost var sunk: seq<byte>
    ghost var base: nat
    ghost var tokens: seq<Token>
    ghost var bits: seq<bool>
    ghost var emitted: seq<byte>
    /** Finishing was not asked for in the middle of a round. */
    ghost var orderly: bool

    ghost predicate Shape() {
      Usable(p) && buffer.Length == index.Length == 2 * Pow2(p.w)
    }

    ghost predicate WriterOk(s: State)
      reads this`bits, this`emitted, this`bitIndex, this`currentByte
    {
      if s == Done then Flushed(bits, emitted) else Writes(bits, emitted, bitIndex, currentByte)
    }

    ghost predicate WindowOk()
      reads this`sunk, this`base, this`inputSize, this`backlogIsPartial, this`backlogIsFilled, buffer
    {
      Slides(buffer[..], Pow2(p.w), Pow2(p.l), sunk, base, inputSize, backlogIsPartial, backlogIsFilled)
    }

    ghost predicate IndexOk(s: State)
      requires Shape()
      reads this`inputSize, buffer, index
    {
      inputSize <= Pow2(p.w) && (useIndex && InRound(s) ==> IsChain(index[..], buffer[..], Pow2(p.w) + inputSize))
    }

    /** Stream position of the token being written, or of the next one. */
    ghost function Pos(): int
      reads this`base, this`matchScanIndex, this`hasLiteral
    {
      base + matchScanIndex - if hasLiteral then 1 else 0
    }

    ghost predicate TokensOk(s: State)
      reads this`base, this`matchScanIndex, this`hasLiteral, this`sunk, this`tokens, this`bits,
            this`matchLength, this`matchPos, this`outgoingBits, this`outgoingBitsCount
    {
      Pos() >= 0 && Encodes(p, s, sunk, Pos(), tokens, bits, matchLength, matchPos, outgoingBits, outgoingBitsCount)
    }

    ghost function Saved(): nat
      reads this`backlogIsPartial, this`backlogIsFilled
    {
      Saves(backlogIsPartial, backlogIsFilled)
    }

    /** The tokens are the ones the data calls for. */
    ghost predicate Choosing(pending: bool)
      reads this`base, this`matchScanIndex, this`hasLiteral, this`sunk, this`tokens, this`matchLength, this`matchPos,
            this`backlogIsPartial, this`backlogIsFilled, this`isFinishing, this`orderly
    {
      orderly ==>
        && Pos() >= 0 && Canonical(p, sunk, tokens, base, Saved(), Pos(), isFinishing)
        && (pending ==> Next(p, sunk, base, Saved(), Pos(), isFinishing, matchLength, matchPos))
    }

    ghost predicate PhaseOk(s: State)
      reads this`inputSize, this`matchScanIndex, this`matchLength, this`isFinishing, this`hasLiteral,
            this`onFinalLiteral
    {
      && (hasLiteral <==> (s == YieldTagBit || s == YieldLiteral) && matchLength == 0)
      && (hasLiteral ==> matchScanIndex > 0) && !onFinalLiteral
      && matchScanIndex + matchLength <= inputSize <= Pow2(p.w)
      && (s == NotFull ==> !isFinishing && inputSize < Pow2(p.w))
      && (s == NotFull || s == Filled ==> matchScanIndex == 0)
      && (s == FlushBits || s == Done ==> isFinishing)
      && (s != NotFull && !isFinishing ==> inputSize == Pow2(p.w))
      && (s == SaveBacklog ==>
            if isFinishing then matchScanIndex == inputSize else Pow2(p.w) - Pow2(p.l) <= matchScanIndex)
    }

    ghost predicate Ok(s: State)
      reads this`inputSize, this`matchScanIndex, this`matchLength, this`matchPos, this`outgoingBits,
            this`outgoingBitsCount, this`isFinishing, this`hasLiteral, this`onFinalLiteral, this`backlogIsPartial,
            this`backlogIsFilled, this`currentByte, this`bitIndex, this`sunk, this`base, this`tokens, this`bits,
            this`emitted, buffer, index
    {
      Shape() && WriterOk(s) && WindowOk() && IndexOk(s) && TokensOk(s) && PhaseOk(s)
    }

    ghost predicate Valid()
      reads this, buffer, index
    {
      Ok(state) && state != SaveBacklog && state != Search && Choosing(Yields(state))
    }

    constructor (p: Params, useIndex: bool)
      requires Usable(p)
      ensures Valid() && fresh(buffer) && fresh(index) && this.p == p && this.useIndex == useIndex
      ensures state == NotFull && sunk == [] && emitted == [] && !isFinishing && orderly
    {
      hide Pow2, Writes, Slides, Encodes, IsChain, Flushed, Canonical;
      this.p, this.useIndex := p, useIndex;
      buffer := new byte[2 * Pow2(p.w)](_ => 0);
      index := new int[2 * Pow2(p.w)];
      inputSize, matchScanIndex, matchLength, matchPos, outgoingBits, outgoingBitsCount := 0, 0, 0, 0, 0, 0;
      isFinishing, hasLiteral, onFinalLiteral, backlogIsPartial, backlogIsFilled := false, false, false, false, false;
      state, currentByte, bitIndex := NotFull, 0, 0x80;
      sunk, base, tokens, bits, emitted, orderly := [], 0, [], [], [], true;
      new;
      Sizes(p);
      StartWriting();
      StartSliding(buffer[..], Pow2(p.w), Pow2(p.l));
      StartEncoding(p);
      CanonicalStart(p);
    }

    /** Between tokens, going on to another phase changes nothing about what has been written. */
    lemma Between(s: State, s': State)
      requires Shape() && WriterOk(s) && IndexOk(s) && TokensOk(s)
      requires Idle(s) && Idle(s') && s != Done && s' != Done && (InRound(s') ==> InRound(s))
      requires s' == FlushBits ==> Pos() == |sunk| || s == FlushBits
      ensures WriterOk(s') && IndexOk(s') && TokensOk(s')
    {
      hide Pow2, Encodes, IsChain, Writes;
      BetweenTokens(p, s, s', sunk, Pos(), tokens, bits, matchLength, matchPos, outgoingBits, outgoingBitsCount);
    }

    lemma StreamEnds()
      requires WindowOk()
      ensures |sunk| == base + inputSize
    {
    }

    /** Between rounds there is room for input; the last flush only comes after finishing. */
    lemma PhaseFacts()
      requires PhaseOk(state)
      ensures state == NotFull ==> !isFinishing && inputSize < Pow2(p.w)
      ensures state == FlushBits || state == Done ==> isFinishing
    {
    }

    /** Whole bytes of input that the current round has not turned into tokens yet. */
    ghost function Unencoded(): int
      reads this`inputSize, this`matchScanIndex, this`matchLength
    {
      inputSize - matchScanIndex - matchLength
    }

    /** The copy behind the input already there. */
    method Store(data: seq<byte>)
      requires Shape() && WindowOk() && inputSize + |data| <= Pow2(p.w)
      modifies this`inputSize, this`sunk, buffer
      ensures WindowOk() && inputSize == old(inputSize) + |data| && sunk == old(sunk) + data
    {
      hide Pow2, Slides;
      var writeOffset := Pow2(p.w) + inputSize;
      forall i | 0 <= i < |data| {
        buffer[writeOffset + i] := data[i];
      }
      assert buffer[..writeOffset] == old(buffer[..writeOffset]);
      assert buffer[writeOffset..writeOffset + |data|] == data;
      SlideSink(old(buffer[..]), buffer[..], Pow2(p.w), Pow2(p.l), sunk, base, inputSize,
                backlogIsPartial, backlogIsFilled, data);
      inputSize := inputSize + |data|;
      sunk := sunk + data;
    }

    /** Copy what fits behind the input already there; refused while a round is being worked off. */
    method Sink(inBuf: seq<byte>) returns (res: SinkRes, size: nat)
      requires Valid()
      modifies this`inputSize, this`state, this`sunk, buffer
      ensures Valid()
      ensures res == SinkMisuse <==> isFinishing || old(state) != NotFull
      ensures res == SinkMisuse ==> size == 0 && unchanged(this) && unchanged(buffer)
      ensures res == SinkOk ==>
                size == if Pow2(p.w) - old(inputSize) < |inBuf| then Pow2(p.w) - old(inputSize) else |inBuf|
      ensures sunk == old(sunk) + inBuf[..size]
      ensures res == SinkOk ==> state == if old(inputSize) + size == Pow2(p.w) then Filled else NotFull
    {
      hide Pow2, WriterOk, WindowOk, TokensOk, Canonical, Saved;
      if isFinishing { return SinkMisuse, 0; }
      if state != NotFull { return SinkMisuse, 0; }
      var room := Pow2(p.w) - inputSize;
      size := if room < |inBuf| then room else |inBuf|;
      if orderly { CanonicalGrows(p, sunk, inBuf[..size], tokens, base, Saved(), Pos()); }
      Receive(inBuf[..size]);
      if size == room {
        Between(NotFull, Filled);
        state := Filled;
      }
      res := SinkOk;
    }

    method Receive(data: seq<byte>)
      requires Shape() && WindowOk() && TokensOk(NotFull) && inputSize + |data| <= Pow2(p.w)
      modifies this`inputSize, this`sunk, buffer
      ensures WindowOk() && TokensOk(NotFull) && inputSize == old(inputSize) + |data| && sunk == old(sunk) + data
    {
      hide Pow2, Encodes, WindowOk;
      AfterSink(p, sunk, Pos(), tokens, bits, matchLength, matchPos, outgoingBits, outgoingBitsCount, data);
      Store(data);
    }

    method Finish() returns (res: FinishRes)
      requires Valid()
      modifies this`isFinishing, this`state, this`orderly
      ensures Valid() && isFinishing && state == if old(state) == NotFull then Filled else old(state)
      ensures res == FinishDone <==> state == Done
      ensures orderly == old(orderly && (isFinishing || state == NotFull))
    {
      hide Pow2, WindowOk, WriterOk, IndexOk, TokensOk, Canonical, Next, Saved;
      Sizes(p);
      StreamEnds();
      if state == NotFull {
        Between(NotFull, Filled);
        if orderly { CanonicalFinishes(p, sunk, tokens, base, Saved(), Pos()); }
      }
      orderly := orderly && (isFinishing || state == NotFull);
      isFinishing := true;
      if state == NotFull {
        state := Filled;
      }
      res := if state == Done then FinishDone else FinishMore;
    }

    // ---- Bit output ----

    /** Put one bit into the current byte, which goes out when it is full. */
    method PushBit(b: bool, oi: OutputInfo)
      requires WriterOk(Search) && oi.Valid() && oi.Written() == emitted
      requires bitIndex == 1 ==> oi.CanTakeByte()
      modifies this`bits, this`emitted, this`bitIndex, this`currentByte, oi`outputSize, oi.buf
      ensures WriterOk(Search) && bits == old(bits) + [b]
      ensures oi.Valid() && oi.Written() == emitted
      ensures oi.outputSize - old(oi.outputSize) == |emitted| - |old(emitted)| >= 0
    {
      hide Bits, BitsNat, Or, OutputInfo.Valid, OutputInfo.Written;
      WriteBit(bits, emitted, bitIndex, currentByte, b);
      hide Writes, OutputInfo.Valid, OutputInfo.Written;
      if b { currentByte := Or(currentByte, bitIndex); }
      bitIndex := bitIndex / 2;
      bits := bits + [b];
      if bitIndex == 0 {
        bitIndex := 0x80;
        emitted := emitted + [currentByte];
        oi.PushByte(currentByte);
        currentByte := 0;
      }
    }

    /** Push the low `count` bits of `v`; at most one byte goes out. */
    method PushBits(count: nat, v: byte, oi: OutputInfo)
      requires WriterOk(Search) && count <= 8
      requires oi.Valid() && oi.Written() == emitted && oi.CanTakeByte()
      modifies this`bits, this`emitted, this`bitIndex, this`currentByte, oi`outputSize, oi.buf
      ensures WriterOk(Search) && bits == old(bits) + NatBits(v, count)
      ensures oi.Valid() && oi.Written() == emitted
      ensures old(oi.outputSize) <= oi.outputSize <= old(oi.outputSize) + 1
    {
      hide Bits, BitsNat, Or, NatBits, Shr, OutputInfo.Valid, OutputInfo.Written;
      if count == 8 && bitIndex == 0x80 {
        WriteByte(bits, emitted, currentByte, v);
        emitted := emitted + [v];
        oi.PushByte(v);
        bits := bits + NatBits(v, 8);
      } else {
        ghost var field, n := NatBits(v, count), |emitted|;
        for i := count downto 0
          invariant WriterOk(Search) && bits == old(bits) + field[..count - i]
          invariant oi.Valid() && oi.Written() == emitted
          invariant oi.outputSize - old(oi.outputSize) == |emitted| - n >= 0
        {
          BitAt(v, count, count - i - 1);
          assert field[..count - i] == field[..count - i - 1] + [field[count - i - 1]];
          PushBit(Shr(v, i) % 2 == 1, oi);
        }
      }
    }

    /** Push the next piece of the outgoing field and say how many bits it had. */
    method PushOutgoingBits(s: State, oi: OutputInfo) returns (count: nat)
      requires Shape() && WriterOk(Search) && TokensOk(s) && (s == YieldBrIndex || s == YieldBrLength)
      requires oi.Valid() && oi.Written() == emitted && oi.CanTakeByte()
      modifies this`bits, this`emitted, this`bitIndex, this`currentByte, this`outgoingBitsCount, oi`outputSize, oi.buf
      ensures WriterOk(Search) && TokensOk(s)
      ensures oi.Valid() && oi.Written() == emitted
      ensures old(oi.outputSize) <= oi.outputSize <= old(oi.outputSize) + 1
      ensures outgoingBitsCount == old(outgoingBitsCount) - count && (count == 0 <==> old(outgoingBitsCount) == 0)
    {
      hide Encodes, Writes, Shr, NatBits, OutputInfo.Valid, OutputInfo.Written;
      AfterPiece(p, s, sunk, Pos(), tokens, bits, matchLength, matchPos, outgoingBits, outgoingBitsCount);
      var piece: byte := 0;
      if outgoingBitsCount > 8 {
        count := 8;
        piece := Shr(outgoingBits, outgoingBitsCount - 8) % 256;
      } else {
        count := outgoingBitsCount;
        piece := outgoingBits % 256;
      }
      if count > 0 {
        PushBits(count, piece, oi);
        outgoingBitsCount := outgoingBitsCount - count;
      }
    }
    // ---- State machine steps ----

    /** What writing the tag bit will lead to. */
    lemma TagNext()
      requires Ok(YieldTagBit)
      ensures matchLength == 0 ==>
                Encodes(p, YieldLiteral, sunk, Pos(), tokens, bits + NatBits(1, 1), 0, matchPos, outgoingBits,
                        outgoingBitsCount)
      ensures matchLength > 0 ==>
                && matchPos >= 1
                && Encodes(p, YieldBrIndex, sunk, Pos(), tokens, bits + NatBits(0, 1), matchLength, matchPos,
                           matchPos - 1, p.w)
    {
      hide Pow2, Encodes, WindowOk, Writes, IsChain, NatBits;
      AfterTag(p, sunk, Pos(), tokens, bits, matchLength, matchPos, outgoingBits, outgoingBitsCount);
    }

    /** Tag bit of a literal. */
    method BeginLiteral(oi: OutputInfo)
      requires Ok(YieldTagBit) && matchLength == 0
      requires oi.Valid() && oi.buf != buffer && oi.Written() == emitted && oi.CanTakeByte()
      modifies this`bits, this`emitted, this`bitIndex, this`currentByte, oi`outputSize, oi.buf
      ensures Ok(YieldLiteral) && oi.Valid() && oi.Written() == emitted && oi.outputSize >= old(oi.outputSize)
    {
      hide Pow2, Encodes, WindowOk, Writes, IsChain, NatBits, OutputInfo.Valid, OutputInfo.Written;
      TagNext();
      PushBits(1, LITERAL_MARKER, oi);
    }

    /** Tag bit of a back-reference; its index field comes next. */
    method BeginBackref(oi: OutputInfo)
      requires Ok(YieldTagBit) && matchLength > 0
      requires oi.Valid() && oi.buf != buffer && oi.Written() == emitted && oi.CanTakeByte()
      modifies this`bits, this`emitted, this`bitIndex, this`currentByte, this`outgoingBits, this`outgoingBitsCount,
               oi`outputSize, oi.buf
      ensures Ok(YieldBrIndex) && oi.Valid() && oi.Written() == emitted && oi.outputSize >= old(oi.outputSize)
    {
      hide Pow2, Encodes, WindowOk, Writes, IsChain, NatBits, OutputInfo.Valid, OutputInfo.Written;
      TagNext();
      PushBits(1, BACKREF_MARKER, oi);
      outgoingBits := matchPos - 1;
      outgoingBitsCount := p.w;
    }

    method StYieldTagBit(oi: OutputInfo) returns (s: State)
      requires Ok(YieldTagBit) && oi.Valid() && oi.buf != buffer && oi.Written() == emitted
      modifies this`bits, this`emitted, this`bitIndex, this`currentByte, this`outgoingBits, this`outgoingBitsCount,
               oi`outputSize, oi.buf
      ensures Ok(s) && oi.Valid() && oi.Written() == emitted
      ensures oi.outputSize >= old(oi.outputSize)
      ensures s == if old(oi.outputSize) == oi.bufSize then YieldTagBit
                   else if matchLength == 0 then YieldLiteral else YieldBrIndex
    {
      hide Pow2, WriterOk, WindowOk, IndexOk, TokensOk, OutputInfo.Valid, OutputInfo.Written;
      if oi.CanTakeByte() {
        if matchLength == 0 {
          BeginLiteral(oi);
          s := YieldLiteral;
        } else {
          BeginBackref(oi);
          s := YieldBrIndex;
        }
      } else {
        s := YieldTagBit;
      }
    }

    /** The literal is the last byte scanned. */
    method PushLiteralByte(oi: OutputInfo)
      requires Shape() && WriterOk(Search) && WindowOk() && 0 < matchScanIndex <= inputSize <= Pow2(p.w)
      requires oi.Valid() && oi.buf != buffer && oi.Written() == emitted && oi.CanTakeByte()
      requires base + matchScanIndex <= |sunk|
      modifies this`bits, this`emitted, this`bitIndex, this`currentByte, oi`outputSize, oi.buf
      ensures WriterOk(Search) && bits == old(bits) + NatBits(sunk[base + matchScanIndex - 1], 8)
      ensures oi.Valid() && oi.Written() == emitted
      ensures oi.outputSize >= old(oi.outputSize)
    {
      hide Pow2, Slides, Writes, NatBits, OutputInfo.Valid, OutputInfo.Written;
      Sizes(p);
      var processedOffset := matchScanIndex - 1;
      var inputOffset := Pow2(p.w) + processedOffset;
      SlideAt(buffer[..], Pow2(p.w), Pow2(p.l), sunk, base, inputSize, backlogIsPartial, backlogIsFilled, inputOffset);
      PushBits(8, buffer[inputOffset], oi);
    }

    /** Write the literal, which completes its token. */
    method EndLiteral(oi: OutputInfo)
      requires Ok(YieldLiteral) && oi.Valid() && oi.buf != buffer && oi.Written() == emitted && oi.CanTakeByte()
      modifies this`bits, this`emitted, this`bitIndex, this`currentByte, this`hasLiteral, this`tokens,
               oi`outputSize, oi.buf
      ensures Ok(Search) && oi.Valid() && oi.Written() == emitted && oi.outputSize >= old(oi.outputSize)
      ensures 0 <= old(Pos()) < |sunk| && matchLength == 0 && Pos() == old(Pos()) + 1
      ensures tokens == old(tokens) + [Literal(sunk[old(Pos())])]
    {
      hide Pow2, Encodes, WindowOk, Writes, IsChain, NatBits, OutputInfo.Valid, OutputInfo.Written;
      LiteralNext();
      ghost var t := Literal(sunk[Pos()]);
      PushLiteralByte(oi);
      hasLiteral := false;
      tokens := tokens + [t];
    }

    /** What writing the literal will complete. */
    lemma LiteralNext()
      requires Ok(YieldLiteral)
      ensures matchLength == 0 && hasLiteral && 0 < matchScanIndex && 0 <= Pos() < |sunk|
      ensures Encodes(p, Search, sunk, Pos() + 1, tokens + [Literal(sunk[Pos()])], bits + NatBits(sunk[Pos()], 8), 0,
                      matchPos, outgoingBits, outgoingBitsCount)
    {
      hide Pow2, Encodes, WindowOk, Writes, IsChain, NatBits;
      LiteralPending(p, sunk, Pos(), tokens, bits, matchLength, matchPos, outgoingBits, outgoingBitsCount);
      AfterLiteral(p, sunk, Pos(), tokens, bits, matchLength, matchPos, outgoingBits, outgoingBitsCount);
    }

    method StYieldLiteral(oi: OutputInfo) returns (s: State)
      requires Ok(YieldLiteral) && Choosing(true) && oi.Valid() && oi.buf != buffer && oi.Written() == emitted
      modifies this`bits, this`emitted, this`bitIndex, this`currentByte, this`hasLiteral, this`tokens, this`matchLength,
               oi`outputSize, oi.buf
      ensures Ok(s) && Choosing(s != Search) && oi.Valid() && oi.Written() == emitted && matchLength == old(matchLength)
      ensures oi.outputSize >= old(oi.outputSize)
      ensures s == if old(oi.outputSize) == oi.bufSize then YieldLiteral else Search
    {
      hide Pow2, Writes, Slides, IsChain, Encodes, OutputInfo.Valid, OutputInfo.Written, Canonical, Next, Saved, Ok;
      if oi.CanTakeByte() {
        ghost var pos, ts := Pos(), tokens;
        EndLiteral(oi);
        if orderly {
          CanonicalAppends(p, sunk, ts, base, Saved(), pos, isFinishing, matchLength, matchPos, Literal(sunk[pos]));
        }
        NoFinalLiteral(Search);
        s := if onFinalLiteral then FlushBits else if matchLength > 0 then YieldTagBit else Search;
      } else {
        s := YieldLiteral;
      }
    }

    lemma NoFinalLiteral(s: State)
      requires Ok(s)
      ensures !onFinalLiteral
    {
    }

    method StYieldBrIndex(oi: OutputInfo) returns (s: State)
      requires Ok(YieldBrIndex) && oi.Valid() && oi.buf != buffer && oi.Written() == emitted
      modifies this`bits, this`emitted, this`bitIndex, this`currentByte, this`outgoingBits, this`outgoingBitsCount,
               oi`outputSize, oi.buf
      ensures Ok(s) && oi.Valid() && oi.Written() == emitted
      ensures oi.outputSize >= old(oi.outputSize)
      ensures s == YieldBrIndex || s == YieldBrLength
      ensures s == YieldBrIndex ==> old(oi.outputSize) == oi.bufSize || outgoingBitsCount < old(outgoingBitsCount)
    {
      hide Pow2, Encodes, WindowOk, Writes, IsChain, OutputInfo.Valid, OutputInfo.Written;
      if oi.CanTakeByte() {
        var pushed := PushOutgoingBits(YieldBrIndex, oi);
        if pushed > 0 {
          s := YieldBrIndex;
        } else {
          AfterIndex(p, sunk, Pos(), tokens, bits, matchLength, matchPos, outgoingBits);
          outgoingBits := matchLength - 1;
          outgoingBitsCount := p.l;
          s := YieldBrLength;
        }
      } else {
        s := YieldBrIndex;
      }
    }

    /** All of a back-reference has been written. */
    method EndBackref()
      requires Ok(YieldBrLength) && outgoingBitsCount == 0
      modifies this`tokens, this`matchScanIndex, this`matchLength
      ensures Ok(Search) && Unencoded() == old(Unencoded())
      ensures 0 <= old(Pos()) < old(Pos()) + old(matchLength) == Pos() <= |sunk| && old(matchLength) > 0
      ensures tokens == old(tokens) + [Backref(matchPos, old(matchLength))]
    {
      hide Pow2, Encodes, WindowOk, Writes, IsChain;
      AfterLength(p, sunk, Pos(), tokens, bits, matchLength, matchPos, outgoingBits);
      BackrefPending(p, sunk, Pos(), tokens, bits, matchLength, matchPos, outgoingBits, 0);
      tokens := tokens + [Backref(matchPos, matchLength)];
      matchScanIndex := matchScanIndex + matchLength;
      matchLength := 0;
    }

    method StYieldBrLength(oi: OutputInfo) returns (s: State)
      requires Ok(YieldBrLength) && Choosing(true) && oi.Valid() && oi.buf != buffer && oi.Written() == emitted
      modifies this`bits, this`emitted, this`bitIndex, this`currentByte, this`outgoingBitsCount, this`tokens,
               this`matchScanIndex, this`matchLength, oi`outputSize, oi.buf
      ensures Ok(s) && Choosing(s != Search) && oi.Valid() && oi.Written() == emitted && Unencoded() == old(Unencoded())
      ensures oi.outputSize >= old(oi.outputSize)
      ensures s == YieldBrLength || s == Search
      ensures s == YieldBrLength ==> old(oi.outputSize) == oi.bufSize || outgoingBitsCount < old(outgoingBitsCount)
    {
      hide Pow2, Encodes, WindowOk, Writes, IsChain, OutputInfo.Valid, OutputInfo.Written, Canonical, Next, Saved;
      s := YieldBrLength;
      if oi.CanTakeByte() {
        var pushed := PushOutgoingBits(YieldBrLength, oi);
        if pushed == 0 {
          ghost var pos, ts, len := Pos(), tokens, matchLength;
          EndBackref();
          if orderly {
            CanonicalAppends(p, sunk, ts, base, Saved(), pos, isFinishing, len, matchPos, Backref(matchPos, len));
          }
          s := Search;
        }
      }
    }

    /** Shift the processed input into the backlog. */
    method SaveProcessed()
      requires Shape() && WindowOk() && inputSize == Pow2(p.w)
      requires Pow2(p.w) - Pow2(p.l) <= matchScanIndex <= Pow2(p.w)
      modifies this`base, this`inputSize, this`matchScanIndex, this`backlogIsPartial, this`backlogIsFilled, buffer
      ensures WindowOk() && matchScanIndex == 0 && base == old(base) + old(matchScanIndex)
      ensures inputSize == Pow2(p.w) - old(matchScanIndex)
      ensures backlogIsPartial && backlogIsFilled == (old(backlogIsPartial) || old(backlogIsFilled))
    {
      hide Pow2, Slides;
      var inputBufSize, msi := Pow2(p.w), matchScanIndex;
      var rem := inputBufSize - msi;
      var shiftSize := inputBufSize + rem;
      ghost var was := buffer[..];
      forall i | 0 <= i < shiftSize {
        buffer[i] := buffer[inputBufSize - rem + i];
      }
      assert buffer[..2 * inputBufSize - msi] == was[msi..];
      FilledIsPartial(was, Pow2(p.w), Pow2(p.l), sunk, base, inputSize, backlogIsPartial, backlogIsFilled);
      SlideSave(was, buffer[..], Pow2(p.w), Pow2(p.l), sunk, base, msi, backlogIsPartial, backlogIsFilled);
      if backlogIsPartial {
        backlogIsFilled := true;
      } else {
        backlogIsPartial := true;
      }
      matchScanIndex := 0;
      inputSize := inputSize - (inputBufSize - rem);
      base := base + msi;
    }

    method StSaveBacklog() returns (s: State)
      requires Ok(SaveBacklog) && Choosing(false)
      modifies this`base, this`inputSize, this`matchScanIndex, this`backlogIsPartial, this`backlogIsFilled,
               buffer
      ensures Ok(s) && s == (if isFinishing then FlushBits else NotFull) && Unencoded() == old(Unencoded())
      ensures Choosing(false)
    {
      hide Pow2, Encodes, Slides, Writes, IsChain, Canonical;
      Sizes(p);
      if orderly && !isFinishing { CanonicalSaves(p, sunk, tokens, base, Saved(), Pos()); }
      WindowEnds(buffer[..], Pow2(p.w), Pow2(p.l), sunk, base, inputSize, backlogIsPartial, backlogIsFilled);
      BetweenTokens(p, SaveBacklog, if isFinishing then FlushBits else NotFull, sunk, Pos(), tokens, bits,
                    matchLength, matchPos, outgoingBits, outgoingBitsCount);
      if isFinishing {
        // A literal is always written before the scan ends, so none is left over for the final-literal detour.
        if hasLiteral { assert false; }
        s := FlushBits;
      } else {
        SaveProcessed();
        s := NotFull;
      }
    }
    // ---- Search ----

    /** The stream position where the current search starts, and how long a match it may report. */
    ghost function SearchFrom(): int
      reads this`base, this`matchScanIndex, this`backlogIsPartial, this`backlogIsFilled
    {
      base - Pow2(p.w) + SearchStart(Pow2(p.w), Pow2(p.l), matchScanIndex, backlogIsPartial, backlogIsFilled)
    }

    ghost function SearchCap(): int
      reads this`inputSize, this`matchScanIndex
    {
      if inputSize - matchScanIndex < Pow2(p.l) then inputSize - matchScanIndex else Pow2(p.l)
    }

    /** The scan of this buffer goes on: to the end when finishing, else up to one lookahead before it. */
    predicate Scanning()
      reads this`inputSize, this`matchScanIndex, this`isFinishing
    {
      matchScanIndex < inputSize - if isFinishing then 0 else Pow2(p.l)
    }

    /** Dispatch on the build option. */
    method FindLongestMatch(start: nat, end: nat, maxlen: nat) returns (dist: nat, len: nat)
      requires Shape() && IndexOk(Search) && 1 <= maxlen
      requires start <= end < Pow2(p.w) + inputSize && end + maxlen <= Pow2(p.w) + inputSize
      ensures Answers(buffer[..], start, end, maxlen, dist, len)
    {
      hide Pow2, Answers, IsChain;
      Sizes(p);
      if useIndex {
        ChainPrefix(index[..], buffer[..], Pow2(p.w) + inputSize, end + 1);
        dist, len := FindIndexed(buffer, index, start, end, maxlen);
      } else {
        dist, len := FindLinear(buffer, start, end, maxlen);
      }
    }

    /** A search of the buffer from the source's start position is a search of the stream. */
    lemma InStream(dist: nat, len: nat)
      requires Shape() && WindowOk() && PhaseOk(Search) && Scanning()
      requires var start := SearchStart(Pow2(p.w), Pow2(p.l), matchScanIndex, backlogIsPartial, backlogIsFilled);
        && start <= Pow2(p.w) + matchScanIndex
        && Answers(buffer[..], start, Pow2(p.w) + matchScanIndex, SearchCap(), dist, len)
      ensures 0 <= SearchFrom() <= base + matchScanIndex && base + matchScanIndex + SearchCap() <= |sunk|
      ensures base + matchScanIndex - SearchFrom() < Pow2(p.w)
      ensures Answers(sunk, SearchFrom(), base + matchScanIndex, SearchCap(), dist, len)
    {
      hide Pow2, Answers, Slides;
      Sizes(p);
      var W, L := Pow2(p.w), Pow2(p.l);
      SearchRange(buffer[..], W, L, sunk, base, inputSize, backlogIsPartial, backlogIsFilled,
                  matchScanIndex, SearchCap());
      var start := SearchStart(W, L, matchScanIndex, backlogIsPartial, backlogIsFilled);
      AnswersShift(buffer[..], sunk, base - W, start, W + matchScanIndex, SearchCap(), dist, len);
    }

    /** Search for the longest match of the bytes at the scan position. */
    method LookBack() returns (dist: nat, len: nat)
      requires Shape() && WindowOk() && IndexOk(Search) && PhaseOk(Search) && Scanning()
      ensures 0 <= SearchFrom() <= base + matchScanIndex && base + matchScanIndex + SearchCap() <= |sunk|
      ensures base + matchScanIndex - SearchFrom() < Pow2(p.w) && 1 <= SearchCap() <= Pow2(p.l)
      ensures Answers(sunk, SearchFrom(), base + matchScanIndex, SearchCap(), dist, len)
    {
      hide Pow2, Answers, WindowOk, IndexOk, SearchFrom;
      Sizes(p);
      var windowLength, lookahead, msi := Pow2(p.w), Pow2(p.l), matchScanIndex;
      var end := windowLength + msi;
      var start := 0;
      if backlogIsFilled {
        start := end - windowLength + 1;
      } else if backlogIsPartial {
        start := end - windowLength + 1;
        if start < lookahead { start := lookahead; }
      } else {
        start := windowLength;
      }
      var maxPossible := lookahead;
      if inputSize - msi < lookahead { maxPossible := inputSize - msi; }
      dist, len := FindLongestMatch(start, end, maxPossible);
      InStream(dist, len);
    }

    /** Take the search's answer for the next token. */
    method Offer(dist: nat, len: nat)
      requires Ok(Search) && Scanning()
      requires 0 <= SearchFrom() <= Pos() && Pos() + SearchCap() <= |sunk|
      requires Pos() - SearchFrom() < Pow2(p.w) && 1 <= SearchCap() <= Pow2(p.l)
      requires Answers(sunk, SearchFrom(), Pos(), SearchCap(), dist, len)
      modifies this`matchScanIndex, this`matchLength, this`matchPos, this`hasLiteral
      ensures Ok(YieldTagBit) && Unencoded() < old(Unencoded()) && Pos() == old(Pos())
      ensures matchLength == if dist == MATCH_NOT_FOUND then 0 else len
      ensures matchPos == if dist == MATCH_NOT_FOUND then old(matchPos) else dist
    {
      hide Pow2, Encodes, Answers, WindowOk, Writes, IsChain, SearchFrom;
      AfterSearch(p, sunk, Pos(), tokens, bits, matchLength, matchPos, outgoingBits, outgoingBitsCount,
                  SearchFrom(), SearchCap(), dist, len);
      if dist == MATCH_NOT_FOUND {
        matchScanIndex := matchScanIndex + 1;
        hasLiteral := true;
        matchLength := 0;
      } else {
        matchPos := dist;
        matchLength := len;
      }
    }

    /** The source's search range in terms of the round. */
    lemma SearchSpot()
      requires Shape() && WindowOk() && PhaseOk(Search) && Scanning()
      ensures |sunk| == base + inputSize && SearchFrom() == From(p, Spot(base, Saved()), base + matchScanIndex)
      ensures SearchCap() == Cap(p, |sunk|, base + matchScanIndex)
    {
      hide Pow2;
      Sizes(p);
    }

    /** How far back a token must have been looked for: to the start of the stream, or as far as the backlog goes. */
    ghost function Reach(): int
      reads this`base, this`matchScanIndex, this`hasLiteral, this`backlogIsPartial, this`backlogIsFilled
    {
      if backlogIsFilled then Pos() - Pow2(p.w) + 1
      else if backlogIsPartial then R.Max(Pos() - Pow2(p.w) + 1, base - Pow2(p.w) + Pow2(p.l))
      else 0
    }

    /** The token decided on. */
    ghost function Decided(): Token
      requires 0 <= Pos() < |sunk|
      reads this`base, this`matchScanIndex, this`hasLiteral, this`sunk, this`matchLength, this`matchPos
    {
      if matchLength == 0 then Literal(sunk[Pos()]) else Backref(matchPos, matchLength)
    }

    lemma ReachIs(dist: nat, len: nat)
      requires Shape() && WindowOk() && PhaseOk(Search) && Scanning() && !hasLiteral
      requires 0 <= SearchFrom() <= Pos() && Pos() + SearchCap() <= |sunk| && 1 <= SearchCap() <= Pow2(p.l)
      requires Answers(sunk, SearchFrom(), Pos(), SearchCap(), dist, len)
      ensures 0 <= Pos() < |sunk|
      ensures R.Unbeaten(p, sunk, Reach(), Pos(),
                         if dist == MATCH_NOT_FOUND then Literal(sunk[Pos()]) else Backref(dist, len))
    {
      hide Pow2, Answers, R.Unbeaten;
      Sizes(p);
      AnswerFound(sunk, SearchFrom(), Pos(), SearchCap(), dist, len);
      R.AnswersUnbeaten(p, sunk, SearchFrom(), Pos(), SearchCap(), dist, if dist == MATCH_NOT_FOUND then 0 else len);
      R.UnbeatenPart(p, sunk, SearchFrom(), Reach(), Pos(),
                     if dist == MATCH_NOT_FOUND then Literal(sunk[Pos()]) else Backref(dist, len));
    }

    /**
     * Decide the next token: the nearest of the longest matches in the searched part of the stream when
     * that is at least three bytes, else a literal.
     */
    method ChooseToken()
      requires Ok(Search) && Choosing(false) && Scanning()
      modifies this`matchScanIndex, this`matchLength, this`matchPos, this`hasLiteral
      ensures Ok(YieldTagBit) && Choosing(true) && Unencoded() < old(Unencoded())
      ensures 0 <= old(SearchFrom()) <= Pos() == old(Pos()) && Pos() + old(SearchCap()) <= |sunk|
      ensures Answers(sunk, old(SearchFrom()), Pos(), old(SearchCap()),
                      if matchLength == 0 then MATCH_NOT_FOUND else matchPos, matchLength)
      ensures Pos() < |sunk| && R.Unbeaten(p, sunk, Reach(), Pos(), Decided())
    {
      hide Pow2, WriterOk, Answers, WindowOk, IndexOk, TokensOk, SearchFrom, Canonical, Next, Saved, R.Unbeaten;
      NoLiteralYet();
      var dist, len := LookBack();
      SearchTells(dist, len);
      ghost var pos, reach := Pos(), Reach();
      Offer(dist, len);
      assert Pos() == pos && Reach() == reach;
    }

    /** What is known once the search has answered. */
    lemma SearchTells(dist: nat, len: nat)
      requires Ok(Search) && Choosing(false) && Scanning() && !hasLiteral && Pos() == base + matchScanIndex
      requires 0 <= SearchFrom() <= Pos() && Pos() + SearchCap() <= |sunk| && 1 <= SearchCap() <= Pow2(p.l)
      requires Answers(sunk, SearchFrom(), Pos(), SearchCap(), dist, len)
      ensures 0 <= Pos() < |sunk|
      ensures R.Unbeaten(p, sunk, Reach(), Pos(),
                         if dist == MATCH_NOT_FOUND then Literal(sunk[Pos()]) else Backref(dist, len))
      ensures dist == MATCH_NOT_FOUND ==> Answers(sunk, SearchFrom(), Pos(), SearchCap(), dist, 0)
      ensures dist != MATCH_NOT_FOUND ==> len > 0
      ensures orderly ==> Next(p, sunk, base, Saved(), Pos(), isFinishing, if dist == MATCH_NOT_FOUND then 0 else len,
                               if dist == MATCH_NOT_FOUND then matchPos else dist)
    {
      hide Pow2, WriterOk, Answers, IndexOk, TokensOk, SearchFrom, Canonical, Next, Saved, R.Unbeaten;
      AnswerFound(sunk, SearchFrom(), Pos(), SearchCap(), dist, len);
      SearchSpot();
      ReachIs(dist, len);
      if orderly {
        NextIs(p, sunk, base, Saved(), Pos(), isFinishing, SearchFrom(), SearchCap(),
               if dist == MATCH_NOT_FOUND then matchPos else dist, if dist == MATCH_NOT_FOUND then 0 else len);
      }
    }

    lemma NoLiteralYet()
      requires Ok(Search)
      ensures !hasLiteral && Pos() == base + matchScanIndex >= 0
    {
    }

    /** Choose a token, or at the end of the scan hand over to the backlog. */
    method StepSearch() returns (s: State)
      requires Ok(Search) && Choosing(false)
      modifies this`matchScanIndex, this`matchLength, this`matchPos, this`hasLiteral
      ensures Ok(s) && Choosing(s == YieldTagBit) && s == if old(Scanning()) then YieldTagBit else SaveBacklog
      ensures s == SaveBacklog ==> unchanged(this)
      ensures s == YieldTagBit ==> Unencoded() < old(Unencoded())
    {
      hide Pow2, Encodes, Answers, Writes, WindowOk, IsChain, Choosing;
      var msi, lookahead := matchScanIndex, Pow2(p.l);
      if msi >= inputSize - (if isFinishing then 0 else lookahead) {
        BetweenTokens(p, Search, SaveBacklog, sunk, Pos(), tokens, bits, matchLength, matchPos,
                      outgoingBits, outgoingBitsCount);
        return SaveBacklog;
      }
      ChooseToken();
      s := YieldTagBit;
    }

    method StFilled() returns (s: State)
      requires Ok(Filled)
      modifies index
      ensures Ok(s) && s == Search
    {
      hide Pow2, Encodes, WindowOk, Writes, IsChain;
      Sizes(p);
      BetweenTokens(p, Filled, Search, sunk, Pos(), tokens, bits, matchLength, matchPos,
                    outgoingBits, outgoingBitsCount);
      if useIndex { DoIndexing(buffer, index, Pow2(p.w) + inputSize); }
      s := Search;
    }

    /** One turn of the machine that needs no output space. */
    method StepRound()
      requires Ok(state) && Choosing(false) && (state == Filled || state == Search || state == SaveBacklog)
      modifies this`matchScanIndex, this`matchLength, this`matchPos, this`hasLiteral, this`state, this`base,
               this`inputSize, this`backlogIsPartial, this`backlogIsFilled, buffer, index
      ensures Ok(state) && Choosing(Yields(state)) && state != old(state)
      ensures Unencoded() < old(Unencoded()) || (Unencoded() == old(Unencoded()) && Rank(state) < Rank(old(state)))
    {
      hide Ok, Choosing, Usable;
      match state {
        case Filled => state := StFilled();
        case Search => state := StepSearch();
        case SaveBacklog => state := StSaveBacklog();
      }
    }

    /** One turn of the machine that writes output. */
    method StepYield(oi: OutputInfo)
      requires Ok(state) && Choosing(true) && Yields(state)
      requires oi.Valid() && oi.buf != buffer && oi.Written() == emitted
      modifies this`bits, this`emitted, this`bitIndex, this`currentByte, this`outgoingBits, this`outgoingBitsCount,
               this`hasLiteral, this`tokens, this`matchLength, this`matchScanIndex, this`state, oi`outputSize, oi.buf
      ensures Ok(state) && Choosing(Yields(state)) && oi.Valid() && oi.Written() == emitted
      ensures oi.outputSize >= old(oi.outputSize)
      ensures Unencoded() == old(Unencoded())
      ensures state == old(state) ==> oi.outputSize == oi.bufSize || outgoingBitsCount < old(outgoingBitsCount)
      ensures state != old(state) ==> Rank(state) < Rank(old(state))
    {
      hide Ok, Choosing, Resting, Usable, OutputInfo.Valid, OutputInfo.Written;
      match state {
        case YieldTagBit => state := StYieldTagBit(oi);
        case YieldLiteral => state := StYieldLiteral(oi);
        case YieldBrIndex => state := StYieldBrIndex(oi);
        case YieldBrLength => state := StYieldBrLength(oi);
      }
    }

    /** One turn of the machine; it makes progress unless the output is full. */
    method Step(oi: OutputInfo)
      requires Ok(state) && Choosing(Yields(state)) && !Resting(state)
      requires oi.Valid() && oi.buf != buffer && oi.Written() == emitted
      modifies this, buffer, index, oi`outputSize, oi.buf
      ensures Ok(state) && Choosing(Yields(state))
      ensures sunk == old(sunk) && isFinishing == old(isFinishing) && orderly == old(orderly)
      ensures oi.Valid() && oi.Written() == emitted
      ensures (state == old(state) ==> oi.outputSize < oi.bufSize) ==>
                || Unencoded() < old(Unencoded())
                || (Unencoded() == old(Unencoded()) && Rank(state) < Rank(old(state)))
                || (&& Unencoded() == old(Unencoded()) && state == old(state)
                    && outgoingBitsCount < old(outgoingBitsCount))
      ensures state == old(state) ==> Yields(state)
    {
      hide Ok, Choosing, Usable, OutputInfo.Valid, OutputInfo.Written;
      if state == Filled || state == Search || state == SaveBacklog {
        StepRound();
      } else {
        StepYield(oi);
      }
    }

    /** What flushing will complete. */
    lemma FlushNext()
      requires Ok(FlushBits)
      ensures TokensOk(Done)
      ensures if bitIndex == 0x80 then Flushed(bits, emitted) else Flushed(bits, emitted + [currentByte])
    {
      hide Pow2, Encodes, Slides, IsChain, Flushed;
      FlushedNow(bits, emitted, bitIndex, currentByte);
      BetweenTokens(p, FlushBits, Done, sunk, Pos(), tokens, bits, matchLength, matchPos,
                    outgoingBits, outgoingBitsCount);
    }

    /** Write out the bits left in the current byte, if there are any and there is room. */
    method StFlushBitBuffer(oi: OutputInfo) returns (s: State)
      requires Ok(FlushBits) && oi.Valid() && oi.buf != buffer && oi.Written() == emitted
      modifies this`emitted, oi`outputSize, oi.buf
      ensures Ok(s) && oi.Valid() && oi.Written() == emitted
      ensures oi.outputSize >= old(oi.outputSize)
      ensures s == if bitIndex != 0x80 && old(oi.outputSize) == oi.bufSize then FlushBits else Done
    {
      hide Pow2, TokensOk, WindowOk, IsChain, Writes, Flushed, OutputInfo.Valid, OutputInfo.Written;
      FlushNext();
      if bitIndex == 0x80 {
        s := Done;
      } else if oi.CanTakeByte() {
        emitted := emitted + [currentByte];
        oi.PushByte(currentByte);
        s := Done;
      } else {
        s := FlushBits;
      }
    }

    lemma UnencodedNat()
      requires PhaseOk(state)
      ensures Unencoded() >= 0
    {
    }

    /** The poll loop, with the final flush at its end. */
    method Run(oi: OutputInfo) returns (res: PollRes)
      requires Ok(state) && Choosing(Yields(state)) && oi.Valid() && oi.buf != buffer && oi.Written() == emitted
      modifies this, buffer, index, oi`outputSize, oi.buf
      ensures Valid() && sunk == old(sunk) && isFinishing == old(isFinishing) && orderly == old(orderly)
      ensures oi.Valid() && oi.Written() == emitted && res != PollMisuse
      ensures res == PollMore ==> oi.outputSize == oi.bufSize && Yields(state)
      ensures res == PollEmpty ==> Resting(state)
      ensures res == PollEmpty && state == FlushBits ==> oi.outputSize == oi.bufSize && bitIndex != 0x80
      ensures old(state) == FlushBits && old(oi.outputSize) < oi.bufSize ==> state == Done
    {
      hide Pow2, WriterOk, WindowOk, IndexOk, TokensOk, PhaseOk, Unencoded, Choosing;
      hide OutputInfo.Valid, OutputInfo.Written;
      while !Resting(state)
        invariant Ok(state) && Choosing(Yields(state))
        invariant sunk == old(sunk) && isFinishing == old(isFinishing) && orderly == old(orderly)
        invariant old(state) == FlushBits ==> state == FlushBits && oi.outputSize == old(oi.outputSize)
        invariant oi.Valid() && oi.Written() == emitted
        decreases Unencoded(), Rank(state), outgoingBitsCount
      {
        UnencodedNat();
        var inState := state;
        Step(oi);
        if state == inState {
          if oi.outputSize == oi.bufSize { return PollMore; }
        }
      }
      if state == FlushBits {
        state := StFlushBitBuffer(oi);
      }
      res := PollEmpty;
    }

    /**
     * Run until more input is needed, the output is full or everything has been written. When the output
     * fills up exactly at the final flush, `PollEmpty` is reported although one byte is still held back;
     * `Finish` then still asks for another poll.
     */
    method Poll(outBuf: array<byte>, outBufSize: nat) returns (res: PollRes, outputSize: nat)
      requires Valid() && outBuf != buffer && outBufSize <= outBuf.Length
      modifies this, buffer, index, outBuf
      ensures Valid() && sunk == old(sunk) && isFinishing == old(isFinishing) && orderly == old(orderly)
      ensures res == PollMisuse <==> outBufSize == 0
      ensures outputSize <= outBufSize && emitted == old(emitted) + outBuf[..outputSize]
      ensures outBuf[outputSize..] == old(outBuf[..])[outputSize..]
      ensures res == PollMore ==> outputSize == outBufSize && Yields(state)
      ensures res == PollEmpty ==> Resting(state)
      ensures res == PollEmpty && state == FlushBits ==> outputSize == outBufSize && bitIndex != 0x80
      ensures old(state) == FlushBits && outBufSize > 0 ==> res == PollEmpty && state == Done
    {
      hide Pow2, WriterOk, WindowOk, IndexOk, TokensOk, PhaseOk, Choosing;
      if outBufSize == 0 { return PollMisuse, 0; }
      var oi := new OutputInfo(outBuf, outBufSize, emitted);
      res := Run(oi);
      outputSize := oi.outputSize;
    }
  }
}
