/** The heatshrink decoder: a polled state machine over an input buffer and a window ring. */
module Decoder {
  import opened BitString
  import opened Lzss
  import opened Output
  import opened DecoderModel

  datatype SinkRes = SinkOk | SinkFull
  datatype PollRes = PollEmpty | PollMore
  datatype FinishRes = FinishDone | FinishMore

  const NO_BITS := 0xFFFF_FFFF

  class HeatshrinkDecoder {
    const p: Params
    const inputBufferSize: nat
    /** Input buffer, then the expansion window. */
    const buffers: array<byte>
    var inputSize: nat
    var inputIndex: nat
    var outputCount: nat
    var outputIndex: nat
    var headIndex: nat
    var bitAccumulator: nat
    var state: State
    var currentByte: byte
    var bitIndex: nat

    /**
     * All bytes sunk, the bits taken in, those of them not read yet, all bytes output, and where the current
     * token began. The bits taken in are those of the bytes sunk, unless a token was begun without input.
     */
    ghost var sunk: seq<byte>
    ghost var seen: seq<bool>
    ghost var rem: seq<bool>
    ghost var out: seq<byte>
    ghost var tokenStart: nat

    ghost predicate Shape() {
      && Legal(p) && 0 < inputBufferSize
      && buffers.Length == inputBufferSize + Pow2(p.w)
    }

    /** The bit reader's fields stand for the unread bits. */
    ghost predicate Readable()
      requires Shape()
      reads this`inputSize, this`inputIndex, this`currentByte, this`bitIndex, this`rem, buffers
    {
      && inputIndex <= inputSize <= inputBufferSize
      && (inputSize > 0 ==> inputIndex < inputSize)
      && IsMask(bitIndex) && bitIndex != 128
      && rem == Unread(bitIndex, currentByte, buffers[inputIndex..inputSize])
    }

    ghost predicate ReaderOk()
      requires Shape()
      reads this`inputSize, this`inputIndex, this`currentByte, this`bitIndex, this`rem, this`bitAccumulator, buffers
    {
      Readable() && bitAccumulator == 0
    }

    ghost predicate WindowOk()
      requires Shape()
      reads this`headIndex, this`out, buffers
    {
      && headIndex == |out| % 65536
      && RingHolds(buffers[inputBufferSize..], out)
    }

    ghost predicate ProgressOk(s: State)
      requires Shape()
      reads this`seen, this`rem, this`out, this`tokenStart, this`outputIndex, this`outputCount
    {
      Pending(p, s, seen, rem, out, tokenStart, outputIndex, outputCount)
    }

    ghost predicate Ok(s: State)
      reads this`inputSize, this`inputIndex, this`outputCount, this`outputIndex, this`headIndex, this`bitAccumulator,
            this`currentByte, this`bitIndex, this`seen, this`rem, this`out, this`tokenStart, buffers
    {
      Shape() && ReaderOk() && WindowOk() && ProgressOk(s)
    }

    /** Between calls a decoder that has pulled all its input waits in a field it cannot read yet. */
    ghost predicate AtRest(s: State)
      requires Legal(p)
      reads this`rem
    {
      s != CheckForMoreInput && (Need(p, s) > 0 && |rem| < 8 ==> |rem| < Need(p, s))
    }

    ghost predicate Valid()
      reads this, buffers
    {
      Ok(state) && AtRest(state)
    }

    /** The pure decoding of everything taken in so far. */
    ghost function Decoded(): seq<byte>
      requires Legal(p)
      reads this`seen
    {
      Decode(p, seen, []).0
    }

    /** A token about to be begun has a bit to read, and is not a whole one that ought to wait for more input. */
    ghost predicate Clean()
      requires Legal(p)
      reads this`state, this`rem
    {
      state == InputAvailable ==> Startable(p, rem)
    }

    /** So far tokens were begun only with a byte of input left, and what was taken in is what was sunk. */
    ghost predicate Regular()
      reads this`state, this`sunk, this`seen, this`rem, this`tokenStart
    {
      && seen == Bits(sunk) && (state == InputAvailable ==> |rem| >= 8)
      && (InField(state) ==> |seen| - tokenStart >= 8)
    }

    ghost function Now(s: State): View
      reads this`seen, this`rem, this`tokenStart, this`out
    {
      View(s, seen, rem, tokenStart, out)
    }

    constructor (p: Params, inputBufferSize: nat)
      requires Legal(p) && 0 < inputBufferSize < 65536
      ensures Valid() && fresh(buffers) && this.p == p && this.inputBufferSize == inputBufferSize
      ensures state == Empty && sunk == [] && seen == [] && rem == [] && out == [] && inputSize == 0 && Regular()
    {
      hide Pow2, Decode, ByteBits, RingHolds, Need;
      this.p, this.inputBufferSize := p, inputBufferSize;
      buffers := new byte[inputBufferSize + Pow2(p.w)](_ => 0);
      inputSize, inputIndex, outputCount, outputIndex := 0, 0, 0, 0;
      headIndex, bitAccumulator, state, currentByte, bitIndex := 0, 0, Empty, 0, 0;
      sunk, seen, rem, out, tokenStart := [], [], [], [], 0;
      new;
      assert buffers[0..0] == [];
      FreshRing(buffers[inputBufferSize..]);
    }

    /** Less than a byte's worth of unread bits means that all input has been pulled. */
    lemma Drained()
      requires Shape() && ReaderOk()
      ensures inputSize == 0 <==> |rem| < 8
    {
      hide Unread, Pow2;
    }

    /**
     * What a caller has to look at before a poll: with tokens of a byte or more, only a decoder that was told of
     * input, has no byte in its buffer and no bit left of the last one goes wrong.
     */
    lemma CleanIff()
      requires Valid() && p.w + p.l >= 7
      ensures Clean() <==> !(state == InputAvailable && inputSize == 0 && bitIndex == 0)
    {
      hide Pow2, Pending, RingHolds;
      AnyBitStarts(p, rem);
      NoBitLeft(bitIndex);
    }

    /** The copy into the input buffer. */
    method Store(data: seq<byte>)
      requires Shape() && ReaderOk() && WindowOk() && inputSize + |data| <= inputBufferSize
      modifies this`inputSize, this`sunk, this`seen, this`rem, buffers
      ensures ReaderOk() && WindowOk()
      ensures inputSize == old(inputSize) + |data| && sunk == old(sunk) + data
      ensures rem == old(rem) + Bits(data) && seen == old(seen) + Bits(data)
      ensures Bits(sunk) == Bits(old(sunk)) + Bits(data)
    {
      hide Unread, Bits, RingHolds, Pow2;
      ghost var was := buffers[inputIndex..inputSize];
      forall i | 0 <= i < |data| {
        buffers[inputSize + i] := data[i];
      }
      assert buffers[inputBufferSize..] == old(buffers[inputBufferSize..]);
      inputSize := inputSize + |data|;
      assert buffers[inputIndex..inputSize] == was + data;
      UnreadGrows(bitIndex, currentByte, was, data);
      BitsAppend(sunk, data);
      sunk, seen, rem := sunk + data, seen + Bits(data), rem + Bits(data);
    }

    /** Copy what fits into the input buffer. Even with nothing to copy an idle decoder goes to work. */
    method Sink(inBuf: seq<byte>) returns (res: SinkRes, size: nat)
      requires Valid()
      modifies this`inputSize, this`inputIndex, this`state, this`sunk, this`seen, this`rem, buffers
      ensures Valid()
      ensures size == if |inBuf| < inputBufferSize - old(inputSize) then |inBuf| else inputBufferSize - old(inputSize)
      ensures res == SinkFull <==> old(inputSize) == inputBufferSize
      ensures sunk == old(sunk) + inBuf[..size] && rem == old(rem) + Bits(inBuf[..size])
      ensures seen == old(seen) + Bits(inBuf[..size])
      ensures state == if old(state) == Empty then InputAvailable else old(state)
      ensures old(Regular()) && inBuf != [] ==> Regular()
    {
      hide Unread, Bits, Pending, RingHolds, Pow2, Need;
      Drained();
      IdleHasNoByte(p, state, seen, rem, out, tokenStart, outputIndex, outputCount);
      var room := inputBufferSize - inputSize;
      if room == 0 {
        NothingMore(seen, rem, inBuf);
        return SinkFull, 0;
      }
      size := if room < |inBuf| then room else |inBuf|;
      ghost var more := Bits(inBuf[..size]);
      PendingGrows(p, state, seen, rem, out, tokenStart, outputIndex, outputCount, more);
      BitsSize(inBuf[..size]);
      NoNeed(p);
      Store(inBuf[..size]);
      if state == Empty {
        state := InputAvailable;
        inputIndex := 0;
      }
      res := SinkOk;
    }

    /** Fetch the next input byte; the unread bits stay the same. */
    method PullByte()
      requires Shape() && Readable() && bitIndex == 0 && rem != []
      modifies this`inputSize, this`inputIndex, this`currentByte, this`bitIndex
      ensures inputIndex <= inputSize <= inputBufferSize && (inputSize > 0 ==> inputIndex < inputSize)
      ensures bitIndex == 128 && rem == Unread(bitIndex, currentByte, buffers[inputIndex..inputSize])
    {
      hide Unread, Pow2;
      ghost var pending := buffers[inputIndex..inputSize];
      PullOneByte(currentByte, pending);
      assert pending[1..] == buffers[inputIndex + 1..inputSize];
      currentByte := buffers[inputIndex];
      inputIndex := inputIndex + 1;
      if inputIndex == inputSize {
        inputIndex := 0;
        inputSize := 0;
      }
      bitIndex := 128;
      assert buffers[inputIndex..inputSize] == pending[1..];
    }

    /** Move one bit into the accumulator, fetching a byte when the current one is used up. */
    method ShiftBit()
      requires Shape() && Readable() && rem != []
      modifies this`inputSize, this`inputIndex, this`currentByte, this`bitIndex, this`bitAccumulator, this`rem
      ensures Readable() && rem == old(rem)[1..]
      ensures bitAccumulator == if old(rem)[0] then Or(2 * old(bitAccumulator), 1) else 2 * old(bitAccumulator)
    {
      hide Unread, Or, Pow2;
      if bitIndex == 0 {
        PullByte();
      }
      ReadOneBit(bitIndex, currentByte, buffers[inputIndex..inputSize]);
      bitAccumulator := 2 * bitAccumulator;
      if (currentByte / bitIndex) % 2 == 1 {
        bitAccumulator := Or(bitAccumulator, 1);
      }
      bitIndex := bitIndex / 2;
      rem := rem[1..];
    }

    /** The accumulation loop, once enough bits are known to be there. */
    method ShiftBits(count: nat)
      requires Shape() && ReaderOk() && count <= |rem|
      modifies this`inputSize, this`inputIndex, this`currentByte, this`bitIndex, this`bitAccumulator, this`rem
      ensures Readable() && rem == old(rem)[count..]
      ensures bitAccumulator == BitsNat(old(rem)[..count])
    {
      hide Unread, Or, Pow2, BitsLeft;
      ghost var start := rem;
      for i := 0 to count
        invariant Readable() && rem == start[i..]
        invariant bitAccumulator == BitsNat(start[..i])
      {
        AccumulateBit(start, i);
        ShiftBit();
      }
    }

    /** All or nothing: either the next `count` bits, most significant first, or no change at all. */
    method GetBits(count: nat) returns (bits: nat)
      requires Shape() && ReaderOk() && 1 <= count <= 8
      modifies this`inputSize, this`inputIndex, this`currentByte, this`bitIndex, this`bitAccumulator, this`rem
      ensures ReaderOk()
      ensures bits == NO_BITS <==> |old(rem)| < count
      ensures bits == NO_BITS ==> unchanged(this)
      ensures bits != NO_BITS ==> bits == BitsNat(old(rem)[..count]) && bits < 256 && rem == old(rem)[count..]
    {
      hide Unread, Or, Pow2, BitsLeft, BitsNat;
      MaskTest(bitIndex, count);
      if inputSize == 0 {
        if bitIndex < Pow2(count - 1) { return NO_BITS; }
      }
      ByteValue(rem[..count]);
      ShiftBits(count);
      bits := bitAccumulator;
      bitAccumulator := 0;
    }

    // ---- State machine steps ----

    method StInputAvailable() returns (s: State)
      requires Ok(InputAvailable)
      modifies this`inputSize, this`inputIndex, this`currentByte, this`bitIndex, this`bitAccumulator, this`rem,
               this`outputIndex, this`tokenStart, this`seen
      ensures Ok(s) && (s == YieldLiteral || s == BackrefIndexMsb || s == BackrefIndexLsb)
      ensures |rem| < |old(rem)| || rem == old(rem) == []
      ensures Moves(p, old(Now(InputAvailable)), Now(s))
    {
      hide Unread, Readable, RingHolds, Pow2, Pending, Bits, Moves;
      ghost var v := Now(InputAvailable);
      if rem == [] {
        SpuriousTag(p, seen, out, tokenStart, outputIndex, outputCount);
        tokenStart, seen := |seen|, seen + [true];
      } else {
        SuffixIs(p, seen, rem, out, tokenStart, outputIndex, outputCount);
        EnterToken(p, seen, rem, out, tokenStart, outputIndex, outputCount);
        tokenStart := |seen| - |rem|;
      }
      var bits := GetBits(1);
      if bits != 0 {
        s := YieldLiteral;
      } else if p.w > 8 {
        s := BackrefIndexMsb;
      } else {
        outputIndex := 0;
        s := BackrefIndexLsb;
      }
      MoveEnter(p, v, Now(s));
    }

    method StBackrefIndexMsb() returns (s: State)
      requires Ok(BackrefIndexMsb)
      modifies this`inputSize, this`inputIndex, this`currentByte, this`bitIndex, this`bitAccumulator, this`rem,
               this`outputIndex
      ensures Ok(s)
      ensures s == BackrefIndexMsb ==> unchanged(this) && |rem| < Need(p, s) && Decoded() == out
      ensures s != BackrefIndexMsb ==> s == BackrefIndexLsb && |rem| < |old(rem)|
    {
      hide Unread, Readable, RingHolds, Pow2, Pending, Bits, BitsNat;
      WideField(p, BackrefIndexMsb, seen, rem, out, tokenStart, outputIndex, outputCount);
      if |rem| < p.w - 8 {
        Stalled(p, BackrefIndexMsb, seen, rem, out, tokenStart, outputIndex, outputCount);
      } else {
        AfterIndexMsb(p, seen, rem, out, tokenStart, outputIndex, outputCount);
      }
      var bits := GetBits(p.w - 8);
      if bits == NO_BITS { return BackrefIndexMsb; }
      outputIndex := 256 * bits;
      s := BackrefIndexLsb;
    }

    method StBackrefIndexLsb() returns (s: State)
      requires Ok(BackrefIndexLsb)
      modifies this`inputSize, this`inputIndex, this`currentByte, this`bitIndex, this`bitAccumulator, this`rem,
               this`outputIndex, this`outputCount
      ensures Ok(s)
      ensures s == BackrefIndexLsb ==> unchanged(this) && |rem| < Need(p, s) && Decoded() == out
      ensures s != BackrefIndexLsb ==> s == (if p.l > 8 then BackrefCountMsb else BackrefCountLsb) && |rem| < |old(rem)|
      ensures s != BackrefIndexLsb ==> |rem| == |old(rem)| - Low(p.w)
    {
      hide Unread, Readable, RingHolds, Pow2, Pending, Bits, BitsNat, Or;
      if |rem| < Low(p.w) {
        Stalled(p, BackrefIndexLsb, seen, rem, out, tokenStart, outputIndex, outputCount);
      } else {
        AfterIndexLsb(p, seen, rem, out, tokenStart, outputIndex, outputCount);
      }
      var bits := GetBits(if p.w < 8 then p.w else 8);
      if bits == NO_BITS { return BackrefIndexLsb; }
      outputIndex := Or(outputIndex, bits);
      outputIndex := outputIndex + 1;
      outputCount := 0;
      s := if p.l > 8 then BackrefCountMsb else BackrefCountLsb;
    }

    method StBackrefCountMsb() returns (s: State)
      requires Ok(BackrefCountMsb)
      modifies this`inputSize, this`inputIndex, this`currentByte, this`bitIndex, this`bitAccumulator, this`rem,
               this`outputCount
      ensures Ok(s)
      ensures s == BackrefCountMsb ==> unchanged(this) && |rem| < Need(p, s) && Decoded() == out
      ensures s != BackrefCountMsb ==> s == BackrefCountLsb && |rem| < |old(rem)|
    {
      hide Unread, Readable, RingHolds, Pow2, Pending, Bits, BitsNat;
      WideField(p, BackrefCountMsb, seen, rem, out, tokenStart, outputIndex, outputCount);
      if |rem| < p.l - 8 {
        Stalled(p, BackrefCountMsb, seen, rem, out, tokenStart, outputIndex, outputCount);
      } else {
        AfterCountMsb(p, seen, rem, out, tokenStart, outputIndex, outputCount);
      }
      var bits := GetBits(p.l - 8);
      if bits == NO_BITS { return BackrefCountMsb; }
      outputCount := 256 * bits;
      s := BackrefCountLsb;
    }

    method StBackrefCountLsb() returns (s: State)
      requires Ok(BackrefCountLsb)
      modifies this`inputSize, this`inputIndex, this`currentByte, this`bitIndex, this`bitAccumulator, this`rem,
               this`outputCount, this`seen
      ensures Ok(s)
      ensures s == BackrefCountLsb ==> unchanged(this) && |rem| < Need(p, s) && Decoded() == out
      ensures s != BackrefCountLsb ==> s == YieldBackref && |rem| < |old(rem)|
      ensures |old(seen)| - tokenStart >= 8 || s == BackrefCountLsb ==> seen == old(seen)
      ensures |old(seen)| - tokenStart < 8 && s != BackrefCountLsb ==>
                IsShort(p, old(seen), tokenStart) && Decoded() == ShortCopy(out, old(seen)[tokenStart..])
    {
      hide Unread, Readable, RingHolds, Pow2, Pending, Bits, BitsNat, Or, Decode, CopyBack, Literals, Copied, IsShort;
      ghost var all := CountNext();
      var bits := GetBits(if p.l < 8 then p.l else 8);
      if bits == NO_BITS { return BackrefCountLsb; }
      outputCount := Or(outputCount, bits);
      outputCount := outputCount + 1;
      seen := all;
      s := YieldBackref;
    }

    /** What reading the rest of the count will lead to, and the bits taken in that it amounts to. */
    lemma CountNext() returns (all: seq<bool>)
      requires Ok(BackrefCountLsb)
      ensures |rem| < Low(p.l) ==> Decoded() == out
      ensures |rem| >= Low(p.l) ==>
                Pending(p, YieldBackref, all, rem[Low(p.l)..], out, tokenStart, outputIndex,
                        Or(outputCount, BitsNat(rem[..Low(p.l)])) + 1)
      ensures |seen| - tokenStart >= 8 ==> all == seen
      ensures |seen| - tokenStart < 8 && |rem| >= Low(p.l) ==>
                IsShort(p, seen, tokenStart) && Decode(p, all, []).0 == ShortCopy(out, seen[tokenStart..])
    {
      hide Readable, RingHolds, Pow2, Pending, BitsNat, Or, Decode, CopyBack, Literals;
      all := seen;
      if |rem| < Low(p.l) {
        Stalled(p, BackrefCountLsb, seen, rem, out, tokenStart, outputIndex, outputCount);
      } else if |seen| - tokenStart >= 8 {
        AfterCountLsb(p, seen, rem, out, tokenStart, outputIndex, outputCount);
      } else {
        AfterShort(p, seen, rem, out, tokenStart, outputIndex, outputCount);
        all := seen[..tokenStart] + Literals(Copied(out, outputIndex, Or(outputCount, BitsNat(rem[..Low(p.l)])) + 1));
      }
    }

    /** Where the head counter, moved back, points in the window. */
    function Slot(back: int): (at: int)
      requires Shape()
      reads this`headIndex
      ensures 0 <= at < Pow2(p.w)
    {
      (headIndex - back) % Pow2(p.w)
    }

    lemma HeadSlot(back: int)
      requires Shape() && WindowOk()
      ensures Slot(back) == (|out| - back) % Pow2(p.w)
    {
      hide RingHolds, Pow2;
      HeadMasked(|out|, back, p.w);
    }

    /** Append one output byte to the window ring. */
    method WindowPush(c: byte)
      requires Shape() && ReaderOk() && WindowOk()
      modifies this`headIndex, this`out, buffers
      ensures ReaderOk() && WindowOk() && out == old(out) + [c]
    {
      hide Unread, RingHolds, Pow2, Slot;
      ghost var ring := buffers[inputBufferSize..];
      RingPush(ring, out, c);
      HeadSlot(0);
      NextHead(|out|);
      var at := Slot(0);
      buffers[inputBufferSize + at] := c;
      assert buffers[inputBufferSize..] == ring[at := c];
      assert buffers[inputIndex..inputSize] == old(buffers[inputIndex..inputSize]);
      headIndex := (headIndex + 1) % 65536;
      out := out + [c];
    }

    method StYieldLiteral(oi: OutputInfo) returns (s: State)
      requires Ok(YieldLiteral) && oi.Valid() && oi.buf != buffers && oi.Written() == out
      modifies this`inputSize, this`inputIndex, this`currentByte, this`bitIndex, this`bitAccumulator, this`rem,
               this`headIndex, this`out, buffers, oi`outputSize, oi.buf
      ensures Ok(s) && oi.Valid() && oi.Written() == out
      ensures oi.outputSize >= old(oi.outputSize)
      ensures s == YieldLiteral ==> unchanged(this) && unchanged(oi)
      ensures s == YieldLiteral ==> oi.outputSize == oi.bufSize || (|rem| < Need(p, s) && Decoded() == out)
      ensures s != YieldLiteral ==> s == CheckForMoreInput && |rem| < |old(rem)|
    {
      hide Unread, Readable, RingHolds, Pow2, Pending, Bits, BitsNat;
      if oi.outputSize < oi.bufSize {
        if |rem| < 8 {
          Stalled(p, YieldLiteral, seen, rem, out, tokenStart, outputIndex, outputCount);
        } else {
          AfterLiteral(p, seen, rem, out, tokenStart, outputIndex, outputCount);
        }
        var bits := GetBits(8);
        if bits == NO_BITS { return YieldLiteral; }
        var c := bits % 256;
        WindowPush(c);
        oi.PushByte(c);
        s := CheckForMoreInput;
      } else {
        s := YieldLiteral;
      }
    }

    /** The window byte a copy reads next. */
    lemma ReadBack(d: nat)
      requires Shape() && WindowOk() && 1 <= d <= Pow2(p.w)
      ensures buffers[inputBufferSize + Slot(d)] == At(out, d)
    {
      hide Pow2, At, Slot;
      HeadSlot(d);
      var ring := buffers[inputBufferSize..];
      assert ring[(|out| - d) % |ring|] == At(out, d);
    }

    /** Copy one byte from the window to the output and to the head of the window. */
    method CopyByte(oi: OutputInfo)
      requires Shape() && ReaderOk() && WindowOk() && 1 <= outputIndex <= Pow2(p.w)
      requires oi.Valid() && oi.CanTakeByte() && oi.buf != buffers && oi.Written() == out
      modifies this`headIndex, this`out, buffers, oi`outputSize, oi.buf
      ensures ReaderOk() && WindowOk()
      ensures out == old(out) + [At(old(out), outputIndex)]
      ensures oi.Valid() && oi.Written() == out && oi.outputSize == old(oi.outputSize) + 1
    {
      hide Unread, RingHolds, Pow2, At, Slot;
      ReadBack(outputIndex);
      var c := buffers[inputBufferSize + Slot(outputIndex)];
      oi.PushByte(c);
      WindowPush(c);
    }

    method StYieldBackref(oi: OutputInfo) returns (s: State)
      requires Ok(YieldBackref) && oi.Valid() && oi.buf != buffers && oi.Written() == out
      modifies this`outputCount, this`headIndex, this`out, buffers, oi`outputSize, oi.buf
      ensures Ok(s) && oi.Valid() && oi.Written() == out
      ensures oi.outputSize >= old(oi.outputSize)
      ensures s == YieldBackref ==> oi.outputSize == oi.bufSize
      ensures s != YieldBackref ==> s == CheckForMoreInput
    {
      hide Unread, Readable, RingHolds, Pow2, Pending, Bits, At;
      WideField(p, YieldBackref, seen, rem, out, tokenStart, outputIndex, outputCount);
      var count := oi.bufSize - oi.outputSize;
      s := YieldBackref;
      if count > 0 {
        if outputCount < count { count := outputCount; }
        ghost var total := outputCount;
        for i := 0 to count
          invariant outputCount == total && ReaderOk() && WindowOk()
          invariant oi.Valid() && oi.Written() == out && oi.outputSize == old(oi.outputSize) + i
          invariant Pending(p, if i < total then YieldBackref else CheckForMoreInput, seen, rem, out,
                            tokenStart, outputIndex, total - i)
        {
          CopyOne(p, seen, rem, out, tokenStart, outputIndex, total - i);
          CopyByte(oi);
        }
        outputCount := outputCount - count;
        if outputCount == 0 { s := CheckForMoreInput; }
      }
    }

    method StCheckForInput() returns (s: State)
      requires Ok(CheckForMoreInput)
      ensures Ok(s) && s == if inputSize == 0 then Empty else InputAvailable
    {
      hide Unread, Readable, RingHolds, Pow2, Pending, Bits;
      Drained();
      NextRound(p, seen, rem, out, tokenStart, outputIndex, outputCount);
      s := if inputSize == 0 then Empty else InputAvailable;
    }

    /** One turn of the machine in a state that only reads input. */
    method StepRead()
      requires Ok(state) && state != Empty && state != YieldLiteral && state != YieldBackref
      modifies this`inputSize, this`inputIndex, this`currentByte, this`bitIndex, this`bitAccumulator, this`rem,
               this`outputIndex, this`outputCount, this`tokenStart, this`seen, this`state
      ensures Ok(state) && Moves(p, old(Now(state)), Now(state))
      ensures state == old(state) ==> state != InputAvailable && AtRest(state) && out == Decoded() && |rem| < 8
      ensures state != old(state) ==>
                |rem| < |old(rem)| || (|rem| == |old(rem)| && Rank(state) < Rank(old(state)))
    {
      hide Readable, WindowOk, Pending, Bits, Decode, Pow2, Moves, IsShort, ShortCopy;
      ghost var v := Now(state);
      TokenInside(p, state, seen, rem, out, tokenStart, outputIndex, outputCount);
      match state {
        case InputAvailable => state := StInputAvailable();
        case BackrefIndexMsb => state := StBackrefIndexMsb(); MoveField(p, v, Now(state));
        case BackrefIndexLsb => state := StBackrefIndexLsb(); MoveField(p, v, Now(state));
        case BackrefCountMsb => state := StBackrefCountMsb(); MoveField(p, v, Now(state));
        case BackrefCountLsb => state := StBackrefCountLsb(); MoveCount(p, v, Now(state));
        case CheckForMoreInput => state := StCheckForInput(); Drained(); MoveOut(p, v, Now(state));
      }
    }

    /** One turn of the machine in a state that writes output. */
    method StepYield(oi: OutputInfo)
      requires Ok(state) && (state == YieldLiteral || state == YieldBackref)
      requires oi.Valid() && oi.buf != buffers && oi.Written() == out
      modifies this`inputSize, this`inputIndex, this`currentByte, this`bitIndex, this`bitAccumulator, this`rem,
               this`outputCount, this`headIndex, this`out, this`state, buffers, oi`outputSize, oi.buf
      ensures Ok(state) && oi.Valid() && oi.Written() == out && Moves(p, old(Now(state)), Now(state))
      ensures oi.outputSize >= old(oi.outputSize)
      ensures state == old(state) ==> AtRest(state) && (oi.outputSize == oi.bufSize || (out == Decoded() && |rem| < 8))
      ensures state != old(state) ==>
                |rem| < |old(rem)| || (|rem| == |old(rem)| && Rank(state) < Rank(old(state)))
    {
      hide Readable, WindowOk, Pending, Bits, Decode, Pow2, Moves;
      ghost var v := Now(state);
      if state == YieldLiteral {
        state := StYieldLiteral(oi);
      } else {
        state := StYieldBackref(oi);
      }
      MoveOut(p, v, Now(state));
    }

    /** One turn of the machine. */
    method Turn(oi: OutputInfo)
      requires Ok(state) && state != Empty && oi.Valid() && oi.buf != buffers && oi.Written() == out
      modifies this, buffers, oi`outputSize, oi.buf
      ensures Ok(state) && sunk == old(sunk) && Moves(p, old(Now(state)), Now(state))
      ensures oi.Valid() && oi.Written() == out && oi.outputSize >= old(oi.outputSize)
      ensures state == old(state) ==>
                && state != InputAvailable && AtRest(state)
                && (oi.outputSize == oi.bufSize || (out == Decoded() && |rem| < 8))
      ensures state != old(state) ==>
                |rem| < |old(rem)| || (|rem| == |old(rem)| && Rank(state) < Rank(old(state)))
    {
      hide *;
      if state == YieldLiteral || state == YieldBackref {
        StepYield(oi);
      } else {
        StepRead();
      }
    }

    /** The poll loop. */
    method Run(oi: OutputInfo) returns (res: PollRes)
      requires Ok(state) && oi.Valid() && oi.buf != buffers && oi.Written() == out
      modifies this, buffers, oi`outputSize, oi.buf
      ensures Valid() && state != InputAvailable && sunk == old(sunk) && Since(p, old(Now(state)), Now(state))
      ensures oi.Valid() && oi.Written() == out
      ensures res == PollEmpty ==> out == Decoded() && inputSize == 0
      ensures res == PollMore <==> oi.outputSize == oi.bufSize && state != Empty
    {
      hide Readable, WindowOk, Pending, Bits, Decode, Pow2, Since, Moves;
      ghost var v0 := Now(state);
      SinceStart(p, v0);
      while true
        invariant Ok(state) && sunk == old(sunk) && Since(p, v0, Now(state))
        invariant oi.Valid() && oi.Written() == out
        decreases |rem|, Rank(state)
      {
        var inState := state;
        ghost var v := Now(state);
        if inState == Empty {
          IdleIsDone(p, seen, rem, out, tokenStart, outputIndex, outputCount);
          IdleHasNoByte(p, state, seen, rem, out, tokenStart, outputIndex, outputCount);
          Drained();
          return PollEmpty;
        }
        Turn(oi);
        SinceNext(p, v0, v, Now(state));
        if state == inState {
          if oi.outputSize == oi.bufSize { return PollMore; }
          Drained();
          return PollEmpty;
        }
      }
    }

    /**
     * Run until input or output space is used up. `PollEmpty` means that everything the bits taken in
     * stand for has been delivered; `PollMore` means that the output buffer is full. The bits taken in stay
     * what they are exactly unless a token is begun that had no bit to read, and then they gain a tag bit, or
     * that ought to have waited for more input, and then it is delivered nevertheless.
     */
    method Poll(outBuf: array<byte>, outBufSize: nat) returns (res: PollRes, outputSize: nat)
      requires Valid() && outBuf != buffers && outBufSize <= outBuf.Length
      modifies this, buffers, outBuf
      ensures Valid() && sunk == old(sunk)
      ensures outputSize <= outBufSize && out == old(out) + outBuf[..outputSize]
      ensures outBuf[outputSize..] == old(outBuf[..])[outputSize..]
      ensures res == PollEmpty ==> out == Decoded() && inputSize == 0
      ensures res == PollMore <==> outputSize == outBufSize && state != Empty
      ensures old(Clean()) ==> seen == old(seen)
      ensures old(Regular()) ==> Regular()
      ensures old(state == InputAvailable && rem == []) ==> Tagged(old(Now(state)), Now(state))
      ensures old(InShort(p, Now(state))) ==> Decoded() == ShortCopy(old(out), old(seen[|seen| - 7..]))
    {
      hide Readable, WindowOk, Pending, Bits, Decode, Pow2, Since, InShort, Fair, ShortCopy;
      var oi := new OutputInfo(outBuf, outBufSize, out);
      ghost var v0 := Now(state);
      if Clean() { RestIsFair(p, v0, outputIndex, outputCount); }
      res := Run(oi);
      Rested(v0);
      outputSize := oi.outputSize;
    }

    /** What a poll has done to the bits taken in, once it stops. */
    lemma Rested(v0: View)
      requires Legal(p) && AtRest(state) && state != InputAvailable && Since(p, v0, Now(state))
      ensures Fair(p, v0) ==> seen == v0.seen
      ensures Ample(v0) ==> Ample(Now(state)) && seen == v0.seen
      ensures NoBit(v0) ==> Tagged(v0, Now(state))
      ensures InShort(p, v0) ==> Decoded() == ShortCopy(v0.out, v0.seen[|v0.seen| - 7..])
    {
      hide Decode, CopyBack, BitsNat, Fair;
      RestIsNotShort(p, Now(state));
    }

    /** Done exactly when no unread byte and no unfinished copy is left; then nothing is missing. */
    method Finish() returns (res: FinishRes)
      requires Valid()
      ensures res == FinishDone <==> inputSize == 0 && state != YieldBackref && state != InputAvailable
      ensures res == FinishDone ==> out == Decoded()
    {
      hide Readable, WindowOk, Pending, Bits, Decode, Pow2;
      Drained();
      IdleHasNoByte(p, state, seen, rem, out, tokenStart, outputIndex, outputCount);
      WideField(p, state, seen, rem, out, tokenStart, outputIndex, outputCount);
      if |rem| < Need(p, state) {
        Stalled(p, state, seen, rem, out, tokenStart, outputIndex, outputCount);
      }
      match state {
        case Empty =>
          IdleIsDone(p, seen, rem, out, tokenStart, outputIndex, outputCount);
          res := FinishDone;
        case BackrefIndexLsb => res := if inputSize == 0 then FinishDone else FinishMore;
        case BackrefIndexMsb => res := if inputSize == 0 then FinishDone else FinishMore;
        case BackrefCountLsb => res := if inputSize == 0 then FinishDone else FinishMore;
        case BackrefCountMsb => res := if inputSize == 0 then FinishDone else FinishMore;
        case YieldLiteral => res := if inputSize == 0 then FinishDone else FinishMore;
        case _ => res := FinishMore;
      }
    }
  }
}
