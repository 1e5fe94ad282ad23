/** What the heatshrink encoder's fields mean: written bits, sliding window, progress inside a token. */
module EncoderModel {
  import opened BitString
  import opened Lzss
  import opened MatchSearch

  datatype State =
    | NotFull | Filled | Search
    | YieldTagBit | YieldLiteral | YieldBrIndex | YieldBrLength
    | SaveBacklog | FlushBits | Done

  // ---- Bit writer ----

  /** Whole bytes went out; the rest of the bits sit at the top of the current byte, zeros below. */
  ghost predicate Writes(bits: seq<bool>, emitted: seq<byte>, bitIndex: nat, current: byte) {
    && IsMask(bitIndex) && bitIndex != 0
    && |bits| == 8 * |emitted| + 8 - BitsLeft(bitIndex)
    && bits[..8 * |emitted|] == Bits(emitted)
    && current == BitsNat(bits[8 * |emitted|..]) * (2 * bitIndex)
  }

  lemma SetBit(v: nat, bitIndex: nat)
    requires IsMask(bitIndex) && bitIndex != 0
    ensures Or(v * (2 * bitIndex), bitIndex) == v * (2 * bitIndex) + bitIndex
  {
    hide Or;
    Powers();
    OrDisjoint(v, BitsLeft(bitIndex), bitIndex);
  }

  lemma NextBit(s: seq<bool>, b: bool)
    ensures BitsNat(s + [b]) == 2 * BitsNat(s) + if b then 1 else 0
  {
    assert (s + [b])[..|s|] == s;
  }

  /** The value of the current byte after one more bit. */
  function WithBit(current: byte, bitIndex: nat, b: bool): nat {
    if b then Or(current, bitIndex) else current
  }

  lemma BitValue(s: seq<bool>, bitIndex: nat, current: byte, b: bool)
    requires IsMask(bitIndex) && bitIndex != 0 && |s| == 8 - BitsLeft(bitIndex)
    requires current == BitsNat(s) * (2 * bitIndex)
    ensures WithBit(current, bitIndex, b) == BitsNat(s + [b]) * bitIndex
    ensures WithBit(current, bitIndex, b) < 256
  {
    hide Or;
    SetBit(BitsNat(s), bitIndex);
    NextBit(s, b);
    FieldBound(s + [b]);
    Powers();
    TimesMask(BitsNat(s), bitIndex);
  }

  lemma TimesMask(v: nat, m: nat)
    ensures v * (2 * m) == 2 * v * m && (2 * v + 1) * m == 2 * v * m + m
  {
  }

  lemma WriteBit(bits: seq<bool>, emitted: seq<byte>, bitIndex: nat, current: byte, b: bool)
    requires Writes(bits, emitted, bitIndex, current)
    ensures WithBit(current, bitIndex, b) < 256
    ensures bitIndex > 1 ==> Writes(bits + [b], emitted, bitIndex / 2, WithBit(current, bitIndex, b))
    ensures bitIndex == 1 ==> Writes(bits + [b], emitted + [WithBit(current, bitIndex, b)], 128, 0)
  {
    hide Or, Bits, BitsNat, WithBit;
    var n := 8 * |emitted|;
    var s := bits[n..];
    BitValue(s, bitIndex, current, b);
    assert (bits + [b])[..n] == bits[..n] && (bits + [b])[n..] == s + [b];
    if bitIndex == 1 {
      var c := WithBit(current, bitIndex, b);
      ByteRead(s + [b]);
      BitsPush(emitted, c);
      assert (bits + [b])[..n + 8] == bits[..n] + (s + [b]);
      assert (bits + [b])[n + 8..] == [];
      NoBits();
    } else {
      assert bitIndex == 2 * (bitIndex / 2);
    }
  }

  /** At a byte boundary nothing is buffered, so a whole byte may go straight out. */
  lemma WriteByte(bits: seq<bool>, emitted: seq<byte>, current: byte, v: byte)
    requires Writes(bits, emitted, 128, current)
    ensures current == 0
    ensures Writes(bits + NatBits(v, 8), emitted + [v], 128, 0)
  {
    hide BitsNat, Bits;
    ByteIsField(v);
    hide NatBits;
    BitsPush(emitted, v);
    NoBits();
    assert bits == bits[..8 * |emitted|];
    assert bits[8 * |emitted|..] == [];
    var b' := bits + NatBits(v, 8);
    assert b'[..8 * |emitted + [v]|] == b';
    assert b'[8 * |emitted + [v]|..] == [];
  }

  lemma StartWriting()
    ensures Writes([], [], 128, 0)
  {
  }

  function Zeros(n: nat): (s: seq<bool>)
    ensures |s| == n
  {
    seq(n, _ => false)
  }

  /** Flushing the current byte pads the bits with zeros to a whole byte. */
  lemma FlushByte(bits: seq<bool>, emitted: seq<byte>, bitIndex: nat, current: byte)
    requires Writes(bits, emitted, bitIndex, current)
    ensures bitIndex == 128 ==> Bits(emitted) == bits
    ensures Bits(emitted + [current]) == bits + Zeros(BitsLeft(bitIndex))
    decreases BitsLeft(bitIndex)
  {
    hide BitsNat, Bits, Or;
    if bitIndex == 128 {
      assert bits == bits[..8 * |emitted|];
    }
    assert WithBit(current, bitIndex, false) == current;
    WriteBit(bits, emitted, bitIndex, current, false);
    if bitIndex > 1 {
      FlushByte(bits + [false], emitted, bitIndex / 2, current);
      assert [false] + Zeros(BitsLeft(bitIndex / 2)) == Zeros(BitsLeft(bitIndex));
      Associative(bits, [false], Zeros(BitsLeft(bitIndex / 2)));
    } else {
      var all := bits + [false];
      assert all == all[..8 * |emitted + [current]|];
      assert Zeros(1) == [false];
    }
  }

  // ---- Sliding window ----

  /** Leading backlog bytes that hold no stream data: all of it, one lookahead's worth, or none. */
  function Undefined(W: nat, L: nat, partial: bool, filled: bool): nat {
    if filled then 0 else if partial then L else W
  }

  /**
   * The buffer is a window on the sunk stream: input starts at `W` with stream byte `base`, and the
   * backlog before it, past its undefined part, holds the stream bytes before `base`.
   */
  ghost predicate Slides(buf: seq<byte>, W: nat, L: nat, sunk: seq<byte>, base: nat, inputSize: nat,
                         partial: bool, filled: bool)
  {
    var lo := Undefined(W, L, partial, filled);
    && |buf| == 2 * W && 2 * L <= W && inputSize <= W
    && |sunk| == base + inputSize && base >= W - lo && (filled ==> partial) && (!partial ==> base == 0)
    && buf[lo..W + inputSize] == sunk[base - W + lo..]
  }

  lemma StartSliding(buf: seq<byte>, W: nat, L: nat)
    requires |buf| == 2 * W && 2 * L <= W
    ensures Slides(buf, W, L, [], 0, 0, false, false)
  {
    assert buf[W..W + 0] == [];
  }

  lemma SlideSink(buf: seq<byte>, buf': seq<byte>, W: nat, L: nat, sunk: seq<byte>, base: nat, inputSize: nat,
                  partial: bool, filled: bool, data: seq<byte>)
    requires Slides(buf, W, L, sunk, base, inputSize, partial, filled)
    requires |buf'| == |buf| && inputSize + |data| <= W
    requires buf'[..W + inputSize] == buf[..W + inputSize]
    requires buf'[W + inputSize..W + inputSize + |data|] == data
    ensures Slides(buf', W, L, sunk + data, base, inputSize + |data|, partial, filled)
  {
    UndefinedWithin(W, L, partial, filled);
    hide Undefined;
    var lo := Undefined(W, L, partial, filled);
    Extended(buf, buf', lo, W + inputSize, data);
    TailAppend(sunk, data, base - W + lo);
  }

  lemma UndefinedWithin(W: nat, L: nat, partial: bool, filled: bool)
    requires 2 * L <= W
    ensures Undefined(W, L, partial, filled) <= W
  {
  }

  lemma Extended(a: seq<byte>, b: seq<byte>, lo: nat, n: nat, data: seq<byte>)
    requires lo <= n && n + |data| <= |a| == |b| && b[..n] == a[..n] && b[n..n + |data|] == data
    ensures b[lo..n + |data|] == a[lo..n] + data
  {
    SliceAppend(b, lo, n, n + |data|);
    assert b[lo..n] == b[..n][lo..] == a[..n][lo..] == a[lo..n];
  }

  lemma SliceAppend(s: seq<byte>, i: nat, j: nat, k: nat)
    requires i <= j <= k <= |s|
    ensures s[i..k] == s[i..j] + s[j..k]
  {
  }

  lemma SubSlice(s: seq<byte>, i: nat, j: nat, x: nat, y: nat)
    requires x <= y && i + y <= j <= |s|
    ensures s[i..j][x..y] == s[i + x..i + y]
  {
    forall k | 0 <= k < y - x ensures s[i..j][x..y][k] == s[i + x..i + y][k] {
      assert s[i..j][x + k] == s[i + (x + k)];
    }
  }

  lemma TailAppend(s: seq<byte>, t: seq<byte>, i: nat)
    requires i <= |s|
    ensures (s + t)[i..] == s[i..] + t
  {
  }

  /** Saving the backlog: the first save defines all but one lookahead's worth, the second defines everything. */
  lemma SlideSave(buf: seq<byte>, buf': seq<byte>, W: nat, L: nat, sunk: seq<byte>, base: nat, msi: nat,
                  partial: bool, filled: bool)
    requires Slides(buf, W, L, sunk, base, W, partial, filled)
    requires |buf'| == |buf| && W - L <= msi <= W
    requires buf'[..2 * W - msi] == buf[msi..]
    ensures Slides(buf', W, L, sunk, base + msi, W - msi, true, partial)
  {
    SaveBounds(W, L, msi, partial, filled);
    SlidesFull(buf, W, L, sunk, base, partial, filled);
    hide Undefined, Slides;
    var lo, lo' := Undefined(W, L, partial, filled), Undefined(W, L, true, partial);
    Shifted(buf, buf', sunk, msi, lo, lo', base - W + lo, 2 * W - msi, base + msi - W + lo');
    SlidesSaved(buf', W, L, sunk, base + msi, msi, partial);
  }

  lemma SlidesFull(buf: seq<byte>, W: nat, L: nat, sunk: seq<byte>, base: nat, partial: bool, filled: bool)
    requires Slides(buf, W, L, sunk, base, W, partial, filled)
    ensures var lo := Undefined(W, L, partial, filled);
      && |buf| == 2 * W && 2 * L <= W && |sunk| == base + W && 0 <= base - W + lo
      && lo <= |buf| && base - W + lo <= |sunk| && buf[lo..] == sunk[base - W + lo..]
  {
    var lo := Undefined(W, L, partial, filled);
    assert buf[lo..W + W] == buf[lo..];
  }

  lemma SlidesSaved(buf: seq<byte>, W: nat, L: nat, sunk: seq<byte>, base: nat, msi: nat, partial: bool)
    requires |buf| == 2 * W && 2 * L <= W && msi <= W && |sunk| == base + (W - msi)
    requires var lo := Undefined(W, L, true, partial);
      lo <= 2 * W - msi && 0 <= base - W + lo <= |sunk| && buf[lo..2 * W - msi] == sunk[base - W + lo..]
    ensures Slides(buf, W, L, sunk, base, W - msi, true, partial)
  {
  }

  lemma SaveBounds(W: nat, L: nat, msi: nat, partial: bool, filled: bool)
    requires 2 * L <= W && W - L <= msi <= W
    ensures var lo, lo' := Undefined(W, L, partial, filled), Undefined(W, L, true, partial);
      lo <= W && lo' <= L && lo <= msi + lo'
  {
  }

  /** What lies `msi` further on in one buffer lies at its place in the other. */
  lemma Shifted(a: seq<byte>, b: seq<byte>, s: seq<byte>, msi: nat, lo: nat, lo': nat, at: nat, n: nat, at': int)
    requires msi <= |a| == |b| && lo <= |a| && lo' <= n == |a| - msi && lo <= msi + lo' && at <= |s|
    requires at' == at + msi + lo' - lo && b[..n] == a[msi..] && a[lo..] == s[at..]
    ensures 0 <= at' <= |s| && b[lo'..n] == s[at'..]
  {
    var k := msi + lo' - lo;
    assert b[lo'..n] == b[..n][lo'..];
    assert a[msi..][lo'..] == a[msi + lo'..];
    assert a[msi + lo'..] == a[lo..][k..];
    assert s[at..][k..] == s[at'..];
  }

  lemma SlideAt(buf: seq<byte>, W: nat, L: nat, sunk: seq<byte>, base: nat, inputSize: nat,
                partial: bool, filled: bool, k: nat)
    requires Slides(buf, W, L, sunk, base, inputSize, partial, filled)
    requires Undefined(W, L, partial, filled) <= k < W + inputSize
    ensures buf[k] == sunk[base - W + k]
  {
    var lo := Undefined(W, L, partial, filled);
    assert buf[lo..W + inputSize][k - lo] == buf[k];
  }

  lemma FilledIsPartial(buf: seq<byte>, W: nat, L: nat, sunk: seq<byte>, base: nat, inputSize: nat,
                        partial: bool, filled: bool)
    requires Slides(buf, W, L, sunk, base, inputSize, partial, filled)
    ensures filled ==> partial
  {
  }

  lemma WindowEnds(buf: seq<byte>, W: nat, L: nat, sunk: seq<byte>, base: nat, inputSize: nat,
                   partial: bool, filled: bool)
    requires Slides(buf, W, L, sunk, base, inputSize, partial, filled)
    ensures |sunk| == base + inputSize
  {
  }

  /** Where a search starts: within one window less a byte, and never in the undefined part. */
  function SearchStart(W: nat, L: nat, msi: nat, partial: bool, filled: bool): nat {
    if filled then msi + 1
    else if partial then (if msi + 1 < L then L else msi + 1)
    else W
  }

  lemma {:induction false} CommonShift(buf: seq<byte>, sunk: seq<byte>, off: int, q: nat, end: nat, maxlen: nat, n: nat)
    requires q <= end && end + maxlen <= |buf| && n <= maxlen
    requires 0 <= q + off && end + maxlen + off <= |sunk|
    requires buf[q..end + maxlen] == sunk[q + off..end + maxlen + off]
    ensures Common(buf, q, end, maxlen, n) == Common(sunk, q + off, end + off, maxlen, n)
    decreases maxlen - n
  {
    if n < maxlen {
      var a, b := buf[q..end + maxlen], sunk[q + off..end + maxlen + off];
      assert a[n] == buf[q + n] && b[n] == sunk[q + off + n];
      assert a[end - q + n] == buf[end + n] && b[end - q + n] == sunk[end + off + n];
      CommonShift(buf, sunk, off, q, end, maxlen, n + 1);
    }
  }

  /** A search in the buffer is a search in the stream. */
  lemma AnswersShift(buf: seq<byte>, sunk: seq<byte>, off: int, start: nat, end: nat, maxlen: nat, dist: nat, len: nat)
    requires start <= end && end + maxlen <= |buf|
    requires 0 <= start + off && end + maxlen + off <= |sunk|
    requires buf[start..end + maxlen] == sunk[start + off..end + maxlen + off]
    requires Answers(buf, start, end, maxlen, dist, len)
    ensures Answers(sunk, start + off, end + off, maxlen, dist, len)
  {
    hide Common;
    var end' := end + off;
    forall q | start + off <= q < end'
      ensures MatchLen(sunk, q, end', maxlen) == MatchLen(buf, q - off, end, maxlen)
    {
      assert buf[q - off..end + maxlen] == buf[start..end + maxlen][q - off - start..];
      assert sunk[q..end + maxlen + off] == sunk[start + off..end + maxlen + off][q - off - start..];
      CommonShift(buf, sunk, off, q - off, end, maxlen, 0);
    }
  }

  /** The searched range and the needle lie in the defined part of the buffer. */
  lemma SearchRange(buf: seq<byte>, W: nat, L: nat, sunk: seq<byte>, base: nat, inputSize: nat,
                    partial: bool, filled: bool, msi: nat, maxlen: nat)
    requires Slides(buf, W, L, sunk, base, inputSize, partial, filled)
    requires msi < inputSize && msi + maxlen <= inputSize && L <= W
    ensures var start := SearchStart(W, L, msi, partial, filled);
      && start <= W + msi && W + msi - start < W
      && 0 <= base - W + start && base + msi + maxlen <= |sunk|
      && buf[start..W + msi + maxlen] == sunk[base - W + start..base + msi + maxlen]
  {
    var start, lo := SearchStart(W, L, msi, partial, filled), Undefined(W, L, partial, filled);
    var n := W + msi + maxlen;
    var at := base - W + lo;
    SubSlice(buf, lo, W + inputSize, start - lo, n - lo);
    SubSlice(sunk, at, |sunk|, start - lo, n - lo);
    assert sunk[at..] == sunk[at..|sunk|];
  }

  /** A found match is a copy: repeating bytes from that distance reproduces the input. */
  lemma {:induction false} CopyRun(sunk: seq<byte>, src: nat, pos: nat, k: nat)
    requires src < pos && pos + k <= |sunk|
    requires forall j | 0 <= j < k :: EqualAt(sunk, src, pos, j)
    ensures CopyBack(sunk[..pos], pos - src, k) == sunk[..pos + k]
    decreases k
  {
    if k > 0 {
      assert EqualAt(sunk, src, pos, 0);
      assert sunk[..pos] + [At(sunk[..pos], pos - src)] == sunk[..pos + 1];
      var src', pos' := src + 1, pos + 1;
      forall j | 0 <= j < k - 1 ensures EqualAt(sunk, src', pos', j) {
        assert EqualAt(sunk, src, pos, j + 1);
      }
      CopyRun(sunk, src', pos', k - 1);
    }
  }

  lemma MatchIsCopy(sunk: seq<byte>, start: nat, pos: nat, maxlen: nat, d: nat, len: nat)
    requires start <= pos && pos + maxlen <= |sunk|
    requires d != MATCH_NOT_FOUND && Answers(sunk, start, pos, maxlen, d, len)
    ensures 3 <= len <= maxlen && 1 <= d <= pos - start
    ensures CopyBack(sunk[..pos], d, len) == sunk[..pos + len]
  {
    CommonMeans(sunk, pos - d, pos, maxlen, 0);
    CopyRun(sunk, pos - d, pos, len);
  }

  // ---- Where a suspended encoder is inside a token ----

  /** The token about to be written: the literal at `pos`, or a copy that reproduces the input there. */
  ghost predicate Offered(p: Params, sunk: seq<byte>, pos: nat, len: nat, dist: nat) {
    && pos < |sunk|
    && (len > 0 ==>
          && Emittable(p, Backref(dist, len)) && Fits(p, Backref(dist, len)) && pos + len <= |sunk|
          && CopyBack(sunk[..pos], dist, len) == sunk[..pos + len])
  }

  /**
   * The tokens written so far stand for the stream up to `pos`, and `bits` is their encoding followed by
   * the part of the current token that has been pushed; `ob` and `oc` hold the rest of its current field.
   */
  ghost predicate Encodes(p: Params, s: State, sunk: seq<byte>, pos: nat, ts: seq<Token>, bits: seq<bool>,
                          len: nat, dist: nat, ob: nat, oc: nat)
  {
    && AllFit(p, ts) && AllEmittable(p, ts) && pos <= |sunk| && Expand(p, ts) == sunk[..pos]
    && match s
       case YieldTagBit => Offered(p, sunk, pos, len, dist) && bits == TokensBits(p, ts)
       case YieldLiteral => Offered(p, sunk, pos, len, dist) && len == 0 && bits == TokensBits(p, ts) + [true]
       case YieldBrIndex =>
         && Offered(p, sunk, pos, len, dist) && len > 0 && ob == dist - 1
         && bits + NatBits(ob, oc) == TokensBits(p, ts) + ([false] + NatBits(dist - 1, p.w))
       case YieldBrLength =>
         && Offered(p, sunk, pos, len, dist) && len > 0 && ob == len - 1
         && bits + NatBits(ob, oc) == TokensBits(p, ts) + TokenBits(p, Backref(dist, len))
       case FlushBits => len == 0 && bits == TokensBits(p, ts) && pos == |sunk|
       case Done => len == 0 && bits == TokensBits(p, ts) && pos == |sunk|
       case _ => len == 0 && bits == TokensBits(p, ts)
  }

  lemma StartEncoding(p: Params)
    ensures Encodes(p, NotFull, [], 0, [], [], 0, 0, 0, 0)
  {
  }

  lemma AfterSink(p: Params, sunk: seq<byte>, pos: nat, ts: seq<Token>, bits: seq<bool>,
                  len: nat, dist: nat, ob: nat, oc: nat, data: seq<byte>)
    requires Encodes(p, NotFull, sunk, pos, ts, bits, len, dist, ob, oc)
    ensures Encodes(p, NotFull, sunk + data, pos, ts, bits, len, dist, ob, oc)
  {
    assert (sunk + data)[..pos] == sunk[..pos];
  }

  /** States between tokens. */
  predicate Idle(s: State) {
    s == NotFull || s == Filled || s == Search || s == SaveBacklog || s == FlushBits || s == Done
  }

  /** Between tokens the state only says which phase comes next; flushing waits for the end of input. */
  lemma BetweenTokens(p: Params, s: State, s': State, sunk: seq<byte>, pos: nat, ts: seq<Token>, bits: seq<bool>,
                      len: nat, dist: nat, ob: nat, oc: nat)
    requires Encodes(p, s, sunk, pos, ts, bits, len, dist, ob, oc)
    requires Idle(s) && Idle(s')
    requires s' == FlushBits || s' == Done ==> pos == |sunk| || s == FlushBits
    ensures Encodes(p, s', sunk, pos, ts, bits, len, dist, ob, oc)
  {
  }

  /** Whatever the search answered, it offers a token that fits. */
  lemma Choice(p: Params, sunk: seq<byte>, from: nat, pos: nat, maxlen: nat, dist: nat, len: nat)
    requires from <= pos && 1 <= maxlen <= Pow2(p.l) && pos + maxlen <= |sunk| && pos - from < Pow2(p.w)
    requires Answers(sunk, from, pos, maxlen, dist, len) && dist != MATCH_NOT_FOUND
    ensures 3 <= len <= maxlen && Offered(p, sunk, pos, len, dist)
  {
    hide Pow2, CopyBack, Answers;
    MatchIsCopy(sunk, from, pos, maxlen, dist, len);
  }

  lemma AfterSearch(p: Params, sunk: seq<byte>, pos: nat, ts: seq<Token>, bits: seq<bool>,
                    len0: nat, dist0: nat, ob: nat, oc: nat, from: nat, maxlen: nat, dist: nat, len: nat)
    requires Encodes(p, Search, sunk, pos, ts, bits, len0, dist0, ob, oc)
    requires from <= pos && 1 <= maxlen <= Pow2(p.l) && pos + maxlen <= |sunk| && pos - from < Pow2(p.w)
    requires Answers(sunk, from, pos, maxlen, dist, len)
    ensures len0 == 0
    ensures dist == MATCH_NOT_FOUND ==>
              && Encodes(p, YieldTagBit, sunk, pos, ts, bits, 0, dist0, ob, oc)
              && Answers(sunk, from, pos, maxlen, dist, 0)
    ensures dist != MATCH_NOT_FOUND ==>
              3 <= len <= maxlen && Encodes(p, YieldTagBit, sunk, pos, ts, bits, len, dist, ob, oc)
  {
    hide Pow2, CopyBack, TokensBits, Expand;
    if dist != MATCH_NOT_FOUND {
      Choice(p, sunk, from, pos, maxlen, dist, len);
    }
  }

  lemma AfterTag(p: Params, sunk: seq<byte>, pos: nat, ts: seq<Token>, bits: seq<bool>,
                 len: nat, dist: nat, ob: nat, oc: nat)
    requires Encodes(p, YieldTagBit, sunk, pos, ts, bits, len, dist, ob, oc)
    ensures len == 0 ==> Encodes(p, YieldLiteral, sunk, pos, ts, bits + NatBits(1, 1), len, dist, ob, oc)
    ensures len > 0 ==> dist >= 1
    ensures len > 0 ==> Encodes(p, YieldBrIndex, sunk, pos, ts, bits + NatBits(0, 1), len, dist, dist - 1, p.w)
  {
    hide TokensBits, Expand, CopyBack, TokenBits;
    TagBits();
    if len > 0 {
      Associative(bits, [false], NatBits(dist - 1, p.w));
    }
  }

  lemma TagBits()
    ensures NatBits(1, 1) == [true] && NatBits(0, 1) == [false]
  {
  }

  lemma LiteralPending(p: Params, sunk: seq<byte>, pos: nat, ts: seq<Token>, bits: seq<bool>,
                       len: nat, dist: nat, ob: nat, oc: nat)
    requires Encodes(p, YieldLiteral, sunk, pos, ts, bits, len, dist, ob, oc)
    ensures len == 0 && pos < |sunk|
  {
  }

  lemma BackrefPending(p: Params, sunk: seq<byte>, pos: nat, ts: seq<Token>, bits: seq<bool>,
                       len: nat, dist: nat, ob: nat, oc: nat)
    requires Encodes(p, YieldBrLength, sunk, pos, ts, bits, len, dist, ob, oc)
    ensures len > 0 && pos + len <= |sunk|
  {
  }

  lemma AfterLiteral(p: Params, sunk: seq<byte>, pos: nat, ts: seq<Token>, bits: seq<bool>,
                     len: nat, dist: nat, ob: nat, oc: nat)
    requires Encodes(p, YieldLiteral, sunk, pos, ts, bits, len, dist, ob, oc)
    ensures Encodes(p, Search, sunk, pos + 1, ts + [Literal(sunk[pos])], bits + NatBits(sunk[pos], 8), 0, dist, ob, oc)
  {
    hide NatBits, ByteBits, Pow2, CopyBack;
    var t := Literal(sunk[pos]);
    var ts' := ts + [t];
    assert ts'[..|ts|] == ts;
    ByteIsField(sunk[pos]);
    Associative(TokensBits(p, ts), [true], ByteBits(sunk[pos]));
    assert sunk[..pos] + [sunk[pos]] == sunk[..pos + 1];
  }

  /** The next piece of an outgoing field: its top eight bits, or all of it when no more are left. */
  function PieceLen(oc: nat): (c: nat)
    ensures c <= 8 && c <= oc
  {
    if oc > 8 then 8 else oc
  }

  function Piece(ob: nat, oc: nat): byte {
    if oc > 8 then Shr(ob, oc - 8) % 256 else ob % 256
  }

  lemma PushPiece(ob: nat, oc: nat)
    ensures NatBits(ob, oc) == NatBits(Piece(ob, oc), PieceLen(oc)) + NatBits(ob, oc - PieceLen(oc))
  {
    Powers();
    if oc > 8 {
      SplitField(ob, oc, oc - 8);
      LowBitsOnly(Shr(ob, oc - 8), 8, 8);
    } else {
      LowBitsOnly(ob, oc, 8);
      assert NatBits(ob, oc) + [] == NatBits(ob, oc);
    }
  }

  lemma AfterPiece(p: Params, s: State, sunk: seq<byte>, pos: nat, ts: seq<Token>, bits: seq<bool>,
                   len: nat, dist: nat, ob: nat, oc: nat)
    requires Encodes(p, s, sunk, pos, ts, bits, len, dist, ob, oc) && (s == YieldBrIndex || s == YieldBrLength)
    ensures Encodes(p, s, sunk, pos, ts, bits + NatBits(Piece(ob, oc), PieceLen(oc)), len, dist, ob, oc - PieceLen(oc))
  {
    hide TokensBits, Expand, CopyBack, TokenBits, NatBits, Piece, PieceLen;
    PushPiece(ob, oc);
    Associative(bits, NatBits(Piece(ob, oc), PieceLen(oc)), NatBits(ob, oc - PieceLen(oc)));
  }

  lemma EmptyFieldLeft(bits: seq<bool>, ob: nat)
    ensures bits + NatBits(ob, 0) == bits
  {
  }

  lemma AfterIndex(p: Params, sunk: seq<byte>, pos: nat, ts: seq<Token>, bits: seq<bool>,
                   len: nat, dist: nat, ob: nat)
    requires Encodes(p, YieldBrIndex, sunk, pos, ts, bits, len, dist, ob, 0)
    ensures len >= 1 && Encodes(p, YieldBrLength, sunk, pos, ts, bits, len, dist, len - 1, p.l)
  {
    hide TokensBits, Expand, CopyBack;
    EmptyFieldLeft(bits, ob);
    hide NatBits;
    Associative(TokensBits(p, ts), [false] + NatBits(dist - 1, p.w), NatBits(len - 1, p.l));
  }

  lemma AfterLength(p: Params, sunk: seq<byte>, pos: nat, ts: seq<Token>, bits: seq<bool>,
                    len: nat, dist: nat, ob: nat)
    requires Encodes(p, YieldBrLength, sunk, pos, ts, bits, len, dist, ob, 0)
    ensures Encodes(p, Search, sunk, pos + len, ts + [Backref(dist, len)], bits, 0, dist, ob, 0)
  {
    hide TokenBits, CopyBack;
    var ts' := ts + [Backref(dist, len)];
    assert ts'[..|ts|] == ts;
    EmptyFieldLeft(bits, ob);
  }
}
