/** The heatshrink bit stream as a language: tokens, their bit fields, and what a decoder makes of them. */
module Lzss {
  import opened BitString

  /** Base-2 logarithms of the window and lookahead sizes. */
  datatype Params = Params(w: nat, l: nat)

  /** What `heatshrink_encoder_alloc` and `heatshrink_decoder_alloc` accept. */
  predicate Legal(p: Params) {
    4 <= p.w <= 15 && 2 <= p.l <= p.w
  }

  datatype Token = Literal(c: byte) | Backref(dist: nat, len: nat)

  datatype Option<T> = None | Some(value: T)

  /** The token's values fit its bit fields. */
  predicate Fits(p: Params, t: Token) {
    t.Backref? ==> 1 <= t.dist <= Pow2(p.w) && 1 <= t.len <= Pow2(p.l)
  }

  function TokenLen(p: Params, literal: bool): (n: nat) {
    if literal then 9 else 1 + p.w + p.l
  }

  function TokenBits(p: Params, t: Token): (s: seq<bool>)
    requires Fits(p, t)
    ensures |s| == TokenLen(p, t.Literal?)
  {
    match t
    case Literal(c) => [true] + ByteBits(c)
    case Backref(d, n) => [false] + NatBits(d - 1, p.w) + NatBits(n - 1, p.l)
  }

  /** The byte `d` places before the end of the output; the window starts out zeroed. */
  function At(hist: seq<byte>, d: nat): byte
    requires d >= 1
  {
    if d <= |hist| then hist[|hist| - d] else 0
  }

  /** Copying `n` bytes from distance `d`, byte by byte, so a copy may overlap its own output. */
  function CopyBack(hist: seq<byte>, d: nat, n: nat): (r: seq<byte>)
    requires d >= 1
    ensures |r| == |hist| + n && hist <= r
    decreases n
  {
    if n == 0 then hist else CopyBack(hist + [At(hist, d)], d, n - 1)
  }

  /** Copies reach into a history of zeros before the beginning. */
  lemma {:induction false} NothingBefore(k: nat, d: nat, n: nat)
    requires d >= 1
    ensures CopyBack(seq(k, _ => 0), d, n) == seq(k + n, _ => 0)
    decreases n
  {
    if n > 0 {
      assert seq(k, _ => 0) + [At(seq(k, _ => 0), d)] == seq(k + 1, _ => 0);
      NothingBefore(k + 1, d, n - 1);
    }
  }

  function Apply(hist: seq<byte>, t: Token): (r: seq<byte>)
    requires t.Backref? ==> t.dist >= 1
    ensures hist <= r
  {
    match t
    case Literal(c) => hist + [c]
    case Backref(d, n) => CopyBack(hist, d, n)
  }

  /** The token at the head of a bit string. A token is begun only while a whole byte's worth of bits is left. */
  function NextToken(p: Params, bits: seq<bool>): (r: Option<Token>)
    requires Legal(p)
    ensures r.Some? ==> Fits(p, r.value) && TokenLen(p, r.value.Literal?) <= |bits|
  {
    if |bits| < 8 || |bits| < TokenLen(p, bits[0]) then None
    else if bits[0] then FieldBound(bits[1..9]); Powers(); Some(Literal(BitsNat(bits[1..9])))
    else
      FieldBound(bits[1..1 + p.w]); FieldBound(bits[1 + p.w..1 + p.w + p.l]);
      Some(Backref(BitsNat(bits[1..1 + p.w]) + 1, BitsNat(bits[1 + p.w..1 + p.w + p.l]) + 1))
  }

  /** Decoding: the output so far with everything decodable appended, and the bits left over. */
  function Decode(p: Params, bits: seq<bool>, hist: seq<byte>): (r: (seq<byte>, seq<bool>))
    requires Legal(p)
    ensures hist <= r.0
    decreases |bits|
  {
    match NextToken(p, bits)
    case None => (hist, bits)
    case Some(t) => Decode(p, bits[TokenLen(p, t.Literal?)..], Apply(hist, t))
  }

  lemma SliceOfFirst(a: seq<bool>, b: seq<bool>, i: nat, j: nat)
    requires i <= j <= |a|
    ensures (a + b)[i..j] == a[i..j]
  {
  }

  /** The token at the head of `a`, when all of it is there, does not depend on what follows. */
  lemma TokenOfFirst(p: Params, a: seq<bool>, b: seq<bool>)
    requires Legal(p) && a != [] && |a| >= TokenLen(p, a[0]) && |a + b| >= 8
    ensures NextToken(p, a + b)
         == Some(if a[0] then Literal(AsByte(BitsNat(a[1..9])))
                 else Backref(BitsNat(a[1..1 + p.w]) + 1, BitsNat(a[1 + p.w..1 + p.w + p.l]) + 1))
  {
    assert (a + b)[0] == a[0];
    if a[0] {
      SliceOfFirst(a, b, 1, 9);
      FieldBound(a[1..9]);
      Powers();
      hide BitsNat, Pow2;
    } else {
      hide BitsNat, Pow2;
      SliceOfFirst(a, b, 1, 1 + p.w);
      SliceOfFirst(a, b, 1 + p.w, 1 + p.w + p.l);
    }
  }

  function AsByte(n: nat): byte { if n < 256 then n else 0 }

  lemma NextTokenStable(p: Params, a: seq<bool>, b: seq<bool>)
    requires Legal(p) && NextToken(p, a).Some?
    ensures NextToken(p, a + b) == NextToken(p, a)
  {
    EnoughForToken(p, a);
    hide NextToken;
    TokenOfFirst(p, a, b);
    TokenOfFirst(p, a, []);
    assert a + [] == a;
  }

  lemma EnoughForToken(p: Params, a: seq<bool>)
    requires Legal(p)
    ensures NextToken(p, a).Some? ==> |a| >= 8 && |a| >= TokenLen(p, a[0])
  {
    hide BitsNat, Pow2;
  }

  /** Decoding may stop anywhere and go on when more bits arrive. */
  lemma {:induction false} DecodeResumes(p: Params, a: seq<bool>, b: seq<bool>, hist: seq<byte>)
    requires Legal(p)
    ensures Decode(p, a + b, hist) == Decode(p, Decode(p, a, hist).1 + b, Decode(p, a, hist).0)
    decreases |a|
  {
    match NextToken(p, a)
    case None =>
    case Some(t) =>
      var n := TokenLen(p, t.Literal?);
      NextTokenStable(p, a, b);
      assert (a + b)[n..] == a[n..] + b;
      DecodeResumes(p, a[n..], b, Apply(hist, t));
  }

  /** Two decoders that agree now agree on every continuation of the stream. */
  lemma DecodeExtend(p: Params, a: seq<bool>, h: seq<byte>, a': seq<bool>, h': seq<byte>, b: seq<bool>)
    requires Legal(p) && Decode(p, a, h) == Decode(p, a', h')
    ensures Decode(p, a + b, h) == Decode(p, a' + b, h')
  {
    DecodeResumes(p, a, b, h);
    DecodeResumes(p, a', b, h');
  }

  lemma {:induction false} DecodeGrows(p: Params, bits: seq<bool>, hist: seq<byte>)
    requires Legal(p)
    ensures |Decode(p, bits, hist).1| <= |bits|
    ensures |Decode(p, bits, hist).1| < |bits| ==> |Decode(p, bits, hist).0| > |hist|
    decreases |bits|
  {
    match NextToken(p, bits)
    case None =>
    case Some(t) => DecodeGrows(p, bits[TokenLen(p, t.Literal?)..], Apply(hist, t));
  }

  lemma DecodeTake(p: Params, bits: seq<bool>, h: seq<byte>, t: Token)
    requires Legal(p) && NextToken(p, bits) == Some(t)
    ensures Decode(p, bits, h) == Decode(p, bits[TokenLen(p, t.Literal?)..], Apply(h, t))
  {
    hide NextToken, Apply;
  }

  /** What is left over of a stream can be exchanged for something else. */
  lemma {:induction false} DecodeOther(p: Params, a: seq<bool>, h: seq<byte>, t: seq<bool>, out: seq<byte>,
                                       x: seq<bool>)
    requires Legal(p) && Decode(p, a + t, h) == (out, t) && |t| < 8 && x != []
    ensures Decode(p, a + x, h) == Decode(p, x, out)
    decreases |a|
  {
    hide Decode, NextToken, Apply;
    if a == [] {
      assert a + t == t && a + x == x;
      DecodeTooShort(p, t, h);
    } else {
      var tok := DecodeFirst(p, a, h, t, out);
      var n := TokenLen(p, tok.Literal?);
      DecodeTake(p, a + t, h, tok);
      NextTokenWithin(p, a, t, x, tok);
      DecodeTake(p, a + x, h, tok);
      TailOfFirst(a, t, n);
      TailOfFirst(a, x, n);
      DecodeOther(p, a[n..], Apply(h, tok), t, out, x);
    }
  }

  lemma TailOfFirst(a: seq<bool>, b: seq<bool>, n: nat)
    requires n <= |a|
    ensures (a + b)[n..] == a[n..] + b
  {
  }

  lemma DecodeTooShort(p: Params, bits: seq<bool>, h: seq<byte>)
    requires Legal(p) && |bits| < 8
    ensures Decode(p, bits, h) == (h, bits)
  {
  }

  /** A stream of which `t` is left over begins with a token of what comes before. */
  lemma DecodeFirst(p: Params, a: seq<bool>, h: seq<byte>, t: seq<bool>, out: seq<byte>) returns (tok: Token)
    requires Legal(p) && Decode(p, a + t, h) == (out, t) && a != []
    ensures NextToken(p, a + t) == Some(tok) && TokenLen(p, tok.Literal?) <= |a|
  {
    hide NextToken, Apply;
    LongerBy(a, t);
    tok := NextToken(p, a + t).value;
    DecodeGrows(p, (a + t)[TokenLen(p, tok.Literal?)..], Apply(h, tok));
  }

  lemma LongerBy(a: seq<bool>, t: seq<bool>)
    ensures a != [] ==> |a + t| > |t|
  {
  }

  lemma NextTokenWithin(p: Params, a: seq<bool>, t: seq<bool>, x: seq<bool>, tok: Token)
    requires Legal(p) && NextToken(p, a + t) == Some(tok) && TokenLen(p, tok.Literal?) <= |a| && x != []
    ensures NextToken(p, a + x) == Some(tok)
  {
    EnoughForToken(p, a + t);
    TagOfToken(p, a + t);
    assert (a + t)[0] == a[0];
    hide NextToken;
    TokenOfFirst(p, a, t);
    TokenOfFirst(p, a, x);
  }

  lemma TagOfToken(p: Params, a: seq<bool>)
    requires Legal(p)
    ensures NextToken(p, a).Some? ==> a != [] && (a[0] <==> NextToken(p, a).value.Literal?)
  {
    hide BitsNat, Pow2;
  }

  /** Bytes written as literals. */
  function Literals(bytes: seq<byte>): (s: seq<bool>) {
    if bytes == [] then [] else [true] + ByteBits(bytes[0]) + Literals(bytes[1..])
  }

  lemma {:induction false} DecodeLiterals(p: Params, bytes: seq<byte>, hist: seq<byte>)
    requires Legal(p)
    ensures Decode(p, Literals(bytes), hist) == (hist + bytes, [])
    decreases |bytes|
  {
    if bytes == [] {
      assert hist + [] == hist;
    } else {
      var s, c := Literals(bytes), bytes[0];
      assert s[1..9] == ByteBits(c) && s[9..] == Literals(bytes[1..]);
      ReadByte(c);
      DecodeLiterals(p, bytes[1..], hist + [c]);
      assert hist + [c] + bytes[1..] == hist + bytes;
    }
  }

  lemma FieldSlices(tag: bool, a: seq<bool>, b: seq<bool>)
    ensures ([tag] + a + b)[1..1 + |a|] == a
    ensures ([tag] + a + b)[1 + |a|..1 + |a| + |b|] == b
  {
  }

  lemma ReadFields(p: Params, d: nat, n: nat)
    requires Fits(p, Backref(d, n))
    ensures BitsNat(NatBits(d - 1, p.w)) + 1 == d && BitsNat(NatBits(n - 1, p.l)) + 1 == n
  {
    hide BitsNat, NatBits;
    ReadWritten(d - 1, p.w);
    ReadWritten(n - 1, p.l);
  }

  lemma ReadBackref(p: Params, d: nat, n: nat, tail: seq<bool>)
    requires Legal(p) && Fits(p, Backref(d, n))
    requires 1 + p.w + p.l + |tail| >= 8
    ensures NextToken(p, TokenBits(p, Backref(d, n)) + tail) == Some(Backref(d, n))
  {
    hide NextToken, BitsNat, NatBits;
    TokenOfFirst(p, TokenBits(p, Backref(d, n)), tail);
    FieldSlices(false, NatBits(d - 1, p.w), NatBits(n - 1, p.l));
    ReadFields(p, d, n);
  }

  /** A written token is read back, provided the start rule lets it begin. */
  lemma ReadToken(p: Params, t: Token, tail: seq<bool>)
    requires Legal(p) && Fits(p, t)
    requires |TokenBits(p, t)| + |tail| >= 8
    ensures NextToken(p, TokenBits(p, t) + tail) == Some(t)
  {
    match t
    case Literal(c) =>
      assert (TokenBits(p, t) + tail)[1..9] == ByteBits(c);
      ReadByte(c);
    case Backref(d, n) =>
      ReadBackref(p, d, n, tail);
  }

  predicate AllFit(p: Params, ts: seq<Token>) {
    forall i | 0 <= i < |ts| :: Fits(p, ts[i])
  }

  function TokensBits(p: Params, ts: seq<Token>): (s: seq<bool>)
    requires AllFit(p, ts)
  {
    if |ts| == 0 then []
    else TokensBits(p, ts[..|ts| - 1]) + TokenBits(p, ts[|ts| - 1])
  }

  /** The bytes a token sequence stands for. */
  function Expand(p: Params, ts: seq<Token>): (r: seq<byte>)
    requires AllFit(p, ts)
  {
    if |ts| == 0 then []
    else Apply(Expand(p, ts[..|ts| - 1]), ts[|ts| - 1])
  }

  /** The start rule does not cut off the last token. */
  predicate LastTokenStarts(p: Params, ts: seq<Token>, pad: seq<bool>)
    requires AllFit(p, ts)
  {
    ts == [] || |TokenBits(p, ts[|ts| - 1])| + |pad| >= 8
  }

  /** Decoding any token prefix followed by at least a byte's worth of bits reaches its expansion. */
  lemma {:induction false} DecodeTokens(p: Params, ts: seq<Token>, tail: seq<bool>)
    requires Legal(p) && AllFit(p, ts) && LastTokenStarts(p, ts, tail)
    ensures Decode(p, TokensBits(p, ts) + tail, []) == Decode(p, tail, Expand(p, ts))
    decreases |ts|
  {
    if ts == [] {
      assert [] + tail == tail;
    } else {
      var front, t := ts[..|ts| - 1], ts[|ts| - 1];
      var s := TokenBits(p, t) + tail;
      assert TokensBits(p, ts) + tail == TokensBits(p, front) + s;
      DecodeTokens(p, front, s);
      ReadToken(p, t, tail);
      assert s[TokenLen(p, t.Literal?)..] == tail;
    }
  }

  /**
   * The decoder undoes the token encoding of every token sequence exactly when the start rule lets the last
   * token begin; then up to seven padding bits are left over, and else the last token is missing.
   */
  lemma {:induction false} DecodeEncoded(p: Params, ts: seq<Token>, pad: seq<bool>)
    requires Legal(p) && AllFit(p, ts) && |pad| < 8
    ensures Decode(p, TokensBits(p, ts) + pad, []).0 == Expand(p, ts) <==> LastTokenStarts(p, ts, pad)
    ensures LastTokenStarts(p, ts, pad) ==> Decode(p, TokensBits(p, ts) + pad, []) == (Expand(p, ts), pad)
    ensures !LastTokenStarts(p, ts, pad) ==>
              Decode(p, TokensBits(p, ts) + pad, [])
              == (Expand(p, ts[..|ts| - 1]), TokenBits(p, ts[|ts| - 1]) + pad)
  {
    hide Decode, TokenBits, Apply;
    if LastTokenStarts(p, ts, pad) {
      DecodeTokens(p, ts, pad);
      DecodeTooShort(p, pad, Expand(p, ts));
    } else {
      var front, t := ts[..|ts| - 1], ts[|ts| - 1];
      var s := TokenBits(p, t) + pad;
      assert TokensBits(p, ts) + pad == TokensBits(p, front) + s;
      LastTokenStartsEarlier(p, front, s);
      DecodeTokens(p, front, s);
      DecodeTooShort(p, s, Expand(p, front));
      ApplyGrows(p, Expand(p, front), t);
    }
  }

  lemma ApplyGrows(p: Params, hist: seq<byte>, t: Token)
    requires Fits(p, t)
    ensures |Apply(hist, t)| > |hist|
  {
  }

  lemma LastTokenStartsEarlier(p: Params, ts: seq<Token>, s: seq<bool>)
    requires Legal(p) && AllFit(p, ts) && |s| >= 7
    ensures LastTokenStarts(p, ts, s)
  {
  }

  /** Only the smallest configuration has a token shorter than a byte. */
  lemma StartRuleHarmless(p: Params, ts: seq<Token>, pad: seq<bool>)
    requires Legal(p) && AllFit(p, ts) && p.w + p.l >= 7
    ensures LastTokenStarts(p, ts, pad)
  {
  }

  /** A back-reference the encoder emits: it pays for itself and never reaches the whole window. */
  predicate Emittable(p: Params, t: Token) {
    t.Backref? ==> 1 <= t.dist <= Pow2(p.w) - 1 && 3 <= t.len <= Pow2(p.l)
  }

  predicate AllEmittable(p: Params, ts: seq<Token>) {
    forall i | 0 <= i < |ts| :: Emittable(p, ts[i])
  }

  /** Compression never costs more than nine bits a byte, except that a three-byte match at w + l = 27 costs 28. */
  lemma {:induction false} SizeBound(p: Params, ts: seq<Token>)
    requires AllFit(p, ts) && AllEmittable(p, ts) && p.w + p.l <= 27
    ensures p.w + p.l <= 26 ==> |TokensBits(p, ts)| <= 9 * |Expand(p, ts)|
    ensures 3 * |TokensBits(p, ts)| <= 28 * |Expand(p, ts)|
    decreases |ts|
  {
    if ts != [] {
      assert Emittable(p, ts[|ts| - 1]);
      SizeBound(p, ts[..|ts| - 1]);
    }
  }
}
