/** Which tokens the encoder chooses: a function of the data alone, however it comes in. */
module TokenChoice {
  import opened BitString
  import opened Lzss
  import opened MatchSearch
  import opened EncoderModel

  /** Where the current round of searching began, and how often the backlog has been saved, counted up to two. */
  datatype Spot = Spot(base: nat, saves: nat)

  function Saves(partial: bool, filled: bool): nat { if filled then 2 else if partial then 1 else 0 }

  function OneMore(saves: nat): nat { if saves < 2 then saves + 1 else 2 }

  function Size(t: Token): nat { if t.Literal? then 1 else t.len }

  function Span(ts: seq<Token>): nat {
    if ts == [] then 0 else Span(ts[..|ts| - 1]) + Size(ts[|ts| - 1])
  }

  /** How far back a search at `pos` looks: a window less a byte, but not before what the backlog holds. */
  function From(p: Params, s: Spot, pos: nat): int {
    var W, L := Pow2(p.w), Pow2(p.l);
    if s.saves == 0 then s.base
    else if s.saves == 1 && pos - W + 1 < s.base - W + L then s.base - W + L
    else pos - W + 1
  }

  function Cap(p: Params, n: nat, pos: nat): int {
    if n - pos < Pow2(p.l) then n - pos else Pow2(p.l)
  }

  /** The round after a token that ends at `pos`: a round on a full buffer ends one lookahead before its end. */
  function Onward(p: Params, n: nat, s: Spot, pos: nat): Spot {
    if n - s.base >= Pow2(p.w) && pos - s.base >= Pow2(p.w) - Pow2(p.l) then Spot(pos, OneMore(s.saves)) else s
  }

  function SpotAt(p: Params, n: nat, ts: seq<Token>): Spot {
    if ts == [] then Spot(0, 0) else Onward(p, n, SpotAt(p, n, ts[..|ts| - 1]), Span(ts))
  }

  /** A token of this length and distance, or a literal if the length is zero, is what the search answers there. */
  ghost predicate Right(p: Params, data: seq<byte>, s: Spot, pos: nat, len: nat, dist: nat) {
    && pos < |data| && 0 <= From(p, s, pos) <= pos && dist != MATCH_NOT_FOUND
    && Answers(data, From(p, s, pos), pos, Cap(p, |data|, pos), if len == 0 then MATCH_NOT_FOUND else dist, len)
  }

  ghost predicate RightToken(p: Params, data: seq<byte>, s: Spot, pos: nat, t: Token) {
    match t
    case Literal(c) => Right(p, data, s, pos, 0, 0) && data[pos] == c
    case Backref(d, n) => n > 0 && Right(p, data, s, pos, n, d)
  }

  /** Every token is the search's answer at its place. */
  ghost predicate Chosen(p: Params, data: seq<byte>, ts: seq<Token>) {
    forall i | 0 <= i < |ts| :: RightToken(p, data, SpotAt(p, |data|, ts[..i]), Span(ts[..i]), ts[i])
  }

  // ---- There is one choice ----

  lemma RightUnique(p: Params, data: seq<byte>, s: Spot, pos: nat, t: Token, t': Token)
    requires RightToken(p, data, s, pos, t) && RightToken(p, data, s, pos, t')
    ensures t == t'
  {
    hide Answers, From, Pow2;
    var n, d := if t.Literal? then 0 else t.len, if t.Literal? then MATCH_NOT_FOUND else t.dist;
    var n', d' := if t'.Literal? then 0 else t'.len, if t'.Literal? then MATCH_NOT_FOUND else t'.dist;
    AnswersUnique(data, From(p, s, pos), pos, Cap(p, |data|, pos), d, n, d', n');
    NotFoundIsNone(data, From(p, s, pos), pos, Cap(p, |data|, pos), d, n);
    NotFoundIsNone(data, From(p, s, pos), pos, Cap(p, |data|, pos), d', n');
  }

  /** A distance found is never the mark for none, which lies beyond every window. */
  lemma NotFoundIsNone(data: seq<byte>, from: nat, pos: nat, cap: nat, d: nat, n: nat)
    requires from <= pos && pos + cap <= |data| && Answers(data, from, pos, cap, d, n)
    ensures d == MATCH_NOT_FOUND || (1 <= d <= pos - from && n >= 3)
  {
  }

  lemma {:induction false} SamePrefix(p: Params, data: seq<byte>, ts: seq<Token>, us: seq<Token>, k: nat)
    requires Chosen(p, data, ts) && Chosen(p, data, us) && k <= |ts| && k <= |us|
    ensures ts[..k] == us[..k]
    decreases k
  {
    hide SpotAt, Span, RightToken;
    if k > 0 {
      var i := k - 1;
      SamePrefix(p, data, ts, us, i);
      RightUnique(p, data, SpotAt(p, |data|, ts[..i]), Span(ts[..i]), ts[i], us[i]);
      assert ts[..k] == ts[..i] + [ts[i]] && us[..k] == us[..i] + [us[i]];
    }
  }

  lemma {:induction false} SpanPart(ts: seq<Token>, k: nat)
    requires k <= |ts|
    ensures Span(ts[..k]) <= Span(ts)
    decreases |ts|
  {
    if k < |ts| {
      assert ts[..|ts| - 1][..k] == ts[..k];
      SpanPart(ts[..|ts| - 1], k);
    } else {
      assert ts[..k] == ts;
    }
  }

  /** Two choices of tokens for all of the data are the same. */
  lemma OneChoice(p: Params, data: seq<byte>, ts: seq<Token>, us: seq<Token>)
    requires Chosen(p, data, ts) && Chosen(p, data, us) && Span(ts) == |data| == Span(us)
    ensures ts == us
  {
    var k := if |ts| < |us| then |ts| else |us|;
    SamePrefix(p, data, ts, us, k);
    assert k == |ts| ==> ts[..k] == ts;
    assert k == |us| ==> us[..k] == us;
    if k < |us| { NotAtEnd(p, data, us, k); }
    if k < |ts| { NotAtEnd(p, data, ts, k); }
  }

  lemma NotAtEnd(p: Params, data: seq<byte>, ts: seq<Token>, k: nat)
    requires Chosen(p, data, ts) && k < |ts|
    ensures Span(ts[..k]) < |data|
  {
    assert RightToken(p, data, SpotAt(p, |data|, ts[..k]), Span(ts[..k]), ts[k]);
  }

  // ---- What the encoder keeps ----

  /** All rounds so far were on a full buffer, and no search was short of lookahead. */
  ghost predicate Full(p: Params, n: nat, ts: seq<Token>) {
    forall i | 0 <= i < |ts| :: SpotAt(p, n, ts[..i]).base + Pow2(p.w) <= n && Span(ts[..i]) + Pow2(p.l) <= n
  }

  /** The round an encoder is in, given where its buffer starts and that it may have yet to save it. */
  function Current(p: Params, base: nat, saves: nat, pos: nat, fin: bool): Spot {
    if !fin && pos - base >= Pow2(p.w) - Pow2(p.l) then Spot(pos, OneMore(saves)) else Spot(base, saves)
  }

  /**
   * The tokens written are those the data calls for, and the encoder is in the round they lead to.
   * Finishing began only when less than a buffer was left.
   */
  ghost predicate Canonical(p: Params, sunk: seq<byte>, ts: seq<Token>, base: nat, saves: nat, pos: nat, fin: bool) {
    && pos == Span(ts) && base <= pos <= |sunk| && Chosen(p, sunk, ts)
    && SpotAt(p, |sunk|, ts) == Current(p, base, saves, pos, fin)
    && (if fin then |sunk| < base + Pow2(p.w) else Full(p, |sunk|, ts))
  }

  /** The token being written is the one the data calls for next. */
  ghost predicate Next(p: Params, sunk: seq<byte>, base: nat, saves: nat, pos: nat, fin: bool, len: nat, dist: nat) {
    && Right(p, sunk, Spot(base, saves), pos, len, if len == 0 then 0 else dist)
    && (!fin ==> base + Pow2(p.w) <= |sunk| && pos - base < Pow2(p.w) - Pow2(p.l))
  }

  lemma CanonicalStart(p: Params)
    requires Pow2(p.l) < Pow2(p.w)
    ensures Canonical(p, [], [], 0, 0, 0, false)
  {
  }

  lemma {:induction false} SpotStable(p: Params, n: nat, n': nat, ts: seq<Token>)
    requires Full(p, n, ts) && n <= n'
    ensures SpotAt(p, n', ts) == SpotAt(p, n, ts)
    decreases |ts|
  {
    if ts != [] {
      var i := |ts| - 1;
      FullPart(p, n, ts, i);
      SpotStable(p, n, n', ts[..i]);
      assert SpotAt(p, n, ts[..i]).base + Pow2(p.w) <= n;
    }
  }

  lemma FullPart(p: Params, n: nat, ts: seq<Token>, k: nat)
    requires Full(p, n, ts) && k <= |ts|
    ensures Full(p, n, ts[..k])
  {
    hide SpotAt, Span, Pow2;
    var us := ts[..k];
    forall i | 0 <= i < |us|
      ensures SpotAt(p, n, us[..i]).base + Pow2(p.w) <= n && Span(us[..i]) + Pow2(p.l) <= n
    {
      assert us[..i] == ts[..i];
    }
  }

  lemma RightStable(p: Params, sunk: seq<byte>, data: seq<byte>, s: Spot, pos: nat, len: nat, dist: nat)
    requires Right(p, sunk, s, pos, len, dist) && pos + Pow2(p.l) <= |sunk|
    ensures Right(p, sunk + data, s, pos, len, dist)
  {
    hide Answers, From, Pow2;
    var from := From(p, s, pos);
    assert (sunk + data)[from..pos + Pow2(p.l)] == sunk[from..pos + Pow2(p.l)];
    AnswersShift(sunk, sunk + data, 0, from, pos, Pow2(p.l), if len == 0 then MATCH_NOT_FOUND else dist, len);
  }

  lemma ChosenStable(p: Params, sunk: seq<byte>, data: seq<byte>, ts: seq<Token>)
    requires Chosen(p, sunk, ts) && Full(p, |sunk|, ts)
    ensures Chosen(p, sunk + data, ts) && Full(p, |sunk + data|, ts)
  {
    hide SpotAt, Span, Pow2, Right;
    var all := sunk + data;
    forall i | 0 <= i < |ts|
      ensures RightToken(p, all, SpotAt(p, |all|, ts[..i]), Span(ts[..i]), ts[i])
      ensures SpotAt(p, |all|, ts[..i]).base + Pow2(p.w) <= |all| && Span(ts[..i]) + Pow2(p.l) <= |all|
    {
      FullPart(p, |sunk|, ts, i);
      SpotStable(p, |sunk|, |all|, ts[..i]);
      var s, pos := SpotAt(p, |sunk|, ts[..i]), Span(ts[..i]);
      assert RightToken(p, sunk, s, pos, ts[i]);
      match ts[i] {
        case Literal(_) => RightInside(p, sunk, s, pos, 0, 0); RightStable(p, sunk, data, s, pos, 0, 0);
        case Backref(d, n) => RightStable(p, sunk, data, s, pos, n, d);
      }
    }
  }

  lemma RightInside(p: Params, data: seq<byte>, s: Spot, pos: nat, len: nat, dist: nat)
    requires Right(p, data, s, pos, len, dist)
    ensures pos < |data|
  {
  }

  lemma CanonicalGrows(p: Params, sunk: seq<byte>, data: seq<byte>, ts: seq<Token>, base: nat, saves: nat, pos: nat)
    requires Canonical(p, sunk, ts, base, saves, pos, false)
    ensures Canonical(p, sunk + data, ts, base, saves, pos, false)
  {
    hide Chosen, SpotAt, Span, Pow2, Full;
    ChosenStable(p, sunk, data, ts);
    SpotStable(p, |sunk|, |sunk + data|, ts);
  }

  lemma CanonicalFinishes(p: Params, sunk: seq<byte>, ts: seq<Token>, base: nat, saves: nat, pos: nat)
    requires Canonical(p, sunk, ts, base, saves, pos, false)
    requires pos == base && |sunk| < base + Pow2(p.w) && Pow2(p.l) < Pow2(p.w)
    ensures Canonical(p, sunk, ts, base, saves, pos, true)
  {
    hide Chosen, SpotAt, Span, Pow2, Full;
  }

  lemma CanonicalSaves(p: Params, sunk: seq<byte>, ts: seq<Token>, base: nat, saves: nat, pos: nat)
    requires Canonical(p, sunk, ts, base, saves, pos, false)
    requires pos - base >= Pow2(p.w) - Pow2(p.l) > 0
    ensures Canonical(p, sunk, ts, pos, OneMore(saves), pos, false)
  {
    hide Chosen, SpotAt, Span, Pow2, Full;
  }

  /** The search's answer is the token to write. */
  lemma NextIs(p: Params, sunk: seq<byte>, base: nat, saves: nat, pos: nat, fin: bool,
               from: int, cap: int, dist: nat, len: nat)
    requires pos < |sunk| && from == From(p, Spot(base, saves), pos) && cap == Cap(p, |sunk|, pos) && 0 <= from <= pos
    requires Answers(sunk, from, pos, cap, if len == 0 then MATCH_NOT_FOUND else dist, len)
    requires len > 0 ==> dist != MATCH_NOT_FOUND
    requires !fin ==> base + Pow2(p.w) <= |sunk| && pos - base < Pow2(p.w) - Pow2(p.l)
    ensures Next(p, sunk, base, saves, pos, fin, len, dist)
  {
    hide Pow2, Answers;
  }

  lemma CanonicalAppends(p: Params, sunk: seq<byte>, ts: seq<Token>, base: nat, saves: nat, pos: nat, fin: bool,
                         len: nat, dist: nat, t: Token)
    requires Canonical(p, sunk, ts, base, saves, pos, fin) && Next(p, sunk, base, saves, pos, fin, len, dist)
    requires pos < |sunk| && t == (if len == 0 then Literal(sunk[pos]) else Backref(dist, len))
    requires pos + Size(t) <= |sunk|
    ensures Canonical(p, sunk, ts + [t], base, saves, pos + Size(t), fin)
  {
    hide Answers, Pow2, SpotAt, Span, Chosen, Full;
    ChosenAppends(p, sunk, ts, t);
    if !fin { FullAppends(p, |sunk|, ts, t); }
    SpotNext(p, |sunk|, ts, t);
  }

  lemma ChosenAppends(p: Params, sunk: seq<byte>, ts: seq<Token>, t: Token)
    requires Chosen(p, sunk, ts) && RightToken(p, sunk, SpotAt(p, |sunk|, ts), Span(ts), t)
    ensures Chosen(p, sunk, ts + [t])
  {
    hide SpotAt, Span, RightToken;
    var us := ts + [t];
    forall i | 0 <= i < |us| ensures RightToken(p, sunk, SpotAt(p, |sunk|, us[..i]), Span(us[..i]), us[i]) {
      assert us[..i] == if i < |ts| then ts[..i] else ts;
    }
  }

  lemma FullAppends(p: Params, n: nat, ts: seq<Token>, t: Token)
    requires Full(p, n, ts) && SpotAt(p, n, ts).base + Pow2(p.w) <= n && Span(ts) + Pow2(p.l) <= n
    ensures Full(p, n, ts + [t])
  {
    hide SpotAt, Span, Pow2;
    var us := ts + [t];
    forall i | 0 <= i < |us| ensures SpotAt(p, n, us[..i]).base + Pow2(p.w) <= n && Span(us[..i]) + Pow2(p.l) <= n {
      assert us[..i] == if i < |ts| then ts[..i] else ts;
    }
  }

  lemma SpotNext(p: Params, n: nat, ts: seq<Token>, t: Token)
    ensures Span(ts + [t]) == Span(ts) + Size(t)
    ensures SpotAt(p, n, ts + [t]) == Onward(p, n, SpotAt(p, n, ts), Span(ts) + Size(t))
  {
    assert (ts + [t])[..|ts|] == ts;
  }
}
