/** How good the chosen tokens are, in terms of the data alone. */
module Reach {
  import opened BitString
  import opened Lzss
  import opened MatchSearch
  import opened EncoderModel
  import opened TokenChoice

  /** The `n` bytes at `pos` are those at `q`. */
  ghost predicate Repeats(data: seq<byte>, q: nat, pos: nat, n: nat) {
    q <= pos && pos + n <= |data| && data[q..q + n] == data[pos..pos + n]
  }

  /**
   * The token at `pos` stands for the data there, and from `lo` on nothing earlier beats it: a copy is as long as
   * any repetition of at most `2^l` bytes, and nearer than others as long; a literal is all there is where nothing
   * of three bytes repeats.
   */
  ghost predicate Unbeaten(p: Params, data: seq<byte>, lo: int, pos: nat, t: Token) {
    && pos < |data|
    && (t.Literal? ==> t.c == data[pos])
    && (t.Backref? ==> 3 <= t.len <= Pow2(p.l) && 1 <= t.dist <= pos && Repeats(data, pos - t.dist, pos, t.len))
    && forall q: nat, n: nat | lo <= q < pos && n <= Pow2(p.l) && Repeats(data, q, pos, n) ::
         if t.Literal? then n < 3 else n < t.len || (n == t.len && q <= pos - t.dist)
  }

  /** A search in part of the range says less. */
  lemma UnbeatenPart(p: Params, data: seq<byte>, lo: int, lo': int, pos: nat, t: Token)
    requires Unbeaten(p, data, lo, pos, t) && lo <= lo'
    ensures Unbeaten(p, data, lo', pos, t)
  {
  }

  lemma RepeatsAt(data: seq<byte>, q: nat, pos: nat, n: nat, k: nat)
    requires Repeats(data, q, pos, n) && k < n
    ensures EqualAt(data, q, pos, k)
  {
    assert data[q..q + n][k] == data[q + k] && data[pos..pos + n][k] == data[pos + k];
  }

  lemma RepeatsFrom(data: seq<byte>, q: nat, pos: nat, n: nat)
    requires q <= pos && pos + n <= |data| && forall k | 0 <= k < n :: EqualAt(data, q, pos, k)
    ensures Repeats(data, q, pos, n)
  {
    var a, b := data[q..q + n], data[pos..pos + n];
    forall k | 0 <= k < n ensures a[k] == b[k] {
      assert EqualAt(data, q, pos, k);
    }
  }

  lemma RepeatsCounts(data: seq<byte>, q: nat, pos: nat, maxlen: nat, n: nat)
    requires q <= pos && pos + maxlen <= |data| && n <= maxlen && Repeats(data, q, pos, n)
    ensures MatchLen(data, q, pos, maxlen) >= n
  {
    hide Common;
    CommonMeans(data, q, pos, maxlen, 0);
    var r := MatchLen(data, q, pos, maxlen);
    if r < n { RepeatsAt(data, q, pos, n, r); }
  }

  /** What a right answer means. */
  lemma AnswersUnbeaten(p: Params, data: seq<byte>, start: nat, pos: nat, maxlen: nat, dist: nat, len: nat)
    requires start <= pos < |data| && 1 <= maxlen <= Pow2(p.l) && pos + maxlen <= |data|
    requires maxlen == Pow2(p.l) || maxlen == |data| - pos
    requires Answers(data, start, pos, maxlen, if len == 0 then MATCH_NOT_FOUND else dist, len)
    requires dist != MATCH_NOT_FOUND || len == 0
    ensures Unbeaten(p, data, start, pos, if len == 0 then Literal(data[pos]) else Backref(dist, len))
  {
    hide Common, Pow2;
    var t := if len == 0 then Literal(data[pos]) else Backref(dist, len);
    if len > 0 {
      MatchIsCopy(data, start, pos, maxlen, dist, len);
      CommonMeans(data, pos - dist, pos, maxlen, 0);
      RepeatsFrom(data, pos - dist, pos, len);
    }
    forall q: nat, n: nat | start <= q < pos && n <= Pow2(p.l) && Repeats(data, q, pos, n)
      ensures if t.Literal? then n < 3 else n < t.len || (n == t.len && q <= pos - t.dist)
    {
      RepeatsCounts(data, q, pos, maxlen, n);
    }
  }

  // ---- Where the backlog is saved ----

  /** A round that began at `base` on a full buffer ends with token `j`, at most a lookahead before its end. */
  predicate SaveAt(p: Params, n: nat, ts: seq<Token>, base: nat, j: nat)
    requires 0 < j <= |ts|
  {
    && n - base >= Pow2(p.w)
    && Span(ts[..j - 1]) - base < Pow2(p.w) - Pow2(p.l) <= Span(ts[..j]) - base
  }

  lemma SpotNext(p: Params, n: nat, ts: seq<Token>, i: nat)
    requires i < |ts|
    ensures SpotAt(p, n, ts[..i + 1]) == Onward(p, n, SpotAt(p, n, ts[..i]), Span(ts[..i + 1]))
    ensures SpotAt(p, n, []) == Spot(0, 0) && ts[..0] == []
  {
    assert ts[..i + 1][..i] == ts[..i];
  }

  lemma {:induction false} SpotFirst(p: Params, n: nat, ts: seq<Token>, i: nat)
    requires Pow2(p.l) < Pow2(p.w) && i <= |ts| && forall j | 0 < j <= i :: !SaveAt(p, n, ts, 0, j)
    ensures SpotAt(p, n, ts[..i]) == Spot(0, 0)
    ensures n < Pow2(p.w) || Span(ts[..i]) < Pow2(p.w) - Pow2(p.l)
    decreases i
  {
    hide SpotAt, Pow2;
    if i == 0 {
      assert ts[..0] == [];
      SpotNone(p, n);
    } else {
      SpotFirst(p, n, ts, i - 1);
      SpotNext(p, n, ts, i - 1);
      assert !SaveAt(p, n, ts, 0, i);
    }
  }

  lemma SpotNone(p: Params, n: nat)
    ensures SpotAt(p, n, []) == Spot(0, 0) && Span([]) == 0
  {
  }

  /** From the first save on: one save, or more. */
  lemma {:induction false} SpotSecond(p: Params, n: nat, ts: seq<Token>, j1: nat, i: nat)
    requires Pow2(p.l) < Pow2(p.w) && 0 < j1 <= i <= |ts| && SaveAt(p, n, ts, 0, j1)
    requires forall j | 0 < j < j1 :: !SaveAt(p, n, ts, 0, j)
    ensures SpotAt(p, n, ts[..i]).saves == 2 || SpotAt(p, n, ts[..i]) == Spot(Span(ts[..j1]), 1)
    decreases i
  {
    hide SpotAt, Pow2, Span;
    SpotNext(p, n, ts, i - 1);
    if i == j1 {
      SpotFirst(p, n, ts, i - 1);
    } else {
      SpotSecond(p, n, ts, j1, i - 1);
    }
  }

  /** From the second save on. */
  lemma {:induction false} SpotThird(p: Params, n: nat, ts: seq<Token>, j1: nat, j2: nat, i: nat)
    requires Pow2(p.l) < Pow2(p.w) && 0 < j1 < j2 <= i <= |ts| && SaveAt(p, n, ts, 0, j1)
    requires forall j | 0 < j < j1 :: !SaveAt(p, n, ts, 0, j)
    requires SaveAt(p, n, ts, Span(ts[..j1]), j2)
    ensures SpotAt(p, n, ts[..i]).saves == 2
    decreases i
  {
    hide SpotAt, Pow2, Span;
    SpotNext(p, n, ts, i - 1);
    if i == j2 {
      SpotSecond(p, n, ts, j1, i - 1);
    } else {
      SpotThird(p, n, ts, j1, j2, i - 1);
    }
  }

  /** Positions only grow, by at most a lookahead a token. */
  lemma SpanNext(ts: seq<Token>, i: nat)
    requires i < |ts|
    ensures Span(ts[..i + 1]) == Span(ts[..i]) + Size(ts[i])
  {
    assert ts[..i + 1][..i] == ts[..i];
  }

  lemma {:induction false} SpanGrows(ts: seq<Token>, i: nat, j: nat)
    requires i <= j <= |ts|
    ensures Span(ts[..i]) <= Span(ts[..j])
    decreases j - i
  {
    hide Span;
    if i < j {
      SpanGrows(ts, i, j - 1);
      SpanNext(ts, j - 1);
    }
  }

  // ---- How far back the search reaches ----

  lemma ChosenAt(p: Params, data: seq<byte>, ts: seq<Token>, i: nat)
    requires Chosen(p, data, ts) && i < |ts|
    ensures var s, pos := SpotAt(p, |data|, ts[..i]), Span(ts[..i]);
      Unbeaten(p, data, From(p, s, pos), pos, ts[i])
  {
    hide Answers, Pow2, SpotAt, Span, Unbeaten;
    var s, pos := SpotAt(p, |data|, ts[..i]), Span(ts[..i]);
    assert RightToken(p, data, s, pos, ts[i]);
    Positive(p.l);
    match ts[i] {
      case Literal(c) => AnswersUnbeaten(p, data, From(p, s, pos), pos, Cap(p, |data|, pos), 0, 0);
      case Backref(d, n) => AnswersUnbeaten(p, data, From(p, s, pos), pos, Cap(p, |data|, pos), d, n);
    }
  }

  lemma Positive(k: nat)
    ensures Pow2(k) >= 1
  {
  }

  /** Until the backlog is first saved, a token is the best from the beginning of the data on. */
  lemma ReachFirst(p: Params, data: seq<byte>, ts: seq<Token>, i: nat)
    requires Pow2(p.l) < Pow2(p.w) && Chosen(p, data, ts) && i < |ts|
    requires forall j | 0 < j <= i :: !SaveAt(p, |data|, ts, 0, j)
    ensures Unbeaten(p, data, 0, Span(ts[..i]), ts[i])
  {
    hide Unbeaten, Chosen, Pow2, SpotAt, Span, SaveAt;
    ChosenAt(p, data, ts, i);
    SpotFirst(p, |data|, ts, i);
  }

  /** After the first save, within a window less a byte, but not in the first bytes, which are not kept. */
  lemma ReachSecond(p: Params, data: seq<byte>, ts: seq<Token>, j1: nat, i: nat)
    requires Pow2(p.l) < Pow2(p.w) && Chosen(p, data, ts) && 0 < j1 <= i < |ts| && SaveAt(p, |data|, ts, 0, j1)
    requires forall j | 0 < j < j1 :: !SaveAt(p, |data|, ts, 0, j)
    ensures var W, L, pos, kept := Pow2(p.w), Pow2(p.l), Span(ts[..i]), Span(ts[..j1]);
      Unbeaten(p, data, Max(pos - W + 1, kept - W + L), pos, ts[i])
  {
    hide Unbeaten, Chosen, Pow2, SpotAt, Span, SaveAt;
    var pos, s := Span(ts[..i]), SpotAt(p, |data|, ts[..i]);
    ChosenAt(p, data, ts, i);
    SpotSecond(p, |data|, ts, j1, i);
    UnbeatenPart(p, data, From(p, s, pos), Max(pos - Pow2(p.w) + 1, Span(ts[..j1]) - Pow2(p.w) + Pow2(p.l)),
                 pos, ts[i]);
  }

  function Max(a: int, b: int): int { if a < b then b else a }

  /** After the second save, within a window less a byte. */
  lemma ReachThird(p: Params, data: seq<byte>, ts: seq<Token>, j1: nat, j2: nat, i: nat)
    requires Pow2(p.l) < Pow2(p.w) && Chosen(p, data, ts) && 0 < j1 < j2 <= i < |ts|
    requires SaveAt(p, |data|, ts, 0, j1) && SaveAt(p, |data|, ts, Span(ts[..j1]), j2)
    requires forall j | 0 < j < j1 :: !SaveAt(p, |data|, ts, 0, j)
    ensures Unbeaten(p, data, Span(ts[..i]) - Pow2(p.w) + 1, Span(ts[..i]), ts[i])
  {
    hide Unbeaten, Chosen, Pow2, SpotAt, Span, SaveAt;
    ChosenAt(p, data, ts, i);
    SpotThird(p, |data|, ts, j1, j2, i);
  }

  /**
   * In terms of the position alone: data that fits a window, and the beginning of any other, are searched from the
   * start; later on the search reaches back a window less a byte, except that the first bytes may be out of reach.
   */
  function Far(p: Params, n: nat, pos: nat): int {
    if n < Pow2(p.w) || pos < Pow2(p.w) - Pow2(p.l) then 0 else Max(pos - Pow2(p.w) + 1, Pow2(p.l) - 1)
  }

  ghost predicate AllUnbeaten(p: Params, data: seq<byte>, ts: seq<Token>) {
    forall i | 0 <= i < |ts| :: Unbeaten(p, data, Far(p, |data|, Span(ts[..i])), Span(ts[..i]), ts[i])
  }

  lemma TokenSize(p: Params, data: seq<byte>, ts: seq<Token>, i: nat)
    requires Chosen(p, data, ts) && i < |ts|
    ensures 1 <= Size(ts[i]) <= Pow2(p.l)
  {
    hide Pow2, SpotAt, Span, Chosen;
    Positive(p.l);
    ChosenAt(p, data, ts, i);
  }

  /** The first save among the first tokens, if there is one. */
  lemma FirstSave(p: Params, n: nat, ts: seq<Token>, i: nat) returns (j1: nat)
    requires i <= |ts|
    ensures j1 <= i && forall j | 0 < j < j1 :: !SaveAt(p, n, ts, 0, j)
    ensures if j1 > 0 then SaveAt(p, n, ts, 0, j1) else forall j | 0 < j <= i :: !SaveAt(p, n, ts, 0, j)
  {
    hide SaveAt;
    j1 := 1;
    while j1 <= i && !SaveAt(p, n, ts, 0, j1)
      invariant 1 <= j1 <= i + 1 && forall j | 0 < j < j1 :: !SaveAt(p, n, ts, 0, j)
    {
      j1 := j1 + 1;
    }
    if j1 > i { j1 := 0; }
  }

  /** Every token is as good as any within reach. */
  lemma ReachFar(p: Params, data: seq<byte>, ts: seq<Token>)
    requires Pow2(p.l) < Pow2(p.w) && Chosen(p, data, ts)
    ensures AllUnbeaten(p, data, ts)
  {
    hide Unbeaten, Chosen, Pow2, SpotAt, Span, Far, SaveAt;
    forall i | 0 <= i < |ts| ensures Unbeaten(p, data, Far(p, |data|, Span(ts[..i])), Span(ts[..i]), ts[i]) {
      var j1 := FirstSave(p, |data|, ts, i);
      if j1 == 0 {
        ReachFirst(p, data, ts, i);
        FarFromStart(p, |data|, Span(ts[..i]));
        UnbeatenPart(p, data, 0, Far(p, |data|, Span(ts[..i])), Span(ts[..i]), ts[i]);
      } else {
        ReachSecond(p, data, ts, j1, i);
        SpanGrows(ts, j1, i);
        SpanNext(ts, j1 - 1);
        TokenSize(p, data, ts, j1 - 1);
        SaveNear(p, |data|, ts, j1, Span(ts[..i]));
        UnbeatenPart(p, data, Max(Span(ts[..i]) - Pow2(p.w) + 1, Span(ts[..j1]) - Pow2(p.w) + Pow2(p.l)),
                     Far(p, |data|, Span(ts[..i])), Span(ts[..i]), ts[i]);
      }
    }
  }

  lemma FarFromStart(p: Params, n: nat, pos: nat)
    ensures Far(p, n, pos) >= 0
  {
    Positive(p.l);
  }

  lemma SaveNear(p: Params, n: nat, ts: seq<Token>, j1: nat, pos: nat)
    requires 0 < j1 <= |ts| && SaveAt(p, n, ts, 0, j1) && Span(ts[..j1]) <= pos
    requires Span(ts[..j1]) <= Span(ts[..j1 - 1]) + Pow2(p.l)
    ensures Max(pos - Pow2(p.w) + 1, Span(ts[..j1]) - Pow2(p.w) + Pow2(p.l)) <= Far(p, n, pos)
  {
    hide Span, Pow2;
  }
}
