/** Finding the longest earlier match: the plain backward scan and the search along an index of equal bytes. */
module MatchSearch {
  import opened BitString

  const MATCH_NOT_FOUND := 0xFFFF
  const BREAK_EVEN := 3

  predicate EqualAt(buf: seq<byte>, pos: nat, end: nat, k: nat)
    requires pos + k < |buf| && end + k < |buf|
  {
    buf[pos + k] == buf[end + k]
  }

  /** Length of the common prefix of `buf[pos..]` and `buf[end..]`, from `n` on and capped at `maxlen`. */
  function Common(buf: seq<byte>, pos: nat, end: nat, maxlen: nat, n: nat): (r: nat)
    requires pos <= end && end + maxlen <= |buf| && n <= maxlen
    ensures n <= r <= maxlen
    decreases maxlen - n
  {
    if n < maxlen && EqualAt(buf, pos, end, n) then Common(buf, pos, end, maxlen, n + 1) else n
  }

  function MatchLen(buf: seq<byte>, pos: nat, end: nat, maxlen: nat): (r: nat)
    requires pos <= end && end + maxlen <= |buf|
    ensures r <= maxlen
  {
    Common(buf, pos, end, maxlen, 0)
  }

  /** A match length is a run of equal bytes that cannot be extended. */
  lemma {:induction false} CommonMeans(buf: seq<byte>, pos: nat, end: nat, maxlen: nat, n: nat)
    requires pos <= end && end + maxlen <= |buf| && n <= maxlen
    ensures var r := Common(buf, pos, end, maxlen, n);
      && (forall k | n <= k < r :: EqualAt(buf, pos, end, k))
      && (r < maxlen ==> !EqualAt(buf, pos, end, r))
    decreases maxlen - n
  {
    if n < maxlen && EqualAt(buf, pos, end, n) {
      CommonMeans(buf, pos, end, maxlen, n + 1);
    }
  }

  lemma {:induction false} CommonFrom(buf: seq<byte>, pos: nat, end: nat, maxlen: nat, n: nat)
    requires pos <= end && end + maxlen <= |buf| && n <= maxlen
    requires forall k | 0 <= k < n :: EqualAt(buf, pos, end, k)
    ensures MatchLen(buf, pos, end, maxlen) == Common(buf, pos, end, maxlen, n)
    decreases n
  {
    if n > 0 {
      CommonFrom(buf, pos, end, maxlen, n - 1);
      assert EqualAt(buf, pos, end, n - 1);
    }
  }

  /** Two positions that differ at offset `k` match no further than `k`. */
  lemma DiffersAt(buf: seq<byte>, pos: nat, end: nat, maxlen: nat, k: nat)
    requires pos <= end && end + maxlen <= |buf| && k < maxlen
    requires !EqualAt(buf, pos, end, k)
    ensures MatchLen(buf, pos, end, maxlen) <= k
  {
    CommonMeans(buf, pos, end, maxlen, 0);
  }

  /** Among the positions from `lo` up to `end`, `pos` is the nearest with the longest match, of length `len`. */
  ghost predicate IsBest(buf: seq<byte>, lo: nat, end: nat, maxlen: nat, pos: nat, len: nat)
    requires lo <= end && end + maxlen <= |buf|
  {
    && (forall q | lo <= q < end :: MatchLen(buf, q, end, maxlen) <= len)
    && (len > 0 ==>
          && lo <= pos < end && MatchLen(buf, pos, end, maxlen) == len
          && forall q | pos < q < end :: MatchLen(buf, q, end, maxlen) < len)
  }

  lemma BestUnique(buf: seq<byte>, lo: nat, end: nat, maxlen: nat, p1: nat, n1: nat, p2: nat, n2: nat)
    requires lo <= end && end + maxlen <= |buf|
    requires IsBest(buf, lo, end, maxlen, p1, n1) && IsBest(buf, lo, end, maxlen, p2, n2)
    ensures n1 == n2 && (n1 > 0 ==> p1 == p2)
  {
  }

  /** The answer to a search: the distance and length of the best match if it pays, else not found. */
  ghost predicate Answers(buf: seq<byte>, start: nat, end: nat, maxlen: nat, dist: nat, len: nat)
    requires start <= end && end + maxlen <= |buf|
  {
    if dist == MATCH_NOT_FOUND
    then forall q | start <= q < end :: MatchLen(buf, q, end, maxlen) < BREAK_EVEN
    else 1 <= dist <= end - start && BREAK_EVEN <= len && IsBest(buf, start, end, maxlen, end - dist, len)
  }

  /** The two searches cannot disagree: a search has one answer. */
  lemma AnswersUnique(buf: seq<byte>, start: nat, end: nat, maxlen: nat, d1: nat, n1: nat, d2: nat, n2: nat)
    requires start <= end && end + maxlen <= |buf|
    requires Answers(buf, start, end, maxlen, d1, n1) && Answers(buf, start, end, maxlen, d2, n2)
    ensures d1 == d2 && (d1 != MATCH_NOT_FOUND ==> n1 == n2)
  {
    if d1 != MATCH_NOT_FOUND && d2 != MATCH_NOT_FOUND {
      BestUnique(buf, start, end, maxlen, end - d1, n1, end - d2, n2);
    }
  }

  lemma AnswerFound(buf: seq<byte>, start: nat, end: nat, maxlen: nat, dist: nat, len: nat)
    requires start <= end && end + maxlen <= |buf| && Answers(buf, start, end, maxlen, dist, len)
    ensures dist == MATCH_NOT_FOUND ==> Answers(buf, start, end, maxlen, dist, 0)
    ensures dist != MATCH_NOT_FOUND ==> len > 0
  {
  }

  lemma BestWidened(buf: seq<byte>, lo: nat, end: nat, maxlen: nat, pos: nat, len: nat)
    requires 0 < lo <= end && end + maxlen <= |buf|
    requires IsBest(buf, lo, end, maxlen, pos, len)
    ensures MatchLen(buf, lo - 1, end, maxlen) <= len ==> IsBest(buf, lo - 1, end, maxlen, pos, len)
    ensures MatchLen(buf, lo - 1, end, maxlen) > len ==>
              IsBest(buf, lo - 1, end, maxlen, lo - 1, MatchLen(buf, lo - 1, end, maxlen))
  {
  }

  /** A match of full length stops the search: nothing further away can beat it. */
  lemma BestIsFull(buf: seq<byte>, start: nat, lo: nat, end: nat, maxlen: nat, pos: nat)
    requires start <= lo <= end && end + maxlen <= |buf| && maxlen > 0
    requires IsBest(buf, lo, end, maxlen, pos, maxlen)
    ensures IsBest(buf, start, end, maxlen, pos, maxlen)
  {
  }

  /** Compare on from a known common prefix of length one. */
  method ExtendMatch(buf: array<byte>, pos: nat, end: nat, maxlen: nat) returns (len: nat)
    requires pos < end && end + maxlen <= buf.Length && 1 <= maxlen && buf[pos] == buf[end]
    ensures len == MatchLen(buf[..], pos, end, maxlen)
  {
    len := 1;
    while len < maxlen && buf[pos + len] == buf[end + len]
      invariant 1 <= len <= maxlen
      invariant forall k | 0 <= k < len :: EqualAt(buf[..], pos, end, k)
    {
      len := len + 1;
    }
    CommonFrom(buf[..], pos, end, maxlen, len);
  }

  function Answer(end: nat, pos: nat, len: nat): (nat, nat)
    requires len > 0 ==> pos <= end
  {
    if len >= BREAK_EVEN then (end - pos, len) else (MATCH_NOT_FOUND, 0)
  }

  lemma AnswerIsRight(buf: seq<byte>, start: nat, end: nat, maxlen: nat, pos: nat, len: nat)
    requires start <= end && end + maxlen <= |buf| && |buf| <= 0x8000
    requires IsBest(buf, start, end, maxlen, pos, len)
    ensures Answers(buf, start, end, maxlen, Answer(end, pos, len).0, Answer(end, pos, len).1)
  {
  }

  /** The scan without an index, from `end - 1` down to `start`. */
  method FindLinear(buf: array<byte>, start: nat, end: nat, maxlen: nat) returns (dist: nat, matchLength: nat)
    requires start <= end && end + maxlen <= buf.Length <= 0x8000 && 1 <= maxlen
    ensures Answers(buf[..], start, end, maxlen, dist, matchLength)
  {
    hide MatchLen, Answers;
    var matchMaxlen: nat, matchIndex: nat := 0, MATCH_NOT_FOUND;
    var pos := end - 1;
    while pos >= start
      invariant start - 1 <= pos < end
      invariant matchMaxlen < maxlen
      invariant IsBest(buf[..], pos + 1, end, maxlen, matchIndex, matchMaxlen)
    {
      BestWidened(buf[..], pos + 1, end, maxlen, matchIndex, matchMaxlen);
      if buf[pos + matchMaxlen] == buf[end + matchMaxlen] && buf[pos] == buf[end] {
        var len := ExtendMatch(buf, pos, end, maxlen);
        if len > matchMaxlen {
          matchMaxlen := len;
          matchIndex := pos;
          if len == maxlen {
            BestIsFull(buf[..], start, pos, end, maxlen, pos);
            break;
          }
        }
      } else if buf[pos] != buf[end] {
        DiffersAt(buf[..], pos, end, maxlen, 0);
      } else {
        DiffersAt(buf[..], pos, end, maxlen, matchMaxlen);
      }
      pos := pos - 1;
    }
    AnswerIsRight(buf[..], start, end, maxlen, matchIndex, matchMaxlen);
    dist, matchLength := Answer(end, matchIndex, matchMaxlen).0, Answer(end, matchIndex, matchMaxlen).1;
  }

  // ---- The index ----

  /** Assignment of a 16-bit word to a signed one. */
  function Int16(v: nat): int {
    if v % 0x1_0000 < 0x8000 then v % 0x1_0000 else v % 0x1_0000 - 0x1_0000
  }

  /** `j` is the last position before `i` holding byte `v`, or -1 if there is none. */
  ghost predicate LastBefore(buf: seq<byte>, v: byte, i: nat, j: int)
    requires i <= |buf|
  {
    && -1 <= j < i && (j >= 0 ==> buf[j] == v)
    && forall k | j < k < i :: buf[k] != v
  }

  /** Every indexed position links to the previous occurrence of its own byte. */
  ghost predicate IsChain(index: seq<int>, buf: seq<byte>, n: nat)
    requires n <= |index| && n <= |buf|
  {
    forall i | 0 <= i < n :: LastBefore(buf, buf[i], i, index[i])
  }

  /** The table of last occurrences, as 16-bit words of which 0xFFFF means none. */
  ghost predicate LastTable(buf: seq<byte>, i: nat, last: seq<nat>)
    requires i <= |buf| && |last| == 256
  {
    forall v: byte :: LastBefore(buf, v, i, Int16(last[v]))
  }

  lemma ChainPrefix(index: seq<int>, buf: seq<byte>, n: nat, m: nat)
    requires m <= n <= |index| && n <= |buf| && IsChain(index, buf, n)
    ensures IsChain(index, buf, m)
  {
  }

  method DoIndexing(buf: array<byte>, index: array<int>, end: nat)
    requires end <= buf.Length == index.Length <= 0x8000
    modifies index
    ensures IsChain(index[..], buf[..], end)
  {
    var last := new nat[256](_ => 0xFFFF);
    for i := 0 to end
      invariant LastTable(buf[..], i, last[..])
      invariant IsChain(index[..], buf[..], i)
    {
      var v := buf[i];
      var lv := last[v];
      ghost var before, table := index[..], last[..];
      assert LastBefore(buf[..], v, i, Int16(table[v]));
      index[i] := Int16(lv);
      last[v] := i;
      ChainGrows(before, index[..], buf[..], i);
      LastMoves(buf[..], i, table, last[..]);
    }
  }

  lemma ChainGrows(before: seq<int>, index: seq<int>, buf: seq<byte>, i: nat)
    requires i < |before| == |index| <= |buf| && IsChain(before, buf, i)
    requires forall k | 0 <= k < |index| && k != i :: index[k] == before[k]
    requires LastBefore(buf, buf[i], i, index[i])
    ensures IsChain(index, buf, i + 1)
  {
    forall k | 0 <= k < i + 1 ensures LastBefore(buf, buf[k], k, index[k]) {
      if k < i { assert LastBefore(buf, buf[k], k, before[k]); }
    }
  }

  lemma LastMoves(buf: seq<byte>, i: nat, last: seq<nat>, last': seq<nat>)
    requires i < |buf| <= 0x8000 && |last| == 256 && last' == last[buf[i] := i]
    requires LastTable(buf, i, last)
    ensures LastTable(buf, i + 1, last')
  {
    forall v: byte ensures LastBefore(buf, v, i + 1, Int16(last'[v])) {
      assert LastBefore(buf, v, i, Int16(last[v]));
    }
  }

  /** Positions the chain jumps over start with a different byte, so they cannot match at all. */
  lemma BestAcrossGap(buf: seq<byte>, lo: nat, next: int, end: nat, maxlen: nat, pos: nat, len: nat)
    requires lo <= end && end + maxlen <= |buf| && -1 <= next < lo && 1 <= maxlen
    requires IsBest(buf, lo, end, maxlen, pos, len)
    requires forall k | next < k < lo :: buf[k] != buf[end]
    ensures IsBest(buf, next + 1, end, maxlen, pos, len)
  {
    forall q | next < q < lo ensures MatchLen(buf, q, end, maxlen) == 0 {
      DiffersAt(buf, q, end, maxlen, 0);
    }
  }

  /** Following one link keeps the best match known so far. */
  lemma FollowLink(buf: seq<byte>, index: seq<int>, at: nat, end: nat, maxlen: nat, pos: nat, len: nat)
    requires at <= end && end + maxlen <= |buf| && 1 <= maxlen && |index| == |buf|
    requires IsChain(index, buf, end + 1) && buf[at] == buf[end]
    requires IsBest(buf, at, end, maxlen, pos, len)
    ensures -1 <= index[at] < at && (index[at] >= 0 ==> buf[index[at]] == buf[end])
    ensures IsBest(buf, index[at] + 1, end, maxlen, pos, len)
  {
    assert LastBefore(buf, buf[at], at, index[at]);
    BestAcrossGap(buf, at, index[at], end, maxlen, pos, len);
  }

  lemma BestNarrowed(buf: seq<byte>, lo: nat, start: nat, end: nat, maxlen: nat, pos: nat, len: nat)
    requires lo <= start <= end && end + maxlen <= |buf|
    requires IsBest(buf, lo, end, maxlen, pos, len) && (len > 0 ==> start <= pos)
    ensures IsBest(buf, start, end, maxlen, pos, len)
  {
  }

  /** The search along the chain of positions that hold the needle's first byte. */
  method FindIndexed(buf: array<byte>, index: array<int>, start: nat, end: nat, maxlen: nat)
    returns (dist: nat, matchLength: nat)
    requires start <= end && end + maxlen <= buf.Length == index.Length <= 0x8000 && 1 <= maxlen
    requires IsChain(index[..], buf[..], end + 1)
    ensures Answers(buf[..], start, end, maxlen, dist, matchLength)
  {
    hide MatchLen, Answers, IsBest, IsChain;
    var matchMaxlen: nat, matchIndex: nat := 0, MATCH_NOT_FOUND;
    NothingYet(buf[..], end, maxlen, matchIndex);
    FollowLink(buf[..], index[..], end, end, maxlen, matchIndex, 0);
    var pos := index[end];
    while pos >= start
      invariant -1 <= pos < end && matchMaxlen < maxlen
      invariant pos >= 0 ==> buf[pos] == buf[end]
      invariant matchMaxlen > 0 ==> start <= matchIndex
      invariant IsBest(buf[..], pos + 1, end, maxlen, matchIndex, matchMaxlen)
    {
      BestWidened(buf[..], pos + 1, end, maxlen, matchIndex, matchMaxlen);
      if buf[pos + matchMaxlen] != buf[end + matchMaxlen] {
        DiffersAt(buf[..], pos, end, maxlen, matchMaxlen);
        FollowLink(buf[..], index[..], pos, end, maxlen, matchIndex, matchMaxlen);
        pos := index[pos];
        continue;
      }
      var len := ExtendMatch(buf, pos, end, maxlen);
      if len > matchMaxlen {
        matchMaxlen := len;
        matchIndex := pos;
        if len == maxlen {
          BestIsFull(buf[..], start, pos, end, maxlen, pos);
          break;
        }
      }
      FollowLink(buf[..], index[..], pos, end, maxlen, matchIndex, matchMaxlen);
      pos := index[pos];
    }
    if matchMaxlen < maxlen {
      BestNarrowed(buf[..], pos + 1, start, end, maxlen, matchIndex, matchMaxlen);
    }
    AnswerIsRight(buf[..], start, end, maxlen, matchIndex, matchMaxlen);
    dist, matchLength := Answer(end, matchIndex, matchMaxlen).0, Answer(end, matchIndex, matchMaxlen).1;
  }

  lemma NothingYet(buf: seq<byte>, end: nat, maxlen: nat, pos: nat)
    requires end + maxlen <= |buf|
    ensures IsBest(buf, end, end, maxlen, pos, 0)
  {
  }
}
