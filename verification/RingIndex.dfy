/** Positions of a byte stream in a ring. */
module RingIndex {
  import opened BitString

  /** Index of stream byte `i` in a ring of `n` bytes. */
  function At(i: nat, n: nat): (k: nat)
    requires n > 0
    ensures k < n
  {
    i % n
  }

  lemma ModStep(a: nat, k: nat, n: nat)
    requires n > 0 && k <= n
    ensures (a + k) % n == if a % n + k < n then a % n + k else a % n + k - n
  {
    var q, r := a / n, a % n;
    if r + k < n {
      ModIs(a + k, n, q, r + k);
    } else if r + k < 2 * n {
      ModIs(a + k, n, q + 1, r + k - n);
    }
  }

  lemma ModIs(v: nat, n: nat, q: nat, r: nat)
    requires n > 0 && r < n && v == n * q + r
    ensures v % n == r
  {
    DivUnique(v, n, q, r);
  }

  lemma ModSmall(v: nat, n: nat)
    requires v < n
    ensures v % n == v
  {
    ModIs(v, n, 0, v);
  }

  // ---- Contents ----

  /** Unread bytes are in their places, and so are the ones copied in behind them. */
  ghost predicate Holds(buf: seq<byte>, n: nat, sent: seq<byte>, received: seq<byte>, extra: seq<byte>)
    requires n > 0 && |buf| == n
  {
    && |received| <= |sent| && |sent| + |extra| < |received| + n && received <= sent
    && (forall i | |received| <= i < |sent| :: buf[At(i, n)] == sent[i])
    && (forall j | 0 <= j < |extra| :: buf[At(|sent| + j, n)] == extra[j])
  }

  /** One more byte behind the published ones disturbs none of them. */
  lemma HoldsMore(buf: seq<byte>, n: nat, sent: seq<byte>, received: seq<byte>, extra: seq<byte>, c: byte)
    requires n > 0 && |buf| == n && Holds(buf, n, sent, received, extra)
    requires |sent| + |extra| + 1 < |received| + n
    ensures Holds(buf[At(|sent| + |extra|, n) := c], n, sent, received, extra + [c])
  {
    var at := |sent| + |extra|;
    var buf', extra' := buf[At(at, n) := c], extra + [c];
    forall i | |received| <= i < |sent| ensures buf'[At(i, n)] == sent[i] {
      ModApart(i, at, n);
    }
    forall j | 0 <= j < |extra'| ensures buf'[At(|sent| + j, n)] == extra'[j] {
      if j < |extra| { ModApart(|sent| + j, at, n); }
    }
  }

  lemma HoldsPublished(buf: seq<byte>, n: nat, sent: seq<byte>, received: seq<byte>, extra: seq<byte>)
    requires n > 0 && |buf| == n && Holds(buf, n, sent, received, extra)
    ensures Holds(buf, n, sent + extra, received, [])
    ensures At(|sent + extra|, n) == At(At(|sent|, n) + |extra|, n)
  {
    hide At;
    var all := sent + extra;
    forall i | |received| <= i < |all| ensures buf[At(i, n)] == all[i] {
      if i >= |sent| { assert buf[At(|sent| + (i - |sent|), n)] == extra[i - |sent|]; }
    }
    Advance(|sent|, |extra|, n);
  }

  lemma Advance(a: nat, k: nat, n: nat)
    requires n > 0 && k < n
    ensures At(a + k, n) == At(At(a, n) + k, n)
  {
    ModStep(a, k, n);
    ModStep(a % n, k, n);
    ModSmall(a % n, n);
  }

  lemma HoldsTaken(buf: seq<byte>, n: nat, sent: seq<byte>, received: seq<byte>, extra: seq<byte>, k: nat)
    requires n > 0 && |buf| == n && Holds(buf, n, sent, received, extra) && |received| + k <= |sent|
    ensures Holds(buf, n, sent, sent[..|received| + k], extra)
    ensures At(|received| + k, n) == At(At(|received|, n) + k, n)
  {
    hide At;
    Advance(|received|, k, n);
  }
}
