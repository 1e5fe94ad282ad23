/** The serial console over low-speed USB: two rings, and requests that are held off while one is nearly full. */
module Console {
  import opened BitString
  import opened RingIndex
  import C = CircBuf

  const SIZE := 256
  const PACKET := 8
  const INT_BITS := 16

  function Held(head: nat, tail: nat): nat { C.Cnt(INT_BITS, head, tail, SIZE) }
  function Free(head: nat, tail: nat): nat { C.Space(INT_BITS, head, tail, SIZE) }
  function HeldToEnd(head: nat, tail: nat): int { C.CntToEnd(INT_BITS, head, tail, SIZE) }
  function FreeToEnd(head: nat, tail: nat): int { C.SpaceToEnd(INT_BITS, head, tail, SIZE) }
  function Moved(index: nat, d: nat): nat { C.Mask(INT_BITS, index + d, SIZE) }

  /** What the code computes from the indices, in terms of the bytes that went in and came out. */
  lemma Indices(h: nat, t: nat)
    requires t <= h < t + SIZE
    ensures var head, tail := At(h, SIZE), At(t, SIZE);
      && Held(head, tail) == h - t && Free(head, tail) == SIZE - 1 - (h - t)
      && HeldToEnd(head, tail) == C.Min(h - t, SIZE - tail)
      && FreeToEnd(head, tail) == C.Min(SIZE - 1 - (h - t), SIZE - head)
  {
    hide C.Cnt, C.Space, C.CntToEnd, C.SpaceToEnd, At, C.Min;
    Powers();
    C.CountsOfStream(INT_BITS, 8, h, t);
  }

  lemma Moves(i: nat, d: nat)
    requires d <= SIZE
    ensures Moved(At(i, SIZE), d) == At(i + d, SIZE)
  {
    hide C.Mask, At;
    Powers();
    C.MaskAdvances(INT_BITS, 8, i, d);
  }

  /** Up to the end of the ring, bytes lie one after the other. */
  lemma Straight(buf: seq<byte>, sent: seq<byte>, received: seq<byte>, n: nat)
    requires |buf| == SIZE && Holds(buf, SIZE, sent, received, [])
    requires |received| + n <= |sent| && At(|received|, SIZE) + n <= SIZE
    ensures buf[At(|received|, SIZE)..At(|received|, SIZE) + n] == sent[|received|..|received| + n]
  {
    var at := At(|received|, SIZE);
    var a, b := buf[at..at + n], sent[|received|..|received| + n];
    forall j | 0 <= j < n ensures a[j] == b[j] {
      ModStep(|received|, j, SIZE);
      assert buf[At(|received| + j, SIZE)] == sent[|received| + j];
    }
  }

  lemma Counted(buf: seq<byte>, sent: seq<byte>, received: seq<byte>, extra: seq<byte>)
    requires |buf| == SIZE && Holds(buf, SIZE, sent, received, extra)
    ensures |received| <= |sent| && |sent| + |extra| < |received| + SIZE && received <= sent
  {
  }

  /**
   * What a packet leaves in the ring: the copy after the wrap starts again from the packet's first byte,
   * because the source pointer stays where it was.
   */
  function Landed(data: seq<byte>, first: nat): (r: seq<byte>)
    requires first <= |data|
    ensures |r| == |data|
  {
    data[..first] + data[..|data| - first]
  }

  /** A packet arrives as it was sent exactly when it does not wrap or repeats itself where it does. */
  lemma LandedIff(data: seq<byte>, first: nat)
    requires first <= |data|
    ensures Landed(data, first) == data <==> data[first..] == data[..|data| - first]
    ensures first == |data| ==> Landed(data, first) == data
  {
    var r := Landed(data, first);
    assert data == data[..first] + data[first..];
    assert r[first..] == data[..|data| - first];
  }

  lemma WrappedPacketSpoiled()
    ensures Landed([1, 2], 1) == [1, 1] != [1, 2]
  {
  }

  /** What the host does in one poll of the USB driver. */
  datatype Host = Nothing | Setup(length: nat) | Read | Write(data: seq<byte>)

  predicate FromHost(h: Host) {
    match h
    case Write(data) => |data| <= PACKET
    case Setup(length) => length < 0x10000
    case _ => true
  }

  /** The bytes the host gets at once: eight, or as many as wait, or as many as lie before the end of the ring. */
  function Share(put: nat, read: nat): int
    requires read <= put
  {
    C.Min(8, C.Min(put - read, 256 - read % 256))
  }

  lemma AtIs(i: nat)
    ensures At(i, SIZE) == i % 256
  {
  }

  class Terminal {
    const outBuffer: array<byte>
    const inBuffer: array<byte>
    var oHead: nat
    var oTail: nat
    var iHead: nat
    var iTail: nat
    var towrite: byte
    var enabled: bool
    /** Bytes given to putc and read by the host; bytes landed from the host and given by getc. */
    ghost var put: seq<byte>
    ghost var read: seq<byte>
    ghost var landed: seq<byte>
    ghost var got: seq<byte>

    /** What the host has read is what was put, in order, and the rest is in the ring. */
    ghost predicate Out()
      reads this`oHead, this`oTail, this`put, this`read, outBuffer
    {
      && outBuffer.Length == SIZE && Holds(outBuffer[..], SIZE, put, read, [])
      && oHead == At(|put|, SIZE) && oTail == At(|read|, SIZE)
    }

    /** What getc gave is what landed, in order; the rest is in the ring, with `extra` copied in behind it. */
    ghost predicate In(extra: seq<byte>)
      reads this`iHead, this`iTail, this`landed, this`got, inBuffer
    {
      && inBuffer.Length == SIZE && Holds(inBuffer[..], SIZE, landed, got, extra)
      && iHead == At(|landed|, SIZE) && iTail == At(|got|, SIZE)
    }

    /** While requests are enabled there is room for a whole packet. */
    predicate Room()
      reads this`enabled, this`iHead, this`iTail
    {
      enabled ==> Free(iHead, iTail) >= PACKET
    }

    ghost predicate Valid()
      reads this, outBuffer, inBuffer
    {
      outBuffer != inBuffer && Out() && In([]) && Room()
    }

    constructor ()
      ensures Valid() && put == read == landed == got == [] && fresh(outBuffer) && fresh(inBuffer)
      ensures enabled && towrite == 0
    {
      outBuffer, inBuffer := new byte[SIZE](_ => 0), new byte[SIZE](_ => 0);
      oHead, oTail, iHead, iTail, towrite, enabled := 0, 0, 0, 0, 0, true;
      put, read, landed, got := [], [], [], [];
      new;
      ModSmall(0, SIZE);
      Indices(0, 0);
    }

    /** The host takes up to a packet of what is waiting. */
    method FunctionRead() returns (data: seq<byte>)
      requires Out()
      modifies this`oTail, this`read
      ensures Out() && |old(read)| <= |put| && read == old(read) + data
      ensures |data| == Share(|put|, |old(read)|) && (data == [] <==> old(read) == put)
    {
      hide Holds, At, Held, HeldToEnd, Free, FreeToEnd, Moved;
      AtIs(|read|);
      Counted(outBuffer[..], put, read, []);
      Indices(|put|, |read|);
      data := [];
      if Held(oHead, oTail) != 0 {
        var toEnd := HeldToEnd(oHead, oTail);
        var len := if PACKET < toEnd then PACKET else toEnd;
        Straight(outBuffer[..], put, read, len);
        Moves(|read|, len);
        HoldsTaken(outBuffer[..], SIZE, put, read, [], len);
        data := outBuffer[oTail..oTail + len];
        oTail := Moved(oTail, len);
        read := put[..|read| + len];
      }
    }

    /** One round of the copy loop: as far as the packet, the free space and the end of the ring allow. */
    method CopyRound(data: seq<byte>, len: nat) returns (n: nat)
      requires In([]) && len <= |data| && |landed| + len < |got| + SIZE
      modifies this`iHead, this`towrite, this`landed, inBuffer
      ensures In([]) && n == C.Min(len, SIZE - old(iHead)) && landed == old(landed) + data[..n]
      ensures towrite == Less(old(towrite), n)
    {
      hide Holds, At, Held, HeldToEnd, Free, FreeToEnd, Moved, Less;
      Counted(inBuffer[..], landed, got, []);
      Indices(|landed|, |got|);
      var toEnd: byte := FreeToEnd(iHead, iTail);
      n := if len < toEnd then len else toEnd;
      for j := 0 to n
        invariant In(data[..j])
        modifies inBuffer
      {
        Beside(|landed|, j);
        HoldsMore(inBuffer[..], SIZE, landed, got, data[..j], data[j]);
        ghost var was := inBuffer[..];
        inBuffer[iHead + j] := data[j];
        assert inBuffer[..] == was[iHead + j := data[j]];
        assert data[..j + 1] == data[..j] + [data[j]];
      }
      HoldsPublished(inBuffer[..], SIZE, landed, got, data[..n]);
      Moves(|landed|, n);
      towrite := Less(towrite, n);
      iHead := Moved(iHead, n);
      landed := landed + data[..n];
    }

    /**
     * A packet from the host that fits is in the ring after at most two rounds, and requests stay enabled
     * only if another fits.
     */
    method FunctionWrite(data: seq<byte>) returns (done: bool, ghost rounds: nat, ghost first: nat)
      requires In([]) && |data| < 256 && |data| <= Free(iHead, iTail)
      modifies this`iHead, this`towrite, this`landed, this`enabled, inBuffer
      ensures In([]) && Room() && first == C.Min(|data|, SIZE - |old(landed)| % SIZE)
      ensures landed == old(landed) + Landed(data, first) && 1 <= rounds <= 2
      ensures towrite == (old(towrite) - |data|) % 256 && (done <==> towrite == 0)
      ensures enabled <==> old(enabled) && SIZE - 1 - (|landed| - |got|) >= 8
    {
      hide Holds, At, Held, HeldToEnd, FreeToEnd, Moved, Free, Less;
      Counted(inBuffer[..], landed, got, []);
      Indices(|landed|, |got|);
      Around(|landed|);
      AtIs(|landed|);
      LessIs(towrite, |data|);
      var n := CopyRound(data, |data|);
      var len := |data| - n;
      first, rounds := n, 1;
      while len != 0
        invariant In([]) && len == |data| - |landed| + |old(landed)| && towrite == Less(old(towrite), |data| - len)
        invariant rounds == 1 ==>
                    && len == |data| - first && landed == old(landed) + data[..first] && (len > 0 ==> iHead == 0)
        invariant rounds == 2 ==> len == 0 && landed == old(landed) + Landed(data, first)
        invariant 1 <= rounds <= 2 && enabled == old(enabled)
      {
        LessTwice(old(towrite), |data| - len, len);
        n := CopyRound(data, len);
        len := len - n;
        rounds := rounds + 1;
      }
      Counted(inBuffer[..], landed, got, []);
      Indices(|landed|, |got|);
      if Free(iHead, iTail) < PACKET { enabled := false; }
      done := towrite == 0;
    }

    /**
     * One poll: the driver may serve the host once, and held-off requests are let in again when there is
     * room for more than a packet.
     */
    method Poll(h: Host) returns (answer: seq<byte>)
      requires Valid() && FromHost(h)
      modifies this`oTail, this`read, this`iHead, this`towrite, this`landed, this`enabled, inBuffer
      ensures Valid() && |old(read)| <= |put| && read == old(read) + answer && old(landed) <= landed
      ensures |answer| == if h.Read? then Share(|put|, |old(read)|) else 0
      ensures h.Read? && put != old(read) ==> answer != []
      ensures landed == if h.Write? && old(enabled)
                        then old(landed) + Landed(h.data, C.Min(|h.data|, SIZE - |old(landed)| % SIZE))
                        else old(landed)
      ensures var free := SIZE - 1 - (|landed| - |got|);
        enabled <==> (old(enabled) && free >= 8) || free > 8
      ensures landed == got ==> enabled
      ensures towrite == match h
                         case Setup(length) => if old(enabled) then length % 256 else old(towrite)
                         case Write(data) => if old(enabled) then (old(towrite) - |data|) % 256 else old(towrite)
                         case _ => old(towrite)
    {
      hide Holds, At, Held, HeldToEnd, FreeToEnd, Moved, Free, Less, Share;
      Counted(outBuffer[..], put, read, []);
      answer := [];
      match h {
        case Nothing =>
        case Setup(length) => if enabled { towrite := length % 256; }
        case Read => answer := FunctionRead();
        case Write(data) => if enabled { var _, _, _ := FunctionWrite(data); }
      }
      Counted(inBuffer[..], landed, got, []);
      Indices(|landed|, |got|);
      if !enabled && Free(iHead, iTail) > PACKET { enabled := true; }
    }

    /** Waits only as long as the ring is full and the host reads nothing. */
    method Putc(data: byte, polls: seq<Host>) returns (ok: bool)
      requires Valid() && forall i | 0 <= i < |polls| :: FromHost(polls[i])
      modifies this, outBuffer, inBuffer
      ensures Valid() && put == (if ok then old(put) + [data] else old(put))
      ensures old(read) <= read <= put && old(landed) <= landed && got == old(got)
      ensures !ok ==> Read !in polls
      ensures |old(put)| - |old(read)| < 255 ==>
                ok && landed == old(landed) && read == old(read) && enabled == old(enabled)
    {
      hide Holds, At, Held, HeldToEnd, FreeToEnd, Moved, Free, Room, FromHost, Less, Share, C.Min;
      var i := 0;
      Counted(outBuffer[..], put, read, []);
      Indices(|put|, |read|);
      while Free(oHead, oTail) == 0
        invariant Valid() && i <= |polls| && put == old(put) && got == old(got)
        invariant old(read) <= read <= put && |put| < |read| + SIZE && old(landed) <= landed
        invariant Free(oHead, oTail) == SIZE - 1 - (|put| - |read|)
        invariant Free(oHead, oTail) == 0 ==> Read !in polls[..i]
        invariant |old(put)| - |old(read)| < 255 ==> i == 0
        invariant i == 0 ==> landed == old(landed) && read == old(read) && enabled == old(enabled)
        decreases |polls| - i
      {
        if i == |polls| { return false; }
        var _ := Poll(polls[i]);
        Counted(outBuffer[..], put, read, []);
        Indices(|put|, |read|);
        assert polls[..i + 1] == polls[..i] + [polls[i]];
        i := i + 1;
      }
      HoldsMore(outBuffer[..], SIZE, put, read, [], data);
      assert oHead == At(|put|, SIZE) && [] + [data] == [data];
      HoldsPublished(outBuffer[..][oHead := data], SIZE, put, read, [data]);
      Moves(|put|, 1);
      ghost var was := outBuffer[..];
      outBuffer[oHead] := data;
      assert outBuffer[..] == was[oHead := data];
      oHead := Moved(oHead, 1);
      put := put + [data];
      ok := true;
    }

    /** The oldest byte waiting. */
    method Take() returns (data: byte)
      requires Valid() && |got| < |landed|
      modifies this`iTail, this`got
      ensures Valid() && got == old(got) + [data] && got <= landed
    {
      hide Holds, At, Held, HeldToEnd, FreeToEnd, Moved, Free;
      Counted(inBuffer[..], landed, got, []);
      Indices(|landed|, |got|);
      HoldsTaken(inBuffer[..], SIZE, landed, got, [], 1);
      Straight(inBuffer[..], landed, got, 1);
      Moves(|got|, 1);
      Indices(|landed|, |got| + 1);
      data := inBuffer[iTail];
      assert inBuffer[..][iTail..iTail + 1][0] == data;
      iTail := Moved(iTail, 1);
      got := landed[..|got| + 1];
    }

    /** Waits only as long as nothing has landed and, from the second poll on, the host writes nothing. */
    method Getc(polls: seq<Host>) returns (ok: bool, data: byte)
      requires Valid() && forall i | 0 <= i < |polls| :: FromHost(polls[i])
      modifies this, inBuffer
      ensures Valid() && got == (if ok then old(got) + [data] else old(got)) && got <= landed
      ensures old(read) <= read <= put == old(put) && old(landed) <= landed
      ensures !ok ==> forall i | 1 <= i < |polls| :: polls[i].Write? ==> polls[i].data == []
      ensures |old(landed)| > |old(got)| ==> ok && landed == old(landed) && read == old(read) && enabled == old(enabled)
    {
      hide Holds, At, Held, HeldToEnd, FreeToEnd, Moved, Free, Room, FromHost, Less, Share, C.Min;
      var i := 0;
      Counted(inBuffer[..], landed, got, []);
      Counted(outBuffer[..], put, read, []);
      Indices(|landed|, |got|);
      while Held(iHead, iTail) == 0
        invariant Valid() && i <= |polls| && put == old(put) && got == old(got)
        invariant old(read) <= read <= put && old(landed) <= landed && got <= landed && |landed| < |got| + SIZE
        invariant Held(iHead, iTail) == |landed| - |got|
        invariant i > 0 && landed == got ==> enabled
        invariant |old(landed)| > |old(got)| ==> landed == old(landed) && read == old(read) && enabled == old(enabled)
        invariant landed == got ==> forall k | 1 <= k < i :: polls[k].Write? ==> polls[k].data == []
        decreases |polls| - i
      {
        if i == |polls| { return false, 0; }
        var _ := Poll(polls[i]);
        Counted(inBuffer[..], landed, got, []);
        Counted(outBuffer[..], put, read, []);
        Indices(|landed|, |got|);
        i := i + 1;
      }
      data := Take();
      ok := true;
    }
  }

  /** The eight-bit count of bytes still to come. */
  function Less(t: byte, n: nat): byte { (t - n) % 256 }

  lemma LessIs(t: byte, n: nat)
    ensures Less(t, n) == (t - n) % 256
  {
  }

  lemma LessTwice(t: byte, a: nat, b: nat)
    ensures Less(Less(t, a), b) == Less(t, a + b)
  {
    C.RemainderOfSum((t - a) / 256, (t - a) % 256 - b, 256);
  }

  lemma Beside(a: nat, j: nat)
    requires At(a, SIZE) + j < SIZE
    ensures At(a + j, SIZE) == At(a, SIZE) + j
  {
    ModStep(a, j, SIZE);
  }

  lemma Around(a: nat)
    ensures At(a + (SIZE - At(a, SIZE)), SIZE) == 0
  {
    ModStep(a, SIZE - At(a, SIZE), SIZE);
  }
}
