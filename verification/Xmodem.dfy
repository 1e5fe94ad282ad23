/** The XMODEM receiver, and its exchange with a stop-and-wait sender over a lossy channel. */
module Xmodem {
  import Crc16

  const SOH: bv8 := 0x01
  const STX: bv8 := 0x02
  const EOT: bv8 := 0x04
  const ACK: bv8 := 0x06
  const NAK: bv8 := 0x15
  const CAN: bv8 := 0x18
  const PROMPT: bv8 := 0x43
  const MAXRETRANS := 25

  // ---- Frame check ----

  /** Sum of the bytes, modulo 256. */
  function Sum(data: seq<bv8>): bv8 {
    if data == [] then 0 else Sum(data[..|data| - 1]) + data[|data| - 1]
  }

  function Value(b: bv8): (v: nat) { b as int }

  /** Sum of the bytes as numbers. */
  function Total(data: seq<bv8>): nat {
    if data == [] then 0 else Value(data[0]) + Total(data[1..])
  }

  lemma {:induction false} TotalPush(data: seq<bv8>, b: bv8)
    ensures Total(data + [b]) == Total(data) + Value(b)
    decreases |data|
  {
    hide Value;
    if data == [] {
      assert data + [b] == [b];
    } else {
      TotalPush(data[1..], b);
      assert (data + [b])[1..] == data[1..] + [b];
    }
  }

  lemma OneUp(a: bv8)
    ensures Value(a) < 256 && Value(a + 1) == if Value(a) == 255 then 0 else Value(a) + 1
  {
  }

  lemma ZeroValue(a: bv8)
    ensures a == 0 <==> Value(a) == 0
  {
  }

  /** Counted up from `a`, `n` times. */
  function Up(a: bv8, n: nat): bv8 {
    if n == 0 then a else Up(a, n - 1) + 1
  }

  lemma {:induction false} UpWraps(a: bv8, n: nat)
    ensures Value(Up(a, n)) == (Value(a) + n) % 256
    decreases n
  {
    hide Value;
    OneUp(a);
    if n > 0 {
      UpWraps(a, n - 1);
      OneUp(Up(a, n - 1));
      NextRemainder(Value(a) + (n - 1));
    }
  }

  lemma NextRemainder(v: nat)
    ensures (v + 1) % 256 == if v % 256 == 255 then 0 else v % 256 + 1
  {
  }

  lemma {:induction false} UpAdds(a: bv8, n: nat)
    ensures Up(a, n) == a + Up(0, n)
    decreases n
  {
    if n > 0 {
      UpAdds(a, n - 1);
      Regroup(a, Up(0, n - 1));
    }
  }

  lemma Regroup(a: bv8, b: bv8)
    ensures (a + b) + 1 == a + (b + 1)
  {
  }

  lemma AddWraps(a: bv8, b: bv8)
    ensures Value(a + b) == (Value(a) + Value(b)) % 256
  {
    hide Value, Up;
    var n := Value(b);
    OneUp(b);
    UpWraps(0, n);
    ZeroValue(0);
    SameByte(Up(0, n), b);
    UpAdds(a, n);
    UpWraps(a, n);
  }

  lemma AddRemainder(v: nat, b: nat)
    ensures (v % 256 + b) % 256 == (v + b) % 256
  {
  }

  /** The checksum is the sum of the bytes modulo 256. */
  lemma {:induction false} SumIs(data: seq<bv8>)
    ensures Value(Sum(data)) == Total(data) % 256
    decreases |data|
  {
    hide Value, Total;
    NothingToAdd();
    if data != [] {
      var n := |data| - 1;
      SumIs(data[..n]);
      AddWraps(Sum(data[..n]), data[n]);
      TotalPush(data[..n], data[n]);
      assert data == data[..n] + [data[n]];
      AddRemainder(Total(data[..n]), Value(data[n]));
    }
  }

  lemma NothingToAdd()
    ensures Total([]) == 0 && Value(0) == 0
  {
  }

  function TrailerSize(crc: bool): nat { if crc then 2 else 1 }

  /** The trailer fits the data. */
  predicate Sound(crc: bool, body: seq<bv8>, size: nat)
    requires |body| == size + TrailerSize(crc)
  {
    if crc then Crc16.Passes(body) else Sum(body[..size]) == body[size]
  }

  /** What the trailer of a sound frame is. */
  lemma SoundIff(crc: bool, body: seq<bv8>, size: nat)
    requires |body| == size + TrailerSize(crc)
    ensures crc ==> (Sound(crc, body, size) <==> Crc16.Crc(0, body) == 0)
    ensures !crc ==> (Sound(crc, body, size) <==> Total(body[..size]) % 256 == Value(body[size]))
  {
    hide Crc16.Crc, Crc16.Passes, Total, Sum, Value;
    if crc {
      Crc16.PassesIffZero(body);
    } else {
      SumIs(body[..size]);
      SameByte(Sum(body[..size]), body[size]);
    }
  }

  lemma SameByte(a: bv8, b: bv8)
    ensures a == b <==> Value(a) == Value(b)
  {
  }

  method Check(crc: bool, buf: seq<bv8>, sz: nat) returns (ok: bool)
    requires |buf| == sz + TrailerSize(crc)
    ensures ok <==> Sound(crc, buf, sz)
    ensures ok <==> if crc then Crc16.Crc(0, buf) == 0 else Total(buf[..sz]) % 256 == Value(buf[sz])
  {
    SoundIff(crc, buf, sz);
    if crc {
      var value := Crc16.Crc16(0, buf[..sz]);
      ok := value == Crc16.Word(buf[sz], buf[sz + 1]);
    } else {
      var cks: bv8 := 0;
      for i := 0 to sz
        invariant cks == Sum(buf[..i])
      {
        assert buf[..i + 1][..i] == buf[..i];
        cks := cks + buf[i];
      }
      ok := cks == buf[sz];
    }
  }

  // ---- What the receiver does with a frame ----

  /** A frame as read: its number, the number's complement, and data with trailer. */
  datatype Frame = Frame(no: bv8, inverse: bv8, body: seq<bv8>, size: nat)

  predicate WellSized(crc: bool, f: Frame) {
    |f.body| == f.size + TrailerSize(crc) && f.size > 0
  }

  predicate Inverted(no: bv8, inverse: bv8) { no == !inverse }

  predicate Intact(crc: bool, f: Frame)
    requires WellSized(crc, f)
  {
    Inverted(f.no, f.inverse) && Sound(crc, f.body, f.size)
  }

  /** The next block, or the one before; the comparison with the latter is made in `int`, so it misses 255 before 0. */
  predicate Expected(packetno: bv8, no: bv8) {
    no == packetno || (packetno != 0 && no == packetno - 1)
  }

  datatype Receiver = Receiver(packetno: bv8, len: nat, retrans: int, written: seq<bv8>, aborted: bool)

  datatype Reply = Ack | Nak | Cancel

  function Start(): Receiver { Receiver(1, 0, MAXRETRANS, [], false) }

  /** A new block goes to the writer, as much of it as the destination still takes. */
  function Deliver(r: Receiver, destsz: nat, data: seq<bv8>): (r': Receiver)
    requires r.len <= destsz
    ensures r'.len <= destsz && r'.len - r.len == |r'.written| - |r.written| >= 0
  {
    var count := if destsz - r.len > |data| then |data| else destsz - r.len;
    r.(written := r.written + data[..count], len := r.len + count, packetno := r.packetno + 1,
       retrans := MAXRETRANS + 1)
  }

  function OnFrame(r: Receiver, destsz: nat, crc: bool, f: Frame): (o: (Receiver, Reply))
    requires r.len <= destsz && WellSized(crc, f)
    ensures o.0.len <= destsz
  {
    if Intact(crc, f) && Expected(r.packetno, f.no) then
      var r1 := if f.no == r.packetno then Deliver(r, destsz, f.body[..f.size]) else r;
      var r2 := r1.(retrans := r1.retrans - 1);
      if r2.retrans <= 0 then (r2.(aborted := true), Cancel) else (r2, Ack)
    else (r, Nak)
  }

  // ---- What is taken and what is refused, in byte values ----

  lemma Complement(a: bv8, b: bv8)
    ensures Inverted(a, b) <==> Value(a) + Value(b) == 255
  {
  }

  lemma ExpectedIff(packetno: bv8, no: bv8)
    ensures Expected(packetno, no) <==> Value(no) == Value(packetno) || Value(no) == Value(packetno) - 1
  {
  }

  /** The number and its complement add up to 255, the number is the next or the one before, and the trailer fits. */
  predicate Right(crc: bool, r: Receiver, f: Frame)
    requires WellSized(crc, f)
  {
    && Value(f.no) + Value(f.inverse) == 255
    && (Value(f.no) == Value(r.packetno) || Value(f.no) == Value(r.packetno) - 1)
    && (if crc then Crc16.Crc(0, f.body) == 0 else Total(f.body[..f.size]) % 256 == Value(f.body[f.size]))
  }

  /** Exactly the frames that are not right are refused, and they change nothing. */
  lemma RefusedIff(r: Receiver, destsz: nat, crc: bool, f: Frame)
    requires r.len <= destsz && WellSized(crc, f)
    ensures OnFrame(r, destsz, crc, f).1 == Nak <==> !Right(crc, r, f)
    ensures !Right(crc, r, f) ==> OnFrame(r, destsz, crc, f) == (r, Nak)
  {
    hide Value, Crc16.Crc, Total, Sound, Expected, Deliver, Sum, Inverted;
    Complement(f.no, f.inverse);
    ExpectedIff(r.packetno, f.no);
    SoundIff(crc, f.body, f.size);
  }

  /** A frame one of whose two number bytes was changed on the way is always refused. */
  lemma NumberDamaged(r: Receiver, destsz: nat, crc: bool, f: Frame, g: Frame)
    requires r.len <= destsz && WellSized(crc, f) && WellSized(crc, g) && Intact(crc, f)
    requires (f.no != g.no && f.inverse == g.inverse) || (f.no == g.no && f.inverse != g.inverse)
    ensures OnFrame(r, destsz, crc, g) == (r, Nak)
  {
    hide Value, Sound, OnFrame, Inverted;
    Complement(f.no, f.inverse);
    Complement(g.no, g.inverse);
    SameByte(f.no, g.no);
    SameByte(f.inverse, g.inverse);
    RefusedIff(r, destsz, crc, g);
  }

  /** The same frame, received a number of times: the receiver afterwards and its last answer. */
  function Repeated(r: Receiver, destsz: nat, crc: bool, f: Frame, k: nat): (o: (Receiver, Reply))
    requires r.len <= destsz && WellSized(crc, f)
    ensures o.0.len <= destsz
  {
    if k == 0 then (r, Ack) else OnFrame(Repeated(r, destsz, crc, f, k - 1).0, destsz, crc, f)
  }

  /**
   * How often a block may be repeated: a receiver that has just taken a block, or just begun, acknowledges the block
   * before the one it expects twenty-four times, and cancels at the twenty-fifth.
   */
  lemma {:induction false} RepeatLimit(r: Receiver, destsz: nat, crc: bool, f: Frame, k: nat)
    requires r.len <= destsz && WellSized(crc, f) && Intact(crc, f)
    requires f.no + 1 == r.packetno && r.packetno != 0 && r.retrans == 25 && !r.aborted && 1 <= k <= 25
    ensures var o := Repeated(r, destsz, crc, f, k);
      o.0 == r.(retrans := 25 - k, aborted := k == 25) && o.1 == if k == 25 then Cancel else Ack
    decreases k
  {
    hide Intact, OnFrame;
    if k > 1 { RepeatLimit(r, destsz, crc, f, k - 1); }
    var before := Repeated(r, destsz, crc, f, k - 1).0;
    OnRepeat(before, destsz, crc, f);
  }

  lemma FreshCount(r: Receiver, destsz: nat, crc: bool, f: Frame)
    requires r.len <= destsz && WellSized(crc, f) && Intact(crc, f) && f.no == r.packetno
    ensures Start().retrans == 25 && OnFrame(r, destsz, crc, f).0.retrans == 25
  {
    hide Intact, OnFrame, Deliver;
    OnNext(r, destsz, crc, f);
  }

  // ---- Exchange with a sender ----

  /** The number a block carries: counted from one, modulo 256. */
  function BlockNo(k: nat): bv8 {
    if k == 0 then 0 else BlockNo(k - 1) + 1
  }

  lemma {:induction false} BlockNoAdds(a: nat, b: nat)
    ensures BlockNo(a + b) == BlockNo(a) + BlockNo(b)
    decreases b
  {
    if b > 0 { BlockNoAdds(a, b - 1); }
  }

  /** A block carries its count modulo 256. */
  lemma {:induction false} BlockNoIs(k: nat)
    ensures Value(BlockNo(k)) == k % 256
    decreases k
  {
    hide Value;
    ZeroValue(0);
    if k > 0 {
      BlockNoIs(k - 1);
      OneUp(BlockNo(k - 1));
    }
  }

  /** Numbers repeat after 256 blocks; block 256 m + 255 is the last before the wrap. */
  lemma {:induction false} BlockNoWraps(m: nat)
    ensures BlockNo(256 * m + 255) == 255 && BlockNo(256 * m + 256) == 0
    decreases m
  {
    if m == 0 {
      BlockNoAdds(4, 4);
      BlockNoAdds(8, 8);
      BlockNoAdds(16, 16);
      BlockNoAdds(32, 32);
      BlockNoAdds(64, 64);
      BlockNoAdds(128, 128);
    } else {
      BlockNoWraps(m - 1);
      BlockNoWraps(0);
      BlockNoAdds(256 * m, 256);
      BlockNoAdds(256 * m, 255);
    }
  }

  function Trailer(crc: bool, data: seq<bv8>): (t: seq<bv8>)
    ensures |t| == TrailerSize(crc)
  {
    if crc then
      var c := Crc16.Crc(0, data);
      [(c >> 8) as bv8, (c & 0xFF) as bv8]
    else [Sum(data)]
  }

  /** What the sender puts on the line for block `k`. */
  function Outgoing(crc: bool, k: nat, data: seq<bv8>): Frame {
    Frame(BlockNo(k), !BlockNo(k), data + Trailer(crc, data), |data|)
  }

  lemma WordSplits(c: bv16)
    ensures Crc16.Word((c >> 8) as bv8, (c & 0xFF) as bv8) == c
  {
  }

  lemma OutgoingIntact(crc: bool, k: nat, data: seq<bv8>)
    requires data != []
    ensures WellSized(crc, Outgoing(crc, k, data)) && Intact(crc, Outgoing(crc, k, data))
    ensures Outgoing(crc, k, data).body[..|data|] == data
  {
    hide BlockNo, Sum, Crc16.Crc, Crc16.Word;
    var f := Outgoing(crc, k, data);
    WordSplits(Crc16.Crc(0, data));
    assert f.body[..|f.body| - TrailerSize(crc)] == data;
    DoubleInverse(f.no);
  }

  lemma DoubleInverse(b: bv8)
    ensures !(!b) == b
  {
  }

  /** What the channel does with a frame; damage is such that the receiver can tell. */
  datatype Fate = Lost | Damaged(frame: Frame) | Arrives

  datatype Round = Round(fate: Fate, replyArrives: bool)

  /** The sender's current block, the receiver, and how many blocks it has delivered. */
  datatype System = System(current: nat, r: Receiver, taken: nat)

  predicate Detectable(crc: bool, r: Receiver, f: Frame) {
    WellSized(crc, f) && !(Intact(crc, f) && Expected(r.packetno, f.no))
  }

  predicate Possible(crc: bool, sys: System, round: Round) {
    round.fate.Damaged? ==> Detectable(crc, sys.r, round.fate.frame)
  }

  predicate NonEmpty(blocks: seq<seq<bv8>>) {
    forall i | 0 <= i < |blocks| :: blocks[i] != []
  }

  predicate Over(blocks: seq<seq<bv8>>, sys: System) {
    sys.r.aborted || sys.current == 0 || sys.current > |blocks|
  }

  /** One exchange: the sender sends its current block and goes on to the next only on an acknowledgement. */
  function Exchange(blocks: seq<seq<bv8>>, destsz: nat, crc: bool, sys: System, round: Round): (sys': System)
    requires NonEmpty(blocks) && sys.r.len <= destsz && Possible(crc, sys, round)
    ensures sys'.r.len <= destsz
  {
    if Over(blocks, sys) then sys
    else
      match round.fate
      case Lost => sys
      case Damaged(f) => sys.(r := OnFrame(sys.r, destsz, crc, f).0)
      case Arrives =>
        OutgoingIntact(crc, sys.current, blocks[sys.current - 1]);
        var f := Outgoing(crc, sys.current, blocks[sys.current - 1]);
        var (r, reply) := OnFrame(sys.r, destsz, crc, f);
        System(if reply == Ack && round.replyArrives then sys.current + 1 else sys.current, r,
               if f.no == sys.r.packetno then sys.taken + 1 else sys.taken)
  }

  function Concat(blocks: seq<seq<bv8>>): (r: seq<bv8>) {
    if blocks == [] then [] else Concat(blocks[..|blocks| - 1]) + blocks[|blocks| - 1]
  }

  function Cut(s: seq<bv8>, n: nat): (r: seq<bv8>) {
    if |s| <= n then s else s[..n]
  }

  /**
   * The receiver has delivered the first `taken` blocks, each once and in order, cut at the destination
   * size, and expects the next; the sender is at that next block or still at the last one delivered.
   */
  ghost predicate InStep(blocks: seq<seq<bv8>>, destsz: nat, sys: System) {
    && sys.taken <= |blocks| && 1 <= sys.current <= |blocks| + 1
    && (sys.current == sys.taken + 1 || (sys.current == sys.taken && sys.taken > 0))
    && sys.r.packetno == BlockNo(sys.taken + 1)
    && sys.r.written == Cut(Concat(blocks[..sys.taken]), destsz) && sys.r.len == |sys.r.written|
  }

  lemma StartInStep(blocks: seq<seq<bv8>>, destsz: nat)
    ensures InStep(blocks, destsz, System(1, Start(), 0))
  {
  }

  lemma DeliverNext(blocks: seq<seq<bv8>>, destsz: nat, k: nat, r: Receiver)
    requires k < |blocks| && r.written == Cut(Concat(blocks[..k]), destsz) && r.len == |r.written|
    ensures r.len <= destsz
    ensures var r' := Deliver(r, destsz, blocks[k]);
      r'.written == Cut(Concat(blocks[..k + 1]), destsz) && r'.len == |r'.written|
  {
    assert blocks[..k + 1][..k] == blocks[..k];
    var a, b := Concat(blocks[..k]), blocks[k];
    if |a| <= destsz {
      var count := if destsz - |a| > |b| then |b| else destsz - |a|;
      assert (a + b)[..|a| + count] == a + b[..count];
    }
  }

  lemma OnBad(r: Receiver, destsz: nat, crc: bool, f: Frame)
    requires r.len <= destsz && Detectable(crc, r, f)
    ensures OnFrame(r, destsz, crc, f) == (r, Nak)
  {
  }

  lemma OnNext(r: Receiver, destsz: nat, crc: bool, f: Frame)
    requires r.len <= destsz && WellSized(crc, f) && Intact(crc, f) && f.no == r.packetno
    ensures OnFrame(r, destsz, crc, f) == (Deliver(r, destsz, f.body[..f.size]).(retrans := MAXRETRANS), Ack)
  {
    hide Intact, Deliver;
    DeliverNumbers(r, destsz, f.body[..f.size]);
  }

  /** A repeated block is acknowledged again, except across the wrap. */
  lemma OnRepeat(r: Receiver, destsz: nat, crc: bool, f: Frame)
    requires r.len <= destsz && WellSized(crc, f) && Intact(crc, f) && f.no + 1 == r.packetno
    ensures r.packetno == 0 ==> OnFrame(r, destsz, crc, f) == (r, Nak)
    ensures r.packetno != 0 ==>
              OnFrame(r, destsz, crc, f)
              == if r.retrans > 1 then (r.(retrans := r.retrans - 1), Ack)
                 else (r.(retrans := r.retrans - 1, aborted := true), Cancel)
  {
    hide Intact, Deliver;
    NotNext(f.no);
  }

  /** The first arrival of a block. */
  lemma ArrivesNext(blocks: seq<seq<bv8>>, destsz: nat, crc: bool, sys: System, replyArrives: bool)
    requires NonEmpty(blocks) && InStep(blocks, destsz, sys) && sys.r.len <= destsz && !Over(blocks, sys)
    requires sys.current == sys.taken + 1
    ensures var k := sys.current;
      Exchange(blocks, destsz, crc, sys, Round(Arrives, replyArrives))
      == System(if replyArrives then k + 1 else k,
                Deliver(sys.r, destsz, blocks[k - 1]).(retrans := MAXRETRANS), k)
  {
    hide Concat, Cut, Outgoing, Deliver, Intact, OnFrame;
    var k := sys.current;
    OutgoingIntact(crc, k, blocks[k - 1]);
    OutgoingNo(crc, k, blocks[k - 1]);
    OnNext(sys.r, destsz, crc, Outgoing(crc, k, blocks[k - 1]));
  }

  /** Another arrival of the last block delivered, its acknowledgement having been lost. */
  lemma ArrivesAgain(blocks: seq<seq<bv8>>, destsz: nat, crc: bool, sys: System, replyArrives: bool)
    requires NonEmpty(blocks) && InStep(blocks, destsz, sys) && sys.r.len <= destsz && !Over(blocks, sys)
    requires sys.current == sys.taken
    ensures var sys' := Exchange(blocks, destsz, crc, sys, Round(Arrives, replyArrives));
      && (sys.r.packetno == 0 ==> sys' == sys)
      && (sys.r.packetno != 0 ==>
            var abort := sys.r.retrans <= 1;
            sys' == System(if replyArrives && !abort then sys.current + 1 else sys.current,
                           sys.r.(retrans := sys.r.retrans - 1, aborted := abort), sys.taken))
  {
    hide Concat, Cut, Outgoing, Deliver, Intact, OnFrame;
    var k := sys.current;
    OutgoingIntact(crc, k, blocks[k - 1]);
    OutgoingNo(crc, k, blocks[k - 1]);
    NotNext(BlockNo(k));
    OnRepeat(sys.r, destsz, crc, Outgoing(crc, k, blocks[k - 1]));
  }

  lemma NextInStep(blocks: seq<seq<bv8>>, destsz: nat, crc: bool, sys: System, replyArrives: bool)
    requires NonEmpty(blocks) && InStep(blocks, destsz, sys) && sys.r.len <= destsz && !Over(blocks, sys)
    requires sys.current == sys.taken + 1
    ensures InStep(blocks, destsz, Exchange(blocks, destsz, crc, sys, Round(Arrives, replyArrives)))
  {
    hide Concat, Cut, Deliver, Exchange, BlockNo;
    ArrivesNext(blocks, destsz, crc, sys, replyArrives);
    DeliverNext(blocks, destsz, sys.taken, sys.r);
    DeliverNumbers(sys.r, destsz, blocks[sys.taken]);
    NumberAfter(sys.taken + 1);
  }

  lemma AgainInStep(blocks: seq<seq<bv8>>, destsz: nat, crc: bool, sys: System, replyArrives: bool)
    requires NonEmpty(blocks) && InStep(blocks, destsz, sys) && sys.r.len <= destsz && !Over(blocks, sys)
    requires sys.current == sys.taken
    ensures InStep(blocks, destsz, Exchange(blocks, destsz, crc, sys, Round(Arrives, replyArrives)))
  {
    hide Concat, Cut, Exchange, BlockNo;
    ArrivesAgain(blocks, destsz, crc, sys, replyArrives);
  }

  lemma NothingArrives(blocks: seq<seq<bv8>>, destsz: nat, crc: bool, sys: System, round: Round)
    requires NonEmpty(blocks) && sys.r.len <= destsz && Possible(crc, sys, round)
    requires Over(blocks, sys) || !round.fate.Arrives?
    ensures Exchange(blocks, destsz, crc, sys, round) == sys
  {
    hide OnFrame;
    if !Over(blocks, sys) && round.fate.Damaged? {
      OnBad(sys.r, destsz, crc, round.fate.frame);
    }
  }

  lemma ExchangeInStep(blocks: seq<seq<bv8>>, destsz: nat, crc: bool, sys: System, round: Round)
    requires NonEmpty(blocks) && InStep(blocks, destsz, sys) && sys.r.len <= destsz && Possible(crc, sys, round)
    ensures InStep(blocks, destsz, Exchange(blocks, destsz, crc, sys, round))
  {
    hide Exchange, Over, Possible;
    if Over(blocks, sys) || !round.fate.Arrives? {
      NothingArrives(blocks, destsz, crc, sys, round);
    } else if sys.current == sys.taken + 1 {
      NextInStep(blocks, destsz, crc, sys, round.replyArrives);
    } else {
      AgainInStep(blocks, destsz, crc, sys, round.replyArrives);
    }
  }

  lemma OutgoingNo(crc: bool, k: nat, data: seq<bv8>)
    ensures Outgoing(crc, k, data).no == BlockNo(k) && Outgoing(crc, k, data).size == |data|
  {
  }

  lemma DeliverNumbers(r: Receiver, destsz: nat, data: seq<bv8>)
    requires r.len <= destsz
    ensures Deliver(r, destsz, data).packetno == r.packetno + 1
    ensures Deliver(r, destsz, data).retrans == MAXRETRANS + 1 && Deliver(r, destsz, data).aborted == r.aborted
  {
  }

  lemma NotNext(no: bv8)
    ensures no + 1 != no && (no + 1) - 1 == no
  {
  }

  /** A whole run: rounds whose damage the receiver could not tell are not considered. */
  function Run(blocks: seq<seq<bv8>>, destsz: nat, crc: bool, sys: System, rounds: seq<Round>): (sys': System)
    requires NonEmpty(blocks) && sys.r.len <= destsz
    ensures sys'.r.len <= destsz
    decreases |rounds|
  {
    if rounds == [] then sys
    else
      var next := if Possible(crc, sys, rounds[0]) then Exchange(blocks, destsz, crc, sys, rounds[0]) else sys;
      Run(blocks, destsz, crc, next, rounds[1..])
  }

  /** One run after another. */
  lemma {:induction false} RunJoin(blocks: seq<seq<bv8>>, destsz: nat, crc: bool, sys: System, a: seq<Round>,
                                   b: seq<Round>)
    requires NonEmpty(blocks) && sys.r.len <= destsz
    ensures Run(blocks, destsz, crc, sys, a + b) == Run(blocks, destsz, crc, Run(blocks, destsz, crc, sys, a), b)
    decreases |a|
  {
    hide Exchange, Possible, NonEmpty;
    if a == [] {
      assert a + b == b;
    } else {
      var next := if Possible(crc, sys, a[0]) then Exchange(blocks, destsz, crc, sys, a[0]) else sys;
      RunJoin(blocks, destsz, crc, next, a[1..], b);
      assert (a + b)[1..] == a[1..] + b;
    }
  }

  lemma RunOne(blocks: seq<seq<bv8>>, destsz: nat, crc: bool, sys: System, round: Round)
    requires NonEmpty(blocks) && sys.r.len <= destsz && Possible(crc, sys, round)
    ensures Run(blocks, destsz, crc, sys, [round]) == Exchange(blocks, destsz, crc, sys, round)
  {
    hide Exchange, Possible, NonEmpty;
    assert [round][1..] == [];
  }

  lemma {:induction false} RunInStep(blocks: seq<seq<bv8>>, destsz: nat, crc: bool, sys: System, rounds: seq<Round>)
    requires NonEmpty(blocks) && InStep(blocks, destsz, sys) && sys.r.len <= destsz
    ensures InStep(blocks, destsz, Run(blocks, destsz, crc, sys, rounds))
    decreases |rounds|
  {
    hide InStep, Exchange, Possible;
    if rounds != [] {
      if Possible(crc, sys, rounds[0]) {
        ExchangeInStep(blocks, destsz, crc, sys, rounds[0]);
        RunInStep(blocks, destsz, crc, Exchange(blocks, destsz, crc, sys, rounds[0]), rounds[1..]);
      } else {
        RunInStep(blocks, destsz, crc, sys, rounds[1..]);
      }
    }
  }

  /**
   * Exactly-once delivery: after any run, whatever was lost or damaged and however often the block
   * numbers have wrapped, the writer has been given the first blocks once each, in order, and when the
   * sender has come to the end of its blocks, all of them; the length to be returned is the bytes written.
   */
  lemma ExactlyOnce(blocks: seq<seq<bv8>>, destsz: nat, crc: bool, rounds: seq<Round>)
    requires NonEmpty(blocks)
    ensures var sys := Run(blocks, destsz, crc, System(1, Start(), 0), rounds);
      && sys.taken <= |blocks| && sys.current - 1 <= sys.taken <= sys.current
      && sys.r.written == Cut(Concat(blocks[..sys.taken]), destsz) && sys.r.len == |sys.r.written|
      && (sys.current > |blocks| ==> sys.r.written == Cut(Concat(blocks), destsz))
  {
    StartInStep(blocks, destsz);
    RunInStep(blocks, destsz, crc, System(1, Start(), 0), rounds);
    assert blocks[..|blocks|] == blocks;
  }

  // ---- Where the exchange gets stuck ----

  /** An undisturbed round moves the sender on, except when it repeats a block across the wrap or once too often. */
  lemma AdvancesIff(blocks: seq<seq<bv8>>, destsz: nat, crc: bool, sys: System)
    requires NonEmpty(blocks) && InStep(blocks, destsz, sys) && sys.r.len <= destsz && !Over(blocks, sys)
    ensures Exchange(blocks, destsz, crc, sys, Round(Arrives, true)).current == sys.current + 1
       <==> sys.current == sys.taken + 1 || (sys.r.packetno != 0 && sys.r.retrans > 1)
  {
    hide Exchange, Deliver;
    if sys.current == sys.taken + 1 {
      ArrivesNext(blocks, destsz, crc, sys, true);
    } else {
      ArrivesAgain(blocks, destsz, crc, sys, true);
    }
  }

  /** Losing the acknowledgement of a block numbered 255 leads to the stuck state. */
  lemma LostAckAtWrap(blocks: seq<seq<bv8>>, destsz: nat, crc: bool, sys: System, m: nat)
    requires NonEmpty(blocks) && InStep(blocks, destsz, sys) && sys.r.len <= destsz && !Over(blocks, sys)
    requires sys.taken == 256 * m + 254 && sys.current == sys.taken + 1
    ensures var sys' := Exchange(blocks, destsz, crc, sys, Round(Arrives, false));
      sys'.current == sys'.taken == 256 * m + 255 && sys'.r.packetno == 0 && !sys'.r.aborted
  {
    hide Exchange, Deliver, BlockNo;
    ArrivesNext(blocks, destsz, crc, sys, false);
    DeliverNumbers(sys.r, destsz, blocks[sys.current - 1]);
    BlockNoWraps(m);
    NumberAfter(sys.taken + 1);
  }

  lemma NumberAfter(k: nat)
    ensures BlockNo(k + 1) == BlockNo(k) + 1
  {
  }

  /** From there no round of any run changes anything again: every repetition is refused. */
  lemma {:induction false} StuckForever(blocks: seq<seq<bv8>>, destsz: nat, crc: bool, sys: System, rounds: seq<Round>)
    requires NonEmpty(blocks) && InStep(blocks, destsz, sys) && sys.r.len <= destsz
    requires sys.current == sys.taken && sys.r.packetno == 0
    ensures Run(blocks, destsz, crc, sys, rounds) == sys
    decreases |rounds|
  {
    hide InStep, Possible, Exchange, Over;
    if rounds != [] {
      StuckForever(blocks, destsz, crc, sys, rounds[1..]);
      if Possible(crc, sys, rounds[0]) {
        if Over(blocks, sys) || !rounds[0].fate.Arrives? {
          NothingArrives(blocks, destsz, crc, sys, rounds[0]);
        } else {
          ArrivesAgain(blocks, destsz, crc, sys, rounds[0].replyArrives);
        }
      }
    }
  }

  // ---- Reaching the stuck state ----

  /** Rounds in which nothing goes wrong. */
  function Clean(n: nat): seq<Round> {
    if n == 0 then [] else Clean(n - 1) + [Round(Arrives, true)]
  }

  lemma {:induction false} CleanRun(blocks: seq<seq<bv8>>, destsz: nat, crc: bool, n: nat)
    requires NonEmpty(blocks) && n <= |blocks|
    ensures var sys := Run(blocks, destsz, crc, System(1, Start(), 0), Clean(n));
      sys.current == n + 1 && sys.taken == n && !sys.r.aborted
  {
    hide Exchange, NonEmpty, Deliver, Run, InStep;
    var start := System(1, Start(), 0);
    RunNothing(blocks, destsz, crc, start);
    if n > 0 {
      var sys := Run(blocks, destsz, crc, start, Clean(n - 1));
      CleanRun(blocks, destsz, crc, n - 1);
      StartInStep(blocks, destsz);
      RunInStep(blocks, destsz, crc, start, Clean(n - 1));
      RunJoin(blocks, destsz, crc, start, Clean(n - 1), [Round(Arrives, true)]);
      RunOne(blocks, destsz, crc, sys, Round(Arrives, true));
      ArrivesNext(blocks, destsz, crc, sys, true);
      DeliverNumbers(sys.r, destsz, blocks[n - 1]);
    }
  }

  lemma RunNothing(blocks: seq<seq<bv8>>, destsz: nat, crc: bool, sys: System)
    requires NonEmpty(blocks) && sys.r.len <= destsz
    ensures Run(blocks, destsz, crc, sys, []) == sys
  {
  }

  /**
   * One lost acknowledgement is enough: when a file is long enough for a block numbered 255 and the acknowledgement
   * of such a block is the only thing lost, the exchange never gets beyond it, whatever follows.
   */
  lemma OneLossSticks(blocks: seq<seq<bv8>>, destsz: nat, crc: bool, m: nat, more: seq<Round>)
    requires NonEmpty(blocks) && 256 * m + 255 <= |blocks|
    ensures var rounds := Clean(256 * m + 254) + [Round(Arrives, false)] + more;
      var sys := Run(blocks, destsz, crc, System(1, Start(), 0), rounds);
      && sys.current == sys.taken == 256 * m + 255 && !sys.r.aborted
      && sys.r.written == Cut(Concat(blocks[..256 * m + 255]), destsz)
  {
    hide Exchange, NonEmpty, Deliver, Run, Clean, Concat, Cut, BlockNo;
    var start, n, last := System(1, Start(), 0), 256 * m + 254, Round(Arrives, false);
    var sys := Run(blocks, destsz, crc, start, Clean(n));
    CleanRun(blocks, destsz, crc, n);
    StartInStep(blocks, destsz);
    RunInStep(blocks, destsz, crc, start, Clean(n));
    LostAckAtWrap(blocks, destsz, crc, sys, m);
    RunJoin(blocks, destsz, crc, start, Clean(n), [last]);
    RunOne(blocks, destsz, crc, sys, last);
    RunInStep(blocks, destsz, crc, start, Clean(n) + [last]);
    RunJoin(blocks, destsz, crc, start, Clean(n) + [last], more);
    StuckForever(blocks, destsz, crc, Exchange(blocks, destsz, crc, sys, last), more);
  }
}
