/** The stlinky ring shared with a debugger: one side writes, the other reads, and both run at once. */
module Stlinky {
  import opened BitString
  import opened RingIndex

  // ---- Indices as the code computes them ----

  /** Bytes in the ring, as the code computes it from the two indices. */
  function Usage(head: nat, tail: nat, n: nat): int {
    if head < tail then head - tail + n else head - tail
  }

  lemma UsageIs(h: nat, t: nat, n: nat)
    requires n > 0 && t <= h < t + n
    ensures Usage(At(h, n), At(t, n), n) == h - t
  {
    ModStep(t, h - t, n);
  }

  /** Where the code copies byte `j` of a block of `size` starting at index `start`: two chunks at the wrap. */
  function Chunked(start: nat, size: nat, j: nat, n: nat): int {
    var first := if start + size >= n then n - start else size;
    if j < first then start + j else j - first
  }

  lemma ChunkedIs(base: nat, size: nat, j: nat, n: nat)
    requires n > 0 && j < size < n
    ensures Chunked(At(base, n), size, j, n) == At(base + j, n)
  {
    ModStep(base, j, n);
  }

  /** How much the reader takes: the code's two-chunk computation. */
  function ReadSize(head: nat, tail: nat, size: nat, n: nat): int {
    if head == tail then 0
    else if head > tail then (if head - tail >= size then size else head - tail)
    else
      var first := if n - tail >= size then size else n - tail;
      first + (if first + head >= size then size - first else head)
  }

  lemma ReadSizeIs(h: nat, t: nat, size: nat, n: nat)
    requires n > 0 && t <= h < t + n
    ensures ReadSize(At(h, n), At(t, n), size, n) == if size < h - t then size else h - t
  {
    ModStep(t, h - t, n);
  }

  // ---- The two sides as a state machine ----

  /** The writer has checked for space and copied some of its block, but not published it. */
  datatype Writer = Idle | Writing(head: nat, data: seq<byte>, done: nat)

  /** The reader has settled how much to take and copied some of it, but not released it. */
  datatype Reader = Quiet | Reading(tail: nat, want: nat, got: seq<byte>)

  /** Shared indices and buffer, both sides' progress, and the streams published and received. */
  datatype Ring = Ring(n: nat, head: nat, tail: nat, buf: seq<byte>, writer: Writer, reader: Reader,
                       sent: seq<byte>, received: seq<byte>)

  datatype Event =
    | StartWrite(data: seq<byte>) | CopyIn | Publish
    | StartRead(size: nat) | CopyOut | Release

  ghost predicate WriterOk(r: Ring)
    requires r.n > 0 && |r.buf| == r.n
  {
    r.writer.Writing? ==>
      && r.writer.head == r.head && r.writer.done <= |r.writer.data|
      && |r.sent| - |r.received| + |r.writer.data| < r.n
      && forall j | 0 <= j < r.writer.done :: r.buf[At(|r.sent| + j, r.n)] == r.writer.data[j]
  }

  ghost predicate ReaderOk(r: Ring) {
    r.reader.Reading? ==>
      && r.reader.tail == r.tail && |r.reader.got| <= r.reader.want
      && |r.received| + r.reader.want <= |r.sent|
      && r.reader.got == r.sent[|r.received|..|r.received| + |r.reader.got|]
  }

  /** Unread bytes are in their places; what was received is what was sent, in order. */
  ghost predicate Safe(r: Ring) {
    && r.n > 0 && |r.buf| == r.n
    && |r.received| <= |r.sent| < |r.received| + r.n
    && r.head == At(|r.sent|, r.n) && r.tail == At(|r.received|, r.n)
    && r.received <= r.sent
    && (forall i | |r.received| <= i < |r.sent| :: r.buf[At(i, r.n)] == r.sent[i])
    && WriterOk(r) && ReaderOk(r)
  }

  predicate Enabled(r: Ring, e: Event)
    requires r.n > 0 && |r.buf| == r.n
  {
    match e
    case StartWrite(data) => r.writer.Idle?
    case CopyIn =>
      && r.writer.Writing? && r.writer.done < |r.writer.data|
      && 0 <= Chunked(r.writer.head, |r.writer.data|, r.writer.done, r.n) < r.n
    case Publish => r.writer.Writing? && r.writer.done == |r.writer.data|
    case StartRead(size) => r.reader.Quiet?
    case CopyOut =>
      && r.reader.Reading? && |r.reader.got| < r.reader.want
      && 0 <= Chunked(r.reader.tail, r.reader.want, |r.reader.got|, r.n) < r.n
    case Release => r.reader.Reading? && |r.reader.got| == r.reader.want
  }

  /** One step of either side. */
  function Step(r: Ring, e: Event): (r': Ring)
    requires r.n > 0 && |r.buf| == r.n && Enabled(r, e)
  {
    match e
    case StartWrite(data) =>
      if Usage(r.head, r.tail, r.n) + |data| >= r.n then r
      else r.(writer := Writing(r.head, data, 0))
    case CopyIn =>
      var w := r.writer;
      r.(buf := r.buf[Chunked(w.head, |w.data|, w.done, r.n) := w.data[w.done]], writer := w.(done := w.done + 1))
    case Publish =>
      r.(head := (r.writer.head + |r.writer.data|) % r.n, writer := Idle, sent := r.sent + r.writer.data)
    case StartRead(size) =>
      if r.head == r.tail then r
      else
        var want := ReadSize(r.head, r.tail, size, r.n);
        if want < 0 then r else r.(reader := Reading(r.tail, want, []))
    case CopyOut =>
      var c := r.reader;
      r.(reader := c.(got := c.got + [r.buf[Chunked(c.tail, c.want, |c.got|, r.n)]]))
    case Release =>
      r.(tail := (r.reader.tail + r.reader.want) % r.n, reader := Quiet, received := r.received + r.reader.got)
  }

  function Init(n: nat, buf: seq<byte>): Ring {
    Ring(n, 0, 0, buf, Idle, Quiet, [], [])
  }

  lemma SafeInit(n: nat, buf: seq<byte>)
    requires n > 0 && |buf| == n
    ensures Safe(Init(n, buf))
  {
    assert 0 % n == 0;
  }

  lemma StepStartWrite(r: Ring, data: seq<byte>)
    requires Safe(r) && r.writer.Idle?
    ensures Safe(Step(r, StartWrite(data)))
    ensures Step(r, StartWrite(data)) == r <==> |r.sent| - |r.received| + |data| >= r.n
  {
    UsageIs(|r.sent|, |r.received|, r.n);
  }

  /** A byte copied in goes to a free place, never over one that is still to be read. */
  lemma StepCopyIn(r: Ring)
    requires Safe(r) && r.writer.Writing? && r.writer.done < |r.writer.data|
    ensures Enabled(r, CopyIn) && Safe(Step(r, CopyIn))
  {
    var w, h := r.writer, |r.sent|;
    ChunkedIs(h, |w.data|, w.done, r.n);
    var at := At(h + w.done, r.n);
    var r' := Step(r, CopyIn);
    assert r'.buf == r.buf[at := w.data[w.done]];
    forall i | |r.received| <= i < h ensures r'.buf[At(i, r.n)] == r.sent[i] {
      ModApart(i, h + w.done, r.n);
    }
    forall j | 0 <= j < w.done ensures r'.buf[At(h + j, r.n)] == w.data[j] {
      ModApart(h + j, h + w.done, r.n);
    }
  }

  lemma StepPublish(r: Ring)
    requires Safe(r) && Enabled(r, Publish)
    ensures Safe(Step(r, Publish))
  {
    var w, h, n := r.writer, |r.sent|, r.n;
    var r' := Step(r, Publish);
    ModStep(h, |w.data|, n);
    ModStep(h % n, |w.data|, n);
    ModSmall(h % n, n);
    forall i | |r.received| <= i < |r'.sent| ensures r'.buf[At(i, n)] == r'.sent[i] {
      if i >= h {
        assert r.buf[At(h + (i - h), n)] == w.data[i - h];
      }
    }
  }

  lemma StepStartRead(r: Ring, size: nat)
    requires Safe(r) && r.reader.Quiet?
    ensures Safe(Step(r, StartRead(size)))
    ensures var avail := |r.sent| - |r.received|;
      avail > 0 ==> Step(r, StartRead(size)).reader == Reading(r.tail, if size < avail then size else avail, [])
    ensures |r.sent| == |r.received| ==> Step(r, StartRead(size)) == r
  {
    UsageIs(|r.sent|, |r.received|, r.n);
    ReadSizeIs(|r.sent|, |r.received|, size, r.n);
  }

  lemma StepCopyOut(r: Ring)
    requires Safe(r) && r.reader.Reading? && |r.reader.got| < r.reader.want
    ensures Enabled(r, CopyOut) && Safe(Step(r, CopyOut))
  {
    var c, t := r.reader, |r.received|;
    ChunkedIs(t, c.want, |c.got|, r.n);
    assert r.buf[At(t + |c.got|, r.n)] == r.sent[t + |c.got|];
  }

  lemma StepRelease(r: Ring)
    requires Safe(r) && Enabled(r, Release)
    ensures Safe(Step(r, Release))
  {
    var c, t, n := r.reader, |r.received|, r.n;
    ModStep(t, c.want, n);
    ModStep(t % n, c.want, n);
    ModSmall(t % n, n);
    assert r.sent[..t] + r.sent[t..t + c.want] == r.sent[..t + c.want];
  }

  lemma StepSafe(r: Ring, e: Event)
    requires Safe(r) && Enabled(r, e)
    ensures Safe(Step(r, e))
  {
    hide Step;
    match e {
      case StartWrite(data) => StepStartWrite(r, data);
      case CopyIn => StepCopyIn(r);
      case Publish => StepPublish(r);
      case StartRead(size) => StepStartRead(r, size);
      case CopyOut => StepCopyOut(r);
      case Release => StepRelease(r);
    }
  }

  /** Steps that are not possible in a state are skipped, so any interleaving is a list of events. */
  function Run(r: Ring, es: seq<Event>): (r': Ring)
    requires r.n > 0 && |r.buf| == r.n
    ensures r'.n == r.n && |r'.buf| == r.n
    decreases |es|
  {
    if es == [] then r
    else Run(if Enabled(r, es[0]) then Step(r, es[0]) else r, es[1..])
  }

  lemma StepSent(r: Ring, e: Event)
    requires r.n > 0 && |r.buf| == r.n && Enabled(r, e)
    ensures Step(r, e).sent == r.sent + if e.Publish? then r.writer.data else []
    ensures Step(r, e).received == r.received + if e.Release? then r.reader.got else []
  {
  }

  /**
   * However the two sides interleave, step by step and byte by byte: the bytes received are a prefix of
   * the bytes published, no unread byte has been overwritten, and both streams only ever grow.
   */
  lemma {:induction false} RunSafe(r: Ring, es: seq<Event>)
    requires Safe(r)
    ensures Safe(Run(r, es)) && Run(r, es).received <= Run(r, es).sent
    ensures r.sent <= Run(r, es).sent && r.received <= Run(r, es).received
    decreases |es|
  {
    hide Step, Enabled;
    if es != [] {
      if Enabled(r, es[0]) {
        StepSafe(r, es[0]);
        StepSent(r, es[0]);
        RunSafe(Step(r, es[0]), es[1..]);
      } else {
        RunSafe(r, es[1..]);
      }
    }
  }

  /** From power-up, every run is safe. */
  lemma EveryRunSafe(n: nat, buf: seq<byte>, es: seq<Event>)
    requires n > 0 && |buf| == n
    ensures Safe(Run(Init(n, buf), es)) && Run(Init(n, buf), es).received <= Run(Init(n, buf), es).sent
  {
    SafeInit(n, buf);
    RunSafe(Init(n, buf), es);
  }

  // ---- A block that fits goes through ----

  predicate ByWriter(e: Event) { e.StartWrite? || e.CopyIn? || e.Publish? }

  /** The steps of one side, in order. */
  function Side(es: seq<Event>, writer: bool): seq<Event> {
    if es == [] then [] else (if ByWriter(es[0]) == writer then [es[0]] else []) + Side(es[1..], writer)
  }

  /** What is left to do of a transfer: copy so many bytes and finish. */
  function Left(k: nat, writer: bool): (r: seq<Event>)
    ensures r != []
  {
    var step, last := if writer then CopyIn else CopyOut, if writer then Publish else Release;
    if k == 0 then [last] else [step] + Left(k - 1, writer)
  }

  lemma SideStep(es: seq<Event>, writer: bool)
    requires es != []
    ensures ByWriter(es[0]) == writer ==> Side(es, writer) == [es[0]] + Side(es[1..], writer)
    ensures ByWriter(es[0]) != writer ==> Side(es, writer) == Side(es[1..], writer)
  {
  }

  lemma LeftStep(k: nat, writer: bool)
    ensures Left(k, writer)[0]
         == if k > 0 then (if writer then CopyIn else CopyOut) else if writer then Publish else Release
    ensures Left(k, writer)[1..] == if k > 0 then Left(k - 1, writer) else []
  {
  }

  /** One side's step leaves the other side and its stream alone. */
  lemma OtherSide(r: Ring, e: Event)
    requires r.n > 0 && |r.buf| == r.n && Enabled(r, e)
    ensures !ByWriter(e) ==> Step(r, e).writer == r.writer && Step(r, e).sent == r.sent
    ensures ByWriter(e) ==> Step(r, e).reader == r.reader && Step(r, e).received == r.received
  {
  }

  lemma SafeShape(r: Ring)
    requires Safe(r)
    ensures r.n > 0 && |r.buf| == r.n && |r.received| <= |r.sent|
    ensures r.writer.Writing? ==> r.writer.done <= |r.writer.data|
    ensures r.reader.Reading? ==> |r.reader.got| <= r.reader.want
  {
  }

  lemma {:induction false} NothingWritten(r: Ring, es: seq<Event>)
    requires Safe(r) && (Side(es, true) == [] || (r.writer.Idle? && forall e | e in es :: !e.StartWrite?))
    ensures Run(r, es).sent == r.sent && Run(r, es).writer == r.writer
    decreases |es|
  {
    SafeShape(r);
    hide Step, Safe;
    if es != [] {
      SideStep(es, true);
      if Enabled(r, es[0]) {
        StepSafe(r, es[0]);
        OtherSide(r, es[0]);
        NothingWritten(Step(r, es[0]), es[1..]);
      } else {
        NothingWritten(r, es[1..]);
      }
    }
  }

  lemma {:induction false} WriteOn(r: Ring, es: seq<Event>)
    requires Safe(r) && r.writer.Writing? && r.writer.done <= |r.writer.data|
    requires Side(es, true) == Left(|r.writer.data| - r.writer.done, true)
    ensures Run(r, es).sent == r.sent + r.writer.data && Run(r, es).writer.Idle?
    decreases |es|
  {
    SafeShape(r);
    hide *;
    var k := |r.writer.data| - r.writer.done;
    SideMatches(es, k, true);
    RunStep(r, es);
    WriterNext(r, es[0], k);
    var r' := After(r, es[0]);
    if ByWriter(es[0]) && k == 0 {
      NothingWritten(r', es[1..]);
    } else {
      WriteOn(r', es[1..]);
    }
  }

  function After(r: Ring, e: Event): (r': Ring)
    requires r.n > 0 && |r.buf| == r.n
    ensures r'.n == r.n && |r'.buf| == r.n
  {
    if Enabled(r, e) then Step(r, e) else r
  }

  /** The next event while a block is being written. */
  lemma WriterNext(r: Ring, e: Event, k: nat)
    requires Safe(r) && r.writer.Writing? && r.writer.done + k == |r.writer.data| && r.n > 0 && |r.buf| == r.n
    requires ByWriter(e) ==> e == if k > 0 then CopyIn else Publish
    ensures Safe(After(r, e))
    ensures !ByWriter(e) ==> After(r, e).writer == r.writer && After(r, e).sent == r.sent
    ensures ByWriter(e) && k == 0 ==> After(r, e).sent == r.sent + r.writer.data && After(r, e).writer.Idle?
    ensures ByWriter(e) && k > 0 ==>
              && After(r, e).sent == r.sent && After(r, e).writer.Writing?
              && After(r, e).writer.data == r.writer.data && After(r, e).writer.done == r.writer.done + 1
  {
    WriterSteps(r);
    hide Safe, Step, Enabled;
    if ByWriter(e) {
      if k > 0 { StepCopyIn(r); } else { StepPublish(r); }
    } else if Enabled(r, e) {
      StepSafe(r, e);
      OtherSide(r, e);
    }
  }

  /** The next event while bytes are being read. */
  lemma ReaderNext(r: Ring, e: Event, k: nat)
    requires Safe(r) && r.reader.Reading? && |r.reader.got| + k == r.reader.want && r.n > 0 && |r.buf| == r.n
    requires !ByWriter(e) ==> e == if k > 0 then CopyOut else Release
    ensures Safe(After(r, e))
    ensures ByWriter(e) ==> After(r, e).reader == r.reader && After(r, e).received == r.received
    ensures !ByWriter(e) && k == 0 ==>
              |After(r, e).received| == |r.received| + r.reader.want && After(r, e).reader.Quiet?
    ensures !ByWriter(e) && k > 0 ==>
              && After(r, e).received == r.received && After(r, e).reader.Reading?
              && After(r, e).reader.want == r.reader.want && |After(r, e).reader.got| == |r.reader.got| + 1
  {
    ReaderSteps(r);
    hide Safe, Step, Enabled;
    if !ByWriter(e) {
      if k > 0 { StepCopyOut(r); } else { StepRelease(r); }
    } else if Enabled(r, e) {
      StepSafe(r, e);
      OtherSide(r, e);
    }
  }

  /** What the next step of a transfer does to its side. */
  lemma WriterSteps(r: Ring)
    requires Safe(r) && r.writer.Writing?
    ensures r.writer.done == |r.writer.data| ==>
              && Enabled(r, Publish) && Step(r, Publish).sent == r.sent + r.writer.data
              && Step(r, Publish).writer.Idle?
    ensures Enabled(r, CopyIn) ==>
              && Step(r, CopyIn).writer.Writing? && Step(r, CopyIn).writer.data == r.writer.data
              && Step(r, CopyIn).writer.done == r.writer.done + 1 && Step(r, CopyIn).sent == r.sent
  {
  }

  lemma ReaderSteps(r: Ring)
    requires Safe(r) && r.reader.Reading?
    ensures |r.reader.got| == r.reader.want ==>
              && Enabled(r, Release) && |Step(r, Release).received| == |r.received| + r.reader.want
              && Step(r, Release).reader.Quiet?
    ensures Enabled(r, CopyOut) ==>
              && Step(r, CopyOut).reader.Reading? && Step(r, CopyOut).reader.want == r.reader.want
              && |Step(r, CopyOut).reader.got| == |r.reader.got| + 1 && Step(r, CopyOut).received == r.received
  {
  }

  /** The first event of a run with a transfer left to do. */
  lemma SideMatches(es: seq<Event>, k: nat, writer: bool)
    requires Side(es, writer) == Left(k, writer)
    ensures es != []
    ensures ByWriter(es[0]) == writer ==>
              && es[0] == (if k > 0 then (if writer then CopyIn else CopyOut) else if writer then Publish else Release)
              && Side(es[1..], writer) == if k > 0 then Left(k - 1, writer) else []
    ensures ByWriter(es[0]) != writer ==> Side(es[1..], writer) == Left(k, writer)
  {
    SideNone(writer);
    hide Side, Left, ByWriter;
    LeftStep(k, writer);
    SideStep(es, writer);
    var all := Side(es, writer);
    assert ByWriter(es[0]) == writer ==> all[0] == es[0] && all[1..] == Side(es[1..], writer);
  }

  lemma SideNone(writer: bool)
    ensures Side([], writer) == []
  {
  }

  lemma RunStep(r: Ring, es: seq<Event>)
    requires r.n > 0 && |r.buf| == r.n && es != []
    ensures Run(r, es) == Run(if Enabled(r, es[0]) then Step(r, es[0]) else r, es[1..])
    ensures Run(r, es) == Run(After(r, es[0]), es[1..])
  {
    hide Step, Enabled;
  }

  /**
   * A block that the writer starts on is published, whatever the reader does meanwhile, if and only if there was room
   * for it.
   */
  lemma WriteGoesThrough(r: Ring, data: seq<byte>, es: seq<Event>)
    requires Safe(r) && r.writer.Idle? && Side(es, true) == Left(|data|, true)
    ensures Run(r, [StartWrite(data)] + es).sent
         == r.sent + if |r.sent| - |r.received| + |data| < r.n then data else []
  {
    SafeShape(r);
    var all := [StartWrite(data)] + es;
    assert all[1..] == es && Enabled(r, all[0]);
    hide Safe, Side, Left, Run, Step, Enabled;
    RunStep(r, all);
    StepStartWrite(r, data);
    Started(r, data);
    if |r.sent| - |r.received| + |data| < r.n {
      WriteOn(Step(r, all[0]), es);
    } else {
      NoStart(es, |data|, true);
      NothingWritten(r, es);
    }
  }

  lemma Started(r: Ring, data: seq<byte>)
    requires Safe(r) && r.writer.Idle?
    ensures |r.sent| - |r.received| + |data| < r.n ==>
              && Step(r, StartWrite(data)).writer == Writing(r.head, data, 0)
              && Step(r, StartWrite(data)).sent == r.sent
  {
    UsageIs(|r.sent|, |r.received|, r.n);
  }

  lemma {:induction false} NoStart(es: seq<Event>, k: nat, writer: bool)
    requires Side(es, writer) == Left(k, writer)
    ensures forall e | e in es :: if writer then !e.StartWrite? else !e.StartRead?
  {
    SideHas(es, writer);
    NoneStarts(k, writer);
  }

  lemma {:induction false} SideHas(es: seq<Event>, writer: bool)
    ensures forall e | e in es && ByWriter(e) == writer :: e in Side(es, writer)
    decreases |es|
  {
    if es != [] {
      SideHas(es[1..], writer);
      assert es == [es[0]] + es[1..];
    }
  }

  lemma {:induction false} NoneStarts(k: nat, writer: bool)
    ensures forall e | e in Left(k, writer) :: !e.StartWrite? && !e.StartRead?
    decreases k
  {
    if k > 0 { NoneStarts(k - 1, writer); }
  }

  lemma {:induction false} NothingRead(r: Ring, es: seq<Event>)
    requires Safe(r) && (Side(es, false) == [] || (r.reader.Quiet? && forall e | e in es :: !e.StartRead?))
    ensures Run(r, es).received == r.received && Run(r, es).reader == r.reader
    decreases |es|
  {
    SafeShape(r);
    hide Step, Safe;
    if es != [] {
      SideStep(es, false);
      if Enabled(r, es[0]) {
        StepSafe(r, es[0]);
        OtherSide(r, es[0]);
        NothingRead(Step(r, es[0]), es[1..]);
      } else {
        NothingRead(r, es[1..]);
      }
    }
  }

  lemma {:induction false} ReadOn(r: Ring, es: seq<Event>)
    requires Safe(r) && r.reader.Reading? && |r.reader.got| <= r.reader.want
    requires Side(es, false) == Left(r.reader.want - |r.reader.got|, false)
    ensures |Run(r, es).received| == |r.received| + r.reader.want && Run(r, es).reader.Quiet?
    decreases |es|
  {
    SafeShape(r);
    hide *;
    var k := r.reader.want - |r.reader.got|;
    SideMatches(es, k, false);
    RunStep(r, es);
    ReaderNext(r, es[0], k);
    var r' := After(r, es[0]);
    if !ByWriter(es[0]) && k == 0 {
      NothingRead(r', es[1..]);
    } else {
      ReadOn(r', es[1..]);
    }
  }

  lemma ReadLength(r: Ring, size: nat, es: seq<Event>)
    requires Safe(r) && r.reader.Quiet? && |r.received| <= |r.sent|
    requires Side(es, false) == Left(Lesser(size, |r.sent| - |r.received|), false)
    ensures |Run(r, [StartRead(size)] + es).received| == |r.received| + Lesser(size, |r.sent| - |r.received|)
  {
    SafeShape(r);
    var all := [StartRead(size)] + es;
    assert all[1..] == es && Enabled(r, all[0]);
    hide Safe, Side, Left, Run, Step, Enabled;
    RunStep(r, all);
    StepStartRead(r, size);
    StepSent(r, all[0]);
    if |r.sent| > |r.received| {
      ReadOn(Step(r, all[0]), es);
    } else {
      NoStart(es, 0, false);
      NothingRead(r, es);
    }
  }

  function Lesser(a: nat, b: nat): nat { if a < b then a else b }

  /** A reader gets the next bytes, as many as it asked for or were there when it started, whatever the writer does. */
  lemma ReadGoesThrough(r: Ring, size: nat, es: seq<Event>)
    requires Safe(r) && r.reader.Quiet? && |r.received| <= |r.sent|
    requires Side(es, false) == Left(Lesser(size, |r.sent| - |r.received|), false)
    ensures Run(r, [StartRead(size)] + es).received
         == r.sent[..|r.received| + Lesser(size, |r.sent| - |r.received|)]
  {
    SafeShape(r);
    hide Safe, Side, Left, Run;
    var all := [StartRead(size)] + es;
    ReadLength(r, size, es);
    RunSafe(r, all);
    PrefixesAgree(Run(r, all).received, Run(r, all).sent, r.sent);
  }

  lemma SliceNext(a: seq<byte>, b: seq<byte>, i: nat, j: nat)
    requires a <= b && i <= j < |a|
    ensures a[i..j] + [a[j]] == b[i..j + 1]
  {
  }

  lemma PrefixesAgree(a: seq<byte>, b: seq<byte>, c: seq<byte>)
    requires a <= b && c <= b
    ensures |a| <= |c| ==> a == c[..|a|]
  {
  }

  // ---- The code, with the peer at work between any two of its accesses ----

  /** One direction of the terminal. */
  class Channel {
    const n: nat
    const buf: array<byte>
    var head: nat
    var tail: nat
    ghost var sent: seq<byte>
    ghost var received: seq<byte>

    /** `extra` has been copied in behind the published bytes. */
    ghost predicate Carries(extra: seq<byte>)
      reads this, buf
    {
      && n > 0 && buf.Length == n
      && Holds(buf[..], n, sent, received, extra)
      && head == At(|sent|, n) && tail == At(|received|, n)
    }

    constructor (n: nat)
      requires n > 0
      ensures Carries([]) && fresh(buf) && this.n == n && sent == [] && received == []
    {
      this.n, buf, head, tail, sent, received := n, new byte[n](_ => 0), 0, 0, [], [];
      new;
      ModSmall(0, n);
    }

    /** The peer reads up to `k` of the published bytes. */
    method PeerReads(k: nat, ghost extra: seq<byte>)
      requires Carries(extra)
      modifies this`tail, this`received
      ensures Carries(extra) && old(received) <= received
    {
      hide Holds, At;
      Bounds(extra);
      UsageIs(|sent|, |received|, n);
      var avail := if head < tail then head - tail + n else head - tail;
      var m := if k < avail then k else avail;
      HoldsTaken(buf[..], n, sent, received, extra, m);
      tail := At(tail + m, n);
      received := sent[..|received| + m];
    }

    /** All or nothing: either the whole block is published, or there was no room for it. */
    method Tx(data: seq<byte>, peer: nat -> nat) returns (size: nat)
      requires Carries([])
      modifies this`head, this`tail, this`sent, this`received, buf
      ensures Carries([]) && old(received) <= received <= sent
      ensures if |old(sent)| - |old(received)| + |data| < n
              then size == |data| && sent == old(sent) + data
              else size == 0 && sent == old(sent)
    {
      hide Holds, At;
      Bounds([]);
      UsageIs(|sent|, |received|, n);
      var tail0 := tail;
      PeerReads(peer(0), []);
      var head0 := head;
      PeerReads(peer(1), []);
      var usage := head0 - tail0;
      if usage < 0 { usage := usage + n; }
      if usage + |data| >= n { Bounds([]); return 0; }
      var firstChunk := if head0 + |data| >= n then n - head0 else |data|;
      CopyIn(data, head0, firstChunk, peer);
      HoldsPublished(buf[..], n, sent, received, data);
      head := At(head0 + |data|, n);
      sent := sent + data;
      Bounds([]);
      size := |data|;
    }

    lemma Bounds(extra: seq<byte>)
      requires Carries(extra)
      ensures |received| <= |sent| && |sent| + |extra| < |received| + n && received <= sent
    {
    }

    /** The two block copies, with the peer reading between any two bytes. */
    method CopyIn(data: seq<byte>, head0: nat, firstChunk: nat, peer: nat -> nat)
      requires Carries([]) && head0 == head && |sent| - |received| + |data| < n
      requires firstChunk == if head0 + |data| >= n then n - head0 else |data|
      modifies this`tail, this`received, buf
      ensures Carries(data) && old(received) <= received
    {
      hide Holds, At;
      for j := 0 to |data|
        invariant Carries(data[..j]) && old(received) <= received
      {
        Bounds(data[..j]);
        ChunkedIs(|sent|, |data|, j, n);
        var at := if j < firstChunk then head0 + j else j - firstChunk;
        HoldsMore(buf[..], n, sent, received, data[..j], data[j]);
        ghost var was := buf[..];
        buf[at] := data[j];
        assert buf[..] == was[at := data[j]];
        assert data[..j + 1] == data[..j] + [data[j]];
        PeerReads(peer(2 + j), data[..j + 1]);
      }
      assert data[..|data|] == data;
    }

    /** The peer publishes a block if it fits, else nothing. */
    method PeerWrites(data: seq<byte>)
      requires Carries([])
      modifies this`head, this`sent, buf
      ensures Carries([]) && old(sent) <= sent
    {
      hide Holds, At;
      Bounds([]);
      UsageIs(|sent|, |received|, n);
      var usage := if head < tail then head - tail + n else head - tail;
      if usage + |data| < n {
        for j := 0 to |data|
          invariant Carries(data[..j]) && sent == old(sent) && head == old(head)
        {
          Advance(|sent|, j, n);
          HoldsMore(buf[..], n, sent, received, data[..j], data[j]);
          ghost var was := buf[..];
          buf[At(head + j, n)] := data[j];
          assert buf[..] == was[At(|sent| + j, n) := data[j]];
          assert data[..j + 1] == data[..j] + [data[j]];
        }
        assert data[..|data|] == data;
        HoldsPublished(buf[..], n, sent, received, data);
        head := At(head + |data|, n);
        sent := sent + data;
      }
    }

    /** Take as much as was there when the head was read, up to `size`. */
    method Rx(size: nat, peer: nat -> seq<byte>) returns (out: seq<byte>, ghost avail: nat)
      requires Carries([])
      modifies this`head, this`tail, this`sent, this`received, buf
      ensures Carries([]) && received == old(received) + out && received <= sent && old(sent) <= sent
      ensures |old(sent)| - |old(received)| <= avail <= |sent| - |old(received)|
      ensures |out| == if size < avail then size else avail
    {
      hide Holds, At, ReadSize;
      var tail0 := tail;
      PeerWrites(peer(0));
      var head0 := head;
      Bounds([]);
      avail := |sent| - |received|;
      UsageIs(|sent|, |received|, n);
      ReadSizeIs(|sent|, |received|, size, n);
      PeerWrites(peer(1));
      out := [];
      if head0 == tail0 { Bounds([]); return; }
      out := CopyOut(tail0, ReadSize(head0, tail0, size, n), peer);
      Release(tail0, out);
      Bounds([]);
    }

    /** Move the tail past what was copied. */
    method Release(tail0: nat, out: seq<byte>)
      requires Carries([]) && tail0 == tail && |received| + |out| <= |sent|
      requires out == sent[|received|..|received| + |out|]
      modifies this`tail, this`received
      ensures Carries([]) && received == old(received) + out
    {
      hide Holds, At;
      Bounds([]);
      HoldsTaken(buf[..], n, sent, received, [], |out|);
      assert received + out == sent[..|received| + |out|];
      tail := At(tail0 + |out|, n);
      received := received + out;
    }

    /** The block copies out of the ring, with the peer writing between any two bytes. */
    method CopyOut(tail0: nat, want: nat, peer: nat -> seq<byte>) returns (out: seq<byte>)
      requires Carries([]) && tail0 == tail && |received| + want <= |sent|
      modifies this`head, this`sent, buf
      ensures Carries([]) && old(sent) <= sent && |received| + want <= |sent|
      ensures out == sent[|received|..|received| + want]
    {
      hide Holds, At;
      out := [];
      var firstChunk := if tail0 + want >= n then n - tail0 else want;
      for j := 0 to want
        invariant Carries([]) && old(sent) <= sent && |received| + want <= |sent|
        invariant out == sent[|received|..|received| + j]
      {
        Bounds([]);
        ChunkedIs(|received|, want, j, n);
        Stored(|received| + j);
        var at := if j < firstChunk then tail0 + j else j - firstChunk;
        out := out + [buf[at]];
        ghost var had := sent;
        PeerWrites(peer(2 + j));
        SliceNext(had, sent, |received|, |received| + j);
      }
    }

    lemma Stored(i: nat)
      requires Carries([]) && |received| <= i < |sent|
      ensures buf[At(i, n)] == sent[i]
    {
    }

    /** How much is waiting. */
    method Avail() returns (available: int)
      requires Carries([])
      ensures available == |sent| - |received|
    {
      UsageIs(|sent|, |received|, n);
      available := head - tail;
      if available < 0 { available := available + n; }
    }
  }
}
