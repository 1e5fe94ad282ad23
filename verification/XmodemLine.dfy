/** The receiver's code on the byte line: prompting, hunting for a frame, reading it and answering. */
module XmodemLine {
  import opened Xmodem

  const RETRIES := 160

  /** A frame that was read completely, or one that broke off; each with the position of its first byte. */
  datatype Event = Complete(at: nat, frame: Frame) | Broken(at: nat)

  /** The results of the byte reads from `i` to `j` are all bytes, namely these. */
  ghost predicate BytesAt(incoming: seq<int>, i: nat, bytes: seq<bv8>) {
    && i + |bytes| <= |incoming|
    && forall k | 0 <= k < |bytes| :: 0 <= incoming[i + k] < 256 && incoming[i + k] as bv8 == bytes[k]
  }

  /** The event is what the line holds at its position. */
  ghost predicate OnLine(incoming: seq<int>, e: Event) {
    && e.at < |incoming| && (incoming[e.at] == 1 || incoming[e.at] == 2)
    && (e.Complete? ==>
          && e.frame.size == (if incoming[e.at] == 1 then 128 else 1024)
          && BytesAt(incoming, e.at + 1, [e.frame.no, e.frame.inverse] + e.frame.body))
  }

  /** Events as found on the line, in order, none of them beyond `upto`. */
  ghost predicate Logged(incoming: seq<int>, log: seq<Event>, upto: nat) {
    && (forall i | 0 <= i < |log| :: OnLine(incoming, log[i]) && log[i].at < upto)
    && (forall i, j | 0 <= i < j < |log| :: log[i].at < log[j].at)
  }

  predicate Sized(crc: bool, log: seq<Event>) {
    forall i | 0 <= i < |log| :: log[i].Complete? ==> WellSized(crc, log[i].frame)
  }

  function Answer(reply: Reply): seq<bv8> {
    match reply
    case Ack => [ACK]
    case Nak => [NAK]
    case Cancel => [CAN, CAN, CAN]
  }

  /** The receiver's state and its answers after the events of a log. */
  function Replay(destsz: nat, crc: bool, log: seq<Event>): (o: (Receiver, seq<bv8>))
    requires Sized(crc, log)
    ensures o.0.len <= destsz
  {
    if log == [] then (Start(), [])
    else
      var (r, answers) := Replay(destsz, crc, log[..|log| - 1]);
      match log[|log| - 1]
      case Broken(_) => (r, answers + Answer(Nak))
      case Complete(_, f) =>
        var (r', reply) := OnFrame(r, destsz, crc, f);
        (r', answers + Answer(reply))
  }

  lemma ReplayNext(destsz: nat, crc: bool, log: seq<Event>, e: Event)
    requires Sized(crc, log) && (e.Complete? ==> WellSized(crc, e.frame))
    ensures Sized(crc, log + [e])
    ensures var (r, answers) := Replay(destsz, crc, log);
      Replay(destsz, crc, log + [e]) ==
        match e
        case Broken(_) => (r, answers + Answer(Nak))
        case Complete(_, f) => (OnFrame(r, destsz, crc, f).0, answers + Answer(OnFrame(r, destsz, crc, f).1))
  {
    hide OnFrame;
    assert (log + [e])[..|log|] == log;
  }

  lemma AbortedStays(r: Receiver, destsz: nat, crc: bool, f: Frame)
    requires r.len <= destsz && WellSized(crc, f)
    ensures r.aborted ==> OnFrame(r, destsz, crc, f).0.aborted
    ensures !r.aborted ==> (OnFrame(r, destsz, crc, f).0.aborted <==> OnFrame(r, destsz, crc, f).1 == Cancel)
  {
    hide Intact, Expected;
  }

  /** The answers up to some frame, in byte values. */
  lemma {:induction false} AnswersAre(destsz: nat, crc: bool, log: seq<Event>)
    requires Sized(crc, log) && !Replay(destsz, crc, log).0.aborted
    ensures Answering(destsz, crc, log, Replay(destsz, crc, log).1, false)
    decreases |log|
  {
    hide OnFrame, Right, WellSized;
    if log != [] {
      var n := |log| - 1;
      var r := Replay(destsz, crc, log[..n]).0;
      ReplayNext(destsz, crc, log[..n], log[n]);
      assert log[..n] + [log[n]] == log;
      if log[n].Complete? {
        AbortedStays(r, destsz, crc, log[n].frame);
        RefusedIff(r, destsz, crc, log[n].frame);
      }
      AnswersAre(destsz, crc, log[..n]);
      forall i | 0 <= i < n ensures Good(destsz, crc, log[..n], i) <==> Good(destsz, crc, log, i) {
        assert log[..n][..i] == log[..i];
      }
    }
  }

  /** And with the frame that was one too many. */
  lemma AnswersEnd(destsz: nat, crc: bool, log: seq<Event>, e: Event)
    requires Sized(crc, log) && !Replay(destsz, crc, log).0.aborted && (e.Complete? ==> WellSized(crc, e.frame))
    requires Sized(crc, log + [e]) && Replay(destsz, crc, log + [e]).0.aborted
    ensures Answering(destsz, crc, log + [e], Replay(destsz, crc, log + [e]).1, true)
    ensures var answers := Replay(destsz, crc, log + [e]).1;
      |answers| >= 3 && answers[|answers| - 3..] == [0x18, 0x18, 0x18]
  {
    hide OnFrame, Right, WellSized, Replay;
    var r, all := Replay(destsz, crc, log).0, log + [e];
    ReplayNext(destsz, crc, log, e);
    AnswersAre(destsz, crc, log);
    if e.Complete? {
      AbortedStays(r, destsz, crc, e.frame);
      RefusedIff(r, destsz, crc, e.frame);
    }
    assert all[..|log|] == log;
    forall i | 0 <= i < |log| ensures Good(destsz, crc, log, i) <==> Good(destsz, crc, all, i) {
      assert all[..i] == log[..i];
    }
  }

  lemma AnswersLast(destsz: nat, crc: bool, log: seq<Event>)
    requires log != [] && Sized(crc, log) && Replay(destsz, crc, log).0.aborted
    requires Sized(crc, log[..|log| - 1]) && !Replay(destsz, crc, log[..|log| - 1]).0.aborted
    ensures var answers := Replay(destsz, crc, log).1;
      && Answering(destsz, crc, log, answers, true)
      && |answers| >= 3 && answers[|answers| - 3..] == [0x18, 0x18, 0x18]
  {
    hide Replay, Answering, WellSized;
    assert log[..|log| - 1] + [log[|log| - 1]] == log;
    AnswersEnd(destsz, crc, log[..|log| - 1], log[|log| - 1]);
  }

  // ---- What reading does, as functions of the line ----

  datatype Hunt = Begin(size: nat) | EndOfText | Cancelled | TimedOut

  /** One read: a byte or a timeout, and where the line is afterwards. */
  function Got(incoming: seq<int>, at: nat): (int, nat) {
    if at < |incoming| then (incoming[at], at + 1) else (-1, at)
  }

  /** Where reading on until a timeout ends. */
  function Flushed(incoming: seq<int>, at: nat): (r: nat)
    ensures at <= r && (at <= |incoming| ==> r <= |incoming|)
    decreases |incoming| - at
  {
    if at < |incoming| && incoming[at] >= 0 then Flushed(incoming, at + 1) else Got(incoming, at).1
  }

  lemma NoPrompts(c: bv8)
    ensures Prompts(c, 0) == []
  {
  }

  /** One prompt a try, unless there is nothing to prompt with. */
  lemma {:induction false} PromptsAre(c: bv8, tries: nat)
    ensures c == 0 ==> Prompts(c, tries) == []
    ensures c != 0 ==> Prompts(c, tries) == seq(tries, _ => c)
    decreases tries
  {
    if tries > 0 { PromptsAre(c, tries - 1); }
  }

  /** Everything up to the timeout is gone, and nothing behind it. */
  lemma {:induction false} FlushedMeans(incoming: seq<int>, at: nat)
    requires at <= |incoming|
    ensures var r := Flushed(incoming, at);
      && at <= r <= |incoming|
      && (r == |incoming| || (r > at && incoming[r - 1] < 0))
      && forall k | at <= k < r - 1 :: incoming[k] >= 0
    decreases |incoming| - at
  {
    if at < |incoming| && incoming[at] >= 0 { FlushedMeans(incoming, at + 1); }
  }

  lemma FlushedStep(incoming: seq<int>, at: nat)
    ensures var g := Got(incoming, at);
      Flushed(incoming, at) == if g.0 >= 0 then Flushed(incoming, g.1) else g.1
  {
  }

  predicate Opens(c: int) { c == 1 || c == 2 || c == 4 }

  function Opened(c: int): Hunt { if c == 1 then Begin(128) else if c == 2 then Begin(1024) else EndOfText }

  /** What a number of tries finds, where that leaves the line, and how many tries it took. */
  datatype Found = Found(h: Hunt, at: nat, tries: nat)

  function OneMore(f: Found): Found { f.(tries := f.tries + 1) }

  function Hunted(incoming: seq<int>, at: nat, tries: nat): Found
    decreases tries
  {
    if tries == 0 then Found(TimedOut, at, 0)
    else
      var (c, at1) := Got(incoming, at);
      if Opens(c) then Found(Opened(c), at1, 1)
      else if c != 0x18 then OneMore(Hunted(incoming, at1, tries - 1))
      else
        var (c2, at2) := Got(incoming, at1);
        if c2 == 0x18 then Found(Cancelled, at2, 1) else OneMore(Hunted(incoming, at2, tries - 1))
  }

  /** The last try, or one try and then the rest. */
  lemma HuntedStep(incoming: seq<int>, at: nat, tries: nat)
    ensures var f, g := Hunted(incoming, at, tries), Got(incoming, at);
      && (tries == 0 ==> f == Found(TimedOut, at, 0))
      && (tries > 0 && Opens(g.0) ==> f == Found(Opened(g.0), g.1, 1))
      && (tries > 0 && !Opens(g.0) && g.0 != 0x18 ==> f == OneMore(Hunted(incoming, g.1, tries - 1)))
      && (tries > 0 && g.0 == 0x18 ==>
            var g2 := Got(incoming, g.1);
            f == if g2.0 == 0x18 then Found(Cancelled, g2.1, 1) else OneMore(Hunted(incoming, g2.1, tries - 1)))
  {
  }

  /** What was found is on the line. */
  lemma {:induction false} HuntedMeans(incoming: seq<int>, at: nat, tries: nat)
    requires at <= |incoming|
    ensures var f := Hunted(incoming, at, tries);
      && at <= f.at <= |incoming| && f.tries <= tries
      && (f.h.Begin? ==> f.at > at && (f.h.size == 128 || f.h.size == 1024)
                         && incoming[f.at - 1] == if f.h.size == 128 then 1 else 2)
      && (f.h == EndOfText ==> f.at > at && incoming[f.at - 1] == 4)
      && (f.h == Cancelled ==> f.at > at + 1 && incoming[f.at - 1] == incoming[f.at - 2] == 0x18)
    decreases tries
  {
    if tries > 0 {
      var (c, at1) := Got(incoming, at);
      if c == 0x18 {
        HuntedMeans(incoming, Got(incoming, at1).1, tries - 1);
      } else {
        HuntedMeans(incoming, at1, tries - 1);
      }
    }
  }

  /** Timeouts, and bytes that mean nothing here. */
  ghost predicate Noise(incoming: seq<int>, i: nat, j: nat) {
    i <= j <= |incoming| && forall k | i <= k < j :: incoming[k] !in {1, 2, 4, 0x18}
  }

  /** Each of them costs one try. */
  lemma {:induction false} HuntedPast(incoming: seq<int>, at: nat, next: nat, tries: nat)
    requires Noise(incoming, at, next) && next <= at + tries
    ensures var f := Hunted(incoming, next, tries - (next - at));
      Hunted(incoming, at, tries) == f.(tries := f.tries + (next - at))
    decreases next - at
  {
    if at < next {
      hide Hunted;
      HuntedStep(incoming, at, tries);
      HuntedPast(incoming, at + 1, next, tries - 1);
    }
  }

  /** A first byte or an end of text that comes before the patience ends is not missed. */
  lemma HuntedOpens(incoming: seq<int>, at: nat, next: nat, tries: nat)
    requires Noise(incoming, at, next) && next < at + tries && next < |incoming| && incoming[next] in {1, 2, 4}
    ensures var h := if incoming[next] == 1 then Begin(128) else if incoming[next] == 2 then Begin(1024) else EndOfText;
      Hunted(incoming, at, tries) == Found(h, next + 1, next + 1 - at)
  {
    hide Hunted;
    HuntedPast(incoming, at, next, tries);
    HuntedStep(incoming, next, tries - (next - at));
  }

  /** A cancel ends the hunt if another follows at once, and else costs a try together with what follows it. */
  lemma HuntedCancels(incoming: seq<int>, at: nat, next: nat, tries: nat)
    requires Noise(incoming, at, next) && next < at + tries && next < |incoming| && incoming[next] == 0x18
    ensures var f, n := Hunted(incoming, at, tries), next + 1 - at;
      if next + 1 < |incoming| && incoming[next + 1] == 0x18 then f == Found(Cancelled, next + 2, n)
      else
        var g := Hunted(incoming, if next + 1 < |incoming| then next + 2 else next + 1, tries - n);
        f == g.(tries := g.tries + n)
  {
    hide Hunted;
    HuntedPast(incoming, at, next, tries);
    HuntedStep(incoming, next, tries - (next - at));
  }

  /** Where nothing comes in all the tries, the hunt fails after all of them. */
  lemma {:induction false} HuntedFails(incoming: seq<int>, at: nat, tries: nat)
    requires at <= |incoming|
    requires Noise(incoming, at, if at + tries < |incoming| then at + tries else |incoming|)
    ensures Hunted(incoming, at, tries)
         == Found(TimedOut, if at + tries < |incoming| then at + tries else |incoming|, tries)
    decreases tries
  {
    hide Hunted;
    HuntedStep(incoming, at, tries);
    if tries > 0 { HuntedFails(incoming, if at < |incoming| then at + 1 else at, tries - 1); }
  }

  /** A failed hunt used all its tries. */
  lemma {:induction false} HuntedOut(incoming: seq<int>, at: nat, tries: nat)
    ensures var f := Hunted(incoming, at, tries);
      f.tries <= tries && (f.h.TimedOut? ==> f.tries == tries) && (!f.h.TimedOut? ==> f.tries > 0)
    decreases tries
  {
    hide Hunted;
    HuntedStep(incoming, at, tries);
    var g := Got(incoming, at);
    if tries > 0 {
      HuntedOut(incoming, g.1, tries - 1);
      HuntedOut(incoming, Got(incoming, g.1).1, tries - 1);
    }
  }

  /** The reads from `at` on are `n` bytes. */
  ghost predicate AllBytes(incoming: seq<int>, at: nat, n: nat) {
    at + n <= |incoming| && forall k | at <= k < at + n :: incoming[k] >= 0
  }

  /** After a refusal or cancellation, what is still coming in is discarded. */
  function Settled(incoming: seq<int>, reply: Reply, at: nat): (r: nat)
    ensures at <= r && (at <= |incoming| ==> r <= |incoming|)
  {
    if reply == Ack then at else Flushed(incoming, at)
  }

  /** What is sent in a number of tries: nothing once a frame has been seen. */
  function Prompts(c: bv8, tries: nat): seq<bv8> {
    if c == 0 || tries == 0 then [] else Prompts(c, tries - 1) + [c]
  }

  /** One prompt a try: 0x43 in a first round of 160 tries, and if that fails 0x15 in a second; none later. */
  ghost predicate Prompting(incoming: seq<int>, prompts: seq<bv8>) {
    var f := Hunted(incoming, 0, 160);
    var g := Hunted(incoming, f.at, 160);
    prompts == seq(f.tries, _ => 0x43) + if f.h.TimedOut? then seq(g.tries, _ => 0x15) else []
  }

  /** A frame that is complete and right. */
  ghost predicate Good(destsz: nat, crc: bool, log: seq<Event>, i: nat)
    requires Sized(crc, log) && i < |log|
  {
    log[i].Complete? && Right(crc, Replay(destsz, crc, log[..i]).0, log[i].frame)
  }

  /** One answer a frame: 0x06 if it is good, else 0x15; and three times 0x18 to the last one if too many came. */
  ghost predicate Answering(destsz: nat, crc: bool, log: seq<Event>, answers: seq<bv8>, tooMany: bool)
    requires Sized(crc, log)
  {
    && (tooMany ==> log != [] && Good(destsz, crc, log, |log| - 1))
    && |answers| == |log| + (if tooMany then 2 else 0)
    && (forall i | 0 <= i < |log| - (if tooMany then 1 else 0) ::
          answers[i] == if Good(destsz, crc, log, i) then 0x06 else 0x15)
    && (tooMany ==> answers[|log| - 1..] == [0x18, 0x18, 0x18])
  }

  /** Reading has come to a timeout, or to the end of the line. */
  predicate Drained(incoming: seq<int>, at: nat) {
    at == |incoming| || (0 < at < |incoming| && incoming[at - 1] < 0)
  }

  /** A good frame leaves the line right behind it, and any other one drained. */
  ghost predicate Stopping(incoming: seq<int>, destsz: nat, crc: bool, log: seq<Event>, stops: seq<nat>, tooMany: bool)
    requires Sized(crc, log)
  {
    && |stops| == |log| + 1
    && forall i | 0 <= i < |log| ::
         if Good(destsz, crc, log, i) && !(tooMany && i == |log| - 1)
         then stops[i + 1] == log[i].at + 3 + |log[i].frame.body|
         else Drained(incoming, stops[i + 1])
  }

  lemma StopAt(incoming: seq<int>, destsz: nat, crc: bool, r: Receiver, from: nat, e: Event, to: nat)
    requires r.len <= destsz && (e.Complete? ==> WellSized(crc, e.frame))
    requires Turn(incoming, destsz, crc, r, from, e, to)
    ensures if e.Complete? && OnFrame(r, destsz, crc, e.frame).1 == Ack then to == e.at + 3 + |e.frame.body|
            else Drained(incoming, to)
  {
    hide OnFrame, Hunted, AllBytes, Flushed;
    if e.Broken? {
      FlushedMeans(incoming, e.at + 1);
      FlushedMeans(incoming, Flushed(incoming, e.at + 1));
    } else {
      FlushedMeans(incoming, e.at + 3 + |e.frame.body|);
    }
  }

  /** Where the receiver stopped, frame by frame. */
  lemma StopsAre(incoming: seq<int>, destsz: nat, crc: bool, log: seq<Event>, stops: seq<nat>)
    requires Sized(crc, log) && Traced(incoming, destsz, crc, log, stops)
    requires log != [] ==> Sized(crc, log[..|log| - 1]) && !Replay(destsz, crc, log[..|log| - 1]).0.aborted
    ensures Stopping(incoming, destsz, crc, log, stops, Replay(destsz, crc, log).0.aborted)
  {
    hide OnFrame, Right, Turn;
    forall i | 0 <= i < |log|
      ensures if Good(destsz, crc, log, i) && !(Replay(destsz, crc, log).0.aborted && i == |log| - 1)
              then stops[i + 1] == log[i].at + 3 + |log[i].frame.body| else Drained(incoming, stops[i + 1])
    {
      hide Replay, Drained;
      var r := Replay(destsz, crc, log[..i]).0;
      assert Turn(incoming, destsz, crc, r, stops[i], log[i], stops[i + 1]);
      StopAt(incoming, destsz, crc, r, stops[i], log[i], stops[i + 1]);
      if log[i].Complete? { RefusedIff(r, destsz, crc, log[i].frame); }
      NotYet(destsz, crc, log, i);
    }
  }

  /** Only the last frame can have been one too many. */
  lemma NotYet(destsz: nat, crc: bool, log: seq<Event>, i: nat)
    requires i < |log| && Sized(crc, log) && Sized(crc, log[..|log| - 1])
    requires !Replay(destsz, crc, log[..|log| - 1]).0.aborted
    ensures Sized(crc, log[..i])
    ensures var r := Replay(destsz, crc, log[..i]).0;
      log[i].Complete? ==>
        (OnFrame(r, destsz, crc, log[i].frame).1 == Cancel <==> i == |log| - 1 && Replay(destsz, crc, log).0.aborted)
  {
    hide OnFrame, WellSized, Replay;
    StaysAborted(destsz, crc, log[..|log| - 1], i);
    assert log[..|log| - 1][..i] == log[..i] && log[..i] + [log[i]] == log[..i + 1];
    ReplayNext(destsz, crc, log[..i], log[i]);
    if log[i].Complete? { AbortedStays(Replay(destsz, crc, log[..i]).0, destsz, crc, log[i].frame); }
    if i < |log| - 1 {
      StaysAborted(destsz, crc, log[..|log| - 1], i + 1);
      assert log[..|log| - 1][..i + 1] == log[..i + 1];
    } else {
      assert log[..i + 1] == log;
    }
  }

  lemma {:induction false} StaysAborted(destsz: nat, crc: bool, log: seq<Event>, i: nat)
    requires i <= |log| && Sized(crc, log) && !Replay(destsz, crc, log).0.aborted
    ensures Sized(crc, log[..i]) && !Replay(destsz, crc, log[..i]).0.aborted
    decreases |log| - i
  {
    hide OnFrame, WellSized, Replay;
    if i == |log| {
      assert log[..i] == log;
    } else {
      StaysAborted(destsz, crc, log, i + 1);
      assert log[..i] + [log[i]] == log[..i + 1];
      ReplayNext(destsz, crc, log[..i], log[i]);
      if log[i].Complete? { AbortedStays(Replay(destsz, crc, log[..i]).0, destsz, crc, log[i].frame); }
    }
  }

  /** How far the prompting has come when a hunt begins. */
  ghost predicate Prompted(incoming: seq<int>, trychar: bv8, prompts: seq<bv8>, at: nat) {
    var f := Hunted(incoming, 0, 160);
    if trychar == 0 then Prompting(incoming, prompts)
    else if trychar == 0x43 then prompts == [] && at == 0
    else trychar == 0x15 && f.h.TimedOut? && prompts == seq(f.tries, _ => 0x43) && at == f.at
  }

  lemma FirstPrompt(incoming: seq<int>)
    ensures Prompted(incoming, 0x43, [], 0)
    ensures forall prompts, at :: Prompting(incoming, prompts) ==> Prompted(incoming, 0, prompts, at)
  {
  }

  lemma PromptedOn(incoming: seq<int>, trychar: bv8, before: seq<bv8>, prompts: seq<bv8>, at: nat)
    requires Prompted(incoming, trychar, before, at)
    requires var f := Hunted(incoming, at, 160);
      prompts == before + if trychar == 0 then [] else seq(f.tries, _ => trychar)
    ensures var f := Hunted(incoming, at, 160);
      if f.h.TimedOut? && trychar == 0x43 then Prompted(incoming, 0x15, prompts, f.at)
      else Prompting(incoming, prompts)
  {
    hide Hunted;
  }

  class Line {
    /** Results of successive reads: a byte, or negative for a timeout; afterwards only timeouts. */
    const incoming: seq<int>
    var at: nat
    var sent: seq<bv8>
    var written: seq<bv8>
    /** What was sent, split into prompts before the first frame and answers to frames. */
    ghost var prompts: seq<bv8>
    ghost var answers: seq<bv8>

    predicate Valid()
      reads this`at
    {
      at <= |incoming| && forall i | 0 <= i < |incoming| :: -1 <= incoming[i] < 256
    }

    constructor (incoming: seq<int>)
      requires forall i | 0 <= i < |incoming| :: -1 <= incoming[i] < 256
      ensures Valid() && this.incoming == incoming && at == 0 && sent == [] && written == []
    {
      this.incoming, at, sent, written, prompts, answers := incoming, 0, [], [], [], [];
    }

    method TryGetc() returns (c: int)
      requires Valid()
      modifies this`at
      ensures Valid() && -1 <= c < 256 && (c, at) == Got(incoming, old(at))
    {
      if at < |incoming| {
        c := incoming[at];
        at := at + 1;
      } else {
        c := -1;
      }
    }

    method FlushInput()
      requires Valid()
      modifies this`at
      ensures Valid() && at == Flushed(incoming, old(at))
    {
      var c := TryGetc();
      while c >= 0
        invariant Valid() && -1 <= c < 256 && Flushed(incoming, old(at)) == if c >= 0 then Flushed(incoming, at) else at
        decreases |incoming| - at, c
      {
        c := TryGetc();
      }
    }

    method Putchar(c: bv8)
      modifies this`sent
      ensures sent == old(sent) + [c]
    {
      sent := sent + [c];
    }

    method GiveUp()
      requires Valid()
      modifies this`at, this`sent
      ensures Valid() && at == Flushed(incoming, old(at)) && sent == old(sent) + [0x18, 0x18, 0x18]
    {
      FlushInput();
      Putchar(CAN);
      Putchar(CAN);
      Putchar(CAN);
    }

    method Prompt(trychar: bv8, ghost tries: nat, ghost before: seq<bv8>)
      requires sent == prompts + answers && (trychar != 0 ==> answers == [])
      requires prompts == before + Prompts(trychar, tries)
      modifies this`sent, this`prompts
      ensures sent == prompts + answers && prompts == before + Prompts(trychar, tries + 1)
    {
      if trychar != 0 {
        Putchar(trychar);
        prompts := prompts + [trychar];
      }
    }

    /** Prompt and look for the first byte of something, a number of times. */
    method HuntFrame(trychar: bv8) returns (h: Hunt)
      requires Valid() && sent == prompts + answers && (trychar != 0 ==> answers == [])
      modifies this`at, this`sent, this`prompts
      ensures Valid() && sent == prompts + answers
      ensures var f := Hunted(incoming, old(at), RETRIES);
        && h == f.h && at == f.at
        && prompts == old(prompts) + if trychar == 0 then [] else seq(f.tries, _ => trychar)
    {
      hide Hunted, Prompts;
      NoPrompts(trychar);
      PromptsAre(trychar, Hunted(incoming, at, RETRIES).tries);
      ghost var goal := Hunted(incoming, at, RETRIES);
      for retry := 0 to RETRIES
        invariant Valid() && sent == prompts + answers
        invariant prompts == old(prompts) + Prompts(trychar, retry)
        invariant var f := Hunted(incoming, at, RETRIES - retry);
          goal == Found(f.h, f.at, f.tries + retry)
      {
        HuntedStep(incoming, at, RETRIES - retry);
        Prompt(trychar, retry, old(prompts));
        var c := TryGetc();
        if c == 1 { return Begin(128); }
        if c == 2 { return Begin(1024); }
        if c == 4 { return EndOfText; }
        if c == 0x18 {
          c := TryGetc();
          if c == 0x18 { return Cancelled; }
        }
      }
      HuntedStep(incoming, at, 0);
      h := TimedOut;
    }

    /** Read `n` bytes, or fail at the first timeout. */
    method ReadBytes(n: nat) returns (ok: bool, bytes: seq<bv8>)
      requires Valid()
      modifies this`at
      ensures Valid() && (ok <==> AllBytes(incoming, old(at), n))
      ensures ok ==> |bytes| == n && BytesAt(incoming, old(at), bytes) && at == old(at) + n
      ensures !ok ==> at == Flushed(incoming, old(at))
    {
      hide Flushed;
      bytes := [];
      for i := 0 to n
        invariant Valid() && at == old(at) + i && |bytes| == i && BytesAt(incoming, old(at), bytes)
        invariant AllBytes(incoming, old(at), i) && Flushed(incoming, old(at)) == Flushed(incoming, at)
      {
        FlushedStep(incoming, at);
        var c := TryGetc();
        if c < 0 { return false, bytes; }
        bytes := bytes + [c as bv8];
      }
      ok := true;
    }

    /** Hand the writer as much of a new block as the destination still takes. */
    method WriteBlock(data: seq<bv8>, destsz: nat, len0: nat) returns (len: nat)
      requires len0 <= destsz
      modifies this`written
      ensures len == len0 + Room(len0, destsz, data) && written == old(written) + data[..Room(len0, destsz, data)]
    {
      len := len0;
      var count := destsz - len;
      if count > |data| { count := |data|; }
      if count > 0 {
        written := written + data[..count];
        len := len + count;
      }
    }

    /** Take a frame that is intact and expected: new data goes to the writer, and the answer is settled. */
    method Accept(f: Frame, crc: bool, destsz: nat, packetno0: bv8, len0: nat, retrans0: int)
      returns (packetno: bv8, len: nat, retrans: int, reply: Reply)
      requires WellSized(crc, f) && len0 <= destsz && Intact(crc, f) && Expected(packetno0, f.no)
      modifies this`written
      ensures (Receiver(packetno, len, retrans, written, reply == Cancel), reply)
           == OnFrame(Receiver(packetno0, len0, retrans0, old(written), false), destsz, crc, f)
    {
      hide Intact, OnFrame, Deliver, Room;
      ghost var r := Receiver(packetno0, len0, retrans0, written, false);
      packetno, len, retrans := packetno0, len0, retrans0;
      if f.no == packetno {
        OnNext(r, destsz, crc, f);
        DeliverIs(r, destsz, f.body[..f.size]);
        len := WriteBlock(f.body[..f.size], destsz, len);
        packetno := packetno + 1;
        retrans := MAXRETRANS + 1;
      } else {
        BackAgain(f.no, packetno);
        OnRepeat(r, destsz, crc, f);
      }
      retrans := retrans - 1;
      reply := if retrans <= 0 then Cancel else Ack;
    }

    /** Judge a complete frame. */
    method Judge(f: Frame, crc: bool, destsz: nat, packetno0: bv8, len0: nat, retrans0: int)
      returns (packetno: bv8, len: nat, retrans: int, reply: Reply)
      requires WellSized(crc, f) && len0 <= destsz
      modifies this`written
      ensures (Receiver(packetno, len, retrans, written, reply == Cancel), reply)
           == OnFrame(Receiver(packetno0, len0, retrans0, old(written), false), destsz, crc, f)
      ensures reply == Nak <==> !Right(crc, Receiver(packetno0, len0, retrans0, old(written), false), f)
    {
      hide Sound, OneLess, OnFrame, Expected, Right, Total, Crc16.Crc, Value, Inverted;
      RefusedIff(Receiver(packetno0, len0, retrans0, written, false), destsz, crc, f);
      packetno, len, retrans, reply := packetno0, len0, retrans0, Nak;
      var sound := Check(crc, f.body, f.size);
      OneBefore(f.no, packetno);
      if Inverted(f.no, f.inverse) && (f.no == packetno || OneLess(f.no, packetno)) && sound {
        packetno, len, retrans, reply := Accept(f, crc, destsz, packetno, len, retrans);
      } else {
        OnBad(Receiver(packetno0, len0, retrans0, written, false), destsz, crc, f);
      }
    }

    /** Send the answer to a frame. */
    method Respond(reply: Reply)
      requires Valid() && sent == prompts + answers
      modifies this`at, this`sent, this`answers
      ensures Valid() && at == Settled(incoming, reply, old(at))
      ensures sent == prompts + answers && answers == old(answers) + Answer(reply)
      ensures Answer(reply) == match reply case Ack => [0x06] case Nak => [0x15] case Cancel => [0x18, 0x18, 0x18]
    {
      match reply {
        case Ack => Putchar(ACK);
        case Nak => FlushInput(); Putchar(NAK);
        case Cancel => GiveUp();
      }
      answers := answers + Answer(reply);
    }

    /** Read the rest of a frame whose first byte has just been seen. */
    method ReadFrame(size: nat, crc: bool) returns (ok: bool, f: Frame)
      requires Valid() && at > 0 && (size == 128 || size == 1024)
      requires incoming[at - 1] == if size == 128 then 1 else 2
      modifies this`at
      ensures Valid() && (ok <==> AllBytes(incoming, old(at), size + TrailerSize(crc) + 2))
      ensures ok ==> Present(incoming, old(at) - 1, crc, f) && at == old(at) + 2 + |f.body|
      ensures !ok ==> at == Flushed(incoming, old(at))
    {
      var bytes;
      ok, bytes := ReadBytes(size + (if crc then 1 else 0) + 3);
      if !ok { return false, Frame(0, 0, [], 0); }
      f := Frame(bytes[0], bytes[1], bytes[2..], size);
      assert [f.no, f.inverse] + f.body == bytes;
    }

    /** Read such a frame and answer it. */
    method TakeFrame(size: nat, crc: bool, destsz: nat, packetno0: bv8, len0: nat, retrans0: int,
                     ghost log: seq<Event>)
      returns (packetno: bv8, len: nat, retrans: int, aborted: bool, ghost e: Event)
      requires Valid() && sent == prompts + answers && at > 0 && (size == 128 || size == 1024)
      requires incoming[at - 1] == if size == 128 then 1 else 2
      requires Sized(crc, log)
      requires Replay(destsz, crc, log) == (Receiver(packetno0, len0, retrans0, written, false), answers)
      modifies this`at, this`sent, this`written, this`answers
      ensures Valid() && sent == prompts + answers
      ensures e.at == old(at) - 1 && OnLine(incoming, e) && Sized(crc, log + [e])
      ensures e.Complete? ==> WellSized(crc, e.frame)
      ensures e.Complete? <==> AllBytes(incoming, old(at), size + TrailerSize(crc) + 2)
      ensures at == Ended(incoming, destsz, crc, Replay(destsz, crc, log).0, e)
      ensures Replay(destsz, crc, log + [e]) == (Receiver(packetno, len, retrans, written, aborted), answers)
    {
      hide Replay, Sized, OnFrame, Answer, Present, OnLine;
      e := Broken(at - 1);
      packetno, len, retrans, aborted := packetno0, len0, retrans0, false;
      var reply := Nak;
      StartSeen(incoming, at - 1);
      var ok, f := ReadFrame(size, crc);
      if ok {
        PresentIs(incoming, e.at, crc, f);
        e := Complete(e.at, f);
        packetno, len, retrans, reply := Judge(f, crc, destsz, packetno0, len0, retrans0);
        aborted := reply == Cancel;
      }
      ReplayNext(destsz, crc, log, e);
      Respond(reply);
    }

    /**
     * Receive a file. Whatever comes down the line, the bytes written, the answers given and the result are
     * those of the frames logged, which are all the frames a receiver stopping where this one does can meet;
     * on a normal end the result is the number of bytes written. A whole transmission is received whole.
     */
    method XmodemGet(destsz: nat, ghost blocks: seq<seq<bv8>>, ghost starts: seq<nat>, ghost heard: nat -> bool)
      returns (result: int, ghost crc: bool, ghost log: seq<Event>, ghost stops: seq<nat>)
      requires Valid() && at == 0 && sent == [] && written == []
      modifies this`at, this`sent, this`written, this`prompts, this`answers
      ensures Valid() && Sized(crc, log) && Logged(incoming, log, at)
      ensures Traced(incoming, destsz, crc, log, stops) && stops[0] == FirstStop(incoming)
      ensures log != [] ==> (crc <==> !Hunted(incoming, 0, 160).h.TimedOut?)
      ensures written == Replay(destsz, crc, log).0.written && |written| <= destsz
      ensures result == -3 <==> Replay(destsz, crc, log).0.aborted
      ensures result != -3 ==>
                var h := Hunted(incoming, stops[|log|], 160).h;
                !h.Begin? && result == match h case EndOfText => |written| case Cancelled => -1 case _ => -2
      ensures sent == prompts + answers
                      + if result >= -1 then [0x06] else if result == -2 then [0x18, 0x18, 0x18] else []
      ensures Prompting(incoming, prompts)
      ensures answers == Replay(destsz, crc, log).1 && Answering(destsz, crc, log, answers, result == -3)
      ensures Stopping(incoming, destsz, crc, log, stops, result == -3) && Drained(incoming, at)
      ensures result >= -1 ==> sent != [] && sent[|sent| - 1] == 0x06
      ensures result < -1 ==> |sent| >= 3 && sent[|sent| - 3..] == [0x18, 0x18, 0x18]
      ensures Transmission(incoming, blocks, starts) ==>
                && result >= 0 && written == Cut(Concat(blocks), destsz)
                && sent == prompts + seq(|blocks| + 1, _ => 0x06)
      ensures NonEmpty(blocks) && Honest(blocks, destsz, crc, log, heard) ==>
                OnceEach(blocks, destsz, Followed(blocks, destsz, crc, log, heard), written)
    {
      hide *;
      result, crc, log, stops := Session(destsz);
      if Transmission(incoming, blocks, starts) { WholeTrace(incoming, destsz, crc, blocks, starts, log, stops); }
      OnceOnLine(blocks, destsz, crc, log, heard);
      if result == -3 {
        AnswersLast(destsz, crc, log);
        SentEnds(prompts, answers);
        StopsAre(incoming, destsz, crc, log, stops);
        LastStop(incoming, destsz, crc, log, stops);
      } else {
        AnswersAre(destsz, crc, log);
        if log != [] { StaysAborted(destsz, crc, log, |log| - 1); }
        StopsAre(incoming, destsz, crc, log, stops);
        if Transmission(incoming, blocks, starts) { WholeSent(prompts, answers, |blocks|); }
        SentEnds(prompts + answers, if result >= -1 then [0x06] else [0x18, 0x18, 0x18]);
      }
    }

    /** The session itself. */
    method Session(destsz: nat)
      returns (result: int, ghost crc: bool, ghost log: seq<Event>, ghost stops: seq<nat>)
      requires Valid() && at == 0 && sent == [] && written == []
      modifies this`at, this`sent, this`written, this`prompts, this`answers
      ensures Valid() && Sized(crc, log) && Logged(incoming, log, at)
      ensures Traced(incoming, destsz, crc, log, stops) && |stops| == |log| + 1 && stops[0] == FirstStop(incoming)
      ensures log != [] ==> (crc <==> !Hunted(incoming, 0, 160).h.TimedOut?)
      ensures written == Replay(destsz, crc, log).0.written && |written| <= destsz
      ensures result == -3 <==> Replay(destsz, crc, log).0.aborted
      ensures result == -3 ==>
                log != [] && Sized(crc, log[..|log| - 1]) && !Replay(destsz, crc, log[..|log| - 1]).0.aborted
      ensures result != -3 ==>
                var h := Hunted(incoming, stops[|log|], 160).h;
                !h.Begin? && result == match h case EndOfText => |written| case Cancelled => -1 case _ => -2
      ensures result >= -3 && answers == Replay(destsz, crc, log).1
      ensures sent == prompts + answers
                      + if result >= -1 then [0x06] else if result == -2 then [0x18, 0x18, 0x18] else []
      ensures Prompting(incoming, prompts) && (if result == -3 then at == stops[|log|] else Drained(incoming, at))
    {
      hide Replay, Sized, Logged, OnFrame, Hunted, Traced, Turn, Ended, AllBytes, Prompts, Present, OnLine;
      hide Prompting, Prompted, Flushed;
      FirstPrompt(incoming);
      var trychar, packetno: bv8, len: nat, retrans := PROMPT, 1, 0, MAXRETRANS;
      var crcMode := false;
      crc, log, prompts, answers, stops := false, [], [], [], [0];
      NothingRead(destsz, false, incoming);
      TracedNothing(incoming, destsz, false, 0);
      while true
        invariant Valid() && sent == prompts + answers && crc == crcMode && Sized(crc, log) && Logged(incoming, log, at)
        invariant trychar != 0 ==> log == [] && answers == []
        invariant Replay(destsz, crc, log) == (Receiver(packetno, len, retrans, written, false), answers)
        invariant Traced(incoming, destsz, crc, log, stops) && |stops| == |log| + 1 && stops[|log|] == at
        invariant Under(incoming, trychar, crc, log, stops[0]) && Prompted(incoming, trychar, prompts, at)
        decreases |incoming| - at, if trychar == PROMPT then 1 else 0
      {
        LenIsWritten(destsz, crc, log);
        ghost var seen, before := at, prompts;
        HuntedMeans(incoming, at, RETRIES);
        var h := HuntFrame(trychar);
        PromptedOn(incoming, trychar, before, prompts, seen);
        LoggedLater(incoming, log, seen, at);
        if h.TimedOut? && trychar == PROMPT {
          trychar := NAK;
          stops := [at];
          TracedNothing(incoming, destsz, crc, at);
          continue;
        }
        if !h.Begin? {
          ghost var found := at;
          FlushedMeans(incoming, at);
          result := CloseDown(h, len);
          LoggedLater(incoming, log, found, at);
          return;
        }
        if trychar == PROMPT {
          NothingRead(destsz, false, incoming);
          NothingRead(destsz, true, incoming);
          TracedNothing(incoming, destsz, true, seen);
          assert stops == [seen];
          crcMode, crc := true, true;
        }
        trychar := 0;
        var aborted;
        ghost var e;
        packetno, len, retrans, aborted, e :=
          TakeFrame(h.size, crcMode, destsz, packetno, len, retrans, log);
        TurnTaken(incoming, destsz, crc, Replay(destsz, crc, log).0, seen, h.size, e, at);
        LoggedNext(incoming, log, seen, e, at);
        TracedNext(incoming, destsz, crc, log, stops, e, at);
        log, stops := log + [e], stops + [at];
        if aborted {
          LenIsWritten(destsz, crc, log);
          assert log[..|log| - 1] + [e] == log;
          return -3, crc, log, stops;
        }
      }
    }

    /** The ways to end without a frame: end of text, a cancel from the other side, or no answer. */
    method CloseDown(h: Hunt, len: nat) returns (result: int)
      requires Valid() && !h.Begin?
      modifies this`at, this`sent
      ensures Valid() && at == Flushed(incoming, old(at))
      ensures result == (match h case EndOfText => len case Cancelled => -1 case _ => -2)
      ensures sent == old(sent) + if h.TimedOut? then [0x18, 0x18, 0x18] else [0x06]
    {
      match h {
        case EndOfText => FlushInput(); Putchar(ACK); result := len;
        case Cancelled => FlushInput(); Putchar(ACK); result := -1;
        case TimedOut => GiveUp(); result := -2;
      }
    }
  }

  /** How much of a block the destination still takes. */
  function Room(len: nat, destsz: nat, data: seq<bv8>): (n: nat)
    requires len <= destsz
    ensures n <= |data|
  {
    if destsz - len > |data| then |data| else destsz - len
  }

  lemma DeliverIs(r: Receiver, destsz: nat, data: seq<bv8>)
    requires r.len <= destsz
    ensures var n := Room(r.len, destsz, data);
      Deliver(r, destsz, data) == Receiver(r.packetno + 1, r.len + n, MAXRETRANS + 1, r.written + data[..n], r.aborted)
  {
  }

  /** The comparison the code makes after promotion to `int`. */
  predicate OneLess(no: bv8, packetno: bv8) {
    no as int == packetno as int - 1
  }

  lemma OneBefore(no: bv8, packetno: bv8)
    ensures Expected(packetno, no) <==> no == packetno || OneLess(no, packetno)
  {
  }

  lemma BackAgain(no: bv8, packetno: bv8)
    requires packetno != 0 && no == packetno - 1
    ensures no + 1 == packetno
  {
  }

  // ---- The frames of a session ----

  /** Where a frame and its answer leave the line. */
  function Ended(incoming: seq<int>, destsz: nat, crc: bool, r: Receiver, e: Event): nat
    requires r.len <= destsz && (e.Complete? ==> WellSized(crc, e.frame))
  {
    match e
    case Broken(at) => Flushed(incoming, Flushed(incoming, at + 1))
    case Complete(at, f) => Settled(incoming, OnFrame(r, destsz, crc, f).1, at + 3 + |f.body|)
  }

  /** From one stop to the next: the hunt finds the frame's first byte; it is complete if all its bytes are there. */
  ghost predicate Turn(incoming: seq<int>, destsz: nat, crc: bool, r: Receiver, from: nat, e: Event, to: nat)
    requires r.len <= destsz && (e.Complete? ==> WellSized(crc, e.frame))
  {
    var f := Hunted(incoming, from, RETRIES);
    && f.h.Begin? && f.at == e.at + 1 && OnLine(incoming, e) && to == Ended(incoming, destsz, crc, r, e)
    && (e.Complete? <==> AllBytes(incoming, e.at + 1, f.h.size + TrailerSize(crc) + 2))
  }

  /** Where the hunt for the first frame starts: again after a first round of prompts without success. */
  function FirstStop(incoming: seq<int>): nat {
    var f := Hunted(incoming, 0, RETRIES);
    if f.h.TimedOut? then f.at else 0
  }

  /** The log has every frame the receiver met, from its start on, with the places where it stopped in between. */
  ghost predicate Traced(incoming: seq<int>, destsz: nat, crc: bool, log: seq<Event>, stops: seq<nat>)
    requires Sized(crc, log)
  {
    && |stops| == |log| + 1
    && forall i | 0 <= i < |log| ::
         && Sized(crc, log[..i])
         && Turn(incoming, destsz, crc, Replay(destsz, crc, log[..i]).0, stops[i], log[i], stops[i + 1])
  }

  lemma TracedNothing(incoming: seq<int>, destsz: nat, crc: bool, at: nat)
    ensures Sized(crc, []) && Traced(incoming, destsz, crc, [], [at])
  {
  }

  lemma TracedNext(incoming: seq<int>, destsz: nat, crc: bool, log: seq<Event>, stops: seq<nat>, e: Event, to: nat)
    requires Sized(crc, log) && Traced(incoming, destsz, crc, log, stops) && (e.Complete? ==> WellSized(crc, e.frame))
    requires Turn(incoming, destsz, crc, Replay(destsz, crc, log).0, stops[|log|], e, to)
    ensures Sized(crc, log + [e]) && Traced(incoming, destsz, crc, log + [e], stops + [to])
  {
    hide Turn, Replay;
    var log', stops' := log + [e], stops + [to];
    forall i | 0 <= i < |log'| ensures Sized(crc, log'[..i])
        && Turn(incoming, destsz, crc, Replay(destsz, crc, log'[..i]).0, stops'[i], log'[i], stops'[i + 1]) {
      if i < |log| {
        assert log'[..i] == log[..i];
      } else {
        assert log'[..i] == log;
      }
    }
  }

  lemma EndedAck(incoming: seq<int>, destsz: nat, crc: bool, r: Receiver, e: Event)
    requires r.len <= destsz && e.Complete? && WellSized(crc, e.frame) && OnFrame(r, destsz, crc, e.frame).1 == Ack
    ensures Ended(incoming, destsz, crc, r, e) == e.at + 3 + |e.frame.body|
  {
    hide OnFrame;
  }

  lemma TurnTaken(incoming: seq<int>, destsz: nat, crc: bool, r: Receiver, from: nat, size: nat, e: Event, to: nat)
    requires r.len <= destsz && (e.Complete? ==> WellSized(crc, e.frame))
    requires Hunted(incoming, from, RETRIES).h == Begin(size) && Hunted(incoming, from, RETRIES).at == e.at + 1
    requires OnLine(incoming, e) && to == Ended(incoming, destsz, crc, r, e)
    requires e.Complete? <==> AllBytes(incoming, e.at + 1, size + TrailerSize(crc) + 2)
    ensures Turn(incoming, destsz, crc, r, from, e, to) && to > e.at
  {
    hide Hunted, OnLine, AllBytes, OnFrame, Flushed;
  }

  /** How far the prompting has come: with the first prompt, with the second, or past the first frame. */
  predicate Under(incoming: seq<int>, trychar: bv8, crc: bool, log: seq<Event>, first: nat) {
    var timedOut := Hunted(incoming, 0, RETRIES).h.TimedOut?;
    if trychar == PROMPT then log == [] && !crc && first == 0
    else if trychar != 0 then timedOut && log == [] && !crc && first == FirstStop(incoming)
    else log != [] && first == FirstStop(incoming) && (crc <==> !timedOut)
  }

  // ---- A whole transmission ----

  /** Nothing but timeouts from `i` to `j`, and fewer than the receiver waits for. */
  ghost predicate Quiet(incoming: seq<int>, i: nat, j: nat) {
    i <= j < i + RETRIES && j < |incoming| && forall k | i <= k < j :: incoming[k] == -1
  }

  ghost predicate Present(incoming: seq<int>, at: int, crc: bool, f: Frame) {
    at >= 0 && OnLine(incoming, Complete(at, f)) && WellSized(crc, f)
  }

  /** Where block `k` of a transmission ends; each takes a first byte, two numbers, the data and two bytes of CRC. */
  function End(blocks: seq<seq<bv8>>, starts: seq<nat>, k: nat): nat
    requires k <= |blocks| < |starts|
  {
    if k == 0 then 0 else starts[k - 1] + |blocks[k - 1]| + 5
  }

  /** The line carries the frames of all blocks, in order, with pauses, and then an end of text. */
  ghost predicate Transmission(incoming: seq<int>, blocks: seq<seq<bv8>>, starts: seq<nat>) {
    && |starts| == |blocks| + 1
    && (forall k | 0 <= k <= |blocks| :: Quiet(incoming, End(blocks, starts, k), starts[k]))
    && (forall k | 0 <= k < |blocks| :: Present(incoming, starts[k], true, Outgoing(true, k + 1, blocks[k])))
    && incoming[starts[|blocks|]] == 4
  }

  function NextStart(starts: seq<nat>, n: nat): nat { if n < |starts| then starts[n] else 0 }

  function NextFrame(blocks: seq<seq<bv8>>, n: nat): Frame {
    Outgoing(true, n + 1, if n < |blocks| then blocks[n] else [])
  }

  /** The receiver has logged the first blocks and has read up to the end of the last of them. */
  ghost predicate Tracks(blocks: seq<seq<bv8>>, starts: seq<nat>, log: seq<Event>, at: nat) {
    && |log| <= |blocks| < |starts| && at == End(blocks, starts, |log|)
    && forall i | 0 <= i < |log| :: log[i] == Complete(starts[i], NextFrame(blocks, i))
  }

  function Acks(n: nat): seq<bv8> { if n == 0 then [] else Acks(n - 1) + [ACK] }

  lemma {:induction false} AcksAre(n: nat)
    ensures Acks(n) == seq(n, _ => 0x06)
  {
    if n > 0 { AcksAre(n - 1); }
  }

  lemma WholeSent(prompts: seq<bv8>, answers: seq<bv8>, n: nat)
    requires answers == Acks(n)
    ensures prompts + answers + [0x06] == prompts + seq(n + 1, _ => 0x06)
  {
    AcksAre(n);
  }

  lemma LastStop(incoming: seq<int>, destsz: nat, crc: bool, log: seq<Event>, stops: seq<nat>)
    requires Sized(crc, log) && log != [] && Stopping(incoming, destsz, crc, log, stops, true)
    ensures Drained(incoming, stops[|log|])
  {
    hide Good, Drained;
    var i := |log| - 1;
    var good, last := Good(destsz, crc, log, i), log[i];
    assert stops[i + 1] == stops[|log|];
  }

  lemma SentEnds(a: seq<bv8>, b: seq<bv8>)
    ensures b != [] ==> (a + b)[|a + b| - 1] == b[|b| - 1]
    ensures |b| >= 3 ==> (a + b)[|a + b| - 3..] == b[|b| - 3..]
  {
  }

  lemma TracksNothing(incoming: seq<int>, blocks: seq<seq<bv8>>, starts: seq<nat>)
    requires Transmission(incoming, blocks, starts)
    ensures Tracks(blocks, starts, [], 0)
  {
  }

  lemma TracksNext(incoming: seq<int>, blocks: seq<seq<bv8>>, starts: seq<nat>, log: seq<Event>, at: nat,
                   e: Event, at': nat)
    requires Transmission(incoming, blocks, starts) && Tracks(blocks, starts, log, at) && |log| < |blocks|
    requires e == Complete(NextStart(starts, |log|), NextFrame(blocks, |log|))
    requires at' == NextStart(starts, |log|) + 3 + |NextFrame(blocks, |log|).body|
    ensures Tracks(blocks, starts, log + [e], at')
  {
    hide Transmission, BlockNo, Trailer;
  }

  /** What the hunt finds next in a transmission. */
  lemma Located(incoming: seq<int>, blocks: seq<seq<bv8>>, starts: seq<nat>, log: seq<Event>, at: nat)
    requires Transmission(incoming, blocks, starts) && Tracks(blocks, starts, log, at)
    ensures var f := Hunted(incoming, at, RETRIES);
      && |log| <= |blocks|
      && (|log| < |blocks| ==> f.h.Begin? && f.at == NextStart(starts, |log|) + 1
                               && Present(incoming, NextStart(starts, |log|), true, NextFrame(blocks, |log|)))
      && (|log| == |blocks| ==> f.h == EndOfText)
  {
    hide Outgoing, Hunted;
    var next := NextStart(starts, |log|);
    assert Quiet(incoming, End(blocks, starts, |log|), starts[|log|]);
    assert |log| < |blocks| ==> Present(incoming, starts[|log|], true, NextFrame(blocks, |log|));
    HuntedOpens(incoming, at, next, RETRIES);
  }

  lemma BlocksNonEmpty(incoming: seq<int>, blocks: seq<seq<bv8>>, starts: seq<nat>)
    requires Transmission(incoming, blocks, starts)
    ensures NonEmpty(blocks)
  {
    forall k | 0 <= k < |blocks| ensures blocks[k] != [] {
      OutgoingNo(true, k + 1, blocks[k]);
    }
  }

  /** The receiver has taken the first `k` blocks and nothing else. */
  ghost predicate Took(blocks: seq<seq<bv8>>, destsz: nat, k: nat, r: Receiver) {
    && k <= |blocks| && r.packetno == BlockNo(k + 1) && !r.aborted
    && r.written == Cut(Concat(blocks[..k]), destsz) && r.len == |r.written| <= destsz
  }

  lemma TakesNext(blocks: seq<seq<bv8>>, destsz: nat, k: nat, r: Receiver)
    requires NonEmpty(blocks) && Took(blocks, destsz, k, r) && k < |blocks|
    ensures var f := NextFrame(blocks, k);
      && WellSized(true, f) && OnFrame(r, destsz, true, f).1 == Ack
      && Took(blocks, destsz, k + 1, OnFrame(r, destsz, true, f).0)
  {
    hide BlockNo, Outgoing, OnFrame, Deliver, Concat, Cut, Intact;
    OutgoingIntact(true, k + 1, blocks[k]);
    OutgoingNo(true, k + 1, blocks[k]);
    OnNext(r, destsz, true, NextFrame(blocks, k));
    DeliverNumbers(r, destsz, blocks[k]);
    DeliverNext(blocks, destsz, k, r);
    NumberAfter(k + 1);
  }

  /** The receiver's state and answers after the first frames of a transmission. */
  lemma {:induction false} WholeReplay(destsz: nat, crc: bool, blocks: seq<seq<bv8>>, starts: seq<nat>,
                                       log: seq<Event>, at: nat)
    requires NonEmpty(blocks) && Tracks(blocks, starts, log, at)
    requires Sized(crc, log) && (log != [] ==> crc)
    ensures Took(blocks, destsz, |log|, Replay(destsz, crc, log).0) && Replay(destsz, crc, log).1 == Acks(|log|)
    decreases |log|
  {
    hide Took, OnFrame, NextFrame, BlockNo;
    if log == [] {
      NothingTaken(blocks, destsz);
    } else {
      var n := |log| - 1;
      WholeReplay(destsz, crc, blocks, starts, log[..n], End(blocks, starts, n));
      assert log[..n] + [log[n]] == log;
      ReplayNext(destsz, crc, log[..n], log[n]);
      TakesNext(blocks, destsz, n, Replay(destsz, crc, log[..n]).0);
    }
  }

  /** What a frame on the line is made of. */
  lemma FrameThere(incoming: seq<int>, at: nat, crc: bool, f: Frame, g: Frame)
    requires Present(incoming, at, crc, f) && Present(incoming, at, crc, g)
    ensures f == g
  {
    hide WellSized;
    var a, b := [f.no, f.inverse] + f.body, [g.no, g.inverse] + g.body;
    SameSize(incoming, at, crc, f, g);
    SameBytes(incoming, at + 1, a, b);
    assert f.no == a[0] && f.inverse == a[1] && f.body == a[2..];
    assert g.no == b[0] && g.inverse == b[1] && g.body == b[2..];
  }

  lemma SameSize(incoming: seq<int>, at: nat, crc: bool, f: Frame, g: Frame)
    requires Present(incoming, at, crc, f) && Present(incoming, at, crc, g)
    ensures f.size == g.size && |f.body| == |g.body|
  {
  }

  lemma SameBytes(incoming: seq<int>, i: nat, a: seq<bv8>, b: seq<bv8>)
    requires BytesAt(incoming, i, a) && BytesAt(incoming, i, b) && |a| == |b|
    ensures a == b
  {
    forall k | 0 <= k < |a| ensures a[k] == b[k] {
      ByteAt(incoming, i, a, k);
      ByteAt(incoming, i, b, k);
    }
  }

  lemma PresentBytes(incoming: seq<int>, at: nat, f: Frame)
    requires Present(incoming, at, true, f)
    ensures AllBytes(incoming, at + 1, f.size + 4) && f.size == if incoming[at] == 1 then 128 else 1024
  {
    var a := [f.no, f.inverse] + f.body;
    forall k | at + 1 <= k < at + 1 + (f.size + 4) ensures incoming[k] >= 0 {
      ByteAt(incoming, at + 1, a, k - (at + 1));
    }
  }

  /** In a transmission, the frame met next is the next one of the transmission. */
  lemma NextMet(incoming: seq<int>, destsz: nat, blocks: seq<seq<bv8>>, starts: seq<nat>, log: seq<Event>, from: nat,
                r: Receiver, e: Event, to: nat)
    requires Transmission(incoming, blocks, starts) && Tracks(blocks, starts, log, from)
    requires r.len <= destsz && (e.Complete? ==> WellSized(true, e.frame))
    requires Turn(incoming, destsz, true, r, from, e, to)
    ensures |log| < |blocks| && e == Complete(NextStart(starts, |log|), NextFrame(blocks, |log|))
  {
    hide Transmission, Hunted, Tracks, NextFrame, NextStart, OnFrame, Ended;
    Located(incoming, blocks, starts, log, from);
    HuntedStarts(incoming, from);
    var f := NextFrame(blocks, |log|);
    if |log| < |blocks| {
      PresentBytes(incoming, e.at, f);
      PresentIs(incoming, e.at, true, f);
      PresentIs(incoming, e.at, true, e.frame);
      FrameThere(incoming, e.at, true, f, e.frame);
    }
  }

  lemma HuntedStarts(incoming: seq<int>, at: nat)
    ensures var f := Hunted(incoming, at, RETRIES);
      f.h.Begin? ==> f.at > 0 && f.at <= |incoming| && f.h.size == if incoming[f.at - 1] == 1 then 128 else 1024
  {
    if at <= |incoming| { HuntedMeans(incoming, at, RETRIES); } else { HuntedBeyond(incoming, at, RETRIES); }
  }

  lemma {:induction false} HuntedBeyond(incoming: seq<int>, at: nat, tries: nat)
    requires at >= |incoming|
    ensures Hunted(incoming, at, tries).h.TimedOut?
    decreases tries
  {
    if tries > 0 { HuntedBeyond(incoming, at, tries - 1); }
  }

  /** All the frames met in a transmission, up to some point. */
  lemma {:induction false} TracksAll(incoming: seq<int>, destsz: nat, blocks: seq<seq<bv8>>, starts: seq<nat>,
                                     log: seq<Event>, stops: seq<nat>, i: nat)
    requires Transmission(incoming, blocks, starts) && Sized(true, log) && i <= |log|
    requires Traced(incoming, destsz, true, log, stops) && stops[0] == 0
    ensures |stops| == |log| + 1 && Tracks(blocks, starts, log[..i], stops[i])
    decreases i
  {
    hide Transmission, Turn, OnFrame, NextFrame, NextStart, Tracks, Ended, Took;
    if i == 0 {
      TracksNothing(incoming, blocks, starts);
      assert log[..0] == [];
    } else {
      var n := i - 1;
      TracksAll(incoming, destsz, blocks, starts, log, stops, n);
      BlocksNonEmpty(incoming, blocks, starts);
      hide Replay;
      var r := Replay(destsz, true, log[..n]).0;
      assert Turn(incoming, destsz, true, r, stops[n], log[n], stops[n + 1]);
      NextMet(incoming, destsz, blocks, starts, log[..n], stops[n], r, log[n], stops[i]);
      WholeReplay(destsz, true, blocks, starts, log[..n], stops[n]);
      TakesNext(blocks, destsz, n, r);
      EndedAck(incoming, destsz, true, r, log[n]);
      TurnEnds(incoming, destsz, true, r, stops[n], log[n], stops[i]);
      TracksNext(incoming, blocks, starts, log[..n], stops[n], log[n], stops[i]);
      assert log[..n] + [log[n]] == log[..i];
    }
  }

  lemma TurnEnds(incoming: seq<int>, destsz: nat, crc: bool, r: Receiver, from: nat, e: Event, to: nat)
    requires r.len <= destsz && (e.Complete? ==> WellSized(crc, e.frame)) && Turn(incoming, destsz, crc, r, from, e, to)
    ensures to == Ended(incoming, destsz, crc, r, e)
  {
  }

  /** A transmission is taken whole and every block acknowledged. */
  lemma WholeTrace(incoming: seq<int>, destsz: nat, crc: bool, blocks: seq<seq<bv8>>, starts: seq<nat>,
                   log: seq<Event>, stops: seq<nat>)
    requires Transmission(incoming, blocks, starts) && Sized(crc, log) && Traced(incoming, destsz, crc, log, stops)
    requires |stops| == |log| + 1 && stops[0] == FirstStop(incoming)
    requires log != [] ==> (crc <==> !Hunted(incoming, 0, 160).h.TimedOut?)
    requires !Replay(destsz, crc, log).0.aborted ==> !Hunted(incoming, stops[|log|], 160).h.Begin?
    ensures !Replay(destsz, crc, log).0.aborted && Replay(destsz, crc, log).0.written == Cut(Concat(blocks), destsz)
    ensures Replay(destsz, crc, log).1 == Acks(|blocks|) && Hunted(incoming, stops[|log|], 160).h == EndOfText
  {
    hide Transmission, Hunted, Tracks, NextStart, NextFrame, Replay, Concat, Cut, Acks, Took;
    TracksNothing(incoming, blocks, starts);
    Located(incoming, blocks, starts, [], 0);
    if log == [] {
      assert [] == log && Sized(true, log);
      TracedAny(incoming, destsz, crc, stops);
    }
    hide Traced;
    TracksAll(incoming, destsz, blocks, starts, log, stops, |log|);
    assert log[..|log|] == log;
    Located(incoming, blocks, starts, log, stops[|log|]);
    BlocksNonEmpty(incoming, blocks, starts);
    WholeReplay(destsz, crc, blocks, starts, log, stops[|log|]);
    NotAborted(blocks, destsz, |log|, Replay(destsz, crc, log).0);
    TookAll(blocks, destsz, Replay(destsz, crc, log).0);
  }

  lemma TracedAny(incoming: seq<int>, destsz: nat, crc: bool, stops: seq<nat>)
    requires Traced(incoming, destsz, crc, [], stops)
    ensures Traced(incoming, destsz, true, [], stops)
  {
  }

  lemma NothingTaken(blocks: seq<seq<bv8>>, destsz: nat)
    ensures Took(blocks, destsz, 0, Start())
  {
  }

  lemma TookAll(blocks: seq<seq<bv8>>, destsz: nat, r: Receiver)
    requires Took(blocks, destsz, |blocks|, r)
    ensures r.written == Cut(Concat(blocks), destsz)
  {
    assert blocks[..|blocks|] == blocks;
  }

  lemma NotAborted(blocks: seq<seq<bv8>>, destsz: nat, k: nat, r: Receiver)
    requires Took(blocks, destsz, k, r)
    ensures !r.aborted
  {
  }

  // ---- Every file has a transmission ----

  function OnWire(b: bv8): int { b as int }

  lemma OnWireBack(b: bv8)
    ensures 0 <= OnWire(b) < 256 && OnWire(b) as bv8 == b
  {
  }

  /** The bytes of a frame as read from the line, its first byte included. */
  function Wired(f: Frame): (r: seq<int>)
    ensures |r| == |f.body| + 3
  {
    var bytes := [f.no, f.inverse] + f.body;
    [if f.size == 128 then 1 else 2] + seq(|bytes|, i requires 0 <= i < |bytes| => OnWire(bytes[i]))
  }

  predicate TwoSizes(blocks: seq<seq<bv8>>) {
    forall k | 0 <= k < |blocks| :: |blocks[k]| == 128 || |blocks[k]| == 1024
  }

  /** The frames of all blocks, one after the other. */
  function Wire(blocks: seq<seq<bv8>>): seq<int> {
    if blocks == [] then []
    else Wire(blocks[..|blocks| - 1]) + Wired(Outgoing(true, |blocks|, blocks[|blocks| - 1]))
  }

  function Starts(blocks: seq<seq<bv8>>): (r: seq<nat>)
    ensures |r| == |blocks| + 1
  {
    if blocks == [] then [0] else Starts(blocks[..|blocks| - 1]) + [|Wire(blocks)|]
  }

  lemma WiredPresent(before: seq<int>, f: Frame, after: seq<int>)
    requires WellSized(true, f) && (f.size == 128 || f.size == 1024)
    ensures Present(before + Wired(f) + after, |before|, true, f)
  {
    var incoming, bytes := before + Wired(f) + after, [f.no, f.inverse] + f.body;
    forall k | 0 <= k < |bytes|
      ensures 0 <= incoming[|before| + 1 + k] < 256 && incoming[|before| + 1 + k] as bv8 == bytes[k]
    {
      assert incoming[|before| + 1 + k] == Wired(f)[1 + k];
      OnWireBack(bytes[k]);
    }
  }

  lemma {:induction false} WireSplits(blocks: seq<seq<bv8>>, k: nat) returns (rest: seq<int>)
    requires k < |blocks|
    ensures Wire(blocks) == Wire(blocks[..k]) + Wired(NextFrame(blocks, k)) + rest
    decreases |blocks|
  {
    hide Wired, Outgoing;
    var n := |blocks| - 1;
    if k == n {
      rest := [];
    } else {
      assert blocks[..n][..k] == blocks[..k] && blocks[..n][k] == blocks[k];
      var more := WireSplits(blocks[..n], k);
      rest := more + Wired(Outgoing(true, |blocks|, blocks[n]));
    }
  }

  /** Each frame starts where the one before ended. */
  lemma {:induction false} WireEnds(blocks: seq<seq<bv8>>, k: nat)
    requires k <= |blocks|
    ensures Starts(blocks)[k] == |Wire(blocks[..k])| == End(blocks, Starts(blocks), k)
    decreases |blocks|
  {
    hide BlockNo, Trailer, Wired;
    var n := |blocks| - 1;
    if blocks != [] {
      if k <= n {
        assert blocks[..n][..k] == blocks[..k];
        WireEnds(blocks[..n], k);
      } else {
        assert blocks[..k] == blocks && blocks[..n][..n] == blocks[..n];
        WireEnds(blocks[..n], n);
      }
    }
  }

  lemma Regroup(a: seq<int>, b: seq<int>, c: seq<int>, d: seq<int>)
    ensures a + b + c + d == a + b + (c + d)
  {
  }

  lemma NextFrameFits(blocks: seq<seq<bv8>>, k: nat)
    requires TwoSizes(blocks) && k < |blocks|
    ensures var f := NextFrame(blocks, k);
      WellSized(true, f) && (f.size == 128 || f.size == 1024)
  {
    hide Outgoing, Intact;
    OutgoingIntact(true, k + 1, blocks[k]);
    OutgoingNo(true, k + 1, blocks[k]);
  }

  lemma WireHas(blocks: seq<seq<bv8>>, k: nat, after: seq<int>)
    requires TwoSizes(blocks) && k < |blocks|
    ensures Present(Wire(blocks) + after, Starts(blocks)[k], true, NextFrame(blocks, k))
  {
    hide Wired, Present, Wire, NextFrame, End, Starts, WellSized;
    var rest := WireSplits(blocks, k);
    var before, f := Wire(blocks[..k]), NextFrame(blocks, k);
    WireEnds(blocks, k);
    NextFrameFits(blocks, k);
    WiredPresent(before, f, rest + after);
    Regroup(before, Wired(f), rest, after);
  }

  /** Whatever the blocks, sending them without pause and then an end of text is a transmission. */
  lemma WireTransmits(blocks: seq<seq<bv8>>)
    requires TwoSizes(blocks)
    ensures Transmission(Wire(blocks) + [4], blocks, Starts(blocks))
  {
    hide Present, Wire, Outgoing, Starts, End;
    var incoming, starts := Wire(blocks) + [4], Starts(blocks);
    WireEnds(blocks, |blocks|);
    assert blocks[..|blocks|] == blocks;
    forall k | 0 <= k <= |blocks| ensures Quiet(incoming, End(blocks, starts, k), starts[k]) {
      WireEnds(blocks, k);
      if k < |blocks| {
        WireHas(blocks, k, [4]);
        PresentInside(incoming, starts[k], NextFrame(blocks, k));
      }
    }
    forall k | 0 <= k < |blocks| ensures Present(incoming, starts[k], true, Outgoing(true, k + 1, blocks[k])) {
      WireHas(blocks, k, [4]);
    }
  }

  lemma PresentInside(incoming: seq<int>, at: nat, f: Frame)
    requires Present(incoming, at, true, f)
    ensures at < |incoming|
  {
  }

  lemma ByteAt(incoming: seq<int>, i: nat, bytes: seq<bv8>, k: nat)
    requires BytesAt(incoming, i, bytes) && k < |bytes|
    ensures 0 <= incoming[i + k] < 256 && incoming[i + k] as bv8 == bytes[k]
  {
    var b := bytes[k];
  }

  lemma StartSeen(incoming: seq<int>, at: nat)
    requires at < |incoming| && (incoming[at] == 1 || incoming[at] == 2)
    ensures OnLine(incoming, Broken(at))
  {
  }

  lemma PresentIs(incoming: seq<int>, at: nat, crc: bool, f: Frame)
    ensures Present(incoming, at, crc, f) <==> OnLine(incoming, Complete(at, f)) && WellSized(crc, f)
  {
  }

  lemma NothingRead(destsz: nat, crc: bool, incoming: seq<int>)
    ensures Sized(crc, []) && Logged(incoming, [], 0) && Replay(destsz, crc, []) == (Start(), [])
  {
  }

  lemma LoggedLater(incoming: seq<int>, log: seq<Event>, n: nat, upto: nat)
    requires Logged(incoming, log, n) && n <= upto
    ensures Logged(incoming, log, upto)
  {
  }

  lemma LoggedNext(incoming: seq<int>, log: seq<Event>, n: nat, e: Event, upto: nat)
    requires Logged(incoming, log, n) && n <= e.at < upto && OnLine(incoming, e)
    ensures Logged(incoming, log + [e], upto)
  {
  }

  /** The running length is the number of bytes written. */
  lemma {:induction false} LenIsWritten(destsz: nat, crc: bool, log: seq<Event>)
    requires Sized(crc, log)
    ensures Replay(destsz, crc, log).0.len == |Replay(destsz, crc, log).0.written| <= destsz
    decreases |log|
  {
    if log != [] { LenIsWritten(destsz, crc, log[..|log| - 1]); }
  }

  // ---- The code against a stop-and-wait sender on a lossy line ----

  /** The frame the sender is sending. */
  predicate Sent(blocks: seq<seq<bv8>>, crc: bool, sys: System, f: Frame) {
    !Over(blocks, sys) && f == Outgoing(crc, sys.current, blocks[sys.current - 1])
  }

  /** The round of the exchange that an event is part of. */
  function RoundFor(blocks: seq<seq<bv8>>, crc: bool, sys: System, e: Event, heard: bool): Round {
    match e
    case Broken(_) => Round(Lost, heard)
    case Complete(_, f) => Round(if Sent(blocks, crc, sys, f) then Arrives else Damaged(f), heard)
  }

  /** The rounds behind a log, when `heard` says which of the answers reach the sender. */
  function Rounds(blocks: seq<seq<bv8>>, destsz: nat, crc: bool, log: seq<Event>, heard: nat -> bool): (r: seq<Round>)
    requires NonEmpty(blocks)
    decreases |log|, 0
  {
    if log == [] then []
    else
      var n := |log| - 1;
      var sys := Followed(blocks, destsz, crc, log[..n], heard);
      Rounds(blocks, destsz, crc, log[..n], heard) + [RoundFor(blocks, crc, sys, log[n], heard(n))]
  }

  /** Where those rounds bring sender and receiver. */
  function Followed(blocks: seq<seq<bv8>>, destsz: nat, crc: bool, log: seq<Event>, heard: nat -> bool): (sys: System)
    requires NonEmpty(blocks)
    ensures sys.r.len <= destsz
    decreases |log|, 1
  {
    Run(blocks, destsz, crc, System(1, Start(), 0), Rounds(blocks, destsz, crc, log, heard))
  }

  /** Every complete frame is the one being sent, or the receiver can tell that it is not right. */
  ghost predicate Honest(blocks: seq<seq<bv8>>, destsz: nat, crc: bool, log: seq<Event>, heard: nat -> bool)
    requires NonEmpty(blocks)
  {
    forall i | 0 <= i < |log| && log[i].Complete? ::
      var sys := Followed(blocks, destsz, crc, log[..i], heard);
      Sent(blocks, crc, sys, log[i].frame) || Detectable(crc, sys.r, log[i].frame)
  }

  /** One event is one round. */
  lemma OneRound(blocks: seq<seq<bv8>>, destsz: nat, crc: bool, sys: System, e: Event, heard: bool)
    requires NonEmpty(blocks) && sys.r.len <= destsz
    requires e.Complete? ==>
               WellSized(crc, e.frame) && (Sent(blocks, crc, sys, e.frame) || Detectable(crc, sys.r, e.frame))
    ensures var round := RoundFor(blocks, crc, sys, e, heard);
      && Possible(crc, sys, round)
      && Exchange(blocks, destsz, crc, sys, round).r
         == if e.Complete? then OnFrame(sys.r, destsz, crc, e.frame).0 else sys.r
  {
    hide OnFrame, Outgoing, Detectable, NonEmpty;
    if e.Complete? && Over(blocks, sys) {
      OnBad(sys.r, destsz, crc, e.frame);
    }
  }

  /** The receiver's code does what the receiver of the exchange does. */
  lemma {:induction false} ReplayIsRun(blocks: seq<seq<bv8>>, destsz: nat, crc: bool, log: seq<Event>,
                                       heard: nat -> bool)
    requires NonEmpty(blocks) && Sized(crc, log) && Honest(blocks, destsz, crc, log, heard)
    ensures Followed(blocks, destsz, crc, log, heard).r == Replay(destsz, crc, log).0
    decreases |log|
  {
    hide Run, Exchange, OnFrame, Sent, Detectable, WellSized, RoundFor, Possible, NonEmpty;
    var start := System(1, Start(), 0);
    if log == [] {
      RunNothing(blocks, destsz, crc, start);
    } else {
      var n := |log| - 1;
      var init, e := log[..n], log[n];
      forall i | 0 <= i < n ensures init[..i] == log[..i] {}
      ReplayIsRun(blocks, destsz, crc, init, heard);
      var sys := Followed(blocks, destsz, crc, init, heard);
      var round := RoundFor(blocks, crc, sys, e, heard(n));
      OneRound(blocks, destsz, crc, sys, e, heard(n));
      RunJoin(blocks, destsz, crc, start, Rounds(blocks, destsz, crc, init, heard), [round]);
      RunOne(blocks, destsz, crc, sys, round);
    }
  }

  /**
   * The first `taken` blocks have been written, once each and in order; the sender is at the last of them or the
   * next, and when it has come to its end, all have been written.
   */
  ghost predicate OnceEach(blocks: seq<seq<bv8>>, destsz: nat, sys: System, written: seq<bv8>) {
    && sys.taken <= |blocks| && sys.current - 1 <= sys.taken <= sys.current
    && written == Cut(Concat(blocks[..sys.taken]), destsz)
    && (sys.current > |blocks| ==> written == Cut(Concat(blocks), destsz))
  }

  /** Exactly-once delivery, of the code. */
  lemma OnceOnLine(blocks: seq<seq<bv8>>, destsz: nat, crc: bool, log: seq<Event>, heard: nat -> bool)
    requires Sized(crc, log)
    ensures NonEmpty(blocks) && Honest(blocks, destsz, crc, log, heard) ==>
              OnceEach(blocks, destsz, Followed(blocks, destsz, crc, log, heard), Replay(destsz, crc, log).0.written)
  {
    hide Run, Honest, Sized, Replay, Rounds, Concat, Cut, NonEmpty;
    if NonEmpty(blocks) && Honest(blocks, destsz, crc, log, heard) {
      ReplayIsRun(blocks, destsz, crc, log, heard);
      ExactlyOnce(blocks, destsz, crc, Rounds(blocks, destsz, crc, log, heard));
    }
  }
}
