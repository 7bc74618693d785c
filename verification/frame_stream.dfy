/** The receive path as a whole: the USB stack calling the receive
    callback is the only producer, the main loop's frame poll the only
    consumer, and each call runs to completion before the next. */
module FrameStream {
  import opened Bytes
  import Fifo
  import opened UsbComm

  /** The frame counter agrees with the terminators actually buffered. */
  predicate CountMatches(st: CommState) {
    Valid(st) && st.gotFrame == TerminatorCount(st.rx.items)
  }

  /** A receive that would push the 256th pending terminator wraps the
      8-bit counter; the invariant is only claimed while this does not
      happen. */
  predicate NoCounterWrap(st: CommState, c: uint8) {
    c != Terminator || TerminatorCount(st.rx.items) < 255
  }

  /** Startup followed by initialisation leaves no frame pending. */
  lemma InitCountMatches()
    ensures CountMatches(Init(Startup))
    ensures Poll(Init(Startup)).status == NoFrame
  {
  }

  /** A receive keeps the counter in step with the buffered terminators. */
  lemma RxCallbackKeepsCount(st: CommState, c: uint8)
    requires CountMatches(st) && NoCounterWrap(st, c)
    ensures CountMatches(RxCallback(st, c))
  {
    if !Fifo.IsFull(st.rx) {
      TerminatorCountAppend(st.rx.items, [c]);
    }
  }

  /** Under the invariant a poll never reports a frame error, and it keeps
      the invariant. */
  lemma PollKeepsCount(st: CommState)
    requires CountMatches(st)
    ensures Poll(st).status != FrameError
    ensures CountMatches(Poll(st).st)
  {
    TerminatorCountPositive(st.rx.items);
    var r := Poll(st);
    if r.status == FrameOk {
      TerminatorCountAppend(r.payload + [Terminator], r.st.rx.items);
      TerminatorCountAppend(r.payload, [Terminator]);
      TerminatorCountPositive(r.payload);
    }
  }

  /** With 255 frames pending, one more terminator wraps the counter to
      zero: the poll then reports no frame although 256 are buffered. */
  lemma CounterWrapHidesFrames(st: CommState)
    requires CountMatches(st) && st.gotFrame == 255 && !Fifo.IsFull(st.rx)
    ensures TerminatorCount(RxCallback(st, Terminator).rx.items) == 256
    ensures RxCallback(st, Terminator).gotFrame == 0
    ensures Poll(RxCallback(st, Terminator)).status == NoFrame
  {
    TerminatorCountAppend(st.rx.items, [Terminator]);
  }

  // ---------------------------------------------------------------------
  // Interleavings of whole operations

  datatype Event = Receive(c: uint8) | PollFrame

  /** The communication state with the history it has seen: the bytes the
      receive callback accepted into the FIFO, the payloads the polls
      delivered, and the number of polls that reported a frame error. */
  datatype Channel = Channel(st: CommState, accepted: seq<uint8>, delivered: seq<seq<uint8>>, errors: nat)

  function Step(ch: Channel, e: Event): (ch': Channel)
    requires Valid(ch.st)
    ensures Valid(ch'.st)
  {
    match e
    case Receive(c) =>
      var accepted := if Fifo.IsFull(ch.st.rx) then ch.accepted else ch.accepted + [c];
      Channel(RxCallback(ch.st, c), accepted, ch.delivered, ch.errors)
    case PollFrame =>
      var r := Poll(ch.st);
      match r.status
      case FrameOk => Channel(r.st, ch.accepted, ch.delivered + [r.payload], ch.errors)
      case NoFrame => ch.(st := r.st)
      case FrameError => Channel(r.st, ch.accepted, ch.delivered, ch.errors + 1)
  }

  function Run(ch: Channel, events: seq<Event>): (ch': Channel)
    requires Valid(ch.st)
    ensures Valid(ch'.st)
    decreases |events|
  {
    if events == [] then ch else Run(Step(ch, events[0]), events[1..])
  }

  /** No receive along `events` wraps the frame counter. */
  predicate NoWrapAlong(ch: Channel, events: seq<Event>)
    requires Valid(ch.st)
    decreases |events|
  {
    events != [] ==>
      && (events[0].Receive? ==> NoCounterWrap(ch.st, events[0].c))
      && NoWrapAlong(Step(ch, events[0]), events[1..])
  }

  /** The delivered payloads as they were on the wire: each followed by
      its terminator. */
  function Reframe(frames: seq<seq<uint8>>): seq<uint8>
  {
    if frames == [] then [] else Reframe(frames[..|frames| - 1]) + frames[|frames| - 1] + [Terminator]
  }

  /** Everything accepted is either delivered, in order and reframed, or
      still buffered; the counter matches; no poll has failed. */
  predicate Consistent(ch: Channel) {
    && CountMatches(ch.st)
    && Reframe(ch.delivered) + ch.st.rx.items == ch.accepted
    && ch.errors == 0
  }

  const Initial: Channel := Channel(Init(Startup), [], [], 0)

  lemma ReceiveKeepsConsistent(ch: Channel, c: uint8)
    requires Consistent(ch) && NoCounterWrap(ch.st, c)
    ensures Consistent(Step(ch, Receive(c)))
  {
    RxCallbackKeepsCount(ch.st, c);
    if !Fifo.IsFull(ch.st.rx) {
      assert Reframe(ch.delivered) + (ch.st.rx.items + [c]) == ch.accepted + [c];
    }
  }

  lemma PollStepKeepsConsistent(ch: Channel)
    requires Consistent(ch)
    ensures Consistent(Step(ch, PollFrame))
  {
    PollKeepsCount(ch.st);
    var r := Poll(ch.st);
    if r.status == FrameOk {
      var d := ch.delivered + [r.payload];
      assert d[..|d| - 1] == ch.delivered;
      assert Reframe(d) == Reframe(ch.delivered) + r.payload + [Terminator];
      assert Reframe(d) + r.st.rx.items
          == Reframe(ch.delivered) + (r.payload + [Terminator] + r.st.rx.items);
    }
  }

  lemma StepKeepsConsistent(ch: Channel, e: Event)
    requires Consistent(ch)
    requires e.Receive? ==> NoCounterWrap(ch.st, e.c)
    ensures Consistent(Step(ch, e))
  {
    if e.Receive? {
      ReceiveKeepsConsistent(ch, e.c);
    } else {
      PollStepKeepsConsistent(ch);
    }
  }

  /** Whatever the interleaving of receives and polls, as long as the
      counter never wraps, the frames come out in arrival order and no
      poll reports a frame error. */
  lemma {:induction false} RunKeepsConsistent(ch: Channel, events: seq<Event>)
    requires Consistent(ch) && NoWrapAlong(ch, events)
    ensures Consistent(Run(ch, events))
    decreases |events|
  {
    if events != [] {
      StepKeepsConsistent(ch, events[0]);
      RunKeepsConsistent(Step(ch, events[0]), events[1..]);
    }
  }

  /** From startup, the reframed delivered payloads are a prefix of the
      accepted bytes, and every poll that found the counter nonzero
      delivered a frame. */
  lemma DeliveredInArrivalOrder(events: seq<Event>)
    requires NoWrapAlong(Initial, events)
    ensures Reframe(Run(Initial, events).delivered) <= Run(Initial, events).accepted
    ensures Run(Initial, events).errors == 0
  {
    RunKeepsConsistent(Initial, events);
  }

  lemma {:induction false} RunAppend(ch: Channel, a: seq<Event>, b: seq<Event>)
    requires Valid(ch.st)
    ensures Run(ch, a + b) == Run(Run(ch, a), b)
    decreases |a|
  {
    if a == [] {
      assert a + b == b;
    } else {
      assert (a + b)[0] == a[0] && (a + b)[1..] == a[1..] + b;
      assert Run(ch, a + b) == Run(Step(ch, a[0]), a[1..] + b);
      RunAppend(Step(ch, a[0]), a[1..], b);
    }
  }

  /** One receive event per byte of `s`. */
  function Receives(s: seq<uint8>): (events: seq<Event>)
    ensures |events| == |s|
    ensures forall i :: 0 <= i < |s| ==> events[i] == Receive(s[i])
  {
    if s == [] then [] else [Receive(s[0])] + Receives(s[1..])
  }

  /** Bytes received while the FIFO has room are appended in order, and
      the counter grows by the terminators among them. */
  lemma {:induction false} ReceivesBuffer(ch: Channel, s: seq<uint8>)
    requires Valid(ch.st) && |ch.st.rx.items| + |s| <= BufLen
    requires ch.st.gotFrame + TerminatorCount(s) < 256
    ensures Run(ch, Receives(s)).st.rx.items == ch.st.rx.items + s
    ensures Run(ch, Receives(s)).st.gotFrame == ch.st.gotFrame + TerminatorCount(s)
    ensures Run(ch, Receives(s)).delivered == ch.delivered
    decreases |s|
  {
    if s != [] {
      var ch1 := Step(ch, Receive(s[0]));
      assert Receives(s)[0] == Receive(s[0]) && Receives(s)[1..] == Receives(s[1..]);
      assert Run(ch, Receives(s)) == Run(ch1, Receives(s[1..]));
      ReceivesBuffer(ch1, s[1..]);
      assert ch.st.rx.items + [s[0]] + s[1..] == ch.st.rx.items + s;
    }
  }

  /** A poll with exactly one line buffered delivers its payload and
      leaves nothing behind. */
  lemma PollDeliversLine(ch: Channel, p: seq<uint8>)
    requires Valid(ch.st) && ch.st.rx.items == p + [Terminator]
    requires Terminator !in p && ch.st.gotFrame == 1
    ensures Step(ch, PollFrame).delivered == ch.delivered + [p]
    ensures Step(ch, PollFrame).st.rx.items == []
    ensures Step(ch, PollFrame).st.gotFrame == 0
  {
    SplitFrameUnique(ch.st.rx.items, p, []);
  }

  /** Receiving a line "AT\r" into an empty FIFO and polling delivers "AT". */
  lemma {:induction false} AtLineDelivers(ch: Channel)
    requires Valid(ch.st) && ch.st.rx.items == [] && ch.st.gotFrame == 0
    ensures Run(ch, AtLine).delivered == ch.delivered + [[65, 84]]
    ensures Run(ch, AtLine).st.rx.items == [] && Run(ch, AtLine).st.gotFrame == 0
  {
    assert TerminatorCount([65, 84, 13]) == 1;
    ReceivesBuffer(ch, [65, 84, 13]);
    var c1 := Run(ch, Receives([65, 84, 13]));
    PollDeliversLine(c1, [65, 84]);
    RunAppend(ch, Receives([65, 84, 13]), [PollFrame]);
  }

  /** Receiving "AT" without a terminator and polling delivers nothing. */
  lemma {:induction false} AtUnterminatedWaits(ch: Channel)
    requires Valid(ch.st) && ch.st.rx.items == [] && ch.st.gotFrame == 0
    ensures Run(ch, AtUnterminated).delivered == ch.delivered
    ensures Run(ch, AtUnterminated).st.rx.items == [65, 84]
    ensures Run(ch, AtUnterminated).st.gotFrame == 0
  {
    assert TerminatorCount([65, 84]) == 0;
    ReceivesBuffer(ch, [65, 84]);
    RunAppend(ch, Receives([65, 84]), [PollFrame]);
  }

  /** The late terminator completes the buffered "AT". */
  lemma {:induction false} AtTerminatorCompletes(ch: Channel)
    requires Valid(ch.st) && ch.st.rx.items == [65, 84] && ch.st.gotFrame == 0
    ensures Run(ch, AtTerminator).delivered == ch.delivered + [[65, 84]]
  {
    assert TerminatorCount([13]) == 1;
    ReceivesBuffer(ch, [13]);
    var c1 := Run(ch, Receives([13]));
    PollDeliversLine(c1, [65, 84]);
    RunAppend(ch, Receives([13]), [PollFrame]);
  }

  /** Receiving "AT\r" and polling delivers the payload "AT"; receiving
      "AT" again delivers nothing until its terminator arrives, and then
      "AT". */
  lemma AtCommandScenario()
    ensures Run(Initial, AtLine).delivered == [[65, 84]]
    ensures Run(Initial, AtLine + AtUnterminated).delivered == [[65, 84]]
    ensures Run(Initial, AtLine + AtUnterminated + AtTerminator).delivered == [[65, 84], [65, 84]]
  {
    AtLineDelivers(Initial);
    var c1 := Run(Initial, AtLine);
    AtUnterminatedWaits(c1);
    RunAppend(Initial, AtLine, AtUnterminated);
    var c2 := Run(c1, AtUnterminated);
    AtTerminatorCompletes(c2);
    RunAppend(Initial, AtLine + AtUnterminated, AtTerminator);
  }

  const AtLine: seq<Event> := Receives([65, 84, 13]) + [PollFrame]
  const AtUnterminated: seq<Event> := Receives([65, 84]) + [PollFrame]
  const AtTerminator: seq<Event> := Receives([13]) + [PollFrame]
}
