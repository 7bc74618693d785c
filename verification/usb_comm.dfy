/** The USB virtual-COM communication layer: a receive FIFO filled one
    byte at a time by the USB stack's receive callback, a transmit FIFO
    drained by its transmit callback, and a count of complete frames
    (bytes up to a carriage return) waiting in the receive FIFO. */
module UsbComm {
  import opened Bytes
  import Fifo

  /** Capacity of each of the two FIFOs. */
  const BufLen: nat := 2048

  /** The frame terminator, a carriage return. */
  const Terminator: uint8 := 13

  /** The module's static state: both FIFOs and the `gotFrame` counter. */
  datatype CommState = CommState(rx: Fifo.Fifo, tx: Fifo.Fifo, gotFrame: uint8)

  predicate Valid(st: CommState) {
    && Fifo.Valid(st.rx) && st.rx.len == BufLen
    && Fifo.Valid(st.tx) && st.tx.len == BufLen
  }

  /** Zero-initialised statics before any initialisation code has run. */
  const Startup: CommState := CommState(Fifo.Fifo([], 0), Fifo.Fifo([], 0), 0)

  /** Registers both FIFOs over their 2048-byte buffers. The frame counter
      is not touched. */
  function Init(st: CommState): (st': CommState)
    ensures Valid(st')
    ensures Fifo.IsEmpty(st'.rx) && Fifo.IsEmpty(st'.tx)
    ensures st'.gotFrame == st.gotFrame
  {
    CommState(Fifo.Create(BufLen), Fifo.Create(BufLen), st.gotFrame)
  }

  // ---------------------------------------------------------------------
  // Frames in a byte sequence

  /** Number of terminators in `s`. */
  function TerminatorCount(s: seq<uint8>): nat
  {
    if s == [] then 0
    else (if s[0] == Terminator then 1 else 0) + TerminatorCount(s[1..])
  }

  lemma {:induction false} TerminatorCountAppend(a: seq<uint8>, b: seq<uint8>)
    ensures TerminatorCount(a + b) == TerminatorCount(a) + TerminatorCount(b)
    decreases |a|
  {
    if a == [] {
      assert a + b == b;
    } else {
      assert (a + b)[1..] == a[1..] + b;
      TerminatorCountAppend(a[1..], b);
    }
  }

  lemma {:induction false} TerminatorCountPositive(s: seq<uint8>)
    ensures TerminatorCount(s) > 0 <==> Terminator in s
    decreases |s|
  {
    if s != [] {
      TerminatorCountPositive(s[1..]);
      assert s == [s[0]] + s[1..];
    }
  }

  /** Where the first frame of a byte sequence ends. */
  datatype Split = Found(payload: seq<uint8>, rest: seq<uint8>) | Missing

  /** Splits `s` at its first terminator. */
  function SplitFrame(s: seq<uint8>): (r: Split)
    ensures r.Found? <==> Terminator in s
    ensures r.Found? ==> s == r.payload + [Terminator] + r.rest
    ensures r.Found? ==> Terminator !in r.payload
    decreases |s|
  {
    if s == [] then Missing
    else if s[0] == Terminator then Found([], s[1..])
    else match SplitFrame(s[1..])
      case Missing => Missing
      case Found(p, rest) => Found([s[0]] + p, rest)
  }

  /** The first terminator is the only place a frame can end: any
      decomposition with a terminator-free payload is the one SplitFrame
      finds. */
  lemma {:induction false} SplitFrameUnique(s: seq<uint8>, p: seq<uint8>, rest: seq<uint8>)
    requires s == p + [Terminator] + rest
    requires Terminator !in p
    ensures SplitFrame(s) == Found(p, rest)
    decreases |p|
  {
    if p != [] {
      assert s[1..] == p[1..] + [Terminator] + rest;
      SplitFrameUnique(s[1..], p[1..], rest);
    }
  }

  /** Number of bytes one frame extraction pops from a FIFO holding `s`:
      up to and including the first terminator, or everything. */
  function Span(s: seq<uint8>): (n: nat)
    ensures n <= |s|
  {
    match SplitFrame(s)
    case Found(p, _) => |p| + 1
    case Missing => |s|
  }

  /** A byte popped before any terminator lies within the span, so the
      store through `len` hits a fresh index below 256. */
  lemma PoppedWithinSpan(s: seq<uint8>, n: nat)
    requires n < |s| && Terminator !in s[..n]
    ensures n < Span(s)
  {
    if Terminator in s {
      var p := SplitFrame(s).payload;
      assert s[|p|] == Terminator;
    }
  }

  /** The first terminator popped closes the frame SplitFrame finds. */
  lemma FrameEndsAtTerminator(s: seq<uint8>, n: nat)
    requires 0 < n <= |s| && s[n - 1] == Terminator
    requires Terminator !in s[..n - 1]
    ensures SplitFrame(s) == Found(s[..n - 1], s[n..])
  {
    assert s == s[..n - 1] + [Terminator] + s[n..];
    SplitFrameUnique(s, s[..n - 1], s[n..]);
  }

  // ---------------------------------------------------------------------
  // Callbacks and polls

  /** Receive callback: pushes `c` and counts a frame when `c` is the
      terminator and the push succeeded. The counter is a `uint8_t`. */
  function RxCallback(st: CommState, c: uint8): (st': CommState)
    requires Valid(st)
    ensures Valid(st') && st'.tx == st.tx
    ensures !Fifo.IsFull(st.rx) ==> st'.rx.items == st.rx.items + [c]
    ensures Fifo.IsFull(st.rx) ==> st' == st
    ensures st'.gotFrame == (if c == Terminator && !Fifo.IsFull(st.rx) then Inc8(st.gotFrame) else st.gotFrame)
  {
    var pushed := Fifo.Push(st.rx, c);
    var st1 := st.(rx := pushed.q);
    if c == Terminator && pushed.ok then st1.(gotFrame := Inc8(st.gotFrame)) else st1
  }

  /** Transmit callback result: `status` 1 with the byte in `c`, or
      status 0 with the caller's `c` left as it was. */
  datatype TxResult = TxResult(status: uint8, c: uint8, st: CommState)

  function TxCallback(st: CommState, c: uint8): (r: TxResult)
    requires Valid(st)
    ensures Valid(r.st) && r.st.rx == st.rx && r.st.gotFrame == st.gotFrame
    ensures !Fifo.IsEmpty(st.tx) ==> r.status == 1 && [r.c] + r.st.tx.items == st.tx.items
    ensures Fifo.IsEmpty(st.tx) ==> r.status == 0 && r.c == c && r.st == st
  {
    match Fifo.Pop(st.tx)
    case Popped(b, rest) => TxResult(1, b, st.(tx := rest))
    case Empty => TxResult(0, c, st)
  }

  /** Blocking read of one received byte; the busy-wait is replaced by the
      precondition that a byte is there. */
  function Getc(st: CommState): (r: (uint8, CommState))
    requires Valid(st) && !Fifo.IsEmpty(st.rx)
    ensures Valid(r.1) && r.1.tx == st.tx && r.1.gotFrame == st.gotFrame
    ensures [r.0] + r.1.rx.items == st.rx.items
  {
    var p := Fifo.Pop(st.rx);
    (p.b, st.(rx := p.rest))
  }

  /** The three outcomes of a frame poll, with the codes the C function
      returns. */
  datatype FrameStatus = FrameOk | NoFrame | FrameError {
    function Code(): uint8 {
      match this
      case FrameOk => 0
      case NoFrame => 1
      case FrameError => 2
    }
  }

  datatype Polled = Polled(status: FrameStatus, payload: seq<uint8>, st: CommState)

  /** What a frame poll does to the state and which payload it delivers,
      independent of the caller's buffer. */
  function Poll(st: CommState): (r: Polled)
    requires Valid(st)
    ensures Valid(r.st) && r.st.tx == st.tx
    ensures st.gotFrame == 0 ==> r == Polled(NoFrame, [], st)
    ensures st.gotFrame != 0 && Terminator in st.rx.items ==>
      && r.status == FrameOk
      && st.rx.items == r.payload + [Terminator] + r.st.rx.items
      && Terminator !in r.payload
      && r.st.gotFrame == st.gotFrame - 1
    ensures st.gotFrame != 0 && Terminator !in st.rx.items ==>
      && r.status == FrameError
      && r.payload == []
      && Fifo.IsEmpty(r.st.rx)
      && r.st.gotFrame == st.gotFrame
  {
    if st.gotFrame == 0 then Polled(NoFrame, [], st)
    else match SplitFrame(st.rx.items)
      case Found(p, rest) =>
        Polled(FrameOk, p, st.(rx := st.rx.(items := rest), gotFrame := Dec8(st.gotFrame)))
      case Missing =>
        Polled(FrameError, [], st.(rx := st.rx.(items := [])))
  }

  /** The frame poll as the C function performs it: pop a byte, store it
      at `buf[len++]`, stop at the terminator, which is replaced by a zero
      byte; report an error if the FIFO runs dry first. `len` is a
      `uint8_t` and nothing bounds the writes, so the caller must supply a
      buffer that holds every byte the call pops. */
  method GetFrame(st: CommState, buf: seq<uint8>)
    returns (status: uint8, len: uint8, out: seq<uint8>, st': CommState)
    requires Valid(st)
    requires st.gotFrame != 0 ==> Span(st.rx.items) <= |buf| && Span(st.rx.items) <= 256
    ensures status == Poll(st).status.Code() && st' == Poll(st).st
    ensures |out| == |buf|
    ensures status == 0 ==>
      var p := Poll(st).payload;
      && len as int == |p|
      && out[..len] == p
      && out[len] == 0
      && out[len + 1..] == buf[len + 1..]
    ensures status == 1 ==> len == 0 && out == buf
    ensures status == 2 ==>
      var n := |st.rx.items|;
      && len == 0
      && out[..n] == st.rx.items
      && out[n..] == buf[n..]
  {
    len := 0;
    out := buf;
    if st.gotFrame == 0 {
      status := 1;
      st' := st;
      return;
    }
    var s := st.rx.items;
    var rx := st.rx;
    ghost var n: nat := 0;
    while true
      invariant Fifo.Valid(rx) && rx.len == st.rx.len
      invariant n <= |s| && rx.items == s[n..]
      invariant Terminator !in s[..n]
      invariant n <= Span(s)
      invariant len as int == (if n < 256 then n else 0)
      invariant |out| == |buf|
      invariant out[..n] == s[..n]
      invariant out[n..] == buf[n..]
      decreases |rx.items|
    {
      if Fifo.IsEmpty(rx) {
        assert n == |s|;
        assert Terminator !in s by { assert s[..n] == s; }
        len := 0;
        status := 2;
        st' := st.(rx := rx);
        return;
      }
      var popped := Fifo.Pop(rx);
      var c := popped.b;
      rx := popped.rest;
      assert c == s[n];
      PoppedWithinSpan(s, n);
      out := out[len := c];
      len := Inc8(len);
      n := n + 1;
      assert s[..n] == s[..n - 1] + [c];
      if c == Terminator {
        len := Dec8(len);
        out := out[len := 0];
        FrameEndsAtTerminator(s, n);
        break;
      }
    }
    status := 0;
    st' := st.(rx := rx, gotFrame := Dec8(st.gotFrame));
  }
}
