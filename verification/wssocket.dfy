/** The WebSocket connection: three buffers, a ready state, and what the application sees of them. */
module WsSocket {
  import opened Bytes
  import opened WsFrames

  datatype ReadyState = Open | Closing | Closed

  type Payload = s: seq<byte> | |s| < TWO_64

  /** A frame as it was put in the transmit buffer. */
  datatype Out = OutData(opcode: byte, payload: Payload) | OutClose

  /** What a message callback may do with the socket it is called from. */
  datatype Action = SendText(text: Payload) | SendBinary(data: Payload) | SendPing | DoClose

  /** The fields of the socket, then its history: messages delivered, frames enqueued, bytes accepted by the network. */
  datatype Sock = Sock(
    useMask: bool, rx: seq<byte>, received: seq<byte>, bad: bool, tx: seq<byte>, ready: ReadyState,
    delivered: seq<seq<byte>>, enqueued: seq<Out>, sent: seq<byte>)

  const CLOSE_FRAME: seq<byte> := [0x88, 0x80, 0x00, 0x00, 0x00, 0x00]

  function OutFrame(useMask: bool, opcode: byte, payload: Payload): (f: Frame) {
    Frame(true, opcode, if useMask then WithKey(MASKING_KEY) else Unmasked, payload)
  }

  function OutBytes(useMask: bool, o: Out): (bs: seq<byte>) {
    match o
    case OutData(opcode, payload) => Encode(OutFrame(useMask, opcode % 16, payload))
    case OutClose => CLOSE_FRAME
  }

  function Flatten(useMask: bool, outs: seq<Out>): (bs: seq<byte>) {
    if outs == [] then [] else Flatten(useMask, outs[..|outs| - 1]) + OutBytes(useMask, outs[|outs| - 1])
  }

  function Fresh(useMask: bool): (s: Sock) {
    Sock(useMask, [], [], false, [], Open, [], [], [])
  }

  // ----- Operations -----

  function Enqueue(s: Sock, o: Out): (s': Sock) {
    s.(tx := s.tx + OutBytes(s.useMask, o), enqueued := s.enqueued + [o])
  }

  function SendData(s: Sock, opcode: byte, payload: Payload): (s': Sock) {
    if s.ready != Open then s else Enqueue(s, OutData(opcode, payload))
  }

  function Close(s: Sock): (s': Sock) {
    if s.ready != Open then s else Enqueue(s, OutClose).(ready := Closing)
  }

  function Act(s: Sock, a: Action): (s': Sock) {
    match a
    case SendText(text) => SendData(s, TEXT_FRAME, text)
    case SendBinary(data) => SendData(s, BINARY_FRAME, data)
    case SendPing => SendData(s, PING, [])
    case DoClose => Close(s)
  }

  function ActAll(s: Sock, acts: seq<Action>): (s': Sock)
    decreases |acts|
  {
    if acts == [] then s else ActAll(Act(s, acts[0]), acts[1..])
  }

  predicate IsData(opcode: byte) {
    opcode == TEXT_FRAME || opcode == BINARY_FRAME || opcode == CONTINUATION
  }

  /** What a whole frame does. react is the application's callback: the actions it takes on each message. */
  function Handle(s: Sock, f: Frame, react: seq<byte> -> seq<Action>): (s': Sock)
    requires |f.payload| < TWO_64
  {
    if IsData(f.opcode) then
      var joined := s.received + f.payload;
      if f.fin then ActAll(s.(received := [], delivered := s.delivered + [joined]), react(joined))
      else s.(received := joined)
    else if f.opcode == PING then SendData(s, PONG, f.payload)
    else if f.opcode == PONG then s
    else Close(s)
  }

  function Dispatch(s: Sock, react: seq<byte> -> seq<Action>): (s': Sock)
    decreases |s.rx|
  {
    hide Parse, Handle;
    if s.bad then s
    else
      match Parse(s.rx)
      case NeedMore => s
      case BadLength => Close(s.(bad := true))
      case Whole(f, n) =>
        HandleKeepsRx(s, f, react);
        Dispatch(Handle(s, f, react).(rx := s.rx[n..]), react)
  }

  // ----- Operations do not look at the receive buffer -----

  lemma {:induction false} ActAllFrame(s: Sock, acts: seq<Action>, rx: seq<byte>)
    ensures ActAll(s.(rx := rx), acts) == ActAll(s, acts).(rx := rx)
    ensures var s' := ActAll(s, acts);
      s'.rx == s.rx && s'.received == s.received && s'.bad == s.bad && s'.delivered == s.delivered
        && s'.useMask == s.useMask
    decreases |acts|
  {
    hide OutBytes;
    if acts != [] { ActAllFrame(Act(s, acts[0]), acts[1..], rx); }
  }

  lemma HandleFrame(s: Sock, f: Frame, react: seq<byte> -> seq<Action>, rx: seq<byte>)
    requires |f.payload| < TWO_64
    ensures Handle(s.(rx := rx), f, react) == Handle(s, f, react).(rx := rx)
  {
    hide ActAll, OutBytes;
    if IsData(f.opcode) && f.fin {
      var joined := s.received + f.payload;
      ActAllFrame(s.(received := [], delivered := s.delivered + [joined]), react(joined), rx);
    }
  }

  lemma HandleKeepsRx(s: Sock, f: Frame, react: seq<byte> -> seq<Action>)
    requires |f.payload| < TWO_64
    ensures Handle(s, f, react).rx == s.rx && Handle(s, f, react).bad == s.bad
  {
    hide ActAll, OutBytes;
    if IsData(f.opcode) && f.fin {
      var joined := s.received + f.payload;
      ActAllFrame(s.(received := [], delivered := s.delivered + [joined]), react(joined), s.rx);
    }
  }

  // ----- Chunk independence -----

  /** Dispatching what has arrived and then what arrives later is dispatching everything at once. */
  lemma {:induction false} DispatchInTwo(s: Sock, react: seq<byte> -> seq<Action>, more: seq<byte>)
    ensures var first := Dispatch(s, react);
      Dispatch(first.(rx := first.rx + more), react) == Dispatch(s.(rx := s.rx + more), react)
    decreases |s.rx|
  {
    hide Parse, Handle, OutBytes;
    var all := s.(rx := s.rx + more);
    if !s.bad && !Parse(s.rx).NeedMore? {
      ParseStable(s.rx, more);
      if Parse(s.rx).Whole? {
        var f, n := Parse(s.rx).frame, Parse(s.rx).size;
        HandleKeepsRx(s, f, react);
        var next := Handle(s, f, react).(rx := s.rx[n..]);
        HandleFrame(s, f, react, s.rx + more);
        assert (s.rx + more)[n..] == s.rx[n..] + more;
        DispatchInTwo(next, react, more);
        assert Dispatch(all, react) == Dispatch(next.(rx := s.rx[n..] + more), react);
      }
    }
  }

  function Concat(chunks: seq<seq<byte>>): (bs: seq<byte>) {
    if chunks == [] then [] else chunks[0] + Concat(chunks[1..])
  }

  function DispatchChunks(s: Sock, react: seq<byte> -> seq<Action>, chunks: seq<seq<byte>>): (s': Sock)
    decreases |chunks|
  {
    if chunks == [] then s
    else DispatchChunks(Dispatch(s.(rx := s.rx + chunks[0]), react), react, chunks[1..])
  }

  /** However a stream is split, dispatching after every piece ends in the same state as dispatching once. */
  lemma {:induction false} DispatchChunksIsDispatch(s: Sock, react: seq<byte> -> seq<Action>, chunks: seq<seq<byte>>)
    requires chunks != []
    ensures DispatchChunks(s, react, chunks) == Dispatch(s.(rx := s.rx + Concat(chunks)), react)
    decreases |chunks|
  {
    hide Dispatch;
    var here := s.(rx := s.rx + chunks[0]);
    if |chunks| == 1 {
      assert Concat(chunks[1..]) == [];
      assert Concat(chunks) == chunks[0];
    } else {
      var first := Dispatch(here, react);
      DispatchChunksIsDispatch(first, react, chunks[1..]);
      DispatchInTwo(here, react, Concat(chunks[1..]));
      assert here.rx + Concat(chunks[1..]) == s.rx + Concat(chunks);
    }
  }

  // ----- Whole streams of frames -----

  ghost predicate AllValid(fs: seq<Frame>) {
    forall i :: 0 <= i < |fs| ==> ValidFrame(fs[i])
  }

  ghost function EncodeAll(fs: seq<Frame>): (bs: seq<byte>)
    requires AllValid(fs)
  {
    if fs == [] then [] else Encode(fs[0]) + EncodeAll(fs[1..])
  }

  ghost function HandleAll(s: Sock, fs: seq<Frame>, react: seq<byte> -> seq<Action>): (s': Sock)
    requires AllValid(fs)
    decreases |fs|
  {
    if fs == [] then s else HandleAll(Handle(s, fs[0], react), fs[1..], react)
  }

  /** A stream that begins with encoded frames is handled frame by frame; then the rest is dispatched. */
  lemma {:induction false} DispatchEncoded(s: Sock, fs: seq<Frame>, rest: seq<byte>, react: seq<byte> -> seq<Action>)
    requires !s.bad && AllValid(fs)
    ensures Dispatch(s.(rx := EncodeAll(fs) + rest), react) == Dispatch(HandleAll(s, fs, react).(rx := rest), react)
    decreases |fs|
  {
    hide Handle, Encode, Parse;
    if fs == [] {
      assert EncodeAll(fs) + rest == rest;
    } else {
      var f, later := fs[0], EncodeAll(fs[1..]) + rest;
      var here := s.(rx := EncodeAll(fs) + rest);
      assert here.rx == Encode(f) + later;
      ParseEncode(f, later);
      assert here.rx[|Encode(f)|..] == later;
      HandleFrame(s, f, react, here.rx);
      HandleKeepsRx(s, f, react);
      DispatchEncoded(Handle(s, f, react), fs[1..], rest, react);
    }
  }

  /** The messages a sequence of frames spells, after the fragments in acc, and the fragments left open. */
  function Messages(acc: seq<byte>, fs: seq<Frame>): (r: (seq<seq<byte>>, seq<byte>))
    decreases |fs|
  {
    if fs == [] then ([], acc)
    else if !IsData(fs[0].opcode) then Messages(acc, fs[1..])
    else if fs[0].fin then
      var (ms, left) := Messages([], fs[1..]);
      ([acc + fs[0].payload] + ms, left)
    else Messages(acc + fs[0].payload, fs[1..])
  }

  /** Fragments are joined until FIN and delivered once; control frames in between change nothing of that. */
  lemma {:induction false} HandleAllDelivers(s: Sock, fs: seq<Frame>, react: seq<byte> -> seq<Action>)
    requires AllValid(fs)
    ensures var s' := HandleAll(s, fs, react); var (ms, left) := Messages(s.received, fs);
      s'.delivered == s.delivered + ms && s'.received == left && s'.bad == s.bad
    decreases |fs|
  {
    hide ActAll, OutBytes;
    if fs != [] {
      var f := fs[0];
      var joined := s.received + f.payload;
      ActAllFrame(s.(received := [], delivered := s.delivered + [joined]), react(joined), s.rx);
      HandleAllDelivers(Handle(s, f, react), fs[1..], react);
    }
  }

  // ----- What a socket answers -----

  /** The close frame is a whole frame: final, masked with zeros, empty. */
  lemma CloseFrameIs(rest: seq<byte>)
    ensures Encode(Frame(true, CLOSE, WithKey([0, 0, 0, 0]), [])) == CLOSE_FRAME
    ensures Parse(CLOSE_FRAME + rest) == Whole(Frame(true, 8, WithKey([0, 0, 0, 0]), []), 6)
  {
    hide Parse;
    var f := Frame(true, CLOSE, WithKey([0, 0, 0, 0]), []);
    assert Encode(f) == CLOSE_FRAME;
    ParseEncode(f, rest);
  }

  /** The frames that a callback's actions put in the transmit buffer: nothing after it closed the socket. */
  function Outs(acts: seq<Action>): (outs: seq<Out>) {
    if acts == [] then []
    else
      match acts[0]
      case SendText(text) => [OutData(1, text)] + Outs(acts[1..])
      case SendBinary(data) => [OutData(2, data)] + Outs(acts[1..])
      case SendPing => [OutData(9, [])] + Outs(acts[1..])
      case DoClose => [OutClose]
  }

  lemma {:induction false} NotOpenIsInert(s: Sock, acts: seq<Action>)
    requires s.ready != Open
    ensures ActAll(s, acts) == s
    decreases |acts|
  {
    if acts != [] { NotOpenIsInert(s, acts[1..]); }
  }

  lemma {:induction false} ActAllEnqueues(s: Sock, acts: seq<Action>)
    requires s.ready == Open
    ensures var s' := ActAll(s, acts);
      && s'.enqueued == s.enqueued + Outs(acts)
      && s'.ready == if DoClose in acts then Closing else Open
    decreases |acts|
  {
    hide OutBytes;
    if acts != [] {
      var next := Act(s, acts[0]);
      if acts[0].DoClose? {
        NotOpenIsInert(next, acts[1..]);
      } else {
        ActAllEnqueues(next, acts[1..]);
        assert s.enqueued + Outs(acts) == next.enqueued + Outs(acts[1..]);
      }
    }
  }

  /** An open socket that has one whole frame in its buffer. */
  ghost predicate Holding(s: Sock, f: Frame) {
    ValidFrame(f) && !s.bad && s.ready == Open && s.rx == Encode(f)
  }

  lemma DispatchOne(s: Sock, f: Frame, react: seq<byte> -> seq<Action>)
    requires Holding(s, f)
    ensures Dispatch(s, react) == Handle(s, f, react).(rx := [])
  {
    hide Handle, Encode, Parse;
    ParseEncode(f, []);
    assert s.rx + [] == s.rx;
    HandleKeepsRx(s, f, react);
    DispatchNothing(Handle(s, f, react).(rx := []), react);
  }

  /** A ping is answered by a pong with the same payload, and does nothing else. */
  lemma PingEchoed(s: Sock, fin: bool, mask: MaskOption, data: Payload, react: seq<byte> -> seq<Action>)
    requires Holding(s, Frame(fin, 9, mask, data))
    ensures var s' := Dispatch(s, react);
      && s'.rx == [] && s'.enqueued == s.enqueued + [OutData(10, data)]
      && s'.delivered == s.delivered && s'.received == s.received && s'.ready == Open && !s'.bad
  {
    hide Dispatch, OutBytes, Encode;
    DispatchOne(s, Frame(fin, 9, mask, data), react);
  }

  /** A pong is taken off the buffer and does nothing. */
  lemma PongIgnored(s: Sock, fin: bool, mask: MaskOption, data: Payload, react: seq<byte> -> seq<Action>)
    requires Holding(s, Frame(fin, 10, mask, data))
    ensures Dispatch(s, react) == s.(rx := [])
  {
    hide Dispatch, Encode;
    DispatchOne(s, Frame(fin, 10, mask, data), react);
  }

  /**
   * A close frame, or one with an opcode that is not known, closes the socket: one close frame is put in the buffer.
   */
  lemma CloseAnswered(s: Sock, f: Frame, react: seq<byte> -> seq<Action>)
    requires Holding(s, f) && f.opcode !in {0, 1, 2, 9, 10}
    ensures var s' := Dispatch(s, react);
      && s'.rx == [] && s'.ready == Closing && s'.enqueued == s.enqueued + [OutClose]
      && s'.tx == s.tx + CLOSE_FRAME && s'.delivered == s.delivered && s'.received == s.received && !s'.bad
  {
    hide Dispatch, Encode;
    DispatchOne(s, f, react);
  }

  /** A final data frame delivers what was received so far with its payload; then the callback acts. */
  lemma MessageDelivered(s: Sock, opcode: byte, mask: MaskOption, data: Payload, react: seq<byte> -> seq<Action>)
    requires opcode <= 2 && Holding(s, Frame(true, opcode, mask, data))
    ensures var (s', message) := (Dispatch(s, react), s.received + data);
      && s'.rx == [] && s'.received == [] && s'.delivered == s.delivered + [message] && !s'.bad
      && s'.enqueued == s.enqueued + Outs(react(message))
      && s'.ready == if DoClose in react(message) then Closing else Open
  {
    hide Dispatch, Encode, ActAll, Outs;
    DispatchOne(s, Frame(true, opcode, mask, data), react);
    var message := s.received + data;
    var told := s.(received := [], delivered := s.delivered + [message]);
    ActAllEnqueues(told, react(message));
    ActAllFrame(told, react(message), s.rx);
  }

  /** A length that cannot be: the socket is closed, the buffer stays as it is, and nothing is dispatched any more. */
  lemma BadLengthCloses(s: Sock, react: seq<byte> -> seq<Action>, more: seq<byte>)
    requires !s.bad && s.ready == Open && Parse(s.rx) == BadLength
    ensures var s' := Dispatch(s, react);
      && s'.bad && s'.ready == Closing && s'.rx == s.rx && s'.delivered == s.delivered
      && s'.enqueued == s.enqueued + [OutClose]
      && Dispatch(s'.(rx := s'.rx + more), react) == s'.(rx := s'.rx + more)
  {
    hide Parse;
  }

  function Pongs(outs: seq<Out>): (ps: seq<seq<byte>>) {
    if outs == [] then []
    else
      var last := outs[|outs| - 1];
      Pongs(outs[..|outs| - 1]) + if last.OutData? && last.opcode == 10 then [last.payload] else []
  }

  function Pings(fs: seq<Frame>): (ps: seq<seq<byte>>) {
    if fs == [] then [] else (if fs[0].opcode == 9 then [fs[0].payload] else []) + Pings(fs[1..])
  }

  lemma OneMoreOut(outs: seq<Out>, o: Out)
    ensures Pongs(outs + [o]) == Pongs(outs) + if o.OutData? && o.opcode == 10 then [o.payload] else []
  {
    assert (outs + [o])[..|outs|] == outs;
  }

  lemma {:induction false} ActAllPongs(s: Sock, acts: seq<Action>)
    ensures Pongs(ActAll(s, acts).enqueued) == Pongs(s.enqueued)
    decreases |acts|
  {
    hide OutBytes, Pongs;
    if acts != [] {
      ActAllPongs(Act(s, acts[0]), acts[1..]);
      if s.ready == Open {
        match acts[0]
        case SendText(text) => OneMoreOut(s.enqueued, OutData(TEXT_FRAME, text));
        case SendBinary(data) => OneMoreOut(s.enqueued, OutData(BINARY_FRAME, data));
        case SendPing => OneMoreOut(s.enqueued, OutData(PING, []));
        case DoClose => OneMoreOut(s.enqueued, OutClose);
      }
    }
  }

  lemma {:induction false} StaysShut(s: Sock, fs: seq<Frame>, react: seq<byte> -> seq<Action>)
    requires s.ready != Open && AllValid(fs)
    ensures HandleAll(s, fs, react).ready != Open && HandleAll(s, fs, react).enqueued == s.enqueued
    decreases |fs|
  {
    hide ActAll;
    if fs != [] {
      var joined := s.received + fs[0].payload;
      NotOpenIsInert(s.(received := [], delivered := s.delivered + [joined]), react(joined));
      StaysShut(Handle(s, fs[0], react), fs[1..], react);
    }
  }

  /**
   * Over any frames and with any callback: as long as the socket stays open, its pongs are exactly the payloads of the
   * pings it received, in order.
   */
  lemma {:induction false} PongsArePings(s: Sock, fs: seq<Frame>, react: seq<byte> -> seq<Action>)
    requires AllValid(fs) && HandleAll(s, fs, react).ready == Open
    ensures Pongs(HandleAll(s, fs, react).enqueued) == Pongs(s.enqueued) + Pings(fs)
    decreases |fs|
  {
    hide OutBytes, Pongs, Handle;
    if fs != [] {
      var next := Handle(s, fs[0], react);
      if s.ready != Open { StaysShut(s, fs, react); }
      PongsArePings(next, fs[1..], react);
      HandlePongs(s, fs[0], react);
    }
  }

  lemma HandlePongs(s: Sock, f: Frame, react: seq<byte> -> seq<Action>)
    requires s.ready == Open && |f.payload| < TWO_64
    ensures Pongs(Handle(s, f, react).enqueued) == Pongs(s.enqueued) + if f.opcode == 9 then [f.payload] else []
  {
    hide OutBytes, Pongs, ActAll;
    if IsData(f.opcode) {
      var joined := s.received + f.payload;
      ActAllPongs(s.(received := [], delivered := s.delivered + [joined]), react(joined));
    } else if f.opcode == PING {
      OneMoreOut(s.enqueued, OutData(PONG, f.payload));
    } else {
      OneMoreOut(s.enqueued, OutClose);
    }
  }

  /** The same for the stream, however it is cut into pieces. */
  lemma StreamAnswered(s: Sock, fs: seq<Frame>, react: seq<byte> -> seq<Action>, chunks: seq<seq<byte>>)
    requires !s.bad && s.rx == [] && AllValid(fs) && chunks != [] && Concat(chunks) == EncodeAll(fs)
    ensures var s' := DispatchChunks(s, react, chunks);
      && s' == HandleAll(s, fs, react).(rx := [])
      && (s'.ready == Open ==> Pongs(s'.enqueued) == Pongs(s.enqueued) + Pings(fs))
  {
    hide Dispatch, DispatchChunks, HandleAll, Encode, Pongs, Pings;
    DispatchChunksIsDispatch(s, react, chunks);
    assert s.rx + Concat(chunks) == EncodeAll(fs) + [];
    DispatchEncoded(s, fs, [], react);
    DispatchNothing(HandleAll(s, fs, react).(rx := []), react);
    if HandleAll(s, fs, react).ready == Open { PongsArePings(s, fs, react); }
  }

  // ----- Round trip between two sockets -----

  datatype Msg = Text(data: Payload) | Binary(data: Payload)

  function MsgOpcode(m: Msg): (b: byte) { if m.Text? then TEXT_FRAME else BINARY_FRAME }

  /** Lengths that the length field of RFC 6455 can carry. */
  ghost predicate Sendable(ms: seq<Msg>) {
    forall i :: 0 <= i < |ms| ==> |ms[i].data| < TWO_63
  }

  function SendMsgs(s: Sock, ms: seq<Msg>): (s': Sock)
    decreases |ms|
  {
    if ms == [] then s else SendMsgs(SendData(s, MsgOpcode(ms[0]), ms[0].data), ms[1..])
  }

  function MsgFrames(useMask: bool, ms: seq<Msg>): (fs: seq<Frame>)
    ensures |fs| == |ms|
  {
    seq(|ms|, i requires 0 <= i < |ms| => OutFrame(useMask, MsgOpcode(ms[i]), ms[i].data))
  }

  function Contents(ms: seq<Msg>): (ds: seq<seq<byte>>)
    ensures |ds| == |ms|
  {
    seq(|ms|, i requires 0 <= i < |ms| => ms[i].data)
  }

  lemma {:induction false} SendMsgsEncodes(s: Sock, ms: seq<Msg>)
    requires s.ready == Open && Sendable(ms)
    ensures AllValid(MsgFrames(s.useMask, ms))
    ensures SendMsgs(s, ms).tx == s.tx + EncodeAll(MsgFrames(s.useMask, ms))
    ensures SendMsgs(s, ms).ready == Open
    decreases |ms|
  {
    hide Encode;
    if ms != [] {
      var fs := MsgFrames(s.useMask, ms);
      assert fs[1..] == MsgFrames(s.useMask, ms[1..]);
      var next := SendData(s, MsgOpcode(ms[0]), ms[0].data);
      assert next.tx == s.tx + Encode(fs[0]) && next.ready == Open && next.useMask == s.useMask;
      SendMsgsEncodes(next, ms[1..]);
    }
  }

  lemma {:induction false} MsgFramesSpell(useMask: bool, ms: seq<Msg>)
    ensures Messages([], MsgFrames(useMask, ms)) == (Contents(ms), [])
    decreases |ms|
  {
    if ms != [] {
      MsgFramesSpell(useMask, ms[1..]);
      var fs := MsgFrames(useMask, ms);
      assert fs[1..] == MsgFrames(useMask, ms[1..]);
      assert [] + fs[0].payload == ms[0].data;
      assert Contents(ms) == [ms[0].data] + Contents(ms[1..]);
    }
  }

  /**
   * Round trip: what one open socket prints for any messages, masked or not, another one that is between messages
   * delivers as exactly those messages in order, with nothing left over, however the stream is cut on the way.
   */
  lemma RoundTrip(a: Sock, b: Sock, ms: seq<Msg>, react: seq<byte> -> seq<Action>, chunks: seq<seq<byte>>)
    requires a.ready == Open && a.tx == [] && Sendable(ms)
    requires !b.bad && b.rx == [] && b.received == []
    requires chunks != [] && Concat(chunks) == SendMsgs(a, ms).tx
    ensures var b' := DispatchChunks(b, react, chunks);
      b'.delivered == b.delivered + Contents(ms) && b'.rx == [] && b'.received == [] && !b'.bad
  {
    hide Dispatch, DispatchChunks, HandleAll, Encode;
    var fs := MsgFrames(a.useMask, ms);
    SendMsgsEncodes(a, ms);
    DispatchChunksIsDispatch(b, react, chunks);
    assert b.rx + Concat(chunks) == EncodeAll(fs) + [];
    DispatchEncoded(b, fs, [], react);
    HandleAllDelivers(b, fs, react);
    MsgFramesSpell(a.useMask, ms);
    DispatchNothing(HandleAll(b, fs, react).(rx := []), react);
  }

  lemma DispatchNothing(s: Sock, react: seq<byte> -> seq<Action>)
    requires s.rx == []
    ensures Dispatch(s, react) == s
  {
  }

  // ----- Everything that can happen to a socket -----

  /** Calls of the application, and what the network does to the two buffers inside poll. */
  datatype Event =
    | Send(m: Msg)
    | Ping
    | CloseCall
    | DispatchCall(react: seq<byte> -> seq<Action>)
    | Arrives(bytes: seq<byte>)
    | Accepted(count: nat)
    | ConnectionLost
    | PollEnds

  function Next(s: Sock, e: Event): (s': Sock) {
    match e
    case Send(m) => SendData(s, MsgOpcode(m), m.data)
    case Ping => SendData(s, PING, [])
    case CloseCall => Close(s)
    case DispatchCall(react) => Dispatch(s, react)
    case Arrives(bytes) => if s.ready == Closed then s else s.(rx := s.rx + bytes)
    case Accepted(n) =>
      if s.ready == Closed || n > |s.tx| then s else s.(sent := s.sent + s.tx[..n], tx := s.tx[n..])
    case ConnectionLost => s.(ready := Closed)
    case PollEnds => if s.tx == [] && s.ready == Closing then s.(ready := Closed) else s
  }

  /** What the calls of an open socket put in the transmit buffer. */
  lemma CallsEnqueue(s: Sock, e: Event)
    requires s.ready == Open && (e.Send? || e.Ping? || e.CloseCall?)
    ensures var out := match e
        case Send(Text(data)) => OutData(1, data)
        case Send(Binary(data)) => OutData(2, data)
        case Ping => OutData(9, [])
        case _ => OutClose;
      Next(s, e) == s.(tx := s.tx + OutBytes(s.useMask, out), enqueued := s.enqueued + [out],
                       ready := if e.CloseCall? then Closing else Open)
  {
    hide OutBytes;
  }

  /** And how the other side reads it: a final frame, masked with the fixed key exactly if the socket masks. */
  lemma OutBytesParse(useMask: bool, opcode: byte, payload: Payload, rest: seq<byte>)
    requires opcode < 16 && |payload| < TWO_63
    ensures var bs := OutBytes(useMask, OutData(opcode, payload));
      var mask := if useMask then WithKey([0x12, 0x34, 0x56, 0x78]) else Unmasked;
      Parse(bs + rest) == Whole(Frame(true, opcode, mask, payload), |bs|)
  {
    hide Parse, Encode;
    ParseEncode(OutFrame(useMask, opcode, payload), rest);
  }

  /** At most one close frame was enqueued, nothing after it, and none while the socket is open. */
  ghost predicate CloseLast(s: Sock) {
    && (forall i :: 0 <= i < |s.enqueued| && s.enqueued[i].OutClose? ==> i == |s.enqueued| - 1 && s.ready != Open)
    && (s.ready == Closing ==> s.enqueued != [] && s.enqueued[|s.enqueued| - 1].OutClose?)
  }

  /** Bytes sent and bytes waiting are together the frames enqueued, whole and in order. */
  ghost predicate Conserved(s: Sock) {
    s.sent + s.tx == Flatten(s.useMask, s.enqueued)
  }

  function Rank(r: ReadyState): nat {
    match r
    case Open => 0
    case Closing => 1
    case Closed => 2
  }

  /** s' is a later state of the same socket. */
  ghost predicate Later(s: Sock, s': Sock) {
    && Rank(s.ready) <= Rank(s'.ready) && s.useMask == s'.useMask
    && s.enqueued <= s'.enqueued && s.sent <= s'.sent && s.delivered <= s'.delivered
    && (s.ready != Open ==> s'.enqueued == s.enqueued)
  }

  ghost predicate Inv(s: Sock) {
    CloseLast(s) && Conserved(s)
  }

  lemma EnqueueKeeps(s: Sock, o: Out)
    requires Inv(s) && s.ready == Open
    ensures Conserved(Enqueue(s, o))
    ensures o.OutData? ==> Inv(Enqueue(s, o))
    ensures o.OutClose? ==> Inv(Enqueue(s, o).(ready := Closing))
  {
    hide OutBytes;
    var outs := s.enqueued + [o];
    assert outs[..|outs| - 1] == s.enqueued;
    assert s.sent + (s.tx + OutBytes(s.useMask, o)) == (s.sent + s.tx) + OutBytes(s.useMask, o);
  }

  lemma SendDataKeeps(s: Sock, opcode: byte, payload: Payload)
    requires Inv(s)
    ensures Inv(SendData(s, opcode, payload)) && Later(s, SendData(s, opcode, payload))
  {
    hide OutBytes, CloseLast, Conserved;
    if s.ready == Open { EnqueueKeeps(s, OutData(opcode, payload)); }
  }

  lemma CloseKeeps(s: Sock)
    requires Inv(s)
    ensures Inv(Close(s)) && Later(s, Close(s))
  {
    hide OutBytes, CloseLast, Conserved;
    if s.ready == Open { EnqueueKeeps(s, OutClose); }
  }

  lemma LaterTransitive(a: Sock, b: Sock, c: Sock)
    requires Later(a, b) && Later(b, c)
    ensures Later(a, c)
  {
  }

  lemma {:induction false} ActAllKeeps(s: Sock, acts: seq<Action>)
    requires Inv(s)
    ensures Inv(ActAll(s, acts)) && Later(s, ActAll(s, acts))
    decreases |acts|
  {
    hide Inv, Later, SendData, Close;
    if acts == [] {
      LaterReflexive(s);
    } else {
      var a := acts[0];
      match a {
        case SendText(text) => SendDataKeeps(s, TEXT_FRAME, text);
        case SendBinary(data) => SendDataKeeps(s, BINARY_FRAME, data);
        case SendPing => SendDataKeeps(s, PING, []);
        case DoClose => CloseKeeps(s);
      }
      ActAllKeeps(Act(s, a), acts[1..]);
      LaterTransitive(s, Act(s, a), ActAll(s, acts));
    }
  }

  lemma LaterReflexive(s: Sock)
    ensures Later(s, s)
  {
  }

  lemma HandleKeeps(s: Sock, f: Frame, react: seq<byte> -> seq<Action>)
    requires Inv(s) && |f.payload| < TWO_64
    ensures Inv(Handle(s, f, react)) && Later(s, Handle(s, f, react))
  {
    hide SendData, Close, ActAll, Flatten;
    if IsData(f.opcode) {
      var joined := s.received + f.payload;
      if f.fin {
        var told := s.(received := [], delivered := s.delivered + [joined]);
        assert Inv(told) && Later(s, told);
        ActAllKeeps(told, react(joined));
        LaterTransitive(s, told, ActAll(told, react(joined)));
      }
    } else if f.opcode == PING {
      SendDataKeeps(s, PONG, f.payload);
    } else if f.opcode != PONG {
      CloseKeeps(s);
    }
  }

  lemma {:induction false} DispatchKeeps(s: Sock, react: seq<byte> -> seq<Action>)
    requires Inv(s)
    ensures Inv(Dispatch(s, react)) && Later(s, Dispatch(s, react))
    decreases |s.rx|
  {
    hide Parse, Handle, Close, Flatten;
    if !s.bad {
      match Parse(s.rx)
      case NeedMore =>
      case BadLength => CloseKeeps(s.(bad := true)); LaterTransitive(s, s.(bad := true), Close(s.(bad := true)));
      case Whole(f, n) =>
        HandleKeepsRx(s, f, react);
        HandleKeeps(s, f, react);
        var next := Handle(s, f, react).(rx := s.rx[n..]);
        assert Inv(next) && Later(s, next);
        DispatchKeeps(next, react);
        LaterTransitive(s, next, Dispatch(next, react));
    }
  }

  /** Every event keeps the conservation law and the place of the close frame, and only moves forward. */
  lemma NextKeeps(s: Sock, e: Event)
    requires Inv(s)
    ensures Inv(Next(s, e)) && Later(s, Next(s, e))
  {
    hide SendData, Close, Dispatch, Flatten;
    match e
    case Send(m) => SendDataKeeps(s, MsgOpcode(m), m.data);
    case Ping => SendDataKeeps(s, PING, []);
    case CloseCall => CloseKeeps(s);
    case DispatchCall(react) => DispatchKeeps(s, react);
    case Accepted(n) =>
      if n <= |s.tx| { assert (s.sent + s.tx[..n]) + s.tx[n..] == s.sent + s.tx; }
    case _ =>
  }

  function Run(s: Sock, es: seq<Event>): (s': Sock)
    decreases |es|
  {
    if es == [] then s else Run(Next(s, es[0]), es[1..])
  }

  /**
   * On every run of a fresh socket: sent ++ waiting is the concatenation of whole frames with at most one close
   * frame, the last one; and every later state continues every earlier one.
   */
  lemma {:induction false} RunKeeps(s: Sock, es: seq<Event>)
    requires Inv(s)
    ensures Inv(Run(s, es)) && Later(s, Run(s, es))
    decreases |es|
  {
    hide Inv, Later, Next;
    if es == [] {
      LaterReflexive(s);
    } else {
      NextKeeps(s, es[0]);
      RunKeeps(Next(s, es[0]), es[1..]);
      LaterTransitive(s, Next(s, es[0]), Run(s, es));
    }
  }

  lemma FreshInv(useMask: bool)
    ensures Inv(Fresh(useMask))
  {
  }

  /** A socket that closes because its buffer drained has sent everything it ever enqueued, the close frame last. */
  lemma DrainedCompletely(s: Sock)
    requires Inv(s) && s.ready == Closing && Next(s, PollEnds).ready == Closed
    ensures s.sent == Flatten(s.useMask, s.enqueued) && s.enqueued != [] && s.enqueued[|s.enqueued| - 1].OutClose?
  {
    assert s.sent + [] == s.sent;
  }
}
