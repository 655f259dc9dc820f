/** The socket object: the same operations as loops over its buffers. */
module WsClient {
  import opened Bytes
  import opened Bits
  import opened WsFrames
  import opened WsSocket

  /** The fields of a frame header, once all its bytes and all its payload are there. */
  datatype Header = HeadShort | HeadBad | Head(fin: bool, opcode: byte, mask: MaskOption, size: nat, n: nat)

  function PayloadOf(rx: seq<byte>, mask: MaskOption, size: nat, n: nat): (data: seq<byte>)
    requires size + n <= |rx|
    ensures |data| == n
  {
    if mask.WithKey? then Masked(rx[size..size + n], mask.key) else rx[size..size + n]
  }

  lemma OutBytesIs(useMask: bool, opcode: byte, message: Payload, header: seq<byte>)
    requires opcode < 16
    requires header == [0x80 + opcode] + LengthBytes(|message|, useMask) + if useMask then MASKING_KEY else []
    ensures OutBytes(useMask, OutData(opcode, message))
      == header + if useMask then Masked(message, MASKING_KEY) else message
  {
    hide Masked, LengthBytes;
  }

  class RealWebSocket {
    const useMask: bool
    var rxbuf: seq<byte>
    var txbuf: seq<byte>
    var receivedData: seq<byte>
    var readyState: ReadyState
    var isRxBad: bool
    ghost var delivered: seq<seq<byte>>
    ghost var enqueued: seq<Out>
    ghost var sent: seq<byte>

    constructor (useMask: bool)
      ensures State() == Fresh(useMask)
    {
      this.useMask := useMask;
      rxbuf, txbuf, receivedData := [], [], [];
      readyState, isRxBad := Open, false;
      delivered, enqueued, sent := [], [], [];
    }

    ghost function State(): (s: Sock)
      reads this
    {
      Sock(useMask, rxbuf, receivedData, isRxBad, txbuf, readyState, delivered, enqueued, sent)
    }

    method BuildHeader(opcode: byte, n: nat) returns (header: seq<byte>)
      requires opcode < 16 && n < TWO_64
      ensures header == [0x80 + opcode] + LengthBytes(n, useMask) + if useMask then MASKING_KEY else []
    {
      hide BigEndian;
      header := [0x80 + opcode];
      var bit := if useMask then 0x80 else 0;
      if n < 126 {
        header := header + [n + bit];
      } else if n < 65536 {
        header := header + [126 + bit] + BigEndian(n, 2);
      } else {
        header := header + [127 + bit] + BigEndian(n, 8);
      }
      assert header == [0x80 + opcode] + LengthBytes(n, useMask);
      if useMask { header := header + MASKING_KEY; }
    }

    /** sendData: header, message, then masking in place at the end of the transmit buffer. */
    method SendData(opcode: byte, message: Payload)
      requires opcode < 16
      modifies this
      ensures State() == WsSocket.SendData(old(State()), opcode, message)
    {
      hide Masked, LengthBytes, OutBytes;
      if readyState == Closing || readyState == Closed { return; }
      var header := BuildHeader(opcode, |message|);
      ghost var before := txbuf + header;
      txbuf := txbuf + header + message;
      if useMask {
        assert txbuf[..|before|] == before && txbuf[|before|..] == message;
        MaskTail(|message|);
      }
      OutBytesIs(useMask, opcode, message, header);
      assert txbuf == old(txbuf) + OutBytes(useMask, OutData(opcode, message));
      enqueued := enqueued + [OutData(opcode, message)];
    }

    /** XORs the last n bytes of the transmit buffer with the key. */
    method MaskTail(n: nat)
      requires n <= |txbuf|
      modifies this`txbuf
      ensures var o := old(|txbuf|) - n;
        txbuf == old(txbuf[..o]) + Masked(old(txbuf[o..]), MASKING_KEY)
    {
      hide Xor;
      var offset := |txbuf| - n;
      ghost var tail := txbuf[offset..];
      for i := 0 to n
        invariant |txbuf| == offset + n
        invariant txbuf[..offset] == old(txbuf[..offset])
        invariant forall k :: 0 <= k < n ==>
          txbuf[offset + k] == if k < i then Masked(tail, MASKING_KEY)[k] else tail[k]
      {
        txbuf := txbuf[offset + i := Xor(txbuf[offset + i], MASKING_KEY[i % 4])];
      }
      assert txbuf[offset..] == Masked(tail, MASKING_KEY);
      assert txbuf == txbuf[..offset] + txbuf[offset..];
    }

    method CloseSocket()
      modifies this
      ensures State() == Close(old(State()))
    {
      if readyState == Closing || readyState == Closed { return; }
      readyState := Closing;
      txbuf := txbuf + CLOSE_FRAME;
      enqueued := enqueued + [OutClose];
    }

    /** What the application does from inside its callback. */
    method Perform(acts: seq<Action>)
      modifies this
      ensures State() == ActAll(old(State()), acts)
    {
      hide WsSocket.SendData, Close;
      ghost var goal := ActAll(State(), acts);
      var left := acts;
      while left != []
        invariant ActAll(State(), left) == goal
        decreases |left|
      {
        match left[0] {
          case SendText(text) => SendData(TEXT_FRAME, text);
          case SendBinary(data) => SendData(BINARY_FRAME, data);
          case SendPing => SendData(PING, []);
          case DoClose => CloseSocket();
        }
        left := left[1..];
      }
    }

    /** _dispatchBinary: handles whole frames at the front of the receive buffer until there is none. */
    method DispatchBinary(react: seq<byte> -> seq<Action>)
      modifies this
      ensures State() == Dispatch(old(State()), react)
    {
      hide Parse, Handle, PayloadOf;
      ghost var goal := Dispatch(State(), react);
      while !isRxBad
        invariant Dispatch(State(), react) == goal
        decreases !isRxBad, |rxbuf|
      {
        var h := ReadHeader();
        match h {
          case HeadShort => return;
          case HeadBad =>
            isRxBad := true;
            CloseSocket();
            return;
          case Head(fin, opcode, mask, size, n) =>
            ghost var before, f := State(), Parse(rxbuf).frame;
            HandleKeepsRx(before, f, react);
            HandleWhole(fin, opcode, mask, size, n, react);
            assert State() == Handle(before, f, react).(rx := before.rx[size + n..]);
        }
      }
    }

    /** Reads the header field by field; nothing is consumed. */
    method ReadHeader() returns (h: Header)
      ensures match h
        case HeadShort => Parse(rxbuf) == NeedMore
        case HeadBad => Parse(rxbuf) == BadLength
        case Head(fin, opcode, mask, size, n) =>
          && size + n <= |rxbuf|
          && Parse(rxbuf) == Whole(Frame(fin, opcode, mask, PayloadOf(rxbuf, mask, size, n)), size + n)
    {
      hide FromBigEndian, Masked;
      if |rxbuf| < 2 { return HeadShort; }
      var fin, opcode := rxbuf[0] >= 0x80, rxbuf[0] % 16;
      var mask, n0 := rxbuf[1] >= 0x80, rxbuf[1] % 128;
      var headerSize := 2 + (if n0 == 126 then 2 else 0) + (if n0 == 127 then 8 else 0) + (if mask then 4 else 0);
      if |rxbuf| < headerSize { return HeadShort; }
      var n: nat, i: nat := n0, 2;
      if n0 == 126 {
        n, i := FromBigEndian(rxbuf[2..4]), 4;
      } else if n0 == 127 {
        n, i := FromBigEndian(rxbuf[2..10]), 10;
        if n >= TWO_63 { return HeadBad; }
      }
      assert n == PayloadLength(rxbuf);
      if |rxbuf| < headerSize + n { return HeadShort; }
      h := Head(fin, opcode, if mask then WithKey(rxbuf[i..i + 4]) else Unmasked, headerSize, n);
    }

    /** XORs n bytes of the receive buffer behind the header with the key. */
    method UnmaskInPlace(size: nat, n: nat, key: Key)
      requires size + n <= |rxbuf|
      modifies this`rxbuf
      ensures rxbuf == old(rxbuf[..size]) + Masked(old(rxbuf[size..size + n]), key) + old(rxbuf[size + n..])
    {
      hide Xor;
      ghost var data := rxbuf[size..size + n];
      for i := 0 to n
        invariant |rxbuf| == |old(rxbuf)|
        invariant forall k :: 0 <= k < |rxbuf| && !(size <= k < size + n) ==> rxbuf[k] == old(rxbuf)[k]
        invariant forall k :: 0 <= k < n ==> rxbuf[size + k] == if k < i then Masked(data, key)[k] else data[k]
      {
        rxbuf := rxbuf[size + i := Xor(rxbuf[size + i], key[i % 4])];
      }
    }

    method HandleWhole(fin: bool, opcode: byte, mask: MaskOption, size: nat, n: nat, react: seq<byte> -> seq<Action>)
      requires size + n <= |rxbuf| && opcode < 16 && n < TWO_63
      modifies this
      ensures State() == Handle(old(State()), Frame(fin, opcode, mask, PayloadOf(old(rxbuf), mask, size, n)), react)
                           .(rx := old(rxbuf)[size + n..])
    {
      hide ActAll, OutBytes;
      ghost var f := Frame(fin, opcode, mask, PayloadOf(rxbuf, mask, size, n));
      if opcode == TEXT_FRAME || opcode == BINARY_FRAME || opcode == CONTINUATION {
        TakePayload(mask, size, n);
        HandleFrame(old(State()), f, react, rxbuf);
        HandleKeepsRx(old(State()), f, react);
        receivedData := receivedData + rxbuf[size..size + n];
        if fin {
          var message := receivedData;
          delivered := delivered + [message];
          receivedData := [];
          Perform(react(message));
          ActAllFrame(old(State()).(received := [], delivered := delivered), react(message), rxbuf);
        }
      } else if opcode == PING {
        TakePayload(mask, size, n);
        SendData(PONG, rxbuf[size..size + n]);
      } else if opcode == PONG {
      } else {
        CloseSocket();
      }
      rxbuf := rxbuf[size + n..];
    }

    /** Leaves the unmasked payload behind the header and everything after it untouched. */
    method TakePayload(mask: MaskOption, size: nat, n: nat)
      requires size + n <= |rxbuf|
      modifies this`rxbuf
      ensures |rxbuf| == |old(rxbuf)| && rxbuf[size..size + n] == PayloadOf(old(rxbuf), mask, size, n)
      ensures rxbuf[size + n..] == old(rxbuf)[size + n..]
    {
      if mask.WithKey? { UnmaskInPlace(size, n, mask.key); }
    }

    /**
     * poll: receives until the network has nothing more, sends until it takes nothing more, closes when drained. All
     * that arrived is in the receive buffer, all that was accepted has left the transmit buffer, and the state
     * changes exactly when the connection was lost or a closing socket has nothing left to send.
     */
    method Poll(net: Network) returns (ghost es: seq<Event>)
      requires forall i :: 0 <= i < |net.arriving| ==> 0 < |net.arriving[i]| <= 1500
      modifies this
      ensures State() == Run(old(State()), es) && Networked(es)
      ensures old(readyState) == Closed ==> State() == old(State())
      ensures old(readyState) != Closed ==>
        var n := Taken(net, |old(txbuf)|);
        && rxbuf == old(rxbuf) + Concat(net.arriving)
        && sent == old(sent) + old(txbuf)[..n] && txbuf == old(txbuf)[n..]
        && readyState == (if Lost(net, |old(txbuf)|) || (old(readyState) == Closing && n == |old(txbuf)|) then Closed
                          else old(readyState))
    {
      hide Next, Run;
      es := [];
      ghost var start := State();
      if readyState == Closed {
        NoEvents(start);
        return;
      }
      es := PollReceive(start, net);
      es := PollSend(start, es, net);
      RunSnoc(start, es, PollEnds);
      PollEndsIs(State());
      es := es + [PollEnds];
      if txbuf == [] && readyState == Closing { readyState := Closed; }
    }

    method PollReceive(ghost start: Sock, net: Network) returns (ghost es: seq<Event>)
      requires State() == start && readyState != Closed
      requires forall i :: 0 <= i < |net.arriving| ==> 0 < |net.arriving[i]| <= 1500
      modifies this`rxbuf, this`readyState
      ensures State() == Run(start, es) && Networked(es)
      ensures rxbuf == old(rxbuf) + Concat(net.arriving)
      ensures readyState == if net.hungUp then Closed else old(readyState)
    {
      hide Next, Run, Concat;
      es := [];
      NoEvents(start);
      ghost var all := net.arriving;
      assert all[0..] == all;
      assert old(rxbuf) + Concat(all) == rxbuf + Concat(all[0..]);
      for i := 0 to |net.arriving|
        invariant State() == Run(start, es) && readyState == old(readyState) && Networked(es)
        invariant old(rxbuf) + Concat(all) == rxbuf + Concat(all[i..])
      {
        var chunk := net.arriving[i];
        ConcatFront(all, i);
        RunSnoc(start, es, Arrives(chunk));
        ArrivesIs(State(), chunk);
        es := es + [Arrives(chunk)];
        assert rxbuf + (chunk + Concat(all[i + 1..])) == (rxbuf + chunk) + Concat(all[i + 1..]);
        rxbuf := rxbuf + chunk;
      }
      ConcatNothing(all);
      if net.hungUp { es := Lose(start, es); }
    }

    /** The connection is lost. */
    method Lose(ghost start: Sock, ghost es: seq<Event>) returns (ghost es': seq<Event>)
      requires State() == Run(start, es) && Networked(es)
      modifies this`readyState
      ensures State() == Run(start, es') && Networked(es') && readyState == Closed
    {
      hide Next, Run;
      RunSnoc(start, es, ConnectionLost);
      LostIs(State());
      es' := es + [ConnectionLost];
      readyState := Closed;
    }

    /** A send has taken the first count bytes. */
    method Erase(count: nat, ghost start: Sock, ghost es: seq<Event>) returns (ghost es': seq<Event>)
      requires State() == Run(start, es) && Networked(es) && count <= |txbuf| && readyState != Closed
      modifies this`txbuf, this`sent
      ensures State() == Run(start, es') && Networked(es')
      ensures txbuf == old(txbuf)[count..] && sent == old(sent) + old(txbuf)[..count]
    {
      hide Next, Run;
      RunSnoc(start, es, Accepted(count));
      AcceptedIs(State(), count);
      es' := es + [Accepted(count)];
      sent := sent + txbuf[..count];
      txbuf := txbuf[count..];
    }

    method PollSend(ghost start: Sock, ghost es0: seq<Event>, net: Network) returns (ghost es: seq<Event>)
      requires State() == Run(start, es0) && Networked(es0) && (readyState == Closed <==> net.hungUp)
      modifies this`txbuf, this`readyState, this`sent
      ensures State() == Run(start, es) && Networked(es)
      ensures var n := Taken(net, |old(txbuf)|); sent == old(sent) + old(txbuf)[..n] && txbuf == old(txbuf)[n..]
      ensures readyState == if Lost(net, |old(txbuf)|) then Closed else old(readyState)
    {
      hide Next, Run, Networked, Sum;
      es := es0;
      var i := 0;
      ghost var n := 0;
      assert net.accepts[0..] == net.accepts;
      while txbuf != []
        invariant State() == Run(start, es) && Networked(es) && readyState == old(readyState) && i <= |net.accepts|
        invariant 0 <= n <= |old(txbuf)| && txbuf == old(txbuf)[n..] && sent == old(sent) + old(txbuf)[..n]
        invariant Taken(net, |old(txbuf)|) == n + if net.hungUp then 0 else Least(Sum(net.accepts[i..]), |txbuf|)
        decreases |txbuf|
      {
        // A socket that is closed already takes nothing; otherwise the network says how much it takes.
        var ret := if net.hungUp || i == |net.accepts| then -1
                   else if net.accepts[i] > |txbuf| then |txbuf| else net.accepts[i];
        var wouldBlock := !net.hungUp && !net.broken;
        if ret < 0 { SumNothing(net.accepts); }
        if ret < 0 && wouldBlock { break; }
        if ret <= 0 {
          es := Lose(start, es);
          break;
        }
        SumFront(net.accepts, i);
        TakenMore(old(sent), old(txbuf), n, ret);
        es := Erase(ret, start, es);
        n, i := n + ret, i + 1;
      }
    }
  }

  /** Nothing but what the network does to a socket during poll. */
  ghost predicate Networked(es: seq<Event>) {
    forall i :: 0 <= i < |es| ==> es[i].Arrives? || es[i].Accepted? || es[i].ConnectionLost? || es[i].PollEnds?
  }

  lemma TakenMore(sent: seq<byte>, tx: seq<byte>, n: nat, ret: nat)
    requires n + ret <= |tx|
    ensures sent + tx[..n] + tx[n..][..ret] == sent + tx[..n + ret] && tx[n..][ret..] == tx[n + ret..]
  {
  }

  lemma SumNothing(xs: seq<Positive>)
    ensures Sum(xs[|xs|..]) == 0
  {
  }

  type Positive = n: int | n > 0 witness 1

  /**
   * What the network does during one poll: the chunks it delivers and whether it then reports the connection lost; how
   * much each send may take, and whether the one after that fails or would block.
   */
  datatype Network = Network(arriving: seq<seq<byte>>, hungUp: bool, accepts: seq<Positive>, broken: bool)

  function Sum(xs: seq<Positive>): (n: nat) {
    if xs == [] then 0 else xs[0] + Sum(xs[1..])
  }

  function Least(a: nat, b: nat): (n: nat) { if a < b then a else b }

  /** How much of a transmit buffer leaves. */
  function Taken(net: Network, waiting: nat): (n: nat)
    ensures n <= waiting
  {
    if net.hungUp then 0 else Least(Sum(net.accepts), waiting)
  }

  /** Whether the connection is found lost: while receiving, or by a send that fails while something is left. */
  predicate Lost(net: Network, waiting: nat) {
    net.hungUp || (net.broken && Taken(net, waiting) < waiting)
  }

  lemma SumFront(xs: seq<Positive>, i: nat)
    requires i < |xs|
    ensures Sum(xs[i..]) == xs[i] + Sum(xs[i + 1..])
  {
    assert xs[i..][1..] == xs[i + 1..];
  }

  lemma ConcatFront(chunks: seq<seq<byte>>, i: nat)
    requires i < |chunks|
    ensures Concat(chunks[i..]) == chunks[i] + Concat(chunks[i + 1..])
  {
    assert chunks[i..][1..] == chunks[i + 1..];
  }

  lemma ConcatNothing(chunks: seq<seq<byte>>)
    ensures Concat(chunks[|chunks|..]) == []
  {
  }

  lemma NoEvents(s: Sock)
    ensures Run(s, []) == s
  {
  }

  lemma {:induction false} RunSnoc(s: Sock, es: seq<Event>, e: Event)
    ensures Run(s, es + [e]) == Next(Run(s, es), e)
    decreases |es|
  {
    hide Next;
    if es == [] {
      assert ([e])[1..] == [];
    } else {
      assert (es + [e])[1..] == es[1..] + [e];
      RunSnoc(Next(s, es[0]), es[1..], e);
    }
  }

  lemma ArrivesIs(s: Sock, bytes: seq<byte>)
    ensures Next(s, Arrives(bytes)) == if s.ready == Closed then s else s.(rx := s.rx + bytes)
  {
  }

  lemma AcceptedIs(s: Sock, n: nat)
    ensures s.ready != Closed && n <= |s.tx| ==> Next(s, Accepted(n)) == s.(sent := s.sent + s.tx[..n], tx := s.tx[n..])
  {
  }

  lemma LostIs(s: Sock)
    ensures Next(s, ConnectionLost) == s.(ready := Closed)
  {
  }

  lemma PollEndsIs(s: Sock)
    ensures Next(s, PollEnds) == if s.tx == [] && s.ready == Closing then s.(ready := Closed) else s
  {
  }
}
