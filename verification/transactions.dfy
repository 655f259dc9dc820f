/** Transaction identifiers of the TCP transport over whole runs of a client. */
module Transactions {
  import opened Bytes
  import opened Backends
  import opened Server
  import opened Client
  import opened EndToEnd

  /** The identifier of request number k of a client whose counter stood at tid. */
  function TidOf(tid: word, k: nat): (w: word) {
    if k == 0 then tid else NextTid(Tcp, TidOf(tid, k - 1))
  }

  lemma {:induction false} TidOfWraps(tid: word, k: nat)
    ensures TidOf(tid, k) == (tid + k) % 65536
  {
    if k > 0 { TidOfWraps(tid, k - 1); }
  }

  /** Two requests of one client share an identifier exactly when a multiple of 2^16 requests lies between them. */
  lemma SameTidIff(tid: word, i: nat, j: nat)
    requires i <= j
    ensures TidOf(tid, i) == TidOf(tid, j) <==> (j - i) % 65536 == 0
  {
    TidOfWraps(tid, i);
    TidOfWraps(tid, j);
  }

  /** Whatever the server does with a request, its response begins with the request's identifier. */
  lemma ResponseEchoesTid(tid: word, slave: byte, pdu: seq<byte>, rest: seq<byte>, r: Reply)
    requires slave != BROADCAST && r.Answer?
    ensures var wire := Outgoing(Tcp, Adu(Tcp, Header(tid, 0, slave), pdu) + rest, r);
      |wire| >= 7 && HeaderOf(Tcp, wire) == Header(tid, 0, slave)
  {
    hide HeaderOf, Adu;
    var h := Header(tid, 0, slave);
    AduParts(Tcp, h, pdu, rest);
    AduParts(Tcp, h, r.pdu, []);
    assert Adu(Tcp, h, r.pdu) + [] == Adu(Tcp, h, r.pdu);
  }

  /**
   * The response to request number i passes the transaction check of request number j exactly when the two
   * identifiers wrapped around to each other.
   */
  lemma DelayedResponse(tid: word, i: nat, j: nat, slave: byte, pdu: seq<byte>, rest: seq<byte>, r: Reply,
                        laterSlave: byte, later: seq<byte>)
    requires i <= j && slave != BROADCAST && r.Answer?
    ensures var wire := Outgoing(Tcp, Adu(Tcp, Header(TidOf(tid, i), 0, slave), pdu) + rest, r);
      var req := Adu(Tcp, Header(TidOf(tid, j), 0, laterSlave), later);
      |wire| >= 7 && (PreCheck(Tcp, req, wire) == Confirmed(0) <==> (j - i) % 65536 == 0)
  {
    hide Outgoing, TidOf;
    SameTidIff(tid, i, j);
    var h := Header(TidOf(tid, j), 0, laterSlave);
    AduParts(Tcp, h, later, []);
    assert Adu(Tcp, h, later) + [] == Adu(Tcp, h, later);
    ResponseEchoesTid(TidOf(tid, i), slave, pdu, rest, r);
    var wire := Outgoing(Tcp, Adu(Tcp, Header(TidOf(tid, i), 0, slave), pdu) + rest, r);
    SameWord(Adu(Tcp, h, later), wire);
    HiLoWord(wire[2], wire[3]);
  }

  lemma SameWord(a: seq<byte>, b: seq<byte>)
    requires |a| >= 7 && |b| >= 7
    ensures HeaderOf(Tcp, a).tid == HeaderOf(Tcp, b).tid <==> a[0] == b[0] && a[1] == b[1]
  {
    HiLoWord(a[0], a[1]);
    HiLoWord(b[0], b[1]);
  }

  /**
   * A response that is late by at least one and at most 65535 requests is never taken for the current one, whichever
   * slaves the two requests went to.
   */
  lemma LateResponseRefused(tid: word, i: nat, j: nat, slave: byte, pdu: seq<byte>, rest: seq<byte>, r: Reply,
                            laterSlave: byte, later: seq<byte>)
    requires i < j <= i + 65535 && slave != BROADCAST && r.Answer? && |r.pdu| >= 2 && |later| >= 5
    ensures var wire := Outgoing(Tcp, Adu(Tcp, Header(TidOf(tid, i), 0, slave), pdu) + rest, r);
      var req := Adu(Tcp, Header(TidOf(tid, j), 0, laterSlave), later);
      |wire| >= 9 && CheckConfirmation(Tcp, req, wire) == Refused(EMBBADDATA)
  {
    hide TidOf, HeaderOf, ResponseLength;
    DelayedResponse(tid, i, j, slave, pdu, rest, r, laterSlave, later);
  }
}

/** The Win32 substitute for select: it reads ahead into a buffer that the following read empties. */
module Win32Serial {
  import opened Bytes
  import opened Backends
  import opened Framing

  const BUF_SIZE: nat := 512

  class SerialPort {
    var device: seq<byte>
    const buf: array<byte>
    var nBytes: nat

    constructor (incoming: seq<byte>)
      ensures Valid() && fresh(buf) && device == incoming && nBytes == 0
    {
      device, nBytes := incoming, 0;
      buf := new byte[BUF_SIZE];
    }

    ghost predicate Valid()
      reads this
    {
      buf.Length == BUF_SIZE && nBytes <= BUF_SIZE
    }

    /** Everything that has not been handed to the caller yet. */
    ghost function Unread(): (s: seq<byte>)
      requires Valid()
      reads this, buf
    {
      buf[..nBytes] + device
    }

    /** How many bytes one ReadFile may ask for: the limit given, if it is one and fits the buffer. */
    static function Asked(maxLen: int): (n: nat)
      ensures n <= 512
    {
      if maxLen > BUF_SIZE || maxLen < 0 then BUF_SIZE else maxLen
    }

    /** And how many it gets, when so many have arrived in time, or it fails. */
    ghost function Gets(maxLen: int, arrived: nat, failed: bool): (n: nat)
      reads this
      ensures n <= |device|
    {
      if failed then 0 else Least(arrived, Least(Asked(maxLen), |device|))
    }

    /**
     * win32_ser_select: bytes left from the last time are enough; otherwise ReadFile gets what has arrived, up to the
     * limit, or fails. Nothing is lost and nothing changes its place.
     */
    method Select(maxLen: int, arrived: nat, failed: bool) returns (rc: int)
      requires Valid()
      modifies this, buf
      ensures Valid() && Unread() == old(Unread())
      ensures old(nBytes) > 0 ==> rc == 1 && nBytes == old(nBytes)
      ensures old(nBytes) == 0 ==>
        && nBytes == old(Gets(maxLen, arrived, failed))
        && rc == if failed then -1 else if nBytes > 0 then 1 else 0
    {
      if nBytes > 0 { return 1; }
      var limit := maxLen;
      if maxLen > BUF_SIZE || maxLen < 0 { limit := BUF_SIZE; }
      var got := if failed then 0 else Least(arrived, Least(limit, |device|));
      forall k | 0 <= k < got { buf[k] := device[k]; }
      assert buf[..got] + device[got..] == device;
      device, nBytes := device[got..], got;
      rc := if failed then -1 else if got > 0 then 1 else 0;
    }

    /** win32_ser_read: hands over the front of the buffer and forgets that many bytes, without moving the others. */
    method Read(msg: array<byte>, at: nat, maxLen: nat) returns (n: nat)
      requires Valid() && at + maxLen <= msg.Length && msg != buf
      modifies this, msg
      ensures Valid() && device == old(device)
      ensures n == (if maxLen < old(nBytes) then maxLen else old(nBytes)) && nBytes == old(nBytes) - n
      ensures msg[..] == Spliced(old(msg[..]), at, buf[..n])
    {
      n := nBytes;
      if maxLen < n { n := maxLen; }
      forall k | 0 <= k < n { msg[at + k] := buf[k]; }
      nBytes := nBytes - n;
    }

    /**
     * One select/recv pair of the reader: the buffer is empty before and after, and what has arrived is handed over, no
     * byte lost, repeated or moved.
     */
    method SelectRead(msg: array<byte>, at: nat, maxLen: nat, arrived: nat, failed: bool) returns (rc: int)
      requires Valid() && nBytes == 0 && 0 < maxLen && at + maxLen <= msg.Length && msg != buf
      modifies this, buf, msg
      ensures Valid() && nBytes == 0
      ensures var n := old(Gets(maxLen, arrived, failed));
        && rc == (if failed then -1 else n) && n <= maxLen
        && device == old(device)[n..] && msg[..] == Spliced(old(msg[..]), at, old(device)[..n])
    {
      ghost var before := device;
      assert Unread() == device;
      rc := Select(maxLen, arrived, failed);
      ghost var n := nBytes;
      assert before == buf[..n] + device;
      if rc == 1 {
        rc := Read(msg, at, maxLen);
        assert before[..n] == buf[..n] && before[n..] == device;
      } else {
        assert device == before[0..];
        assert msg[..] == Spliced(old(msg[..]), at, before[..0]);
      }
    }
  }

  function Least(a: nat, b: nat): (n: nat) { if a < b then a else b }
}
