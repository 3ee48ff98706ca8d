/** The DNS responder: it walks the labels of the first question in a 300-byte buffer and appends one
    compressed answer to the same buffer. */
module DnsServer {
  import opened Bytes
  import opened DnsMessage

  const MAX_MSG := 300

  type Buffer = s: seq<byte> | |s| == MAX_MSG witness seq(MAX_MSG, i => 0)

  /** The received bytes of a datagram. */
  function Query(datagram: seq<byte>): seq<byte> {
    Taken(datagram, MAX_MSG)
  }

  function Received(stale: Buffer, datagram: seq<byte>): Buffer {
    Overlaid(stale, datagram, MAX_MSG)
  }

  // ---------- The label walk ----------

  datatype Walked = BadLabel | Stopped(pos: nat)

  /** Where the walk over the bytes `msg` stops; it may overshoot them by one label. */
  function Walk(msg: seq<byte>, pos: nat): (w: Walked)
    ensures w.Stopped? ==> pos <= w.pos
    decreases |msg| - pos
  {
    if pos >= |msg| then Stopped(pos)
    else if msg[pos] == 0 then Stopped(pos + 1)
    else if msg[pos] > 63 then BadLabel
    else Walk(msg, pos + 1 + msg[pos])
  }

  /** The walk ends on every input, at most 63 bytes behind the received ones. */
  lemma {:induction false} WalkBound(msg: seq<byte>, pos: nat)
    requires pos <= |msg| + 63
    ensures Walk(msg, pos).Stopped? ==> Walk(msg, pos).pos <= |msg| + 63
    decreases |msg| - pos
  {
    if pos < |msg| && 0 < msg[pos] <= 63 {
      WalkBound(msg, pos + 1 + msg[pos]);
    }
  }

  /** The header asks a standard query with at least one question. */
  predicate IsQuery(msg: seq<byte>) {
    && |msg| >= HEADER
    && U16(msg, 2) / 0x8000 % 2 == 0
    && U16(msg, 2) / 0x800 % 0x10 == 0
    && U16(msg, 4) >= 1
  }

  /** Where the answer goes, if the server answers these received bytes at all. */
  function AnswerStart(msg: seq<byte>): (at: Option<nat>)
    ensures at.Some? ==> |msg| >= HEADER && HEADER + 4 <= at.value <= HEADER + 255 + 4
  {
    if !IsQuery(msg) then None
    else
      match Walk(msg, HEADER)
      case BadLabel => None
      case Stopped(pos) => if pos - HEADER > 255 then None else Some(pos + 4)
  }

  /** A pointer to the question's name, type A, class IN, 60 seconds, four bytes of address. */
  function Answer(ip: Ip4): seq<byte> {
    [0xC0, HEADER, 0, 1, 0, 1, 0, 0, 0, 60, 0, 4, ip[0], ip[1], ip[2], ip[3]]
  }

  const REPLY_FIXED: seq<byte> := [0x84, 0x80, 0, 1, 0, 1, 0, 0, 0, 0]

  /** The bytes sent, given the buffer and where the answer goes: all bytes up to there but for ten
      in the header, then the answer. */
  function ReplyBytes(ip: Ip4, buffer: Buffer, at: nat): seq<byte>
    requires HEADER <= at <= MAX_MSG
  {
    buffer[..2] + REPLY_FIXED + buffer[HEADER..at] + Answer(ip)
  }

  function Reply(ip: Ip4, stale: Buffer, datagram: seq<byte>): Option<seq<byte>> {
    match AnswerStart(Query(datagram))
    case None => None
    case Some(at) => Some(ReplyBytes(ip, Received(stale, datagram), at))
  }

  lemma AnswerBytes(written: seq<byte>, ip: Ip4)
    requires |written| == 16 && written[0] == 0xC0 && written[1] == HEADER && written[2] == 0 && written[3] == 1
    requires written[4] == 0 && written[5] == 1 && written[6] == 0 && written[7] == 0
    requires written[8] == 0 && written[9] == 60 && written[10] == 0 && written[11] == 4
    requires written[12] == ip[0] && written[13] == ip[1] && written[14] == ip[2] && written[15] == ip[3]
    ensures written == Answer(ip)
  {
  }

  lemma ReplyAssembled(ip: Ip4, received: Buffer, final: Buffer, at: nat)
    requires HEADER <= at <= MAX_MSG - 16
    requires final[..2] == received[..2] && final[2..HEADER] == REPLY_FIXED
    requires final[HEADER..at] == received[HEADER..at] && final[at..at + 16] == Answer(ip)
    ensures final[..at + 16] == ReplyBytes(ip, received, at)
  {
    assert final[..at + 16] == final[..2] + final[2..HEADER] + final[HEADER..at] + final[at..at + 16];
  }

  // ---------- The server ----------

  /** The walk over the first question, reading only received bytes. */
  method WalkLabels(dnsMsg: array<byte>, msgLen: nat) returns (end: Option<nat>)
    requires HEADER <= msgLen <= dnsMsg.Length
    ensures end == match Walk(dnsMsg[..msgLen], HEADER) case BadLabel => None case Stopped(pos) => Some(pos)
  {
    ghost var msg := dnsMsg[..msgLen];
    var ptr := HEADER;
    while ptr < msgLen
      invariant Walk(msg, HEADER) == Walk(msg, ptr)
      decreases msgLen - ptr
    {
      assert msg[ptr] == dnsMsg[ptr];
      if dnsMsg[ptr] == 0 {
        return Some(ptr + 1);
      }
      var labelLen := dnsMsg[ptr];
      if labelLen > 63 {
        return None;
      }
      ptr := ptr + 1 + labelLen;
    }
    return Some(ptr);
  }

  /** The checks of the header, the walk, and the check of the question's length. */
  method FindAnswerStart(dnsMsg: array<byte>, msgLen: nat) returns (at: Option<nat>)
    requires msgLen <= dnsMsg.Length
    ensures at == AnswerStart(dnsMsg[..msgLen])
  {
    if msgLen < HEADER {
      return None;
    }
    var flags := dnsMsg[2] as int * 0x100 + dnsMsg[3];
    var questionCount := dnsMsg[4] as int * 0x100 + dnsMsg[5];
    assert flags == U16(dnsMsg[..msgLen], 2) && questionCount == U16(dnsMsg[..msgLen], 4);
    if flags / 0x8000 % 2 != 0 {
      return None;
    }
    if flags / 0x800 % 0x10 != 0 {
      return None;
    }
    if questionCount < 1 {
      return None;
    }
    var questionPtr := WalkLabels(dnsMsg, msgLen);
    if questionPtr == None || questionPtr.value - HEADER > 255 {
      return None;
    }
    return Some(questionPtr.value + 4);
  }

  /** Four bytes written through the advancing answer pointer. */
  method Put4(dnsMsg: array<byte>, at: nat, b: seq<byte>) returns (end: nat)
    requires |b| == 4 && at + 4 <= dnsMsg.Length
    modifies dnsMsg
    ensures end == at + 4
    ensures dnsMsg[at] == b[0] && dnsMsg[at + 1] == b[1] && dnsMsg[at + 2] == b[2] && dnsMsg[at + 3] == b[3]
    ensures forall i :: 0 <= i < at || end <= i < dnsMsg.Length ==> dnsMsg[i] == old(dnsMsg[i])
  {
    dnsMsg[at], dnsMsg[at + 1], dnsMsg[at + 2], dnsMsg[at + 3] := b[0], b[1], b[2], b[3];
    end := at + 4;
  }

  method WriteHeader(dnsMsg: array<byte>)
    requires dnsMsg.Length == MAX_MSG
    modifies dnsMsg
    ensures dnsMsg[2..HEADER] == REPLY_FIXED
    ensures forall i :: 0 <= i < 2 || HEADER <= i < MAX_MSG ==> dnsMsg[i] == old(dnsMsg[i])
  {
    dnsMsg[2], dnsMsg[3] := 0x84, 0x80;
    dnsMsg[4], dnsMsg[5], dnsMsg[6], dnsMsg[7] := 0, 1, 0, 1;
    dnsMsg[8], dnsMsg[9], dnsMsg[10], dnsMsg[11] := 0, 0, 0, 0;
  }

  class Server {
    const ip: Ip4

    constructor (ip: Ip4)
      ensures this.ip == ip
    {
      this.ip := ip;
    }

    method WriteAnswer(dnsMsg: array<byte>, at: nat) returns (end: nat)
      requires dnsMsg.Length == MAX_MSG && HEADER <= at && at + 16 <= MAX_MSG
      modifies dnsMsg
      ensures end == at + 16 && dnsMsg[at..end] == Answer(ip)
      ensures forall i :: 0 <= i < at || end <= i < MAX_MSG ==> dnsMsg[i] == old(dnsMsg[i])
    {
      end := Put4(dnsMsg, at, [0xC0, HEADER, 0, 1]);
      end := Put4(dnsMsg, end, [0, 1, 0, 0]);
      end := Put4(dnsMsg, end, [0, 60, 0, 4]);
      end := Put4(dnsMsg, end, ip);
      AnswerBytes(dnsMsg[at..end], ip);
    }

    /** `dnsMsg` is the buffer on the stack; what it holds before the call is arbitrary. */
    method Process(datagram: seq<byte>, dnsMsg: array<byte>) returns (reply: Option<seq<byte>>)
      requires dnsMsg.Length == MAX_MSG
      modifies dnsMsg
      ensures reply == Reply(ip, old(dnsMsg[..]), datagram)
      ensures reply.Some? ==> |reply.value| <= 287
    {
      var msgLen := |Query(datagram)|;
      CopyIn(datagram, dnsMsg, MAX_MSG);
      ghost var received := dnsMsg[..];
      assert dnsMsg[..msgLen] == Query(datagram);
      var at := FindAnswerStart(dnsMsg, msgLen);
      if at == None {
        return None;
      }
      var end := WriteAnswer(dnsMsg, at.value);
      WriteHeader(dnsMsg);
      assert dnsMsg[at.value..end] == Answer(ip);
      ReplyAssembled(ip, received, dnsMsg[..], at.value);
      return Some(dnsMsg[..end]);
    }
  }
}
