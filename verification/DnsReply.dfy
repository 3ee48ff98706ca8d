/** What a resolver reads in the DNS responder's replies. */
module DnsReply {
  import opened Bytes
  import opened DnsMessage
  import opened DnsServer

  /** On a name that the walk accepts (so it holds no compression pointers) and that ends within the
      message, the reader stops where the walk stops; the bytes between are the name's full length. */
  lemma {:induction false} WalkedName(msg: seq<byte>, start: nat, pos: nat)
    requires Walk(msg, pos).Stopped? && ReadName(msg, start, pos).Good?
    ensures ReadName(msg, start, pos).next == Walk(msg, pos).pos <= |msg|
    ensures WireLength(ReadName(msg, start, pos).value) == Walk(msg, pos).pos - pos
    decreases |msg| - pos
  {
    if msg[pos] != 0 {
      WalkedName(msg, start, pos + 1 + msg[pos]);
    }
  }

  ghost predicate Agree(a: seq<byte>, b: seq<byte>, lo: nat, hi: nat) {
    hi <= |a| && hi <= |b| && forall i :: lo <= i < hi ==> a[i] == b[i]
  }

  /** Such a name reads the same from any message that holds its bytes at the same place. */
  lemma {:induction false} SameName(msg: seq<byte>, start: nat, pos: nat, other: seq<byte>, end: nat)
    requires Walk(msg, pos) == Stopped(end) && ReadName(msg, start, pos).Good?
    requires Agree(msg, other, pos, end)
    ensures ReadName(other, start, pos) == ReadName(msg, start, pos)
    decreases |msg| - pos
  {
    if msg[pos] != 0 {
      var next := pos + 1 + msg[pos];
      WalkedName(msg, start, next);
      SameName(msg, start, next, other, end);
      assert msg[pos + 1..next] == other[pos + 1..next];
    }
  }

  lemma ReplyParts(ip: Ip4, buffer: Buffer, at: nat)
    requires HEADER <= at <= MAX_MSG - 16
    ensures var reply := ReplyBytes(ip, buffer, at);
            && |reply| == at + 16
            && reply[..2] == buffer[..2]
            && reply[2..HEADER] == REPLY_FIXED
            && reply[HEADER..at] == buffer[HEADER..at]
            && reply[at..] == Answer(ip)
  {
  }

  /** The appended bytes read as one address record, its name found through the pointer. */
  lemma AnswerReads(reply: seq<byte>, at: nat, ip: Ip4, name: seq<Label>, p: nat)
    requires HEADER < at && |reply| == at + 16 && reply[at..] == Answer(ip)
    requires ReadName(reply, HEADER, HEADER) == Good(name, p) && WireLength(name) <= MAX_NAME
    ensures ReadRecord(reply, at) == Good(Record(name, 1, 1, 60, ip), at + 16)
  {
    var a := Answer(ip);
    forall i | 0 <= i < 16
      ensures reply[at + i] == a[i]
    {
      assert reply[at..][i] == reply[at + i];
    }
    assert reply[at] == 0xC0 && reply[at + 1] == HEADER;
    assert ReadName(reply, at, at) == Good(name, at + 2);
    assert U16(reply, at + 2) == 1 && U16(reply, at + 4) == 1 && U16(reply, at + 10) == 4;
    assert U32(reply, at + 6) == 60;
    assert reply[at + 12..at + 16] == reply[at..][12..] == ip;
  }

  lemma HeaderReads(reply: seq<byte>, buffer: Buffer)
    requires |reply| >= HEADER && reply[..2] == buffer[..2] && reply[2..HEADER] == REPLY_FIXED
    ensures U16(reply, 0) == U16(buffer, 0) && U16(reply, 2) == 0x8480
    ensures U16(reply, 4) == 1 && U16(reply, 6) == 1 && U16(reply, 8) == 0 && U16(reply, 10) == 0
  {
    assert reply[..2][0] == reply[0] && reply[..2][1] == reply[1];
    var fixed := reply[2..HEADER];
    assert fixed[0] == reply[2] && fixed[1] == reply[3] && fixed[2] == reply[4] && fixed[3] == reply[5];
    assert fixed[4] == reply[6] && fixed[5] == reply[7] && fixed[6] == reply[8] && fixed[7] == reply[9];
    assert fixed[8] == reply[10] && fixed[9] == reply[11];
  }

  lemma QuestionKept(msg: seq<byte>, reply: seq<byte>, at: nat, q: Question, next: nat)
    requires AnswerStart(msg) == Some(at) && ReadQuestion(msg, HEADER) == Good(q, next)
    requires at <= |msg| ==> Agree(msg, reply, HEADER, at)
    ensures next == at <= |msg|
    ensures ReadName(reply, HEADER, HEADER) == Good(q.name, at - 4) && WireLength(q.name) <= MAX_NAME
    ensures ReadQuestion(reply, HEADER) == Good(q, at)
  {
    WalkedName(msg, HEADER, HEADER);
    SameName(msg, HEADER, HEADER, reply, at - 4);
  }

  lemma ReceivedByte(stale: Buffer, datagram: seq<byte>, i: nat)
    requires i < MAX_MSG
    ensures Received(stale, datagram)[i] == if i < |Query(datagram)| then Query(datagram)[i] else stale[i]
  {
  }

  /** Behind the header a reply holds the buffer's bytes, and those are the query's as far as it goes. */
  lemma ReplyByte(ip: Ip4, stale: Buffer, datagram: seq<byte>, at: nat, i: nat)
    requires HEADER <= i < at <= MAX_MSG - 16
    ensures ReplyBytes(ip, Received(stale, datagram), at)[i] ==
              if i < |Query(datagram)| then Query(datagram)[i] else stale[i]
  {
    var buffer := Received(stale, datagram);
    var reply := ReplyBytes(ip, buffer, at);
    ReplyParts(ip, buffer, at);
    assert reply[HEADER..at][i - HEADER] == reply[i] && buffer[HEADER..at][i - HEADER] == buffer[i];
    ReceivedByte(stale, datagram, i);
  }

  lemma ReplyKeepsQuery(ip: Ip4, stale: Buffer, datagram: seq<byte>, at: nat)
    requires HEADER <= at <= |Query(datagram)| && at <= MAX_MSG - 16
    ensures Agree(Query(datagram), ReplyBytes(ip, Received(stale, datagram), at), HEADER, at)
    ensures U16(Received(stale, datagram), 0) == U16(Query(datagram), 0)
  {
    ReplyParts(ip, Received(stale, datagram), at);
    forall i | HEADER <= i < at
      ensures Query(datagram)[i] == ReplyBytes(ip, Received(stale, datagram), at)[i]
    {
      ReplyByte(ip, stale, datagram, at, i);
    }
    ReceivedByte(stale, datagram, 0);
    ReceivedByte(stale, datagram, 1);
  }

  lemma OneOfEach(msg: seq<byte>, q: Question, at: nat, r: Record)
    requires |msg| >= HEADER
    requires ReadQuestion(msg, HEADER) == Good(q, at) && ReadRecord(msg, at) == Good(r, |msg|)
    requires U16(msg, 4) == 1 && U16(msg, 6) == 1 && U16(msg, 8) == 0 && U16(msg, 10) == 0
    ensures ReadMessage(msg) == Some(Message(U16(msg, 0), U16(msg, 2), [q], [r], [], []))
  {
    assert ReadQuestions(msg, at, 0) == Good([], at);
    assert ReadQuestions(msg, HEADER, 1) == Good([q] + [], at) && [q] + [] == [q];
    assert ReadRecords(msg, |msg|, 0) == Good([], |msg|);
    assert ReadRecords(msg, at, 1) == Good([r] + [], |msg|) && [r] + [] == [r];
  }

  /** For every query that the server answers and whose first question lies inside the received
      bytes, whatever the buffer held before: the reply reads as the query's id, the flags 0x8480,
      that one question, and one address record for its name with the server's address. */
  lemma ReplyAnswersQuestion(ip: Ip4, stale: Buffer, datagram: seq<byte>, q: Question, next: nat)
    requires Reply(ip, stale, datagram).Some?
    requires ReadQuestion(Query(datagram), HEADER) == Good(q, next)
    ensures ReadMessage(Reply(ip, stale, datagram).value) ==
              Some(Message(U16(Query(datagram), 0), 0x8480, [q], [Record(q.name, 1, 1, 60, ip)], [], []))
  {
    var msg, buffer := Query(datagram), Received(stale, datagram);
    var reply, at := Reply(ip, stale, datagram).value, AnswerStart(msg).value;
    ReplyParts(ip, buffer, at);
    if at <= |msg| {
      ReplyKeepsQuery(ip, stale, datagram, at);
    }
    QuestionKept(msg, reply, at, q, next);
    HeaderReads(reply, buffer);
    AnswerReads(reply, at, ip, q.name, at - 4);
    OneOfEach(reply, q, at, Record(q.name, 1, 1, 60, ip));
  }

  /** No name takes two octets: the empty one takes one and any other at least three. */
  lemma {:induction false} NeverTwo(msg: seq<byte>, start: nat, pos: nat)
    requires ReadName(msg, start, pos).Good?
    ensures WireLength(ReadName(msg, start, pos).value) == 1 || WireLength(ReadName(msg, start, pos).value) >= 3
    decreases start, |msg| - pos
  {
    if msg[pos] >= 0xC0 {
      var target := (msg[pos] as int - 0xC0) * 0x100 + msg[pos + 1];
      NeverTwo(msg, target, target);
    } else if msg[pos] != 0 {
      NeverTwo(msg, start, pos + 1 + msg[pos]);
    }
  }

  /** The walk accepts a readable name exactly when the name takes as many octets as it would without
      compression. */
  lemma {:induction false} WalkAcceptsIff(msg: seq<byte>, start: nat, pos: nat)
    requires ReadName(msg, start, pos).Good?
    ensures Walk(msg, pos).Stopped? <==>
              ReadName(msg, start, pos).next == pos + WireLength(ReadName(msg, start, pos).value)
    decreases |msg| - pos
  {
    if msg[pos] >= 0xC0 {
      NeverTwo(msg, start, pos);
    } else if msg[pos] != 0 {
      WalkAcceptsIff(msg, start, pos + 1 + msg[pos]);
    }
  }

  // ---------- Which queries are answered ----------

  /** Section 4.1.1 of RFC 1035: not a response, opcode 0, and at least one question. */
  predicate Asks(msg: seq<byte>) {
    && |msg| >= 12
    && msg[2] < 0x80
    && msg[2] / 8 % 0x10 == 0
    && !(msg[4] == 0 && msg[5] == 0)
  }

  lemma IsQueryIff(msg: seq<byte>)
    ensures IsQuery(msg) <==> Asks(msg)
  {
    if |msg| >= 12 {
      FlagBits(msg[2], msg[3]);
    }
  }

  lemma FlagBits(high: byte, low: byte)
    ensures (high as int * 0x100 + low) / 0x8000 % 2 == 0 <==> high < 0x80
    ensures (high as int * 0x100 + low) / 0x800 % 0x10 == high / 8 % 0x10
  {
  }

  /** From `pos` on stand labels of these lengths, each behind its length octet, and then a zero octet; or
      the message ends before one. */
  predicate LabelsTo(msg: seq<byte>, pos: nat, lengths: seq<nat>, end: nat)
    decreases |lengths|
  {
    if lengths == [] then (pos < |msg| && msg[pos] == 0 && end == pos + 1) || (pos >= |msg| && end == pos)
    else && pos < |msg| && 1 <= msg[pos] <= 63 && msg[pos] == lengths[0]
         && LabelsTo(msg, pos + 1 + lengths[0], lengths[1..], end)
  }

  lemma {:induction false} WalkedLabels(msg: seq<byte>, pos: nat) returns (lengths: seq<nat>)
    requires Walk(msg, pos).Stopped?
    ensures LabelsTo(msg, pos, lengths, Walk(msg, pos).pos)
    decreases |msg| - pos
  {
    if pos >= |msg| || msg[pos] == 0 {
      lengths := [];
    } else {
      var rest := WalkedLabels(msg, pos + 1 + msg[pos]);
      lengths := [msg[pos]] + rest;
      assert lengths[1..] == rest;
    }
  }

  lemma {:induction false} LabelsWalked(msg: seq<byte>, pos: nat, lengths: seq<nat>, end: nat)
    requires LabelsTo(msg, pos, lengths, end)
    ensures Walk(msg, pos) == Stopped(end)
    decreases |lengths|
  {
    if lengths != [] {
      LabelsWalked(msg, pos + 1 + lengths[0], lengths[1..], end);
    }
  }

  /** The name behind the header is a run of at most 255 octets of labels. */
  predicate LabelsFit(msg: seq<byte>, lengths: seq<nat>, end: nat) {
    LabelsTo(msg, 12, lengths, end) && end <= 12 + 255
  }

  lemma AnswerStartIff(msg: seq<byte>)
    ensures AnswerStart(msg).Some? <==> Asks(msg) && exists lengths: seq<nat>, end: nat :: LabelsFit(msg, lengths, end)
  {
    IsQueryIff(msg);
    if AnswerStart(msg).Some? {
      var lengths := WalkedLabels(msg, 12);
      assert LabelsFit(msg, lengths, Walk(msg, 12).pos);
    }
    forall lengths: seq<nat>, end: nat | LabelsFit(msg, lengths, end)
      ensures Walk(msg, 12) == Stopped(end)
    {
      LabelsWalked(msg, 12, lengths, end);
    }
  }

  /** Exactly which datagrams are answered: standard queries whose question's name is a run of at most 255
      octets of labels, in the first 300 bytes. */
  lemma RepliedIff(ip: Ip4, stale: Buffer, datagram: seq<byte>)
    ensures Reply(ip, stale, datagram).Some? <==>
              && Asks(Taken(datagram, 300))
              && exists lengths: seq<nat>, end: nat :: LabelsFit(Taken(datagram, 300), lengths, end)
  {
    AnswerStartIff(Query(datagram));
  }

  /** In particular responses, and so this server's own replies, are never answered. */
  lemma ReplyUnanswered(ip: Ip4, s1: Buffer, s2: Buffer, datagram: seq<byte>)
    requires Reply(ip, s1, datagram).Some?
    ensures Reply(ip, s2, Reply(ip, s1, datagram).value) == None
  {
    var reply := Reply(ip, s1, datagram).value;
    ReplyParts(ip, Received(s1, datagram), AnswerStart(Query(datagram)).value);
    assert reply[2] == reply[2..HEADER][0] == 0x84;
    RepliedIff(ip, s2, reply);
  }

  /** A standard query with a readable question is answered exactly when its name is written without
      compression, that is, in as many octets as its labels take. */
  lemma AnsweredIff(ip: Ip4, stale: Buffer, datagram: seq<byte>, q: Question, next: nat)
    requires Asks(Query(datagram)) && ReadQuestion(Query(datagram), 12) == Good(q, next)
    ensures Reply(ip, stale, datagram).Some? <==> next == 12 + WireLength(q.name) + 4
  {
    IsQueryIff(Query(datagram));
    WalkAcceptsIff(Query(datagram), HEADER, HEADER);
    if Walk(Query(datagram), HEADER).Stopped? {
      WalkedName(Query(datagram), HEADER, HEADER);
    }
  }

  lemma {:induction false} WalkInside(msg: seq<byte>, start: nat, pos: nat)
    requires Walk(msg, pos).Stopped? && Walk(msg, pos).pos < |msg|
    ensures ReadName(msg, start, pos).Good?
    decreases |msg| - pos
  {
    if msg[pos] != 0 {
      WalkInside(msg, start, pos + 1 + msg[pos]);
    }
  }

  /** An answered query has its first question inside the received bytes exactly when the walk and the
      four bytes behind it stay there. */
  lemma QuestionInsideIff(msg: seq<byte>, at: nat)
    requires AnswerStart(msg) == Some(at)
    ensures at <= |msg| <==> ReadQuestion(msg, HEADER).Good?
  {
    if at <= |msg| {
      WalkInside(msg, HEADER, HEADER);
    }
    if ReadName(msg, HEADER, HEADER).Good? {
      WalkedName(msg, HEADER, HEADER);
    }
  }

  /** The reply to an answered query is a function of the query alone, whatever the buffer held before,
      exactly when the query's first question lies inside the received bytes. */
  lemma ReplyIgnoresStaleBytesIff(ip: Ip4, datagram: seq<byte>)
    requires AnswerStart(Query(datagram)).Some?
    ensures (forall s1: Buffer, s2: Buffer :: Reply(ip, s1, datagram) == Reply(ip, s2, datagram))
            <==> ReadQuestion(Query(datagram), HEADER).Good?
  {
    var n, at := |Query(datagram)|, AnswerStart(Query(datagram)).value;
    QuestionInsideIff(Query(datagram), at);
    if at <= n {
      forall s1: Buffer, s2: Buffer
        ensures Reply(ip, s1, datagram) == Reply(ip, s2, datagram)
      {
        var b1, b2 := Received(s1, datagram), Received(s2, datagram);
        assert b1[..2] == b2[..2] && b1[HEADER..at] == b2[HEADER..at];
      }
    } else {
      var s1: Buffer, s2: Buffer := seq(MAX_MSG, i => 0), seq(MAX_MSG, i => 1);
      ReplyByte(ip, s1, datagram, at, n);
      ReplyByte(ip, s2, datagram, at, n);
      assert Reply(ip, s1, datagram) != Reply(ip, s2, datagram);
    }
  }

  /** A header that announces a question, and nothing behind it. */
  function BareHeader(): (datagram: seq<byte>)
    ensures |datagram| == HEADER && Query(datagram) == datagram
  {
    [0, 0, 0, 0, 0, 1, 0, 0, 0, 0, 0, 0]
  }

  lemma BareHeaderAnswered()
    ensures AnswerStart(BareHeader()) == Some(16)
  {
    var msg := BareHeader();
    assert U16(msg, 2) == 0 && U16(msg, 4) == 1;
    assert Walk(msg, HEADER) == Stopped(HEADER);
  }

  /** Its reply carries four bytes of whatever the buffer held before. */
  lemma BareHeaderGetsStaleBytes(ip: Ip4, stale: Buffer)
    ensures Reply(ip, stale, BareHeader()).Some?
    ensures |Reply(ip, stale, BareHeader()).value| == 32
    ensures Reply(ip, stale, BareHeader()).value[HEADER..16] == stale[HEADER..16]
  {
    var buffer := Received(stale, BareHeader());
    BareHeaderAnswered();
    ReplyParts(ip, buffer, 16);
    forall i | HEADER <= i < 16
      ensures buffer[i] == stale[i]
    {
      ReceivedByte(stale, BareHeader(), i);
    }
    SliceIff(buffer, HEADER, stale[HEADER..16]);
  }
}
