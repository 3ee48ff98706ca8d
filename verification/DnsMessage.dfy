/** A reference reader for DNS messages, after sections 4.1.1 to 4.1.4 of RFC 1035. */
module DnsMessage {
  import opened Bytes

  type Label = seq<byte>

  datatype Question = Question(name: seq<Label>, qtype: u16, qclass: u16)
  datatype Record = Record(name: seq<Label>, rtype: u16, rclass: u16, ttl: u32, rdata: seq<byte>)
  datatype Message = Message(id: u16, flags: u16, questions: seq<Question>, answers: seq<Record>,
                             authority: seq<Record>, additional: seq<Record>)

  const HEADER := 12

  function U16(msg: seq<byte>, i: nat): u16
    requires i + 2 <= |msg|
  {
    msg[i] as int * 0x100 + msg[i + 1]
  }

  function U32(msg: seq<byte>, i: nat): u32
    requires i + 4 <= |msg|
  {
    U16(msg, i) as int * 0x1_0000 + U16(msg, i + 2)
  }

  datatype Parsed<+T> = Bad | Good(value: T, next: nat)

  /** The name at `pos`. Compression pointers must lead to before `start`, where the piece of the
      name being read begins. */
  function ReadName(msg: seq<byte>, start: nat, pos: nat): Parsed<seq<Label>>
    decreases start, |msg| - pos
  {
    if pos >= |msg| then Bad
    else if msg[pos] == 0 then Good([], pos + 1)
    else if msg[pos] >= 0xC0 then
      if pos + 1 >= |msg| then Bad
      else
        var target := (msg[pos] as int - 0xC0) * 0x100 + msg[pos + 1];
        if target >= start then Bad
        else
          match ReadName(msg, target, target)
          case Bad => Bad
          case Good(labels, _) => Good(labels, pos + 2)
    else if msg[pos] >= 0x40 || pos + 1 + msg[pos] > |msg| then Bad
    else
      match ReadName(msg, start, pos + 1 + msg[pos])
      case Bad => Bad
      case Good(labels, next) => Good([msg[pos + 1..pos + 1 + msg[pos]]] + labels, next)
  }

  /** The octets a name takes when it is written without compression. */
  function WireLength(name: seq<Label>): nat {
    if name == [] then 1 else 1 + |name[0]| + WireLength(name[1..])
  }

  const MAX_NAME := 255

  function ReadQuestion(msg: seq<byte>, pos: nat): Parsed<Question> {
    match ReadName(msg, pos, pos)
    case Bad => Bad
    case Good(name, p) =>
      if p + 4 > |msg| || WireLength(name) > MAX_NAME then Bad
      else Good(Question(name, U16(msg, p), U16(msg, p + 2)), p + 4)
  }

  function ReadRecord(msg: seq<byte>, pos: nat): Parsed<Record> {
    match ReadName(msg, pos, pos)
    case Bad => Bad
    case Good(name, p) =>
      if p + 10 > |msg| || WireLength(name) > MAX_NAME then Bad
      else
        var end := p + 10 + U16(msg, p + 8);
        if end > |msg| then Bad
        else Good(Record(name, U16(msg, p), U16(msg, p + 2), U32(msg, p + 4), msg[p + 10..end]), end)
  }

  function ReadQuestions(msg: seq<byte>, pos: nat, n: nat): Parsed<seq<Question>>
    decreases n
  {
    if n == 0 then Good([], pos)
    else
      match ReadQuestion(msg, pos)
      case Bad => Bad
      case Good(q, p) =>
        match ReadQuestions(msg, p, n - 1)
        case Bad => Bad
        case Good(qs, end) => Good([q] + qs, end)
  }

  function ReadRecords(msg: seq<byte>, pos: nat, n: nat): Parsed<seq<Record>>
    decreases n
  {
    if n == 0 then Good([], pos)
    else
      match ReadRecord(msg, pos)
      case Bad => Bad
      case Good(r, p) =>
        match ReadRecords(msg, p, n - 1)
        case Bad => Bad
        case Good(rs, end) => Good([r] + rs, end)
  }

  /** The whole message; nothing may follow its last record. */
  function ReadMessage(msg: seq<byte>): Option<Message> {
    if |msg| < HEADER then None
    else
      match ReadQuestions(msg, HEADER, U16(msg, 4))
      case Bad => None
      case Good(questions, p1) =>
        match ReadRecords(msg, p1, U16(msg, 6))
        case Bad => None
        case Good(answers, p2) =>
          match ReadRecords(msg, p2, U16(msg, 8))
          case Bad => None
          case Good(authority, p3) =>
            match ReadRecords(msg, p3, U16(msg, 10))
            case Bad => None
            case Good(additional, p4) =>
              if p4 != |msg| then None
              else Some(Message(U16(msg, 0), U16(msg, 2), questions, answers, authority, additional))
  }
}
