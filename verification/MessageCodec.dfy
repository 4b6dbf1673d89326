/** Framing of protocol messages: an incremental decoder and the encoder it must agree with. */
module MessageCodec {
  import opened ByteOrder
  import opened Options

  const PROTOCOL_HEADER_SIZE: nat := 24
  const MAX_COMMAND_SIZE: nat := 12

  type Digest = d: seq<byte> | |d| == 32 witness seq(32, _ => 0)

  type Hasher = seq<byte> -> Digest

  datatype Header = Header(magic: dword, command: seq<byte>, length: dword, checksum: dword)

  datatype Message = Message(header: Header, payload: seq<byte>)

  // ----- one message

  /** A command field read as a C string ends at its first zero byte. */
  function CString(buf: seq<byte>): seq<byte> {
    if buf == [] || buf[0] == 0 then [] else [buf[0]] + CString(buf[1..])
  }

  function ReadHeader(data: seq<byte>): Header
    requires |data| >= PROTOCOL_HEADER_SIZE
  {
    Header(ToDword(data[0..4]), CString(data[4..16]), ToDword(data[16..20]), ToDword(data[20..24]))
  }

  function Checksum(H: Hasher, payload: seq<byte>): dword {
    ToDword(H(payload)[..4])
  }

  datatype Failure = BadMagic | BadChecksum | Overrun

  datatype Attempt = NeedMore | Bad(failure: Failure) | Decoded(message: Message, size: nat)

  /**
   * The attempt to take one message off the front of `data`. The size test adds in 32 bits; a
   * length within 24 of 2^32 wraps, passes the test and makes the hash read past the data.
   */
  function DecodeOne(H: Hasher, magic: dword, data: seq<byte>): (r: Attempt)
    ensures r.Decoded? ==> 0 < r.size <= |data|
  {
    if |data| < PROTOCOL_HEADER_SIZE then NeedMore else
      var header := ReadHeader(data);
      if header.magic != magic then Bad(BadMagic)
      else if |data| < (header.length + PROTOCOL_HEADER_SIZE) % 0x1_0000_0000 then NeedMore
      else if header.length + PROTOCOL_HEADER_SIZE >= 0x1_0000_0000 then Bad(Overrun)
      else
        var payload := data[PROTOCOL_HEADER_SIZE..PROTOCOL_HEADER_SIZE + header.length];
        if Checksum(H, payload) != header.checksum then Bad(BadChecksum)
        else Decoded(Message(header, payload), header.length + PROTOCOL_HEADER_SIZE)
  }

  /** The command is what stands before the first zero byte of its field, or all of the field. */
  lemma {:induction false} CStringEnds(buf: seq<byte>)
    ensures var n := |CString(buf)|;
            && n <= |buf| && CString(buf) == buf[..n] && 0 !in buf[..n] && (n < |buf| ==> buf[n] == 0)
  {
    if buf != [] && buf[0] != 0 {
      CStringEnds(buf[1..]);
      assert buf == [buf[0]] + buf[1..];
    }
  }

  /** A header of 24 bytes that starts with the right magic number. */
  predicate GoodMagic(magic: dword, data: seq<byte>) {
    |data| >= 24 && ToDword(data[0..4]) == magic
  }

  /** All of a message is there, and its length is none that wraps. */
  predicate AllThere(magic: dword, data: seq<byte>) {
    GoodMagic(magic, data) && 24 + ToDword(data[16..20]) <= |data| && ToDword(data[16..20]) < 0xFFFF_FFE8
  }

  /** Which bytes get which answer. */
  lemma DecodeOneSplit(H: Hasher, magic: dword, data: seq<byte>)
    ensures DecodeOne(H, magic, data) == Bad(BadMagic) <==> |data| >= 24 && ToDword(data[0..4]) != magic
    ensures DecodeOne(H, magic, data) == Bad(Overrun) <==> GoodMagic(magic, data) && ToDword(data[16..20]) >= 0xFFFF_FFE8
    ensures DecodeOne(H, magic, data) == NeedMore <==>
            |data| < 24 || (GoodMagic(magic, data) && |data| < 24 + ToDword(data[16..20]) < 0x1_0000_0000)
    ensures DecodeOne(H, magic, data) == Bad(BadChecksum) <==>
            AllThere(magic, data) && ToDword(data[20..24]) != ToDword(H(data[24..24 + ToDword(data[16..20])])[..4])
    ensures DecodeOne(H, magic, data).Decoded? <==>
            AllThere(magic, data) && ToDword(data[20..24]) == ToDword(H(data[24..24 + ToDword(data[16..20])])[..4])
    ensures DecodeOne(H, magic, data).Decoded? ==>
              var length := ToDword(data[16..20]);
              DecodeOne(H, magic, data) ==
              Decoded(Message(Header(magic, CString(data[4..16]), length, ToDword(data[20..24])), data[24..24 + length]), 24 + length)
  {
    if |data| >= 24 && ToDword(data[16..20]) >= 0xFFFF_FFE8 {
      assert (ToDword(data[16..20]) + 24) % 0x1_0000_0000 < 24;
    }
  }

  /** The sum of length and header size wraps for exactly the last 24 lengths; a header alone is enough for it. */
  lemma HeaderOverruns(H: Hasher, magic: dword)
    ensures DecodeOne(H, magic, FromDword(magic) + Zeros(12) + FromDword(0xFFFF_FFE8) + Zeros(4)) == Bad(Overrun)
  {
    var data := FromDword(magic) + Zeros(12) + FromDword(0xFFFF_FFE8) + Zeros(4);
    assert data[0..4] == FromDword(magic) && data[16..20] == FromDword(0xFFFF_FFE8);
    DwordRoundTrip(magic);
    DwordRoundTrip(0xFFFF_FFE8);
    DecodeOneSplit(H, magic, data);
  }

  /** The result that reports a failure; there is none for an overrun, which -3 marks here. */
  function CodeOf(failure: Failure): int {
    match failure
    case BadMagic => -1
    case BadChecksum => -2
    case Overrun => -3
  }

  // ----- a stream

  datatype Outcome = Waiting(rest: seq<byte>) | Failed(failure: Failure)

  /** The messages delivered from a stream, and whether it is then waiting for more or broken. */
  datatype Parse = Parse(messages: seq<Message>, outcome: Outcome)

  function ParseStream(H: Hasher, magic: dword, data: seq<byte>): Parse
    decreases |data|
  {
    if data == [] then Parse([], Waiting([])) else
      match DecodeOne(H, magic, data)
      case NeedMore => Parse([], Waiting(data))
      case Bad(failure) => Parse([], Failed(failure))
      case Decoded(message, size) => After([message], ParseStream(H, magic, data[size..]))
  }

  function After(messages: seq<Message>, p: Parse): Parse {
    Parse(messages + p.messages, p.outcome)
  }

  /** What arrives later does not change what the front of the stream says. */
  lemma DecodeOneIsStable(H: Hasher, magic: dword, a: seq<byte>, b: seq<byte>)
    ensures DecodeOne(H, magic, a) != NeedMore ==> DecodeOne(H, magic, a + b) == DecodeOne(H, magic, a)
  {
    if |a| >= PROTOCOL_HEADER_SIZE {
      assert (a + b)[0..4] == a[0..4] && (a + b)[4..16] == a[4..16];
      assert (a + b)[16..20] == a[16..20] && (a + b)[20..24] == a[20..24];
      var n := ReadHeader(a).length;
      if PROTOCOL_HEADER_SIZE + n <= |a| {
        assert (a + b)[PROTOCOL_HEADER_SIZE..PROTOCOL_HEADER_SIZE + n] == a[PROTOCOL_HEADER_SIZE..PROTOCOL_HEADER_SIZE + n];
      }
    }
  }

  function Continue(H: Hasher, magic: dword, p: Parse, more: seq<byte>): Parse {
    match p.outcome
    case Failed(_) => p
    case Waiting(rest) => After(p.messages, ParseStream(H, magic, rest + more))
  }

  /** Parsing in two pieces, the undecided rest carried over, is parsing the whole. */
  lemma {:induction false} ParseInTwo(H: Hasher, magic: dword, a: seq<byte>, b: seq<byte>)
    ensures ParseStream(H, magic, a + b) == Continue(H, magic, ParseStream(H, magic, a), b)
    decreases |a|
  {
    if a == [] {
      assert a + b == b;
      assert [] + b == b;
    } else {
      DecodeOneIsStable(H, magic, a, b);
      match DecodeOne(H, magic, a)
      case NeedMore =>
        assert After([], ParseStream(H, magic, a + b)).messages == ParseStream(H, magic, a + b).messages;
      case Bad(_) =>
      case Decoded(message, size) =>
        ParseInTwo(H, magic, a[size..], b);
        assert (a + b)[size..] == a[size..] + b;
        AfterContinue(H, magic, [message], ParseStream(H, magic, a[size..]), b);
    }
  }

  lemma AfterContinue(H: Hasher, magic: dword, messages: seq<Message>, p: Parse, more: seq<byte>)
    ensures Continue(H, magic, After(messages, p), more) == After(messages, Continue(H, magic, p, more))
  {
    if p.outcome.Waiting? {
      AfterAfter(messages, p.messages, ParseStream(H, magic, p.outcome.rest + more));
    }
  }

  function Flatten(chunks: seq<seq<byte>>): seq<byte> {
    if chunks == [] then [] else chunks[0] + Flatten(chunks[1..])
  }

  /** Decode calls on successive chunks, ended by the first failure. */
  function Feed(H: Hasher, magic: dword, p: Parse, chunks: seq<seq<byte>>): Parse
    decreases |chunks|
  {
    if chunks == [] then p else Feed(H, magic, Continue(H, magic, p, chunks[0]), chunks[1..])
  }

  /**
   * However a stream is cut into chunks, the same messages are delivered and the same bytes
   * stay undecided, or the same failure comes after the same messages.
   */
  lemma {:induction false} ChunkingIsIrrelevant(H: Hasher, magic: dword, before: seq<byte>, chunks: seq<seq<byte>>)
    ensures Feed(H, magic, ParseStream(H, magic, before), chunks) == ParseStream(H, magic, before + Flatten(chunks))
    decreases |chunks|
  {
    if chunks == [] {
      assert before + Flatten(chunks) == before;
    } else {
      ParseInTwo(H, magic, before, chunks[0]);
      ChunkingIsIrrelevant(H, magic, before + chunks[0], chunks[1..]);
      assert before + chunks[0] + Flatten(chunks[1..]) == before + Flatten(chunks);
    }
  }

  lemma AfterAfter(a: seq<Message>, b: seq<Message>, p: Parse)
    ensures After(a, After(b, p)) == After(a + b, p)
  {
    assert a + (b + p.messages) == a + b + p.messages;
  }

  /** What waits is always shorter than a header, or than the message it declares. */
  lemma {:induction false} WaitingIsShort(H: Hasher, magic: dword, data: seq<byte>)
    requires ParseStream(H, magic, data).outcome.Waiting?
    ensures var rest := ParseStream(H, magic, data).outcome.rest;
            |rest| < 24 || (GoodMagic(magic, rest) && |rest| < 24 + ToDword(rest[16..20]) < 0x1_0000_0000)
    decreases |data|
  {
    if data != [] {
      DecodeOneSplit(H, magic, data);
      if DecodeOne(H, magic, data).Decoded? {
        WaitingIsShort(H, magic, data[DecodeOne(H, magic, data).size..]);
      }
    }
  }

  /** One attempt at the front of a stream: stop, or move one message from the unparsed part to the parsed. */
  lemma FrontStep(H: Hasher, magic: dword, got: seq<Message>, front: seq<byte>)
    requires front != []
    ensures var step, p := DecodeOne(H, magic, front), After(got, ParseStream(H, magic, front));
            && (step.NeedMore? ==> p == Parse(got, Waiting(front)))
            && (step.Bad? ==> p == Parse(got, Failed(step.failure)))
            && (step.Decoded? ==> p == After(got + [step.message], ParseStream(H, magic, front[step.size..])))
  {
    var step := DecodeOne(H, magic, front);
    assert got + [] == got;
    if step.Decoded? {
      AfterAfter(got, [step.message], ParseStream(H, magic, front[step.size..]));
    }
  }

  class MessageDecoder {
    const hash: Hasher
    const magic: dword
    var buffer: seq<byte>
    /** Everything the listener has been told so far. */
    var delivered: seq<Message>

    constructor (hash: Hasher, magic: dword)
      ensures this.hash == hash && this.magic == magic && buffer == [] && delivered == []
    {
      this.hash, this.magic, buffer, delivered := hash, magic, [], [];
    }

    /** One chunk arrives. */
    method Decode(data: seq<byte>) returns (ok: bool)
      modifies this
      ensures var p := Continue(hash, magic, Parse(old(delivered), Waiting(old(buffer))), data);
              && delivered == p.messages
              && (ok <==> p.outcome.Waiting?)
              && (ok ==> buffer == p.outcome.rest)
      ensures !ok ==> buffer == if old(buffer) == [] then [] else old(buffer) + data
    {
      var buf := data;
      if buffer != [] {
        buffer := buffer + data;
        buf := buffer;
      }
      assert buf == old(buffer) + data;
      var processed := DecodeMessages(buf);
      if processed < 0 {
        return false;
      }
      buffer := buf[processed..];
      return true;
    }

    /** Deliver messages off the front of `data`; the result is the size used, negative on failure. */
    method DecodeMessages(data: seq<byte>) returns (size: int)
      modifies this`delivered
      ensures size <= |data|
      ensures var p := After(old(delivered), ParseStream(hash, magic, data));
              && delivered == p.messages
              && (size >= 0 <==> p.outcome.Waiting?)
              && (size >= 0 ==> p.outcome.rest == data[size..])
              && (size < 0 ==> size == CodeOf(p.outcome.failure))
    {
      var decodedSize := 0;
      ghost var whole := Expected(data);
      assert data[decodedSize..] == data;
      while decodedSize < |data|
        invariant 0 <= decodedSize <= |data|
        invariant Expected(data[decodedSize..]) == whole
      {
        var msgSize := DecodeFront(data, decodedSize);
        if msgSize < 0 {
          return msgSize;
        }
        if msgSize == 0 {
          return decodedSize;
        }
        decodedSize := decodedSize + msgSize;
      }
      NothingExpected();
      assert data[decodedSize..] == [];
      return decodedSize;
    }

    /** Everything delivered so far and still to come if `data` is what is left. */
    ghost function Expected(data: seq<byte>): Parse
      reads this`delivered
    {
      After(delivered, ParseStream(hash, magic, data))
    }

    lemma NothingExpected()
      ensures Expected([]) == Parse(delivered, Waiting([]))
    {
      assert delivered + [] == delivered;
    }

    /** One round of the loop. */
    method DecodeFront(data: seq<byte>, at: nat) returns (size: int)
      requires at < |data|
      modifies this`delivered
      ensures size > 0 ==> at + size <= |data| && Expected(data[at + size..]) == old(Expected(data[at..]))
      ensures size == 0 ==> old(Expected(data[at..])) == Parse(delivered, Waiting(data[at..]))
      ensures size < 0 ==> old(Expected(data[at..])).messages == delivered &&
                           old(Expected(data[at..])).outcome.Failed? && size == CodeOf(old(Expected(data[at..])).outcome.failure)
    {
      FrontStep(hash, magic, delivered, data[at..]);
      size := DecodeOneMessage(data[at..]);
      if size > 0 {
        assert data[at..][size..] == data[at + size..];
      }
    }

    /** The size of the message at the front of `data`, 0 while it is incomplete, negative if it is bad. */
    method DecodeOneMessage(data: seq<byte>) returns (size: int)
      modifies this`delivered
      ensures var step := DecodeOne(hash, magic, data);
              && (step.NeedMore? ==> size == 0 && delivered == old(delivered))
              && (step.Bad? ==> size == CodeOf(step.failure) && delivered == old(delivered))
              && (size == -1 <==> step == Bad(BadMagic)) && (size == -2 <==> step == Bad(BadChecksum))
              && (step.Decoded? ==> size == step.size && delivered == old(delivered) + [step.message])
    {
      if |data| < PROTOCOL_HEADER_SIZE {
        return 0;
      }
      var header := ReadHeader(data);
      if header.magic != magic {
        return -1;
      }
      if |data| < (header.length + PROTOCOL_HEADER_SIZE) % 0x1_0000_0000 {
        return 0;
      }
      if header.length + PROTOCOL_HEADER_SIZE >= 0x1_0000_0000 {
        return -3;
      }
      var payload := data[PROTOCOL_HEADER_SIZE..PROTOCOL_HEADER_SIZE + header.length];
      if Checksum(hash, payload) != header.checksum {
        return -2;
      }
      delivered := delivered + [Message(header, payload)];
      return header.length + PROTOCOL_HEADER_SIZE;
    }
  }

  // ----- the encoder

  /** The wire form of a message; a command must leave room for its terminating zero. */
  function Encoded(H: Hasher, magic: dword, command: seq<byte>, payload: seq<byte>): (r: Option<seq<byte>>)
    requires |payload| < 0x1_0000_0000
  {
    if |command| >= MAX_COMMAND_SIZE then None
    else Some(FromDword(magic) + CommandField(command) + FromDword(|payload|) + H(payload)[..4] + payload)
  }

  function CommandField(command: seq<byte>): seq<byte>
    requires |command| < MAX_COMMAND_SIZE
  {
    command + Zeros(MAX_COMMAND_SIZE - |command|)
  }

  /** Bytes with the five fields in their places are the wire form. */
  lemma FieldsInPlace(H: Hasher, magic: dword, command: seq<byte>, payload: seq<byte>, wire: seq<byte>)
    requires |command| < MAX_COMMAND_SIZE && |payload| < 0x1_0000_0000
    requires |wire| == PROTOCOL_HEADER_SIZE + |payload|
    requires wire[..4] == FromDword(magic) && wire[4..16] == CommandField(command)
    requires wire[16..20] == FromDword(|payload|) && wire[20..24] == H(payload)[..4] && wire[24..] == payload
    ensures Encoded(H, magic, command, payload) == Some(wire)
  {
    assert wire == wire[..4] + wire[4..16] + wire[16..20] + wire[20..24] + wire[24..];
  }

  lemma SliceOfFront(a: array<byte>, n: nat, i: nat, j: nat)
    requires i <= j <= n <= a.Length
    ensures a[..n][i..j] == a[i..j]
  {
    forall k | 0 <= k < j - i ensures a[..n][i..j][k] == a[i..j][k] {
    }
  }

  class MessageEncoder {
    const hash: Hasher
    const magic: dword
    const buffer: array<byte>

    constructor (hash: Hasher, magic: dword)
      ensures this.hash == hash && this.magic == magic && fresh(buffer) && buffer.Length == 0x10_0000
    {
      this.hash, this.magic := hash, magic;
      buffer := new byte[0x10_0000](_ => 0);
    }

    method WriteAt(pos: nat, bytes: seq<byte>) returns (next: nat)
      requires pos + |bytes| <= buffer.Length
      modifies buffer
      ensures next == pos + |bytes| && buffer[pos..next] == bytes
      ensures forall j :: 0 <= j < buffer.Length && !(pos <= j < next) ==> buffer[j] == old(buffer[j])
    {
      next := pos;
      for i := 0 to |bytes|
        invariant next == pos + i
        invariant forall j :: 0 <= j < buffer.Length ==>
                    buffer[j] == if pos <= j < pos + i then bytes[j - pos] else old(buffer[j])
      {
        buffer[next] := bytes[i];
        next := next + 1;
      }
    }

    /**
     * Write the message with placeholders for length and checksum, then seek back and fill
     * them in; the result is the total size, -1 for a command that is too long.
     */
    method Encode(command: seq<byte>, payload: seq<byte>) returns (size: int)
      requires PROTOCOL_HEADER_SIZE + |payload| <= buffer.Length < 0x1_0000_0000
      modifies buffer
      ensures size == -1 <==> Encoded(hash, magic, command, payload).None?
      ensures size != -1 ==> 0 <= size <= buffer.Length && Encoded(hash, magic, command, payload) == Some(buffer[..size])
    {
      var pos := WriteAt(0, FromDword(magic));
      if |command| >= MAX_COMMAND_SIZE {
        return -1;
      }
      var lengthPos := WriteAt(pos, CommandField(command));
      assert buffer[..4] == FromDword(magic);
      ghost var head := buffer[..lengthPos];
      assert head[..4] == FromDword(magic) && head[4..] == CommandField(command);
      pos := WriteAt(lengthPos, FromDword(0));
      assert buffer[..lengthPos] == head;
      var payloadPos := WriteAt(pos, FromDword(0));
      assert buffer[..lengthPos] == head;
      var totalSize := WriteAt(payloadPos, payload);
      assert buffer[..lengthPos] == head;
      var payloadSize := totalSize - payloadPos;
      FillIn(lengthPos, payloadPos, totalSize, payloadSize);
      ghost var wire := buffer[..totalSize];
      assert wire[..4] == head[..4] && wire[4..16] == head[4..];
      SliceOfFront(buffer, totalSize, lengthPos, lengthPos + 4);
      SliceOfFront(buffer, totalSize, lengthPos + 4, payloadPos);
      SliceOfFront(buffer, totalSize, payloadPos, totalSize);
      assert wire[24..] == wire[24..totalSize] == payload;
      FieldsInPlace(hash, magic, command, payload, wire);
      size := totalSize;
    }

    /** Seek back to the placeholders and overwrite them with the length and the checksum. */
    method FillIn(lengthPos: nat, payloadPos: nat, totalSize: nat, payloadSize: dword)
      requires lengthPos + 8 == payloadPos <= totalSize == payloadPos + payloadSize <= buffer.Length
      modifies buffer
      ensures buffer[..lengthPos] == old(buffer[..lengthPos])
      ensures buffer[payloadPos..totalSize] == old(buffer[payloadPos..totalSize])
      ensures buffer[lengthPos..lengthPos + 4] == FromDword(payloadSize)
      ensures buffer[lengthPos + 4..payloadPos] == hash(old(buffer[payloadPos..totalSize]))[..4]
    {
      var pos := WriteAt(lengthPos, FromDword(payloadSize));
      assert buffer[payloadPos..totalSize] == old(buffer[payloadPos..totalSize]);
      var checksum := hash(buffer[payloadPos..totalSize]);
      pos := WriteAt(pos, checksum[..4]);
    }
  }

  // ----- encoding and decoding together

  lemma {:induction false} CStringOfPadded(command: seq<byte>, n: nat)
    requires n > 0
    ensures CString(command + Zeros(n)) == CString(command)
    ensures CString(command) == command <==> 0 !in command
  {
    var s := command + Zeros(n);
    if command != [] {
      assert s[1..] == command[1..] + Zeros(n);
      assert command == [command[0]] + command[1..];
      CStringOfPadded(command[1..], n);
    }
  }

  /** What a receiver sees of a message sent as `command` and `payload`. */
  function Received(H: Hasher, magic: dword, command: seq<byte>, payload: seq<byte>): Message
    requires |payload| < 0x1_0000_0000
  {
    Message(Header(magic, CString(command), |payload|, Checksum(H, payload)), payload)
  }

  /** One encoded message in front of anything decodes to itself. */
  lemma EncodedDecodes(H: Hasher, magic: dword, command: seq<byte>, payload: seq<byte>, more: seq<byte>)
    requires |command| < MAX_COMMAND_SIZE && |payload| + PROTOCOL_HEADER_SIZE < 0x1_0000_0000
    ensures var wire := Encoded(H, magic, command, payload).value;
            |wire| == |payload| + PROTOCOL_HEADER_SIZE &&
            DecodeOne(H, magic, wire + more) == Decoded(Received(H, magic, command, payload), |wire|)
  {
    var wire := Encoded(H, magic, command, payload).value;
    var data := wire + more;
    assert data[0..4] == FromDword(magic);
    assert data[4..16] == CommandField(command);
    assert data[16..20] == FromDword(|payload|);
    assert data[20..24] == H(payload)[..4];
    assert data[24..24 + |payload|] == payload;
    DwordRoundTrip(magic);
    DwordRoundTrip(|payload|);
    CStringOfPadded(command, MAX_COMMAND_SIZE - |command|);
  }

  /**
   * Conversely, whatever bytes are accepted as a message are the encoder's bytes for it, if and only
   * if the command leaves room for a terminating zero and nothing but zeros follows it.
   */
  lemma DecodedIsEncoded(H: Hasher, magic: dword, data: seq<byte>)
    requires DecodeOne(H, magic, data).Decoded?
    ensures var step := DecodeOne(H, magic, data);
            var command, payload := step.message.header.command, step.message.payload;
            && |payload| + PROTOCOL_HEADER_SIZE == step.size
            && (Encoded(H, magic, command, payload) == Some(data[..step.size]) <==>
                |command| < MAX_COMMAND_SIZE && data[4..16] == CommandField(command))
  {
    var step := DecodeOne(H, magic, data);
    var command, payload, wire := step.message.header.command, step.message.payload, data[..step.size];
    BytesRoundTrip(data[0..4]);
    BytesRoundTrip(data[16..20]);
    BytesRoundTrip(data[20..24]);
    BytesRoundTrip(H(payload)[..4]);
    assert wire[..4] == data[0..4] && wire[4..16] == data[4..16] && wire[16..20] == data[16..20];
    assert wire[20..24] == data[20..24] && wire[24..] == payload;
    if |command| < MAX_COMMAND_SIZE {
      if data[4..16] == CommandField(command) {
        FieldsInPlace(H, magic, command, payload, wire);
      } else {
        CommandInPlace(H, magic, command, payload);
      }
    }
  }

  lemma CommandInPlace(H: Hasher, magic: dword, command: seq<byte>, payload: seq<byte>)
    requires |command| < MAX_COMMAND_SIZE && |payload| < 0x1_0000_0000
    ensures var wire := Encoded(H, magic, command, payload).value;
            |wire| >= 16 && wire[4..16] == CommandField(command)
  {
  }

  datatype Sent = Sent(command: seq<byte>, payload: seq<byte>)

  predicate Sendable(m: Sent) {
    |m.command| < MAX_COMMAND_SIZE && |m.payload| + PROTOCOL_HEADER_SIZE < 0x1_0000_0000
  }

  predicate AllSendable(sent: seq<Sent>) {
    sent == [] || (Sendable(sent[0]) && AllSendable(sent[1..]))
  }

  function WireOf(H: Hasher, magic: dword, sent: seq<Sent>): seq<byte>
    requires AllSendable(sent)
  {
    if sent == [] then [] else Encoded(H, magic, sent[0].command, sent[0].payload).value + WireOf(H, magic, sent[1..])
  }

  function ReceivedOf(H: Hasher, magic: dword, sent: seq<Sent>): seq<Message>
    requires AllSendable(sent)
  {
    if sent == [] then [] else [Received(H, magic, sent[0].command, sent[0].payload)] + ReceivedOf(H, magic, sent[1..])
  }

  lemma {:induction false} WireParses(H: Hasher, magic: dword, sent: seq<Sent>)
    requires AllSendable(sent)
    ensures ParseStream(H, magic, WireOf(H, magic, sent)) == Parse(ReceivedOf(H, magic, sent), Waiting([]))
  {
    if sent != [] {
      var first, later := Encoded(H, magic, sent[0].command, sent[0].payload).value, WireOf(H, magic, sent[1..]);
      EncodedDecodes(H, magic, sent[0].command, sent[0].payload, later);
      WireParses(H, magic, sent[1..]);
      assert (first + later)[|first|..] == later;
    }
  }

  /** A bad message behind good ones fails right after them, and nothing that follows it is heard of. */
  lemma BadAfterGood(H: Hasher, magic: dword, sent: seq<Sent>, bad: seq<byte>, more: seq<byte>)
    requires AllSendable(sent) && DecodeOne(H, magic, bad).Bad?
    ensures ParseStream(H, magic, WireOf(H, magic, sent) + (bad + more)) ==
            Parse(ReceivedOf(H, magic, sent), Failed(DecodeOne(H, magic, bad).failure))
  {
    WireParses(H, magic, sent);
    ParseInTwo(H, magic, WireOf(H, magic, sent), bad + more);
    DecodeOneIsStable(H, magic, bad, more);
    assert [] + (bad + more) == bad + more;
  }

  /** In particular one whose payload or checksum was damaged on the way. */
  lemma DamageIsNoticed(H: Hasher, magic: dword, sent: seq<Sent>, damaged: seq<byte>, more: seq<byte>)
    requires AllSendable(sent) && AllThere(magic, damaged)
    requires ToDword(damaged[20..24]) != ToDword(H(damaged[24..24 + ToDword(damaged[16..20])])[..4])
    ensures ParseStream(H, magic, WireOf(H, magic, sent) + (damaged + more)) ==
            Parse(ReceivedOf(H, magic, sent), Failed(BadChecksum))
  {
    DecodeOneSplit(H, magic, damaged);
    BadAfterGood(H, magic, sent, damaged, more);
  }

  /** Sent messages arrive, complete and in order, however the bytes are cut up on the way. */
  lemma SentArrives(H: Hasher, magic: dword, sent: seq<Sent>, chunks: seq<seq<byte>>)
    requires AllSendable(sent)
    requires Flatten(chunks) == WireOf(H, magic, sent)
    ensures Feed(H, magic, Parse([], Waiting([])), chunks) == Parse(ReceivedOf(H, magic, sent), Waiting([]))
  {
    ChunkingIsIrrelevant(H, magic, [], chunks);
    assert [] + Flatten(chunks) == Flatten(chunks);
    WireParses(H, magic, sent);
  }
}
