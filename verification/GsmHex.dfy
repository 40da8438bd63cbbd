/**
 The hexadecimal transport of a GSM socket: `write` sends a buffer in commands of up
 to 256 octets, and the socket buffer decodes the answers that octets arrive in.
 */
module GsmHex {
  import opened Bytes

  const CHUNK := 256
  const GSM_SOCKET_BUFFER_SIZE := 512
  const READ_PREFIX := "+USORD: "

  function HexDigit(n: nat): char
    requires n < 16
  {
    if n > 9 then 'A' + (n - 10) as char else '0' + n as char
  }

  predicate IsHex(c: char) {
    '0' <= c <= '9' || 'A' <= c <= 'F'
  }

  /** A digit as the decoder reads it. */
  function HexValue(c: char): int {
    if c > '9' then c as int - 'A' as int + 10 else c as int - '0' as int
  }

  function Hex(s: seq<byte>): (t: string)
    ensures |t| == 2 * |s|
  {
    if s == [] then []
    else
      var b: int := s[|s| - 1];
      Hex(s[..|s| - 1]) + [HexDigit(b / 16), HexDigit(b % 16)]
  }

  function Octet(high: char, low: char): byte {
    (HexValue(high) * 16 + HexValue(low)) % 256
  }

  /** The octets of as many pairs of digits as there are. */
  function Unhex(t: string): seq<byte> {
    seq(|t| / 2, k requires 0 <= k < |t| / 2 => Octet(t[2 * k], t[2 * k + 1]))
  }

  lemma {:induction false} HexAt(s: seq<byte>, k: nat)
    requires k < |s|
    ensures Hex(s)[2 * k] == HexDigit(s[k] / 16) && Hex(s)[2 * k + 1] == HexDigit(s[k] % 16)
  {
    if k < |s| - 1 {
      HexAt(s[..|s| - 1], k);
    }
  }

  /** The two digits of every octet, high one first, in the order of their values. */
  lemma HexSpells(s: seq<byte>, k: nat)
    requires k < |s|
    ensures Hex(s)[2 * k] == HEX_DIGITS[s[k] / 16] && Hex(s)[2 * k + 1] == HEX_DIGITS[s[k] % 16]
  {
    hide HexDigit, Hex, HEX_DIGITS;
    HexAt(s, k);
    DigitSpells(s[k] / 16);
    DigitSpells(s[k] % 16);
  }

  const HEX_DIGITS := "0123456789ABCDEF"

  lemma DigitSpells(n: nat)
    requires n < 16
    ensures |HEX_DIGITS| == 16 && HexDigit(n) == HEX_DIGITS[n]
  {
  }

  lemma HexNext(s: seq<byte>, b: byte)
    ensures Hex(s + [b]) == Hex(s) + [HexDigit(b / 16), HexDigit(b % 16)]
  {
    assert (s + [b])[..|s|] == s;
  }

  lemma ValueOfDigit(n: nat)
    requires n < 16
    ensures HexValue(HexDigit(n)) == n && IsHex(HexDigit(n))
  {
  }

  lemma OctetOfDigits(b: byte)
    ensures Octet(HexDigit(b / 16), HexDigit(b % 16)) == b
    ensures IsHex(HexDigit(b / 16)) && IsHex(HexDigit(b % 16))
  {
    ValueOfDigit(b / 16);
    ValueOfDigit(b % 16);
    assert b / 16 * 16 + b % 16 == b;
  }

  /** Two digits an octet, each in the alphabet, and they decode to the octets. */
  lemma {:induction false} HexRoundTrip(s: seq<byte>)
    ensures Unhex(Hex(s)) == s
    ensures forall c :: c in Hex(s) ==> IsHex(c)
  {
    hide Hex, Octet, HexDigit, IsHex;
    var t := Hex(s);
    forall k: nat | k < |s|
      ensures Octet(t[2 * k], t[2 * k + 1]) == s[k] && IsHex(t[2 * k]) && IsHex(t[2 * k + 1])
    {
      HexAt(s, k);
      OctetOfDigits(s[k]);
    }
    forall c | c in t
      ensures IsHex(c)
    {
      var i :| 0 <= i < |t| && t[i] == c;
      assert i == 2 * (i / 2) || i == 2 * (i / 2) + 1;
    }
  }

  function Decimal(n: nat): string {
    (if n < 10 then [] else Decimal(n / 10)) + ['0' + (n % 10) as char]
  }

  function DecimalValue(t: string): int {
    if t == [] then 0 else DecimalValue(t[..|t| - 1]) * 10 + (t[|t| - 1] as int - '0' as int)
  }

  lemma {:induction false} DecimalRead(n: nat)
    ensures DecimalValue(Decimal(n)) == n
    ensures forall c :: c in Decimal(n) ==> '0' <= c <= '9'
  {
    if n >= 10 {
      DecimalRead(n / 10);
      assert Decimal(n)[..|Decimal(n)| - 1] == Decimal(n / 10);
    }
  }

  /** The digits of a number below ten, and of one more place behind the others. */
  lemma DecimalSpells(n: nat)
    ensures n < 10 ==> Decimal(n) == ["0123456789"[n]]
    ensures n >= 10 ==> Decimal(n) == Decimal(n / 10) + ["0123456789"[n % 10]]
  {
  }

  /** The first place of `c`, or -1. */
  function IndexOf(t: string, c: char): (i: int)
    ensures -1 <= i < |t|
  {
    if t == [] then -1
    else if t[0] == c then 0
    else
      var i := IndexOf(t[1..], c);
      if i < 0 then -1 else i + 1
  }

  lemma {:induction false} IndexAfter(a: string, c: char, b: string)
    requires c !in a
    ensures IndexOf(a + [c] + b, c) == |a|
  {
    if a != [] {
      assert (a + [c] + b)[1..] == a[1..] + [c] + b;
      IndexAfter(a[1..], c, b);
    }
  }

  /** What stands after the first quote, without the last character. */
  function Quoted(t: string): string {
    var rest := t[IndexOf(t, '"') + 1..];
    if rest == [] then [] else rest[..|rest| - 1]
  }

  lemma QuotedBetween(head: string, body: string)
    requires '"' !in head
    ensures Quoted(head + "\"" + body + "\"") == body
  {
    assert head + "\"" + body + "\"" == head + ['"'] + (body + "\"");
    IndexAfter(head, '"', body + "\"");
  }

  /** One command of `write`. */
  function WriteHead(socket: nat, count: nat): string {
    "AT+USOWR=" + Decimal(socket) + "," + Decimal(count) + ","
  }

  function WriteCommand(socket: nat, part: seq<byte>): string {
    WriteHead(socket, |part|) + "\"" + Hex(part) + "\""
  }

  /** The octets and the count that a command carries, read off its text. */
  function Payload(command: string): seq<byte> {
    Unhex(Quoted(command))
  }

  function CountField(command: string): int {
    var rest := command[IndexOf(command, ',') + 1..];
    var i := IndexOf(rest, ',');
    if i < 0 then DecimalValue(rest) else DecimalValue(rest[..i])
  }

  /** The number of the socket that a command is for. */
  function SocketField(command: string): int {
    var i := IndexOf(command, ',');
    if i < 9 then -1 else DecimalValue(command[9..i])
  }

  lemma CommandRead(socket: nat, part: seq<byte>)
    ensures Payload(WriteCommand(socket, part)) == part
    ensures CountField(WriteCommand(socket, part)) == |part|
    ensures "AT+USOWR=" <= WriteCommand(socket, part) && SocketField(WriteCommand(socket, part)) == socket
  {
    hide Decimal, DecimalValue, Hex, Unhex, IndexOf, CountField, SocketField;
    DecimalRead(socket);
    DecimalRead(|part|);
    HexRoundTrip(part);
    QuotedBetween(WriteHead(socket, |part|), Hex(part));
    FieldsRead(socket, part);
  }

  lemma FieldsRead(socket: nat, part: seq<byte>)
    ensures CountField(WriteCommand(socket, part)) == |part|
    ensures "AT+USOWR=" <= WriteCommand(socket, part) && SocketField(WriteCommand(socket, part)) == socket
  {
    hide Decimal, DecimalValue, Hex, IndexOf;
    DecimalRead(socket);
    DecimalRead(|part|);
    var front := "AT+USOWR=" + Decimal(socket);
    var tail := ",\"" + Hex(part) + "\"";
    assert WriteCommand(socket, part) == front + [','] + (Decimal(|part|) + tail);
    IndexAfter(front, ',', Decimal(|part|) + tail);
    assert Decimal(|part|) + tail == Decimal(|part|) + [','] + tail[1..];
    IndexAfter(Decimal(|part|), ',', tail[1..]);
    assert WriteCommand(socket, part)[9..|front|] == Decimal(socket);
  }

  /** The commands for a buffer: all full chunks, then the rest. */
  function Commands(socket: nat, s: seq<byte>): seq<string> {
    if s == [] then []
    else if |s| <= CHUNK then [WriteCommand(socket, s)]
    else [WriteCommand(socket, s[..CHUNK])] + Commands(socket, s[CHUNK..])
  }

  /** What a list of commands carries. */
  function Carried(commands: seq<string>): seq<byte> {
    if commands == [] then [] else Payload(commands[0]) + Carried(commands[1..])
  }

  /** The commands for a buffer carry the buffer, and each says how much it carries. */
  lemma {:induction false} CommandsCarry(socket: nat, s: seq<byte>)
    ensures Carried(Commands(socket, s)) == s
    ensures forall c :: c in Commands(socket, s) ==> CountField(c) == |Payload(c)| <= CHUNK && SocketField(c) == socket
  {
    hide WriteCommand, Payload, CountField, SocketField;
    if 0 < |s| <= CHUNK {
      CommandRead(socket, s);
      assert Commands(socket, s)[1..] == [];
    } else if |s| > CHUNK {
      CommandRead(socket, s[..CHUNK]);
      CommandsCarry(socket, s[CHUNK..]);
      assert Commands(socket, s)[1..] == Commands(socket, s[CHUNK..]);
    }
  }

  /** The last chunk behind `n` octets in full chunks. */
  lemma {:induction false} CommandsNext(socket: nat, s: seq<byte>, n: nat)
    requires n % CHUNK == 0 && n < |s| <= n + CHUNK
    ensures Commands(socket, s) == Commands(socket, s[..n]) + [WriteCommand(socket, s[n..])]
  {
    hide WriteCommand;
    if n == 0 {
      assert s[0..] == s;
    } else {
      var rest := s[CHUNK..];
      CommandsNext(socket, rest, n - CHUNK);
      assert rest[n - CHUNK..] == s[n..] && rest[..n - CHUNK] == s[..n][CHUNK..];
      assert s[..n][..CHUNK] == s[..CHUNK];
      if n == CHUNK {
        assert s[..n] == s[..CHUNK] && rest[..0] == [];
      }
    }
  }

  datatype Reply = NoReply | Other(text: string) | Octets(octets: seq<byte>)

  function ReadResponse(socket: nat, octets: seq<byte>): string {
    READ_PREFIX + Decimal(socket) + "," + Decimal(|octets|) + "," + "\"" + Hex(octets) + "\""
  }

  predicate ReplyFits(reply: Reply) {
    match reply
    case NoReply => true
    case Other(text) => !(READ_PREFIX <= text)
    case Octets(octets) => |octets| <= GSM_SOCKET_BUFFER_SIZE
  }

  ghost predicate RepliesFit(replies: seq<Reply>) {
    forall k :: 0 <= k < |replies| ==> ReplyFits(replies[k])
  }

  lemma ResponseRead(socket: nat, octets: seq<byte>)
    ensures READ_PREFIX <= ReadResponse(socket, octets)
    ensures Unhex(Quoted(ReadResponse(socket, octets))) == octets
    ensures |Quoted(ReadResponse(socket, octets))| == 2 * |octets|
  {
    hide Decimal, DecimalValue, Hex, Unhex, Quoted;
    DecimalRead(socket);
    DecimalRead(|octets|);
    HexRoundTrip(octets);
    QuotedBetween(READ_PREFIX + Decimal(socket) + "," + Decimal(|octets|) + ",", Hex(octets));
  }

  function OctetsOf(reply: Reply): seq<byte> {
    if reply.Octets? then reply.octets else []
  }

  function Behind(replies: seq<Reply>): seq<Reply> {
    if replies == [] then [] else replies[1..]
  }

  /** The modem: scripts of how it answers writes and reads stand for any behaviour.
      An answer carries at most the octets asked for. */
  class Modem {
    var acks: seq<bool>
    var replies: seq<Reply>
    var sent: seq<string>
    ghost var arrived: seq<byte>

    constructor (acks: seq<bool>, replies: seq<Reply>)
      ensures this.acks == acks && this.replies == replies && sent == [] && arrived == []
    {
      this.acks, this.replies, sent, arrived := acks, replies, [], [];
    }

    /** How the next read will be answered; an empty text when the script has ended. */
    function NextReply(): Reply
      reads this
    {
      if replies == [] then Other("") else replies[0]
    }

    predicate WillAnswer()
      reads this
    {
      NextReply() != NoReply
    }

    method Send(command: string)
      modifies this`sent
      ensures sent == old(sent) + [command]
    {
      sent := sent + [command];
    }

    /** The answer to a read command; the octets it carries have arrived. */
    method Read(socket: nat) returns (status: int, response: string)
      requires RepliesFit(replies)
      modifies this`replies, this`arrived
      ensures RepliesFit(replies) && replies == Behind(old(replies))
      ensures arrived == old(arrived) + OctetsOf(old(NextReply()))
      ensures match old(NextReply())
        case NoReply => status != 1
        case Other(text) => status == 1 && response == text && !(READ_PREFIX <= response)
        case Octets(octets) =>
          && status == 1 && response == ReadResponse(socket, octets) && READ_PREFIX <= response
          && |octets| <= GSM_SOCKET_BUFFER_SIZE
    {
      var reply := NextReply();
      if replies != [] {
        replies := replies[1..];
      }
      match reply
      case NoReply => status, response := 0, "";
      case Other(text) => status, response := 1, text;
      case Octets(octets) =>
        status, response := 1, ReadResponse(socket, octets);
        arrived := arrived + octets;
    }

    /** Whether the command is answered with success. */
    method WaitForResponse() returns (ok: bool)
      modifies this`acks
      ensures ok == (old(acks) == [] || old(acks)[0])
      ensures acks == if old(acks) == [] then [] else old(acks)[1..]
    {
      ok := true;
      if acks != [] {
        ok, acks := acks[0], acks[1..];
      }
    }
  }

  lemma NoCommands(socket: nat, s: seq<byte>)
    ensures Commands(socket, s[..0]) == [] && s[..|s|] == s
  {
  }

  lemma CommandsGrow(socket: nat, s: seq<byte>, n: nat, size: nat)
    requires n % CHUNK == 0 && 0 < size <= CHUNK && n + size <= |s|
    ensures Commands(socket, s[..n + size]) == Commands(socket, s[..n]) + [WriteCommand(socket, s[n..n + size])]
  {
    hide WriteCommand, Commands;
    CommandsNext(socket, s[..n + size], n);
    assert s[..n + size][..n] == s[..n] && s[..n + size][n..] == s[n..n + size];
  }

  /** The first `n` answers were successes, and the one behind them was not when
      `failed`. */
  ghost predicate Acknowledged(acks: seq<bool>, n: nat, failed: bool) {
    (forall k :: 0 <= k < n && k < |acks| ==> acks[k]) && (failed ==> n < |acks| && !acks[n])
  }

  /** Every write is answered with success. */
  ghost predicate AllSucceed(acks: seq<bool>) {
    forall k :: 0 <= k < |acks| ==> acks[k]
  }

  /** The answers behind the first `n`. */
  function AnswersFrom(acks: seq<bool>, n: nat): seq<bool> {
    if n <= |acks| then acks[n..] else []
  }

  lemma NoAnswers(acks: seq<bool>)
    ensures AnswersFrom(acks, 0) == acks && Acknowledged(acks, 0, false)
  {
  }

  lemma NextAnswer(acks: seq<bool>, n: nat)
    requires Acknowledged(acks, n, false)
    ensures var left := AnswersFrom(acks, n);
            && AnswersFrom(acks, n + 1) == (if left == [] then [] else left[1..])
            && (if left == [] || left[0] then Acknowledged(acks, n + 1, false) else Acknowledged(acks, n, true))
  {
  }

  lemma Cut<T>(s: seq<T>, i: nat, j: nat, k: nat)
    requires i <= j <= k <= |s|
    ensures s[i..k] == s[i..j] + s[j..k]
  {
  }

  /** The buffer of one socket. It is allocated at the first look for octets. */
  class SocketBuffer {
    const modem: Modem
    const socket: nat
    var data: array?<byte>
    var head: nat
    var length: nat
    ghost var taken: seq<byte>

    constructor (modem: Modem, socket: nat)
      requires RepliesFit(modem.replies) && modem.arrived == []
      ensures Valid() && this.modem == modem && this.socket == socket && taken == [] && data == null
    {
      this.modem, this.socket, data := modem, socket, null;
      head, length, taken := 0, 0, [];
    }

    /** The octets that arrived and were neither read nor dropped. */
    ghost function Unread(): seq<byte>
      requires data != null ==> head + length <= data.Length
      reads this, data
    {
      if data == null then [] else data[..][head..head + length]
    }

    ghost predicate Valid()
      reads this, data, modem`replies, modem`arrived
    {
      && RepliesFit(modem.replies)
      && (if data == null then length == 0 else data.Length == GSM_SOCKET_BUFFER_SIZE && head + length <= data.Length)
      && modem.arrived == taken + Unread()
    }

    lemma Arrived()
      requires Valid()
      ensures (data != null ==> head + length <= data.Length) && modem.arrived == taken + Unread()
      ensures |Unread()| == length
    {
    }

    lemma NothingUnread()
      requires Valid() && length == 0
      ensures modem.arrived == taken
    {
    }

    /** Drops what is unread. */
    method Close()
      requires Valid()
      modifies this`data, this`head, this`length, this`taken
      ensures Valid() && data == null && taken == modem.arrived
    {
      taken := modem.arrived;
      if data != null {
        data, head, length := null, 0, 0;
      }
    }

    /** Against the state before: the modem was asked once, and what its answer carries
        has arrived. */
    ghost predicate Asked(replies: seq<Reply>, reply: Reply, arrived: seq<byte>)
      reads modem`replies, modem`arrived
    {
      modem.replies == Behind(replies) && modem.arrived == arrived + OctetsOf(reply)
    }

    /** Decodes the quoted digits of an answer into the buffer. */
    method Decode(response: string) returns (size: nat)
      requires data != null && |Quoted(response)| / 2 <= data.Length
      modifies data
      ensures size == |Quoted(response)| / 2 && data[..size] == Unhex(Quoted(response))
    {
      var digits := Quoted(response);
      size := |digits| / 2;
      for i := 0 to size
        invariant data[..i] == Unhex(digits)[..i]
      {
        var n1, n2 := digits[i * 2] as int, digits[i * 2 + 1] as int;
        n1 := if n1 > '9' as int then n1 - 'A' as int + 10 else n1 - '0' as int;
        n2 := if n2 > '9' as int then n2 - 'A' as int + 10 else n2 - '0' as int;
        data[i] := (n1 * 16 + n2) % 256;
        assert data[..i + 1] == data[..i] + [data[i]];
      }
    }

    /** Asks for octets and decodes the answer into the empty buffer. */
    method Refill() returns (n: int)
      requires Valid() && data != null && length == 0
      modifies this`head, this`length, modem`replies, modem`arrived, data
      ensures Valid() && Asked(old(modem.replies), old(modem.NextReply()), old(modem.arrived))
      ensures n == if old(modem.WillAnswer()) then length else -1
      ensures length == |OctetsOf(old(modem.NextReply()))|
    {
      hide Unhex, Quoted, ReadResponse, RepliesFit;
      var status, response := modem.Read(socket);
      if status != 1 {
        return -1;
      }
      if !(READ_PREFIX <= response) {
        return 0;
      }
      ghost var octets := OctetsOf(old(modem.NextReply()));
      ResponseRead(socket, octets);
      var size := Decode(response);
      head, length := 0, size;
      assert data[..][0..size] == data[..size];
      return length;
    }

    /** The number of octets that can be read, or -1 when the modem does not answer.
        Only an empty buffer asks for more. */
    method Available() returns (n: int)
      requires Valid()
      modifies this`data, this`head, this`length, modem`replies, modem`arrived, data
      ensures Valid() && data != null && (if old(data) == null then fresh(data) else data == old(data))
      ensures old(modem.arrived) <= modem.arrived
      ensures n == if old(length > 0 || modem.WillAnswer()) then length else -1
      ensures old(length) > 0 ==>
        length == old(length) && modem.replies == old(modem.replies) && modem.arrived == old(modem.arrived)
      ensures old(length) == 0 ==> Asked(old(modem.replies), old(modem.NextReply()), old(modem.arrived))
      ensures old(length) == 0 ==> length == |OctetsOf(old(modem.NextReply()))|
    {
      hide RepliesFit;
      if length == 0 {
        if data == null {
          data := new byte[GSM_SOCKET_BUFFER_SIZE];
          head, length := 0, 0;
        }
        n := Refill();
        return;
      }
      return length;
    }

    /** The next octet, or -1 when nothing is available. Its caller has made sure that
        the modem does not leave it without an answer. */
    method Peek() returns (r: int)
      requires Valid() && (length > 0 || modem.WillAnswer())
      modifies this`data, this`head, this`length, modem`replies, modem`arrived, data
      ensures Valid() && taken == old(taken) && old(modem.arrived) <= modem.arrived
      ensures data == old(data) || fresh(data)
      ensures if r >= 0 then Unread() != [] && r == Unread()[0] else Unread() == []
      ensures old(length) > 0 ==> modem.replies == old(modem.replies) && modem.arrived == old(modem.arrived)
    {
      hide RepliesFit, Modem.WillAnswer;
      var n := Available();
      if n == 0 {
        return -1;
      }
      r := data[head];
    }

    method TakeOut(count: nat) returns (bytes: seq<byte>)
      requires Valid() && data != null && count <= length
      modifies this`head, this`length, this`taken
      ensures Valid() && taken == old(taken) + bytes && |bytes| == count && length == old(length) - count
    {
      hide RepliesFit;
      bytes := data[..][head..head + count];
      Cut(data[..], head, head + count, head + length);
      Associative(taken, bytes, data[..][head + count..head + length]);
      head, length := head + count, length - count;
      taken := taken + bytes;
    }

    /** The next octets, all that are there or as many as asked for. */
    method Read(size: nat) returns (bytes: seq<byte>)
      requires Valid() && (length > 0 || modem.WillAnswer())
      modifies this`data, this`head, this`length, this`taken, modem`replies, modem`arrived, data
      ensures Valid() && taken == old(taken) + bytes && old(modem.arrived) <= modem.arrived
      ensures data == old(data) || fresh(data)
      ensures (|bytes| == size <= GSM_SOCKET_BUFFER_SIZE) || (|bytes| <= size && Unread() == [])
      ensures old(length) > 0 ==> modem.replies == old(modem.replies) && modem.arrived == old(modem.arrived)
    {
      hide RepliesFit, Modem.WillAnswer;
      var avail := Available();
      if avail == 0 {
        return [];
      }
      var count := size;
      if avail < count {
        count := avail;
      }
      bytes := TakeOut(count);
    }
  }

  class GsmClient {
    const modem: Modem
    const buffer: SocketBuffer
    const ssl: bool
    var socket: int
    var connected: bool
    var writeSync: bool

    /** A client whose connection has just been opened. */
    constructor (modem: Modem, buffer: SocketBuffer, ssl: bool)
      requires buffer.Valid() && buffer.modem == modem
      ensures Valid() && this.modem == modem && this.buffer == buffer && socket == buffer.socket && writeSync
      ensures this.ssl == ssl && connected
    {
      this.modem, this.buffer, this.ssl := modem, buffer, ssl;
      socket, connected, writeSync := buffer.socket, true, true;
    }

    ghost predicate Valid()
      reads this`socket, buffer, buffer.data, modem`replies, modem`arrived
    {
      buffer.modem == modem && (socket == -1 || socket == buffer.socket) && buffer.Valid()
    }

    method BeginWrite(sync: bool)
      modifies this`writeSync
      ensures writeSync == sync
    {
      writeSync := sync;
    }

    method EndWrite()
      modifies this`writeSync
      ensures writeSync
    {
      writeSync := true;
    }

    /** The text of one command, digit by digit. */
    method Compose(buf: seq<byte>, written: nat, chunkSize: nat) returns (command: string)
      requires socket >= 0 && written + chunkSize <= |buf|
      ensures command == WriteCommand(socket, buf[written..written + chunkSize])
    {
      hide Hex, Decimal;
      command := "AT+USOWR=" + Decimal(socket) + "," + Decimal(chunkSize) + ",\"";
      assert Hex(buf[written..written]) == [];
      ghost var head := command;
      for i := 0 to chunkSize
        invariant command == head + Hex(buf[written..written + i])
      {
        var b := buf[i + written];
        var n1, n2 := b / 16, b % 16;
        command := command + [if n1 > 9 then 'A' + (n1 - 10) as char else '0' + n1 as char];
        command := command + [if n2 > 9 then 'A' + (n2 - 10) as char else '0' + n2 as char];
        HexNext(buf[written..written + i], b);
        assert buf[written..written + i + 1] == buf[written..written + i] + [b];
      }
      command := command + "\"";
    }

    /** One turn of the loop of `write`, up to its `break`. */
    method SendChunk(buf: seq<byte>, written: nat, chunkSize: nat) returns (ok: bool)
      requires socket >= 0 && written + chunkSize <= |buf|
      modifies modem`sent, modem`acks
      ensures modem.sent == old(modem.sent) + [WriteCommand(socket, buf[written..written + chunkSize])]
      ensures writeSync ==> ok == (old(modem.acks) == [] || old(modem.acks)[0])
      ensures writeSync ==> modem.acks == if old(modem.acks) == [] then [] else old(modem.acks)[1..]
      ensures !writeSync ==> ok && modem.acks == old(modem.acks)
    {
      hide WriteCommand;
      var command := Compose(buf, written, chunkSize);
      modem.Send(command);
      ok := true;
      if writeSync {
        ok := modem.WaitForResponse();
      }
    }

    /** A write goes out as the commands for the octets it reports written. When it
        waits for the answers and one fails, the command of the next chunk went out as
        well, without counting; the ones before were all answered with success. */
    method Write(buf: seq<byte>, ready: bool) returns (written: nat)
      requires Valid()
      modifies modem`sent, modem`acks
      ensures written <= |buf|
      ensures socket == -1 || (!writeSync && !ready) ==> written == 0 && modem.sent == old(modem.sent)
      ensures socket >= 0 && (writeSync || ready) ==>
        modem.sent == old(modem.sent) + Commands(socket, buf[..written]) +
          if written < |buf| then [WriteCommand(socket, buf[written..Min(written + CHUNK, |buf|)])] else []
      ensures old(modem.sent) <= modem.sent
      ensures socket >= 0 && written == |buf| ==>
        Carried(modem.sent[|old(modem.sent)|..]) == buf
      ensures socket >= 0 && !writeSync && ready ==> written == |buf|
      ensures socket >= 0 && writeSync ==>
        Acknowledged(old(modem.acks), |Commands(socket, buf[..written])|, written < |buf|)
      ensures AllSucceed(old(modem.acks)) ==> AllSucceed(modem.acks)
    {
      hide WriteCommand, Commands, Acknowledged, AnswersFrom, SocketBuffer.Valid;
      written := 0;
      if !writeSync && !ready {
        return 0;
      }
      if socket == -1 {
        return 0;
      }
      NoCommands(socket, buf);
      NoAnswers(modem.acks);
      var size := |buf|;
      ghost var n := 0;
      while size > 0
        invariant 0 <= size && written + size == |buf| && (size > 0 ==> written % CHUNK == 0)
        invariant modem.sent == old(modem.sent) + Commands(socket, buf[..written])
        invariant n == |Commands(socket, buf[..written])|
        invariant writeSync ==> Acknowledged(old(modem.acks), n, false) && modem.acks == AnswersFrom(old(modem.acks), n)
        invariant AllSucceed(old(modem.acks)) ==> AllSucceed(modem.acks)
      {
        var chunkSize := size;
        if chunkSize > CHUNK {
          chunkSize := CHUNK;
        }
        if writeSync {
          NextAnswer(old(modem.acks), n);
        }
        var ok := SendChunk(buf, written, chunkSize);
        if !ok {
          break;
        }
        CommandsGrow(socket, buf, written, chunkSize);
        Associative(old(modem.sent), Commands(socket, buf[..written]),
                    [WriteCommand(socket, buf[written..written + chunkSize])]);
        written := written + chunkSize;
        size := size - chunkSize;
        n := n + 1;
      }
      if written == |buf| {
        CommandsCarry(socket, buf);
        assert modem.sent[|old(modem.sent)|..] == Commands(socket, buf);
      }
    }

    /** Gives the socket up, and with it the octets not yet read. */
    method Stop() returns (ghost dropped: seq<byte>)
      requires Valid()
      modifies this`socket, this`connected, buffer`data, buffer`head, buffer`length, buffer`taken
      modifies modem`sent, modem`acks
      ensures Valid() && socket == -1 && (buffer.data == old(buffer.data) || buffer.data == null)
      ensures dropped == if old(socket) < 0 then [] else old(buffer.Unread())
      ensures modem.sent == old(modem.sent) + if old(socket) < 0 then [] else ["AT+USOCL=" + Decimal(old(socket))]
    {
      dropped := [];
      if socket < 0 {
        return;
      }
      modem.Send("AT+USOCL=" + Decimal(socket));
      var _ := modem.WaitForResponse();
      dropped := buffer.Unread();
      buffer.Close();
      socket, connected := -1, false;
    }

    /** The modem announces that the peer has ended the connection. */
    method HandleEndOfStream()
      modifies this`connected
      ensures !connected
    {
      connected := false;
    }

    /** Whether the connection is open. A client over SSL gives the socket up as soon as
        the end was announced, read out or not; any other one when the modem no longer
        answers, and then nothing is left to read. */
    method Connected() returns (r: bool, ghost dropped: seq<byte>)
      requires Valid()
      modifies this`socket, this`connected, modem, buffer, buffer.data
      ensures Valid() && (buffer.data == old(buffer.data) || buffer.data == null || fresh(buffer.data))
      ensures r == (socket >= 0) && (socket == old(socket) || socket == -1) && (r ==> connected == old(connected))
      ensures r ==> !(ssl && !connected) && buffer.taken == old(buffer.taken)
      ensures old(modem.arrived) <= modem.arrived
      ensures dropped != [] ==> ssl && !old(connected) && old(socket) >= 0 && !r
      ensures Ended(old(socket), old(buffer.taken) + dropped, old(modem.arrived))
      ensures r == (old(socket) >= 0 && !(ssl && !old(connected)) && old(buffer.length > 0 || modem.WillAnswer()))
    {
      hide SocketBuffer.Valid;
      dropped := [];
      if socket == -1 {
        return false, [];
      }
      var avail := buffer.Available();
      if avail < 0 {
        buffer.NothingUnread();
      }
      buffer.Arrived();
      if avail < 0 || (ssl && !connected) {
        dropped := Stop();
        return false, dropped;
      }
      r := true;
    }

    /** Against the state before a call: a call that found the connection at its end had
        everything that arrived already taken, and after the end nothing arrives. */
    ghost predicate Ended(before: int, taken: seq<byte>, arrived: seq<byte>)
      reads this`socket, modem`arrived
    {
      socket < 0 ==> modem.arrived == if before >= 0 then taken else arrived
    }

    /** Against the state before a look for octets: only an open client that finds the
        modem ready and its buffer empty asks, once, and only an answer that does not come
        ends the connection. */
    ghost predicate Looked(ready: bool, before: int, length: nat, replies: seq<Reply>, reply: Reply, arrived: seq<byte>)
      reads this`socket, modem`replies, modem`arrived
    {
      if before < 0 || !ready || length > 0 then
        socket == before && modem.replies == replies && modem.arrived == arrived
      else
        && modem.replies == Behind(replies) && modem.arrived == arrived + OctetsOf(reply)
        && socket == if reply == NoReply then -1 else before
    }

    /** How many octets can be read without asking; a modem that does not answer ends
        the connection. A client that waits for the modem finds it `ready`. */
    method Available(ready: bool) returns (n: nat)
      requires Valid()
      modifies this`socket, this`connected, modem, buffer, buffer.data
      ensures Valid() && (buffer.data == old(buffer.data) || buffer.data == null || fresh(buffer.data))
      ensures (socket == old(socket) && connected == old(connected)) || socket == -1
      ensures n == if ready && socket >= 0 then buffer.length else 0
      ensures Looked(ready, old(socket), old(buffer.length), old(modem.replies), old(modem.NextReply()),
                     old(modem.arrived))
      ensures socket >= 0 ==> buffer.taken == old(buffer.taken)
      ensures old(modem.arrived) <= modem.arrived && Ended(old(socket), old(buffer.taken), old(modem.arrived))
    {
      hide SocketBuffer.Valid;
      if !ready || socket == -1 {
        return 0;
      }
      var avail := buffer.Available();
      if avail < 0 {
        buffer.NothingUnread();
        ghost var _ := Stop();
        return 0;
      }
      n := avail;
    }

    method Peek(ready: bool) returns (r: int)
      requires Valid()
      modifies this`socket, this`connected, modem, buffer, buffer.data
      ensures Valid() && (buffer.data == old(buffer.data) || buffer.data == null || fresh(buffer.data))
      ensures (socket == old(socket) && connected == old(connected)) || socket == -1
      ensures socket >= 0 ==> buffer.taken == old(buffer.taken)
      ensures old(modem.arrived) <= modem.arrived && Ended(old(socket), old(buffer.taken), old(modem.arrived))
      ensures Looked(ready, old(socket), old(buffer.length), old(modem.replies), old(modem.NextReply()),
                     old(modem.arrived))
      ensures if r >= 0 then socket >= 0 && buffer.Unread() != [] && r == buffer.Unread()[0]
        else !ready || socket < 0 || buffer.Unread() == []
    {
      hide SocketBuffer.Valid;
      var n := Available(ready);
      if n > 0 {
        r := buffer.Peek();
      } else {
        buffer.Arrived();
        r := -1;
      }
    }

    method Read(size: nat, ready: bool) returns (bytes: seq<byte>)
      requires Valid()
      modifies this`socket, this`connected, modem, buffer, buffer.data
      ensures Valid() && (buffer.data == old(buffer.data) || buffer.data == null || fresh(buffer.data))
      ensures (socket == old(socket) && connected == old(connected)) || socket == -1
      ensures if socket >= 0 then buffer.taken == old(buffer.taken) + bytes else bytes == []
      ensures old(modem.arrived) <= modem.arrived && Ended(old(socket), old(buffer.taken), old(modem.arrived))
      ensures |bytes| <= size
      ensures Looked(ready && size > 0, old(socket), old(buffer.length), old(modem.replies), old(modem.NextReply()),
                     old(modem.arrived))
      ensures socket >= 0 && ready ==> (|bytes| == size <= GSM_SOCKET_BUFFER_SIZE) || buffer.Unread() == []
    {
      hide SocketBuffer.Valid;
      if socket == -1 || size == 0 {
        return [];
      }
      var avail := Available(ready);
      if avail == 0 {
        buffer.Arrived();
        return [];
      }
      bytes := buffer.Read(size);
    }
  }

  datatype Call =
    | CallAvailable(ready: bool)
    | CallPeek(ready: bool)
    | CallRead(size: nat, ready: bool)
    | CallConnected
    | CallStop
    | Announced

  /** A read that waits for the modem and asks for more than the buffer can hold. */
  predicate ReadsOut(call: Call) {
    call.CallRead? && call.ready && call.size > GSM_SOCKET_BUFFER_SIZE
  }

  /** What was read is the front of what arrived. On an open socket exactly the unread
      octets are missing from it, and afterwards exactly the `lost` ones. */
  ghost predicate InOrder(client: GsmClient, got: seq<byte>, lost: seq<byte>)
    reads client`socket, client.buffer, client.buffer.data, client.modem`replies, client.modem`arrived
  {
    && client.Valid()
    && if client.socket >= 0 then
         lost == [] && client.buffer.taken == got && client.modem.arrived == got + client.buffer.Unread()
       else client.modem.arrived == got + lost
  }

  lemma StaysInOrder(client: GsmClient, got: seq<byte>, lost: seq<byte>)
    requires client.Valid() && (client.socket >= 0 ==> lost == [] && client.buffer.taken == got)
    requires client.socket < 0 ==> client.modem.arrived == got + lost
    ensures InOrder(client, got, lost)
  {
  }

  /** One call, or the announcement of the modem that the peer has ended. Octets are
      lost only by stopping the client, and by asking a client over SSL whether it is
      connected after the announcement. */
  method Perform(client: GsmClient, call: Call, ghost got: seq<byte>, ghost lost: seq<byte>)
      returns (part: seq<byte>, ghost more: seq<byte>)
    requires InOrder(client, got, lost)
    modifies client`socket, client`connected, client.modem, client.buffer, client.buffer.data
    ensures InOrder(client, got + part, lost + more)
    ensures more != [] ==> call == CallStop || (call == CallConnected && client.ssl && !old(client.connected))
    ensures more != [] ==> old(client.socket) >= 0
    ensures !client.connected && old(client.connected) ==> call == Announced || client.socket < 0
    ensures client.socket >= 0 ==> old(client.socket) >= 0
    ensures ReadsOut(call) ==> client.modem.arrived == (got + part) + (lost + more)
    ensures client.buffer.data == old(client.buffer.data) || client.buffer.data == null || fresh(client.buffer.data)
  {
    hide RepliesFit, SocketBuffer.Valid;
    part, more := [], [];
    match call {
      case CallAvailable(ready) => var _ := client.Available(ready);
      case CallPeek(ready) => var _ := client.Peek(ready);
      case CallRead(size, ready) => part := client.Read(size, ready);
      case CallConnected =>
        var r;
        r, more := client.Connected();
      case CallStop => more := client.Stop();
      case Announced => client.HandleEndOfStream();
    }
    assert lost == [] ==> lost + more == more;
    assert more == [] ==> lost + more == lost;
    assert part == [] ==> got + part == got;
    StaysInOrder(client, got + part, lost + more);
  }

  /** A run of calls on an open socket, whatever the modem answers and announces. After a
      read for more than the buffer can hold, everything that arrived was read or lost. */
  method Run(replies: seq<Reply>, acks: seq<bool>, socket: nat, ssl: bool, calls: seq<Call>)
    returns (got: seq<byte>, client: GsmClient, ghost lost: seq<byte>)
    requires RepliesFit(replies)
    ensures fresh(client) && InOrder(client, got, lost)
    ensures lost != [] ==> CallStop in calls || (ssl && CallConnected in calls && Announced in calls)
    ensures calls != [] && ReadsOut(calls[|calls| - 1]) ==> client.modem.arrived == got + lost
  {
    var modem := new Modem(acks, replies);
    var buffer := new SocketBuffer(modem, socket);
    client := new GsmClient(modem, buffer, ssl);
    got, lost := [], [];
    for i := 0 to |calls|
      invariant fresh(client) && fresh(client.buffer) && fresh(client.modem)
      invariant client.buffer.data == null || fresh(client.buffer.data)
      invariant InOrder(client, got, lost) && client.ssl == ssl
      invariant client.socket >= 0 && !client.connected ==> Announced in calls[..i]
      invariant lost != [] ==> CallStop in calls[..i] || (ssl && CallConnected in calls[..i] && Announced in calls[..i])
      invariant i > 0 && ReadsOut(calls[i - 1]) ==> client.modem.arrived == got + lost
    {
      var part;
      ghost var more;
      part, more := Perform(client, calls[i], got, lost);
      got, lost := got + part, lost + more;
      assert calls[..i + 1] == calls[..i] + [calls[i]] && calls[i] in calls[..i + 1];
    }
    assert calls[..|calls|] == calls;
  }

  /** What the first `n` answers carry, up to one that does not come. */
  function CarriedBy(replies: seq<Reply>, n: nat): seq<byte> {
    if n == 0 || replies == [] || replies[0] == NoReply then []
    else OctetsOf(replies[0]) + CarriedBy(replies[1..], n - 1)
  }

  /** So many reads for more than the buffer can hold deliver what so many answers carry. */
  method ReadOut(client: GsmClient, n: nat) returns (got: seq<byte>)
    requires client.Valid() && client.socket >= 0 && client.buffer.length == 0
    modifies client`socket, client`connected, client.modem, client.buffer, client.buffer.data
    ensures client.Valid() && got == CarriedBy(old(client.modem.replies), n)
    ensures client.buffer.data == old(client.buffer.data) || client.buffer.data == null || fresh(client.buffer.data)
  {
    hide SocketBuffer.Valid, OctetsOf;
    got := [];
    var i := 0;
    while i < n && client.socket >= 0
      invariant i <= n && client.Valid()
      invariant client.buffer.data == old(client.buffer.data) || client.buffer.data == null || fresh(client.buffer.data)
      invariant client.socket >= 0 ==> client.buffer.length == 0
      invariant CarriedBy(old(client.modem.replies), n) ==
        got + if client.socket >= 0 then CarriedBy(client.modem.replies, n - i) else []
    {
      client.buffer.Arrived();
      NoOctets();
      ghost var replies, reply := client.modem.replies, client.modem.NextReply();
      ghost var arrived, taken := client.modem.arrived, client.buffer.taken;
      var bytes := client.Read(GSM_SOCKET_BUFFER_SIZE + 1, true);
      client.buffer.Arrived();
      if client.socket >= 0 {
        assert arrived == taken && client.modem.arrived == taken + bytes;
        SameBehind(taken, bytes, OctetsOf(reply));
        Associative(got, bytes, CarriedBy(client.modem.replies, n - i - 1));
      }
      got := got + bytes;
      i := i + 1;
    }
  }

  lemma NoOctets()
    ensures OctetsOf(NoReply) == [] && OctetsOf(Other("")) == []
  {
  }

  lemma SameBehind(front: seq<byte>, a: seq<byte>, b: seq<byte>)
    requires front + a == front + b
    ensures a == b
  {
    assert a == (front + a)[|front|..] && b == (front + b)[|front|..];
  }

  lemma {:induction false} CarriedBoth(a: seq<string>, b: seq<string>)
    ensures Carried(a + b) == Carried(a) + Carried(b)
  {
    hide Payload;
    if a == [] {
      assert a + b == b;
    } else {
      CarriedBoth(a[1..], b);
      assert (a + b)[1..] == a[1..] + b;
      Associative(Payload(a[0]), Carried(a[1..]), Carried(b));
    }
  }

  /** A buffer more, among commands that begin with those sent before. */
  lemma WrittenMore(start: seq<string>, before: seq<string>, after: seq<string>, bufs: seq<seq<byte>>, i: nat)
    requires start <= before <= after && i < |bufs|
    requires Carried(before[|start|..]) == Flat(bufs[..i]) && Carried(after[|before|..]) == bufs[i]
    ensures Carried(after[|start|..]) == Flat(bufs[..i + 1])
  {
    hide Carried;
    CarriedBoth(before[|start|..], after[|before|..]);
    assert after[|start|..] == before[|start|..] + after[|before|..];
    assert bufs[..i + 1][..i] == bufs[..i];
  }

  lemma NoFailure(acks: seq<bool>)
    ensures AllSucceed(acks) ==> forall n :: !Acknowledged(acks, n, true)
  {
  }

  lemma NothingWritten(start: seq<string>, bufs: seq<seq<byte>>)
    ensures Carried(start[|start|..]) == Flat(bufs[..0])
  {
  }

  /** Writes between `beginWrite` and `endWrite`, up to the first that is incomplete: if
      none is, the commands carry all the buffers, one behind the other. */
  method WriteAll(client: GsmClient, bufs: seq<seq<byte>>, sync: bool, ready: bool) returns (complete: bool)
    requires client.Valid() && client.socket >= 0
    modifies client`writeSync, client.modem`sent, client.modem`acks
    ensures client.Valid() && client.writeSync && old(client.modem.sent) <= client.modem.sent
    ensures complete ==> Carried(client.modem.sent[|old(client.modem.sent)|..]) == Flat(bufs)
    ensures !sync && ready ==> complete
    ensures sync && AllSucceed(old(client.modem.acks)) ==> complete
  {
    hide SocketBuffer.Valid, Commands, WriteCommand, Acknowledged, Carried, Flat;
    complete := true;
    client.BeginWrite(sync);
    ghost var start := client.modem.sent;
    NothingWritten(start, bufs);
    for i := 0 to |bufs|
      invariant complete && client.Valid() && client.writeSync == sync && start <= client.modem.sent
      invariant Carried(client.modem.sent[|start|..]) == Flat(bufs[..i])
      invariant AllSucceed(old(client.modem.acks)) ==> AllSucceed(client.modem.acks)
    {
      NoFailure(client.modem.acks);
      ghost var before := client.modem.sent;
      var written := client.Write(bufs[i], ready);
      if written < |bufs[i]| {
        complete := false;
        break;
      }
      WrittenMore(start, before, client.modem.sent, bufs, i);
    }
    assert bufs[..|bufs|] == bufs;
    client.EndWrite();
  }
}
