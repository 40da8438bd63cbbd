/**
 The host controller interface as a byte stream: `poll` puts octets into a buffer of
 258 until a whole packet stands there, and dispatches it. A handler is an entry in
 a log here.
 */
module HciFraming {
  import opened Bytes

  const ACLDATA: byte := 0x02
  const EVENT: byte := 0x04
  const BUFFER_SIZE := 258

  /** Between two octets: the octets of the packet begun, and the packets handled. */
  datatype State = State(pending: seq<byte>, log: seq<seq<byte>>)

  /** The test `poll` applies after every octet of an ACL data or event packet. */
  predicate Complete(buffer: seq<byte>) {
    buffer != [] &&
    if buffer[0] == ACLDATA then 5 < |buffer| && 5 + U16At(buffer, 3) <= |buffer|
    else buffer[0] == EVENT && 3 < |buffer| && 3 + buffer[2] as int <= |buffer|
  }

  function Take(s: State, b: byte): State {
    var buffer := s.pending + [b];
    if buffer[0] != ACLDATA && buffer[0] != EVENT then State([], s.log)
    else if Complete(buffer) then State([], s.log + [buffer])
    else State(buffer, s.log)
  }

  function Feed(s: State, input: seq<byte>): State {
    if input == [] then s else Take(Feed(s, input[..|input| - 1]), input[|input| - 1])
  }

  /** The receive index stays inside the buffer while `input` arrives. */
  ghost predicate Fits(s: State, input: seq<byte>) {
    forall k :: 0 <= k <= |input| ==> |Feed(s, input[..k]).pending| < BUFFER_SIZE
  }

  class Hci {
    var recvIndex: nat
    const recvBuffer: array<byte>
    ghost var handled: seq<seq<byte>>

    constructor ()
      ensures Valid() && fresh(recvBuffer) && Stands() == State([], [])
    {
      recvIndex := 0;
      recvBuffer := new byte[BUFFER_SIZE];
      handled := [];
    }

    ghost predicate Valid()
      reads this
    {
      recvBuffer.Length == BUFFER_SIZE && recvIndex < BUFFER_SIZE
    }

    ghost function Stands(): State
      requires Valid()
      reads this, recvBuffer
    {
      State(recvBuffer[..recvIndex], handled)
    }

    /** One octet of the loop in `poll`. */
    method Receive(b: byte)
      requires Valid() && |Take(Stands(), b).pending| < BUFFER_SIZE
      modifies this, recvBuffer
      ensures Valid() && Stands() == Take(old(Stands()), b)
    {
      ghost var before := recvBuffer[..recvIndex];
      recvBuffer[recvIndex] := b;
      recvIndex := recvIndex + 1;
      assert recvBuffer[..recvIndex] == before + [b];
      if recvBuffer[0] == ACLDATA {
        if recvIndex > 5 && recvIndex >= 5 + U16At(recvBuffer[..], 3) {
          handled := handled + [recvBuffer[..recvIndex]];
          recvIndex := 0;
        }
      } else if recvBuffer[0] == EVENT {
        if recvIndex > 3 && recvIndex >= 3 + recvBuffer[2] as int {
          handled := handled + [recvBuffer[..recvIndex]];
          recvIndex := 0;
        }
      } else {
        recvIndex := 0;
      }
    }

    /** `poll` with the octets that the transport has available. */
    method Poll(input: seq<byte>)
      requires Valid() && Fits(Stands(), input)
      modifies this, recvBuffer
      ensures Valid() && Stands() == Feed(old(Stands()), input)
    {
      ghost var start := Stands();
      for i := 0 to |input|
        invariant Valid() && Stands() == Feed(start, input[..i])
      {
        assert input[..i + 1][..i] == input[..i];
        assert |Feed(start, input[..i + 1]).pending| < BUFFER_SIZE;
        Receive(input[i]);
      }
      assert input[..|input|] == input;
    }
  }

  // ---------- chunking ----------

  lemma {:induction false} FeedConcat(s: State, a: seq<byte>, b: seq<byte>)
    ensures Feed(s, a + b) == Feed(Feed(s, a), b)
  {
    if b == [] {
      assert a + b == a;
    } else {
      FeedConcat(s, a, b[..|b| - 1]);
      assert (a + b)[..|a + b| - 1] == a + b[..|b| - 1];
    }
  }

  lemma FitsConcat(s: State, a: seq<byte>, b: seq<byte>)
    ensures Fits(s, a + b) <==> Fits(s, a) && Fits(Feed(s, a), b)
  {
    forall k | 0 <= k <= |a|
      ensures (a + b)[..k] == a[..k]
    {
    }
    forall k | 0 <= k <= |b|
      ensures Feed(s, (a + b)[..|a| + k]) == Feed(Feed(s, a), b[..k])
    {
      assert (a + b)[..|a| + k] == a + b[..k];
      FeedConcat(s, a, b[..k]);
    }
    if Fits(s, a + b) {
      forall k | 0 <= k <= |b|
        ensures |Feed(Feed(s, a), b[..k]).pending| < BUFFER_SIZE
      {
        assert |Feed(s, (a + b)[..|a| + k]).pending| < BUFFER_SIZE;
      }
    }
    if Fits(s, a) && Fits(Feed(s, a), b) {
      forall k | 0 <= k <= |a + b|
        ensures |Feed(s, (a + b)[..k]).pending| < BUFFER_SIZE
      {
        if k > |a| {
          assert |Feed(Feed(s, a), b[..k - |a|]).pending| < BUFFER_SIZE;
        }
      }
    }
  }

  // ---------- packets ----------

  datatype Packet =
    | Acl(handle: u16, data: seq<byte>)
    | Event(code: byte, parameters: seq<byte>)
  {
    function Payload(): seq<byte> {
      match this
      case Acl(_, data) => data
      case Event(_, parameters) => parameters
    }

    /** The payload length is representable. */
    predicate Valid() {
      match this
      case Acl(_, data) => |data| < 65536
      case Event(_, parameters) => |parameters| < 256
    }

    function Encode(): seq<byte>
      requires Valid()
    {
      match this
      case Acl(handle, data) => [ACLDATA] + Le16(handle) + Le16(|data|) + data
      case Event(code, parameters) => [EVENT, code, |parameters|] + parameters
    }
  }

  /** Where the header of a packet says what it is and how long its payload is. */
  lemma Header(p: Packet)
    requires p.Valid()
    ensures var e := p.Encode();
      match p
      case Acl(_, data) => |e| == 5 + |data| && e[0] == ACLDATA && U16At(e, 3) == |data|
      case Event(_, parameters) => |e| == 3 + |parameters| && e[0] == EVENT && e[2] == |parameters|
  {
    match p
    case Acl(handle, data) =>
      var n: u16 := |data|;
      assert p.Encode()[3] == Le16(n)[0] && p.Encode()[4] == Le16(n)[1];
    case Event(_, _) =>
  }

  /** Before its last octet no packet looks complete, and one without payload not even then. */
  lemma Incomplete(p: Packet, k: nat)
    requires p.Valid() && 0 < k <= |p.Encode()| && (k == |p.Encode()| ==> p.Payload() == [])
    ensures p.Encode()[0] == ACLDATA || p.Encode()[0] == EVENT
    ensures !Complete(p.Encode()[..k])
  {
    hide Packet.Encode;
    Header(p);
  }

  /** While a packet arrives, it stands in the buffer octet by octet. */
  lemma {:induction false} PacketArrives(p: Packet, log: seq<seq<byte>>, k: nat)
    requires p.Valid() && k <= |p.Encode()| && (k == |p.Encode()| ==> p.Payload() == [])
    ensures Feed(State([], log), p.Encode()[..k]) == State(p.Encode()[..k], log)
  {
    hide Packet.Encode, Complete;
    if k > 0 {
      var e := p.Encode();
      PacketArrives(p, log, k - 1);
      Incomplete(p, k);
      assert e[..k][..k - 1] == e[..k - 1];
      assert e[..k - 1] + [e[k - 1]] == e[..k];
    }
  }

  /** A packet is dispatched by its own last octet if and only if it has a payload:
      the length test also asks for one octet more than the header. */
  lemma PacketDispatched(p: Packet, log: seq<seq<byte>>)
    requires p.Valid()
    ensures p.Payload() != [] ==> Feed(State([], log), p.Encode()) == State([], log + [p.Encode()])
    ensures p.Payload() == [] ==> Feed(State([], log), p.Encode()) == State(p.Encode(), log)
  {
    hide Packet.Encode;
    Header(p);
    var e := p.Encode();
    assert e[..|e|] == e;
    if p.Payload() == [] {
      PacketArrives(p, log, |e|);
    } else {
      PacketArrives(p, log, |e| - 1);
      assert e[..|e| - 1] + [e[|e| - 1]] == e;
    }
  }

  /** A packet without payload takes the first octet of whatever comes next. */
  lemma EmptyPacketSwallows(p: Packet, log: seq<seq<byte>>, next: byte)
    requires p.Valid() && p.Payload() == []
    ensures Feed(State([], log), p.Encode() + [next]) == State([], log + [p.Encode() + [next]])
  {
    PacketDispatched(p, log);
    FeedConcat(State([], log), p.Encode(), [next]);
    assert Feed(State(p.Encode(), log), [next]) == Take(State(p.Encode(), log), next) by {
      assert [next][..0] == [];
    }
  }

  /** A packet stays inside the buffer if and only if it is at most 258 octets long,
      that is an ACL packet with at most 253 octets of data, or any event packet. */
  lemma PacketFits(p: Packet, log: seq<seq<byte>>)
    requires p.Valid() && p.Payload() != []
    ensures Fits(State([], log), p.Encode()) <==> |p.Encode()| <= BUFFER_SIZE
  {
    var e := p.Encode();
    forall k | 0 <= k < |e|
      ensures |Feed(State([], log), e[..k]).pending| == k
    {
      PacketArrives(p, log, k);
    }
    PacketDispatched(p, log);
    assert e[..|e|] == e;
    if Fits(State([], log), e) {
      assert |Feed(State([], log), e[..|e| - 1]).pending| < BUFFER_SIZE;
    }
  }

  // ---------- streams ----------

  datatype Item = Whole(packet: Packet) | Noise(octet: byte)

  ghost predicate Proper(item: Item) {
    match item
    case Whole(p) => p.Valid() && p.Payload() != [] && |p.Encode()| <= BUFFER_SIZE
    case Noise(b) => b != ACLDATA && b != EVENT
  }

  ghost predicate AllProper(items: seq<Item>) {
    forall i :: 0 <= i < |items| ==> Proper(items[i])
  }

  ghost function Octets(item: Item): seq<byte>
    requires Proper(item)
  {
    match item
    case Whole(p) => p.Encode()
    case Noise(b) => [b]
  }

  ghost function Stream(items: seq<Item>): seq<byte>
    requires AllProper(items)
  {
    if items == [] then [] else Stream(items[..|items| - 1]) + Octets(items[|items| - 1])
  }

  ghost function Packets(items: seq<Item>): seq<seq<byte>>
    requires AllProper(items)
  {
    if items == [] then []
    else
      var before := Packets(items[..|items| - 1]);
      match items[|items| - 1]
      case Whole(p) => before + [p.Encode()]
      case Noise(_) => before
  }

  lemma ItemFramed(item: Item, log: seq<seq<byte>>)
    requires Proper(item)
    ensures Fits(State([], log), Octets(item))
    ensures Feed(State([], log), Octets(item)) ==
      State([], match item case Whole(p) => log + [p.Encode()] case Noise(_) => log)
  {
    match item
    case Whole(p) =>
      PacketFits(p, log);
      PacketDispatched(p, log);
    case Noise(b) =>
      assert [b][..0] == [] && [b][..1] == [b];
  }

  /** Any stream of proper packets and stray octets between them: the packets are
      dispatched, once each and in order, nothing is left over and the index stays
      inside the buffer. */
  lemma {:induction false} StreamFramed(items: seq<Item>, log: seq<seq<byte>>)
    requires AllProper(items)
    ensures Fits(State([], log), Stream(items))
    ensures Feed(State([], log), Stream(items)) == State([], log + Packets(items))
  {
    if items != [] {
      var front, last := items[..|items| - 1], items[|items| - 1];
      StreamFramed(front, log);
      ItemFramed(last, log + Packets(front));
      FeedConcat(State([], log), Stream(front), Octets(last));
      FitsConcat(State([], log), Stream(front), Octets(last));
    }
  }

  /** However the stream is cut into chunks for the calls of `poll`. */
  method PollStream(hci: Hci, chunks: seq<seq<byte>>, ghost items: seq<Item>)
    requires hci.Valid() && hci.Stands().pending == []
    requires AllProper(items) && Flat(chunks) == Stream(items)
    modifies hci, hci.recvBuffer
    ensures hci.Valid() && hci.Stands() == State([], old(hci.Stands()).log + Packets(items))
  {
    ghost var start := hci.Stands();
    StreamFramed(items, start.log);
    for i := 0 to |chunks|
      invariant hci.Valid() && hci.Stands() == Feed(start, Flat(chunks[..i]))
    {
      assert chunks == chunks[..i + 1] + chunks[i + 1..] && chunks[..i + 1][..i] == chunks[..i];
      FlatConcat(chunks[..i + 1], chunks[i + 1..]);
      FitsConcat(start, Flat(chunks[..i + 1]), Flat(chunks[i + 1..]));
      FitsConcat(start, Flat(chunks[..i]), chunks[i]);
      FeedConcat(start, Flat(chunks[..i]), chunks[i]);
      hci.Poll(chunks[i]);
    }
    assert chunks[..|chunks|] == chunks;
  }
}
