/**
 Reading and writing attribute values (Bluetooth Core Specification, Vol 3 Part F,
 sections 3.4.4 and 3.4.6): what the server answers to Read and Read Blob, and how
 its one write queue takes Prepare Writes until they are executed.
 */
module AttValues {
  import opened Bytes
  import opened AttributeTable
  import opened AttDiscovery
  import opened HciAcl

  const READ_REQ: byte := 0x0a
  const READ_RESP: byte := 0x0b
  const READ_BLOB_REQ: byte := 0x0c
  const READ_BLOB_RESP: byte := 0x0d
  const PREP_WRITE_REQ: byte := 0x16
  const PREP_WRITE_RESP: byte := 0x17
  const EXEC_WRITE_REQ: byte := 0x18
  const EXEC_WRITE_RESP: byte := 0x19
  const HANDLE_NOTIFY: byte := 0x1b
  const HANDLE_IND: byte := 0x1d

  const READ_NOT_PERM: byte := 0x02
  const WRITE_NOT_PERM: byte := 0x03
  const INVALID_OFFSET: byte := 0x07
  const ATTR_NOT_LONG: byte := 0x0b
  const UNLIKELY: byte := 0x0e

  // The property bits 0x02, 0x08, 0x10 and 0x20 of a characteristic.

  predicate CanRead(properties: byte) {
    properties / 2 % 2 == 1
  }

  predicate CanWrite(properties: byte) {
    properties / 8 % 2 == 1
  }

  predicate CanNotify(properties: byte) {
    properties / 16 % 2 == 1
  }

  predicate CanIndicate(properties: byte) {
    properties / 32 % 2 == 1
  }

  /** Slot `handle - 1` is the value slot of a characteristic. */
  predicate IsValueSlot(t: seq<Entry>, handle: u16) {
    1 <= handle <= |t| && IsValueSlotAt(t, handle - 1)
  }

  // ---------- reading ----------

  /** The part of a value from `offset` on that one response has room for. */
  function ValuePart(opcode: byte, handle: u16, value: seq<byte>, offset: nat, mtu: nat): seq<byte>
    requires 0 < mtu
  {
    if offset >= |value| then ErrorPdu(opcode, handle, INVALID_OFFSET)
    else [ReadResponse(opcode)] + value[offset..Min(|value|, offset + mtu - 1)]
  }

  function ReadResponse(opcode: byte): byte {
    if opcode == READ_REQ then READ_RESP else READ_BLOB_RESP
  }

  /** What the server says about octets `offset` on of an attribute. */
  function ReadReply(e: Entry, opcode: byte, handle: u16, offset: nat, mtu: nat): seq<byte>
    requires 0 < mtu
  {
    match e
    case Service(_, _, uuid) =>
      if offset != 0 then ErrorPdu(ATTR_NOT_LONG, handle, INVALID_PDU) else [ReadResponse(opcode)] + uuid
    case Characteristic(declaration, properties, uuid, value, _) =>
      if declaration == handle then
        if offset != 0 then ErrorPdu(opcode, handle, ATTR_NOT_LONG)
        else [ReadResponse(opcode), properties] + Le16((declaration + 1) % 65536) + uuid
      else if !CanRead(properties) then ErrorPdu(opcode, handle, READ_NOT_PERM)
      else ValuePart(opcode, handle, value, offset, mtu)
    case Descriptor(_, _, value) => ValuePart(opcode, handle, value, offset, mtu)
  }

  /** Copies a value part behind the opcode. */
  method PutPart(response: array<byte>, opcode: byte, handle: u16, value: seq<byte>, offset: nat)
      returns (reply: seq<byte>)
    requires 5 <= response.Length && response[0] == ReadResponse(opcode)
    modifies response
    ensures reply == ValuePart(opcode, handle, value, offset, response.Length)
  {
    if offset >= |value| {
      return ErrorPdu(opcode, handle, INVALID_OFFSET);
    }
    var valueLength := Min(response.Length - 1, |value| - offset);
    var responseLength := Append(response, 1, value[offset..offset + valueLength]);
    reply := response[..responseLength];
  }

  /** Read and Read Blob. The one handle the handler cannot take is the handle right
      after the last attribute, which passes its range check. */
  method ReadOrReadBlobReq(table: seq<Entry>, mtu: u16, opcode: byte, dlen: byte, data: seq<byte>)
      returns (reply: seq<byte>)
    requires |table| < 65535 && 23 <= mtu && 4 <= |data|
    requires opcode == READ_REQ || opcode == READ_BLOB_REQ
    requires SlotOf(U16At(data, 0)) != |table|
    ensures |reply| <= mtu
    ensures var handle := U16At(data, 0);
      var offset := if opcode == READ_REQ then 0 else U16At(data, 2);
      reply ==
        if dlen != (if opcode == READ_REQ then 2 else 4) then ErrorPdu(opcode, 0, INVALID_PDU)
        else if SlotOf(handle) > |table| then ErrorPdu(opcode, handle, ATTR_NOT_FOUND)
        else ReadReply(table[SlotOf(handle)], opcode, handle, offset, mtu)
  {
    if dlen != (if opcode == READ_REQ then 2 else 4) {
      return ErrorPdu(opcode, 0, INVALID_PDU);
    }
    var handle := U16At(data, 0);
    var offset: nat := if opcode == READ_REQ then 0 else U16At(data, 2);
    if SlotOf(handle) > |table| {
      return ErrorPdu(opcode, handle, ATTR_NOT_FOUND);
    }
    var response := new byte[mtu];
    response[0] := ReadResponse(opcode);
    var responseLength := 1;
    match table[SlotOf(handle)] {
      case Service(_, _, uuid) =>
        if offset != 0 {
          return ErrorPdu(ATTR_NOT_LONG, handle, INVALID_PDU);
        }
        responseLength := Append(response, responseLength, uuid);
        reply := response[..responseLength];
      case Characteristic(declaration, properties, uuid, value, _) =>
        if declaration == handle {
          if offset != 0 {
            return ErrorPdu(opcode, handle, ATTR_NOT_LONG);
          }
          responseLength := Append(response, responseLength, [properties]);
          responseLength := Append(response, responseLength, Le16((declaration + 1) % 65536));
          responseLength := Append(response, responseLength, uuid);
          reply := response[..responseLength];
        } else if !CanRead(properties) {
          reply := ErrorPdu(opcode, handle, READ_NOT_PERM);
        } else {
          reply := PutPart(response, opcode, handle, value, offset);
        }
      case Descriptor(_, _, value) =>
        reply := PutPart(response, opcode, handle, value, offset);
    }
  }

  // What a client reads from the answers about each kind of attribute, octet for octet.

  /** A service has its UUID. */
  lemma ServiceAnswered(e: Entry, opcode: byte, handle: u16, offset: nat, mtu: nat)
    requires 23 <= mtu && (opcode == READ_REQ || opcode == READ_BLOB_REQ) && e.Service?
    ensures var reply := ReadReply(e, opcode, handle, offset, mtu);
      if offset == 0 then reply == [if opcode == 0x0a then 0x0b else 0x0d] + e.uuid
      else reply == [0x01, 0x0b, handle % 256, handle / 256, 0x04]
  {
  }

  /** The declaration of a characteristic has its properties, the handle of its value and
      its UUID. */
  lemma CharacteristicAnswered(e: Entry, opcode: byte, offset: nat, mtu: nat)
    requires 23 <= mtu && (opcode == READ_REQ || opcode == READ_BLOB_REQ)
    requires e.Characteristic? && e.handle < 65535
    ensures var reply := ReadReply(e, opcode, e.handle, offset, mtu);
      if offset == 0 then
        && reply != [] && reply[0] == (if opcode == 0x0a then 0x0b else 0x0d) && |reply| == 4 + |e.uuid|
        && ParseChar(Le16(e.handle) + reply[1..]) == CharInfo(e.handle, e.properties, e.handle + 1, e.uuid)
      else reply == [0x01, opcode, e.handle % 256, e.handle / 256, 0x0b]
  {
    if offset == 0 {
      DeclarationRead(e.handle, e.properties, e.uuid);
      assert ReadReply(e, opcode, e.handle, offset, mtu)[1..] == [e.properties] + Le16(e.handle + 1) + e.uuid;
    }
  }

  lemma DeclarationRead(declaration: u16, properties: byte, uuid: Uuid)
    requires declaration < 65535
    ensures var r := Le16(declaration) + ([properties] + Le16(declaration + 1) + uuid);
      |r| == 5 + |uuid| && ParseChar(r) == CharInfo(declaration, properties, declaration + 1, uuid)
  {
    var r := Le16(declaration) + ([properties] + Le16(declaration + 1) + uuid);
    assert r[5..] == uuid;
  }

  /** A value without the read property is refused, any other one is read from the offset
      on, and so is a descriptor. */
  lemma ValueAnswered(e: Entry, opcode: byte, handle: u16, offset: nat, mtu: nat)
    requires 23 <= mtu && (opcode == READ_REQ || opcode == READ_BLOB_REQ)
    requires e.Descriptor? || (e.Characteristic? && e.handle != handle)
    ensures var reply := ReadReply(e, opcode, handle, offset, mtu);
      if e.Characteristic? && e.properties / 2 % 2 == 0 then
        reply == [0x01, opcode, handle % 256, handle / 256, 0x02]
      else PartOf(reply, if opcode == 0x0a then 0x0b else 0x0d, opcode, handle, e.value, offset, mtu)
  {
    hide PartOf, ValuePart;
    PartRead(opcode, handle, e.value, offset, mtu);
  }

  lemma PartRead(opcode: byte, handle: u16, value: seq<byte>, offset: nat, mtu: nat)
    requires 23 <= mtu && (opcode == READ_REQ || opcode == READ_BLOB_REQ)
    ensures PartOf(ValuePart(opcode, handle, value, offset, mtu), if opcode == 0x0a then 0x0b else 0x0d,
                   opcode, handle, value, offset, mtu)
  {
  }

  /** A response with octets of a value: as many as follow the offset, or the MTU leaves
      room for; an error behind the end. */
  predicate PartOf(reply: seq<byte>, response: byte, opcode: byte, handle: u16, value: seq<byte>, offset: nat,
                   mtu: nat)
  {
    if offset >= |value| then reply == [0x01, opcode, handle % 256, handle / 256, 0x07]
    else
      && reply != [] && reply[0] == response && |reply| == 1 + Min(mtu - 1, |value| - offset)
      && forall k :: 1 <= k < |reply| ==> reply[k] == value[offset + k - 1]
  }

  /** What the server says to a Read or Read Blob does not depend on a value without the
      read property: tables that differ only there get the same reply, to any request. */
  method UnreadableHidden(t: seq<Entry>, declaration: u16, other: seq<byte>, mtu: u16, opcode: byte, dlen: byte,
                          data: seq<byte>)
      returns (reply: seq<byte>, same: seq<byte>)
    requires |t| < 65535 && 23 <= mtu && 4 <= |data| && SlotOf(U16At(data, 0)) != |t|
    requires opcode == READ_REQ || opcode == READ_BLOB_REQ
    requires forall e :: e in t && e.Characteristic? && e.handle == declaration ==> e.properties / 2 % 2 == 0
    ensures reply == same
  {
    reply := ReadOrReadBlobReq(t, mtu, opcode, dlen, data);
    same := ReadOrReadBlobReq(WithValue(t, declaration, other), mtu, opcode, dlen, data);
    if SlotOf(U16At(data, 0)) < |t| {
      assert t[SlotOf(U16At(data, 0))] in t;
    }
  }

  /** The octets of a value that the server puts into the response to one request. */
  function PartAt(all: seq<byte>, offset: nat, mtu: nat): seq<byte>
    requires 0 < mtu
  {
    if offset < |all| then all[offset..Min(|all|, offset + mtu - 1)] else []
  }

  /** The response of the server to one request for the octets from `offset` on. */
  method AskPart(table: seq<Entry>, mtu: u16, handle: u16, offset: u16) returns (reply: seq<byte>)
    requires |table| < 65535 && 23 <= mtu && IsValueSlot(table, handle)
    requires CanRead(table[handle - 1].properties)
    ensures reply != []
    ensures var all := table[handle - 1].value;
      if offset < |all| then reply[0] != ERROR && reply[1..] == PartAt(all, offset, mtu)
      else reply[0] == ERROR && |reply| == 5
  {
    hide ReadReply, CanRead, PartAt, Le16;
    if offset == 0 {
      HandleRead(handle, [0, 0]);
      PartAnswered(table, READ_REQ, handle, 0, mtu);
      reply := ReadOrReadBlobReq(table, mtu, READ_REQ, 2, Le16(handle) + [0, 0]);
    } else {
      HandleRead(handle, Le16(offset));
      HandleRead(offset, []);
      assert Le16(offset) + [] == Le16(offset);
      PartAnswered(table, READ_BLOB_REQ, handle, offset, mtu);
      reply := ReadOrReadBlobReq(table, mtu, READ_BLOB_REQ, 4, Le16(handle) + Le16(offset));
    }
  }

  lemma HandleRead(handle: u16, rest: seq<byte>)
    ensures U16At(Le16(handle) + rest, 0) == handle
    ensures 2 <= |rest| ==> U16At(Le16(handle) + rest, 2) == U16At(rest, 0)
    ensures 0 < handle ==> SlotOf(handle) == handle - 1
  {
  }

  lemma PartAnswered(table: seq<Entry>, opcode: byte, handle: u16, offset: nat, mtu: nat)
    requires IsValueSlot(table, handle) && CanRead(table[handle - 1].properties) && 23 <= mtu
    requires opcode == READ_REQ || opcode == READ_BLOB_REQ
    ensures var all, reply := table[handle - 1].value, ReadReply(table[handle - 1], opcode, handle, offset, mtu);
      if offset < |all| then reply != [] && reply[0] != ERROR && reply[1..] == PartAt(all, offset, mtu)
      else reply == ErrorPdu(opcode, handle, INVALID_OFFSET)
  {
  }

  /** One request of a client, as far as the response arrives. */
  method ReadPart(table: seq<Entry>, mtu: u16, handle: u16, offset: u16) returns (ok: bool, part: seq<byte>)
    requires |table| < 65535 && 23 <= mtu && IsValueSlot(table, handle)
    requires CanRead(table[handle - 1].properties)
    ensures var all := table[handle - 1].value;
      var length := |PartAt(all, offset, mtu)| + 1;
      && (ok <==> offset < |all| && 1 <= length % 256 <= 251)
      && (ok ==> part == PartAt(all, offset, mtu)[..length % 256 - 1])
  {
    hide Delivered, PartAt, CanRead;
    var reply := AskPart(table, mtu, handle, offset);
    var arrived := Transmit(0, reply);
    ArrivedPart(reply);
    assert |reply| == |reply[1..]| + 1;
    ok := arrived.Pdu? && arrived.octets != [] && arrived.octets[0] != ERROR;
    part := if ok then arrived.octets[1..] else [];
  }

  lemma ArrivedPart(reply: seq<byte>)
    requires reply != []
    ensures Delivered(reply).Pdu? <==> |reply| % 256 <= 251
    ensures Delivered(reply).Pdu? ==> Delivered(reply).octets == reply[..|reply| % 256]
    ensures Delivered(reply).Pdu? && |reply| % 256 > 0 ==>
      Delivered(reply).octets[0] == reply[0] && Delivered(reply).octets[1..] == reply[1..][..|reply| % 256 - 1]
  {
  }

  /** A client reads a long value: Read, then Read Blob from where it stands as long
      as the responses are full. What it gets is the front of the value, and the whole
      value if and only if the value is not empty, which the server answers with an
      error, and the responses are not too long to arrive. */
  method ReadLongValue(table: seq<Entry>, mtu: u16, handle: u16) returns (ok: bool, value: seq<byte>)
    requires WellLaid(table) && 23 <= mtu && IsValueSlot(table, handle)
    requires CanRead(table[handle - 1].properties)
    ensures value <= table[handle - 1].value
    ensures ReadAs(table[handle - 1].value, mtu, ok, value)
  {
    ghost var all := table[handle - 1].value;
    assert |all| <= 512 by { assert SlotWellLaid(table, handle - 1); }
    hide PartAt, WellLaid, CanRead, ReadAs;
    var more, part := ReadFirst(table, mtu, handle);
    ok, value := more, part;
    while more && |part| == mtu - 1
      invariant |value| <= |all| && value == all[..|value|]
      invariant more && |part| == mtu - 1 ==> mtu <= 251 && 0 < |part| <= |value|
      invariant mtu <= 251 ==> ok == (all != []) && (value != all ==> more && |part| == mtu - 1)
      invariant mtu > 251 ==> ReadAs(all, mtu, ok, value)
      decreases |all| - |value|, more
    {
      NextPart(all, |value|, mtu);
      more, part := ReadPart(table, mtu, handle, |value|);
      if more {
        value := value + part;
      }
    }
    if mtu <= 251 {
      AllRead(all, mtu, ok);
    }
  }

  /** The value came back whole if and only if it is not empty and the responses are not
      too long to arrive; below 256 octets it came back whole or not at all. */
  ghost predicate ReadAs(all: seq<byte>, mtu: nat, ok: bool, value: seq<byte>) {
    && (ok && value == all <==> all != [] && (mtu <= 251 || |all| <= 250))
    && (ok && |all| < 256 ==> value == all)
  }

  lemma AllRead(all: seq<byte>, mtu: nat, ok: bool)
    requires mtu <= 251 && ok == (all != [])
    ensures ReadAs(all, mtu, ok, all)
  {
  }

  method ReadFirst(table: seq<Entry>, mtu: u16, handle: u16) returns (ok: bool, part: seq<byte>)
    requires WellLaid(table) && 23 <= mtu && IsValueSlot(table, handle)
    requires CanRead(table[handle - 1].properties)
    ensures part <= table[handle - 1].value && (!ok ==> part == [])
    ensures var all := table[handle - 1].value;
      if mtu <= 251 then ok == (all != []) && |part| == Min(|all|, mtu - 1)
      else ReadAs(all, mtu, ok, part) && (ok ==> |part| != mtu - 1)
  {
    ghost var all := table[handle - 1].value;
    assert |all| <= 512 by { assert SlotWellLaid(table, handle - 1); }
    hide PartAt, WellLaid, CanRead;
    FirstPart(all, mtu);
    ok, part := ReadPart(table, mtu, handle, 0);
    part := if ok then part else [];
  }

  /** A later response, all of which arrives. */
  lemma NextPart(all: seq<byte>, offset: nat, mtu: nat)
    requires 23 <= mtu <= 251
    ensures var part := PartAt(all, offset, mtu);
      && |part| == Min(if offset < |all| then |all| - offset else 0, mtu - 1) && (|part| + 1) % 256 == |part| + 1
      && (offset < |all| ==> all[..offset] + part == all[..offset + |part|])
  {
  }

  /** The first response has the front of the value, all of it where it can be the last. */
  lemma FirstPart(all: seq<byte>, mtu: nat)
    requires 23 <= mtu
    ensures var part := PartAt(all, 0, mtu);
      && part == all[..|part|] && |part| == Min(|all|, mtu - 1)
      && (mtu > 251 && |all| > 250 && (|part| + 1) % 256 <= 251 ==> (|part| + 1) % 256 - 1 < |part|)
  {
  }

  // ---------- the write queue ----------

  /** The one queued write: the handle it is for (0 when none), the buffer of the
      characteristic's size, and how many octets have been accepted. */
  datatype Queue = Queue(handle: u16, value: seq<byte>, length: nat)

  datatype Prepared = Accepted | Refused(code: byte)

  ghost predicate QueueFits(t: seq<Entry>, q: Queue) {
    if q.handle == 0 then q.length == 0
    else IsValueSlot(t, q.handle) && |q.value| == t[q.handle - 1].valueSize && q.length <= |q.value|
  }

  function Zeros(n: nat): (s: seq<byte>)
    ensures |s| == n
  {
    seq(n, _ => 0)
  }

  /** Why a handle cannot be long-written; 0 when it can. */
  function WriteRefusal(t: seq<Entry>, handle: u16): byte
    requires SlotOf(handle) != |t|
  {
    if SlotOf(handle) > |t| then ATTR_NOT_FOUND
    else
      match t[SlotOf(handle)]
      case Characteristic(declaration, properties, _, _, _) =>
        if handle != (declaration + 1) % 65536 then ATTR_NOT_LONG
        else if !CanWrite(properties) then WRITE_NOT_PERM
        else 0
      case _ => ATTR_NOT_LONG
  }

  /** A part for a handle that can be written. Even a refused part may claim an idle
      queue for its handle. */
  ghost function Enqueue(q: Queue, handle: u16, valueSize: nat, offset: nat, part: seq<byte>): (Queue, Prepared)
    requires q.handle == handle ==> |q.value| == valueSize
  {
    if q.handle != 0 && q.handle != handle then (q, Refused(UNLIKELY))
    else
      var open := if q.handle == 0 then Queue(handle, Zeros(valueSize), 0) else q;
      if offset != open.length || offset + |part| > valueSize then (open, Refused(INVALID_OFFSET))
      else
        (open.(value := open.value[..offset] + part + open.value[offset + |part|..],
               length := offset + |part|), Accepted)
  }

  /** What a Prepare Write does to the queue. */
  ghost function Prepare(t: seq<Entry>, q: Queue, handle: u16, offset: nat, part: seq<byte>): (r: (Queue, Prepared))
    requires |t| < 65535 && QueueFits(t, q) && SlotOf(handle) != |t|
    ensures QueueFits(t, r.0)
  {
    var refusal := WriteRefusal(t, handle);
    if refusal != 0 then (q, Refused(refusal))
    else Enqueue(q, handle, t[handle - 1].valueSize, offset, part)
  }

  /** Why a part is refused, and when: the handle is outside the table; it is not of a
      value; the value has no write property; the queue is held for another handle; or the
      part does not follow the queued octets or does not fit. */
  lemma Refusals(t: seq<Entry>, q: Queue, handle: u16, offset: nat, part: seq<byte>)
    requires |t| < 65535 && WellLaid(t) && QueueFits(t, q) && SlotOf(handle) != |t|
    ensures var outcome := Prepare(t, q, handle, offset, part).1;
      outcome ==
        if handle == 0 || handle > |t| then Refused(0x0a)
        else if !IsValueSlotAt(t, handle - 1) then Refused(0x0b)
        else if t[handle - 1].properties / 8 % 2 == 0 then Refused(0x03)
        else if q.handle != 0 && q.handle != handle then Refused(0x0e)
        else if offset != q.length || offset + |part| > t[handle - 1].valueSize then Refused(0x07)
        else Accepted
  {
    if 1 <= handle <= |t| {
      assert SlotWellLaid(t, handle - 1);
    }
  }

  datatype Request = Request(handle: u16, offset: u16, part: seq<byte>)

  /** The queue after a run of Prepare Writes, and the parts that were accepted. */
  ghost function PrepareAll(t: seq<Entry>, q: Queue, requests: seq<Request>): (r: (Queue, seq<seq<byte>>))
    requires |t| < 65535 && QueueFits(t, q) && forall r :: r in requests ==> SlotOf(r.handle) != |t|
    ensures QueueFits(t, r.0)
  {
    if requests == [] then (q, [])
    else
      var r := requests[|requests| - 1];
      var (before, parts) := PrepareAll(t, q, requests[..|requests| - 1]);
      var (after, outcome) := Prepare(t, before, r.handle, r.offset, r.part);
      (after, if outcome == Accepted then parts + [r.part] else parts)
  }

  /** One Prepare Write adds its part when accepted and nothing when refused. */
  lemma PrepareKeeps(t: seq<Entry>, q: Queue, handle: u16, offset: nat, part: seq<byte>)
    requires |t| < 65535 && QueueFits(t, q) && SlotOf(handle) != |t|
    ensures var (after, outcome) := Prepare(t, q, handle, offset, part);
      && after.length <= |after.value|
      && (outcome == Accepted ==> q.length <= |q.value| && after.value[..after.length] == q.value[..q.length] + part)
      && (outcome != Accepted ==> after.length == q.length && (q.handle != 0 ==> after == q))
  {
  }

  /** A refused Prepare Write leaves the queue exactly as it was, unless the queue was
      idle and the handle can be written: then it has claimed the queue. It is refused
      there just when it does not start at zero or its part does not fit. */
  lemma RefusedClaims(t: seq<Entry>, q: Queue, handle: u16, offset: nat, part: seq<byte>)
    requires |t| < 65535 && QueueFits(t, q) && SlotOf(handle) != |t|
    ensures var (after, outcome) := Prepare(t, q, handle, offset, part);
      var claims := q.handle == 0 && WriteRefusal(t, handle) == 0;
      && (outcome != Accepted ==> (after != q <==> claims) && (claims ==> after.handle == handle && after.length == 0))
      && (claims ==> (outcome == Accepted <==> offset == 0 && |part| <= t[handle - 1].valueSize))
  {
    assert WriteRefusal(t, handle) == 0 ==> handle != 0;
  }

  /** A claimed queue turns every write to another handle away, until it is executed. */
  lemma ClaimTurnsAway(t: seq<Entry>, q: Queue, handle: u16, offset: nat, part: seq<byte>)
    requires |t| < 65535 && QueueFits(t, q) && SlotOf(handle) != |t|
    requires q.handle != 0 && q.handle != handle && WriteRefusal(t, handle) == 0
    ensures Prepare(t, q, handle, offset, part) == (q, Refused(UNLIKELY))
  {
  }

  /** Two writable characteristics: a part for the first one that does not start at
      zero is refused, and then the second one, which the idle queue would have taken,
      is refused as well. */
  lemma RefusedPartTurnsAway()
    ensures var uuid: Uuid := [1, 0];
      var first, second := Characteristic(2, 8, uuid, [], 4), Characteristic(4, 8, uuid, [], 4);
      var t := [Service(1, 5, uuid), first, first, second, second];
      var idle := Queue(0, [], 0);
      var (claimed, outcome) := Prepare(t, idle, 3, 1, [7]);
      && outcome == Refused(INVALID_OFFSET)
      && Prepare(t, idle, 5, 0, [7]).1 == Accepted
      && Prepare(t, claimed, 5, 0, [7]).1 == Refused(UNLIKELY)
  {
    var uuid: Uuid := [1, 0];
    var first, second := Characteristic(2, 8, uuid, [], 4), Characteristic(4, 8, uuid, [], 4);
    var t := [Service(1, 5, uuid), first, first, second, second];
    var idle := Queue(0, [], 0);
    RefusedClaims(t, idle, 3, 1, [7]);
    RefusedClaims(t, idle, 5, 0, [7]);
    ClaimTurnsAway(t, Prepare(t, idle, 3, 1, [7]).0, 5, 0, [7]);
  }

  /** After any run of Prepare Writes, to any handles at any offsets, that finds the
      queue idle, the queued octets are the accepted parts in order. */
  lemma {:induction false} QueueHoldsAccepted(t: seq<Entry>, q: Queue, requests: seq<Request>)
    requires |t| < 65535 && q.handle == 0 && q.length == 0
    requires forall r :: r in requests ==> SlotOf(r.handle) != |t|
    ensures var (after, parts) := PrepareAll(t, q, requests);
      after.length <= |after.value| && after.value[..after.length] == Flat(parts)
  {
    if requests != [] {
      var r := requests[|requests| - 1];
      QueueHoldsAccepted(t, q, requests[..|requests| - 1]);
      var (before, parts) := PrepareAll(t, q, requests[..|requests| - 1]);
      PrepareKeeps(t, before, r.handle, r.offset, r.part);
      assert (parts + [r.part])[..|parts|] == parts;
    }
  }

  /** The requests of a client that writes `parts` one behind the other. */
  function SplitWrite(handle: u16, parts: seq<seq<byte>>): (rs: seq<Request>)
    requires |Flat(parts)| <= 512
    ensures forall r :: r in rs ==> r.handle == handle
  {
    if parts == [] then []
    else
      var front := parts[..|parts| - 1];
      SplitWrite(handle, front) + [Request(handle, |Flat(front)|, parts[|parts| - 1])]
  }

  lemma NextAccepted(t: seq<Entry>, q: Queue, handle: u16, part: seq<byte>)
    requires |t| < 65535 && QueueFits(t, q) && IsValueSlot(t, handle) && (q.handle == 0 || q.handle == handle)
    requires CanWrite(t[handle - 1].properties) && q.length + |part| <= t[handle - 1].valueSize
    ensures var (after, outcome) := Prepare(t, q, handle, q.length, part);
      outcome == Accepted && after.handle == handle && after.length == q.length + |part|
  {
  }

  /** Such a client is never refused as long as the value fits. */
  lemma {:induction false} SplitWriteAccepted(t: seq<Entry>, q: Queue, handle: u16, parts: seq<seq<byte>>)
    requires q.handle == 0 && q.length == 0 && IsValueSlot(t, handle) && |t| < 65535
    requires CanWrite(t[handle - 1].properties)
    requires |Flat(parts)| <= t[handle - 1].valueSize && |Flat(parts)| <= 512
    ensures var (after, accepted) := PrepareAll(t, q, SplitWrite(handle, parts));
      accepted == parts && (parts != [] ==> after.handle == handle && after.length == |Flat(parts)|)
      && (parts == [] ==> after == q)
  {
    hide Prepare, CanWrite;
    if parts != [] {
      var front, all := parts[..|parts| - 1], SplitWrite(handle, parts);
      assert all[..|all| - 1] == SplitWrite(handle, front);
      assert parts == front + [parts[|parts| - 1]];
      SplitWriteAccepted(t, q, handle, front);
      NextAccepted(t, PrepareAll(t, q, SplitWrite(handle, front)).0, handle, parts[|parts| - 1]);
    }
  }

  // ---------- executing the queue ----------

  /** What stands behind a value before it is written: whether its characteristic has
      fixed length, and its buffer. */
  datatype Buffer = Buffer(fixedLength: bool, octets: seq<byte>)

  /** What a characteristic shows of a written value: its length goes into one octet, and
      one of fixed length shows its full size, with what stood behind the octets written. */
  function Kept8(value: seq<byte>, valueSize: nat, b: Buffer): (kept: seq<byte>)
    requires valueSize <= |b.octets|
    ensures |kept| <= valueSize
    ensures |kept| == (if b.fixedLength then valueSize else Min(|value|, valueSize)) % 256
    ensures forall k :: 0 <= k < |kept| ==>
      kept[k] == if k < Min(|value|, valueSize) % 256 then value[k] else b.octets[k]
  {
    var n := Min(|value|, valueSize) % 256;
    if b.fixedLength then (value[..n] + b.octets[n..])[..valueSize % 256] else value[..n]
  }

  /** A value that fits is kept whole if and only if its length is the one shown. */
  lemma KeptWhole(value: seq<byte>, valueSize: nat, b: Buffer)
    requires |value| <= valueSize <= |b.octets|
    ensures Kept8(value, valueSize, b) == value <==>
            |value| == (if b.fixedLength then valueSize else |value|) % 256
  {
  }

  /** The table after an Execute Write. */
  ghost function Execute(t: seq<Entry>, q: Queue, flag: byte, b: Buffer): (u: seq<Entry>)
    requires QueueFits(t, q) && (q.handle != 0 ==> |q.value| <= |b.octets|)
    ensures |u| == |t|
  {
    if q.handle != 0 && flag % 2 == 1 then
      WithValue(t, q.handle - 1, Kept8(q.value[..q.length], t[q.handle - 1].valueSize, b))
    else t
  }

  lemma ExecuteSets(t: seq<Entry>, q: Queue, flag: byte, b: Buffer)
    requires QueueFits(t, q) && q.handle != 0 && flag % 2 == 1 && |q.value| <= |b.octets|
    ensures q.length <= |q.value| && q.handle <= |t| && t[q.handle - 1].Characteristic?
    ensures t[q.handle - 1].valueSize == |q.value|
    ensures Execute(t, q, flag, b) == WithValue(t, q.handle - 1, Kept8(q.value[..q.length], |q.value|, b))
  {
  }

  lemma ExecuteNothing(t: seq<Entry>, q: Queue, flag: byte, b: Buffer)
    requires QueueFits(t, q) && (q.handle != 0 ==> |q.value| <= |b.octets|)
    ensures q.handle == 0 || flag % 2 == 0 ==> Execute(t, q, flag, b) == t
  {
  }

  lemma ExecuteKeepsLayout(t: seq<Entry>, q: Queue, flag: byte, b: Buffer)
    requires WellLaid(t) && QueueFits(t, q) && (q.handle != 0 ==> |q.value| <= |b.octets|)
    ensures WellLaid(Execute(t, q, flag, b))
  {
    if q.handle != 0 && flag % 2 == 1 {
      ExecuteSets(t, q, flag, b);
      WithValueWellLaid(t, q.handle - 1, Kept8(q.value[..q.length], |q.value|, b));
    }
  }

  lemma WithValueWellLaid(t: seq<Entry>, handle: u16, v: seq<byte>)
    requires WellLaid(t) && handle < |t| && t[handle].Characteristic? && t[handle].handle == handle
    requires |v| <= t[handle].valueSize
    ensures WellLaid(WithValue(t, handle, v))
  {
    var u := WithValue(t, handle, v);
    forall i | 0 <= i < |u|
      ensures SlotWellLaid(u, i)
    {
      assert SlotWellLaid(t, i);
      if u[i].Characteristic? {
        assert u[t[i].handle - 1] == u[t[i].handle] == u[i];
      }
    }
  }

  /** What an Execute Write of a pending queue leaves in the table. */
  ghost predicate Written(t: seq<Entry>, u: seq<Entry>, handle: u16, value: seq<byte>, b: Buffer)
    requires |u| == |t|
  {
    && IsValueSlot(t, handle) && IsValueSlot(u, handle)
    && |value| <= t[handle - 1].valueSize <= |b.octets|
    && u[handle - 1].value == Kept8(value, t[handle - 1].valueSize, b)
    && u[handle - 1].properties == t[handle - 1].properties
    && (forall i :: 0 <= i < |t| && !(t[i].Characteristic? && t[i].handle + 1 == handle) ==> u[i] == t[i])
  }

  lemma ExecuteWrites(t: seq<Entry>, q: Queue, b: Buffer)
    requires QueueFits(t, q) && q.handle != 0 && |q.value| <= |b.octets|
    ensures Written(t, Execute(t, q, 1, b), q.handle, q.value[..q.length], b)
  {
  }

  /** Long write: whatever else was asked of the queue in between, the characteristic ends
      up with the accepted parts, as it shows them. */
  lemma LongWriteStored(t: seq<Entry>, q: Queue, requests: seq<Request>, b: Buffer)
    requires |t| < 65535 && q.handle == 0 && q.length == 0
    requires forall r :: r in requests ==> SlotOf(r.handle) != |t|
    requires var after := PrepareAll(t, q, requests).0; after.handle != 0 ==> |after.value| <= |b.octets|
    ensures var (after, parts) := PrepareAll(t, q, requests);
      after.handle != 0 ==> Written(t, Execute(t, after, 1, b), after.handle, Flat(parts), b)
  {
    QueueHoldsAccepted(t, q, requests);
    var (after, parts) := PrepareAll(t, q, requests);
    if after.handle != 0 {
      ExecuteWrites(t, after, b);
    }
  }

  /** A value that fits, written in any split and executed, is what the characteristic
      then shows, if and only if it is shorter than 256 octets or, for fixed length, as
      long as the size in one octet. */
  lemma SplitWriteStored(t: seq<Entry>, q: Queue, handle: u16, parts: seq<seq<byte>>, b: Buffer)
    requires |t| < 65535 && q.handle == 0 && q.length == 0 && IsValueSlot(t, handle)
    requires CanWrite(t[handle - 1].properties) && parts != []
    requires |Flat(parts)| <= t[handle - 1].valueSize <= |b.octets| && |Flat(parts)| <= 512
    ensures var after := PrepareAll(t, q, SplitWrite(handle, parts)).0;
      && |after.value| <= |b.octets|
      && var u := Execute(t, after, 1, b);
      && Written(t, u, handle, Flat(parts), b)
      && (u[handle - 1].value == Flat(parts) <==>
          |Flat(parts)| == (if b.fixedLength then t[handle - 1].valueSize else |Flat(parts)|) % 256)
  {
    hide Flat, SplitWrite, Kept8;
    SplitWriteAccepted(t, q, handle, parts);
    LongWriteStored(t, q, SplitWrite(handle, parts), b);
    KeptWhole(Flat(parts), t[handle - 1].valueSize, b);
  }

  lemma ClaimedWritable(t: seq<Entry>, q: Queue, handle: u16, offset: nat, part: seq<byte>)
    requires |t| < 65535 && QueueFits(t, q) && SlotOf(handle) != |t|
    ensures var after := Prepare(t, q, handle, offset, part).0;
      after.handle == q.handle ||
      (after.handle == handle && IsValueSlot(t, handle) && t[handle - 1].properties / 8 % 2 == 1)
  {
  }

  /** The queue is only ever held for a characteristic with the write property. */
  lemma {:induction false} HeldWritable(t: seq<Entry>, q: Queue, requests: seq<Request>)
    requires |t| < 65535 && QueueFits(t, q) && q.handle == 0
    requires forall r :: r in requests ==> SlotOf(r.handle) != |t|
    ensures var after := PrepareAll(t, q, requests).0;
      after.handle != 0 ==> IsValueSlot(t, after.handle) && t[after.handle - 1].properties / 8 % 2 == 1
  {
    hide Prepare, QueueFits;
    if requests != [] {
      var r := requests[|requests| - 1];
      HeldWritable(t, q, requests[..|requests| - 1]);
      var before := PrepareAll(t, q, requests[..|requests| - 1]).0;
      ClaimedWritable(t, before, r.handle, r.offset, r.part);
    }
  }

  /** A characteristic without the write property keeps its value, whatever Prepare Writes
      come before an Execute Write. */
  lemma UnwritableKept(t: seq<Entry>, q: Queue, requests: seq<Request>, flag: byte, b: Buffer, i: nat)
    requires WellLaid(t) && QueueFits(t, q) && q.handle == 0
    requires forall r :: r in requests ==> SlotOf(r.handle) != |t|
    requires var after := PrepareAll(t, q, requests).0; after.handle != 0 ==> |after.value| <= |b.octets|
    requires i < |t| && t[i].Characteristic? && t[i].properties / 8 % 2 == 0
    ensures Execute(t, PrepareAll(t, q, requests).0, flag, b)[i] == t[i]
  {
    hide PrepareAll;
    HeldWritable(t, q, requests);
    var after := PrepareAll(t, q, requests).0;
    assert SlotWellLaid(t, i);
    if after.handle != 0 {
      assert SlotWellLaid(t, after.handle - 1);
    }
  }
}
