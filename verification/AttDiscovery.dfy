/**
 The attribute server's discovery requests (Bluetooth Core Specification, Vol 3
 Part F, sections 3.4.3 and 3.4.4). Each handler fills a response buffer of MTU
 octets and hands over the octets it filled.
 */
module AttDiscovery {
  import opened Bytes
  import opened AttributeTable

  const ERROR: byte := 0x01
  const FIND_INFO_REQ: byte := 0x04
  const FIND_INFO_RESP: byte := 0x05
  const FIND_BY_TYPE_RESP: byte := 0x07
  const READ_BY_TYPE_REQ: byte := 0x08
  const READ_BY_TYPE_RESP: byte := 0x09
  const READ_BY_GROUP_REQ: byte := 0x10
  const READ_BY_GROUP_RESP: byte := 0x11

  const INVALID_PDU: byte := 0x04
  const ATTR_NOT_FOUND: byte := 0x0a
  const UNSUPP_GRP_TYPE: byte := 0x10

  const SERVICE: u16 := 0x2800
  const SECONDARY: u16 := 0x2801
  const CHARACTERISTIC: u16 := 0x2803
  const DESCRIPTOR: u16 := 0x2900

  function ErrorPdu(opcode: byte, handle: u16, code: byte): (pdu: seq<byte>)
    ensures |pdu| == 5
  {
    [ERROR, opcode] + Le16(handle) + [code]
  }

  /** The slot of a handle, computed in 16 bits: handle 0 wraps to slot 65535. */
  function SlotOf(handle: u16): u16 {
    (handle + 65535) % 65536
  }

  /** A list response: the error when nothing matches, and otherwise an opcode, the
      record length, and a maximal batch of the matching records. */
  ghost predicate IsListReply(reply: seq<byte>, op: byte, notFound: seq<byte>, all: seq<seq<byte>>, mtu: nat) {
    if all == [] then reply == notFound
    else
      && 2 <= |reply| && 0 < reply[1]
      && var taken := Split(reply[2..], reply[1]);
         && IsBatch(all, taken, 2, mtu)
         && reply == [op, |taken[0]|] + Flat(taken)
  }

  /** The buffer holds the records `taken`, all of the length in octet 1. */
  ghost predicate ListFilled(buffer: seq<byte>, length: nat, op: byte, taken: seq<seq<byte>>) {
    && 2 <= length <= |buffer|
    && buffer[0] == op && buffer[2..length] == Flat(taken)
    && AllOfLength(taken, buffer[1])
    && (taken == [] <==> length == 2) && (taken == [] <==> buffer[1] == 0)
  }

  /** `taken` begins `all` and stops where it has to. */
  ghost predicate CutRightly(all: seq<seq<byte>>, taken: seq<seq<byte>>, length: nat, mtu: nat) {
    && taken <= all && (taken == [] ==> all == [])
    && (|taken| < |all| ==> |all[|taken|]| != |taken[0]| || length + |taken[0]| > mtu)
  }

  /** A filled buffer whose records cannot be continued is the wanted reply. */
  lemma FilledIsReply(buffer: seq<byte>, length: nat, op: byte, taken: seq<seq<byte>>,
                      notFound: seq<byte>, all: seq<seq<byte>>, mtu: nat)
    requires ListFilled(buffer, length, op, taken) && length <= mtu
    requires CutRightly(all, taken, length, mtu)
    ensures taken != [] ==> IsListReply(buffer[..length], op, notFound, all, mtu) && all != []
  {
    if taken != [] {
      SplitFlat(taken, buffer[1]);
      assert buffer[..length] == [op, buffer[1]] + Flat(taken);
      assert buffer[..length][2..] == Flat(taken);
    }
  }

  /** Appending the pieces of one record of `size` octets. The first record decides
      the size; a record of another size is refused. */
  method PutRecord(response: array<byte>, length: nat, size: byte,
                   first: seq<byte>, second: seq<byte>, third: seq<byte>,
                   ghost op: byte, ghost taken: seq<seq<byte>>) returns (put: bool, newLength: nat)
    requires ListFilled(response[..], length, op, taken)
    requires 0 < size == |first| + |second| + |third|
    requires length + (if taken == [] then size else |taken[0]|) <= response.Length
    modifies response
    ensures put <==> taken == [] || size == |taken[0]|
    ensures put ==> newLength == length + size
    ensures put ==> ListFilled(response[..], newLength, op, taken + [first + second + third])
    ensures !put ==> newLength == length && ListFilled(response[..], newLength, op, taken)
  {
    hide ListFilled, Flat;
    newLength := length;
    ListHead(response[..], length, op, taken);
    ghost var buffer := response[..];
    assert buffer[0] == response[0] && buffer[1] == response[1];
    if response[1] == 0 {
      response[1] := size;
    }
    if response[1] != size {
      return false, newLength;
    }
    ghost var before, record := response[..length], first + second + third;
    newLength := Append(response, length, first);
    newLength := Append(response, newLength, second);
    newLength := Append(response, newLength, third);
    assert response[..newLength] == before + record;
    assert before == buffer[..length][1 := size];
    ListGrows(buffer, length, response[..], op, taken, record);
    put := true;
  }

  /** What the header of a list tells of its records. */
  lemma ListHead(buffer: seq<byte>, length: nat, op: byte, taken: seq<seq<byte>>)
    requires ListFilled(buffer, length, op, taken)
    ensures 2 <= length <= |buffer| && (taken == [] <==> buffer[1] == 0)
    ensures taken != [] ==> buffer[1] == |taken[0]|
  {
  }

  /** A record more behind the filled octets, its length in octet 1. */
  lemma ListGrows(buffer: seq<byte>, length: nat, after: seq<byte>, op: byte, taken: seq<seq<byte>>, record: seq<byte>)
    requires ListFilled(buffer, length, op, taken) && 0 < |record| < 256
    requires taken == [] || |record| == buffer[1] as int
    requires length + |record| <= |after| && after[..length + |record|] == buffer[..length][1 := |record|] + record
    ensures ListFilled(after, length + |record|, op, taken + [record])
  {
    var filled := after[..length + |record|];
    assert filled[0] == after[0] && filled[1] == after[1];
    assert after[2..length + |record|] == buffer[2..length] + record;
    FlatMore(taken, record);
  }

  /** Appending a record, or stopping: before it when its size is wrong, after it
      when no second record of that size would fit. */
  method PutOrCut(response: array<byte>, length: nat, size: byte,
                  first: seq<byte>, second: seq<byte>, third: seq<byte>,
                  ghost op: byte, ghost taken: seq<seq<byte>>, ghost all: seq<seq<byte>>)
      returns (cut: bool, newLength: nat, ghost newTaken: seq<seq<byte>>)
    requires ListFilled(response[..], length, op, taken)
    requires 0 < size == |first| + |second| + |third|
    requires length + (if taken == [] then size else |taken[0]|) <= response.Length
    requires taken + [first + second + third] <= all
    modifies response
    ensures newLength <= response.Length && ListFilled(response[..], newLength, op, newTaken)
    ensures cut ==> CutRightly(all, newTaken, newLength, response.Length)
    ensures !cut ==> newTaken == taken + [first + second + third] && newLength + size <= response.Length
  {
    var put;
    put, newLength := PutRecord(response, length, size, first, second, third, op, taken);
    newTaken := if put then taken + [first + second + third] else taken;
    assert all[|taken|] == first + second + third;
    cut := !put || newLength + size > response.Length;
  }

  method PutService(response: array<byte>, length: nat, start: u16, end: u16, uuid: Uuid,
                    ghost taken: seq<seq<byte>>, ghost all: seq<seq<byte>>)
      returns (cut: bool, newLength: nat, ghost newTaken: seq<seq<byte>>)
    requires ListFilled(response[..], length, READ_BY_GROUP_RESP, taken)
    requires length + (if taken == [] then 4 + |uuid| else |taken[0]|) <= response.Length
    requires taken + [ServiceRecord(start, end, uuid)] <= all
    modifies response
    ensures newLength <= response.Length && ListFilled(response[..], newLength, READ_BY_GROUP_RESP, newTaken)
    ensures cut ==> CutRightly(all, newTaken, newLength, response.Length)
    ensures !cut ==> newTaken == taken + [ServiceRecord(start, end, uuid)] && newLength + 4 + |uuid| <= response.Length
  {
    var infoSize := if |uuid| == 2 then 6 else 20;
    cut, newLength, newTaken := PutOrCut(response, length, infoSize,
      Le16(start), Le16(end), uuid, READ_BY_GROUP_RESP, taken, all);
  }

  method PutDeclaration(response: array<byte>, length: nat, handle: u16, properties: byte, uuid: Uuid,
                        ghost taken: seq<seq<byte>>, ghost all: seq<seq<byte>>)
      returns (cut: bool, newLength: nat, ghost newTaken: seq<seq<byte>>)
    requires handle < 65535 && ListFilled(response[..], length, READ_BY_TYPE_RESP, taken)
    requires length + (if taken == [] then 5 + |uuid| else |taken[0]|) <= response.Length
    requires taken + [CharRecord(handle, properties, uuid)] <= all
    modifies response
    ensures newLength <= response.Length && ListFilled(response[..], newLength, READ_BY_TYPE_RESP, newTaken)
    ensures cut ==> CutRightly(all, newTaken, newLength, response.Length)
    ensures !cut ==>
      newTaken == taken + [CharRecord(handle, properties, uuid)] && newLength + 5 + |uuid| <= response.Length
  {
    var typeSize := if |uuid| == 2 then 7 else 21;
    cut, newLength, newTaken := PutOrCut(response, length, typeSize,
      Le16(handle) + [properties], Le16(handle + 1), uuid, READ_BY_TYPE_RESP, taken, all);
  }

  function TypeOf(e: Entry): u16 {
    match e
    case Service(_, _, _) => SERVICE
    case Characteristic(_, _, _, _, _) => CHARACTERISTIC
    case Descriptor(_, _, _) => DESCRIPTOR
  }

  /** The records that answer a listing of the handles `start` to `end`. */
  ghost function Listed(t: seq<Entry>, what: Listing, start: u16, end: u16): seq<seq<byte>>
    requires |t| < 65535
  {
    RecordsIn(t, what, SlotOf(start), Min(end, |t|))
  }

  /** The listing that a Read By Group Type request with group type `group` asks for. */
  function Group(group: u16): Listing {
    if group == SERVICE then Services else SecondaryServices
  }

  /** What a loop over slots has done when it stands at slot `i`. */
  ghost predicate ListDone(rs: seq<seq<byte>>, lo: nat, hi: nat, i: nat, buffer: seq<byte>, length: nat, op: byte,
                           taken: seq<seq<byte>>)
    requires hi <= |rs|
  {
    && lo <= i && taken == Kept(rs, lo, if i < hi then i else hi)
    && length <= |buffer| && ListFilled(buffer, length, op, taken)
    && (taken != [] ==> length + |taken[0]| <= |buffer|)
  }

  lemma ListStart(rs: seq<seq<byte>>, slot: nat, hi: nat, buffer: seq<byte>, op: byte)
    requires hi <= |rs| && 2 <= |buffer| && buffer[0] == op && buffer[1] == 0
    ensures ListDone(rs, Min(slot, hi), hi, slot, buffer, 2, op, [])
    ensures Kept(rs, Min(slot, hi), hi) == Kept(rs, slot, hi)
  {
  }

  lemma ListEnd(rs: seq<seq<byte>>, lo: nat, hi: nat, i: nat, buffer: seq<byte>, length: nat, op: byte,
                taken: seq<seq<byte>>)
    requires hi <= |rs| && hi <= i && ListDone(rs, lo, hi, i, buffer, length, op, taken)
    ensures length <= |buffer| && ListFilled(buffer, length, op, taken)
    ensures CutRightly(Kept(rs, lo, hi), taken, length, |buffer|)
  {
  }

  /** One turn of the loop over services. */
  method TryService(table: seq<Entry>, group: u16, i: nat, hi: nat, response: array<byte>, length: nat,
                    ghost rs: seq<seq<byte>>, ghost lo: nat, ghost taken: seq<seq<byte>>)
      returns (cut: bool, newLength: nat, ghost newTaken: seq<seq<byte>>)
    requires |table| < 65535 && rs == SlotRecords(table, Group(group)) && i < hi <= |table| && 23 <= response.Length
    requires group == SERVICE || group == SECONDARY
    requires ListDone(rs, lo, hi, i, response[..], length, READ_BY_GROUP_RESP, taken)
    modifies response
    ensures newLength <= response.Length && ListFilled(response[..], newLength, READ_BY_GROUP_RESP, newTaken)
    ensures cut ==> CutRightly(Kept(rs, lo, hi), newTaken, newLength, response.Length)
    ensures !cut ==> ListDone(rs, lo, hi, i + 1, response[..], newLength, READ_BY_GROUP_RESP, newTaken)
  {
    hide Kept;
    var service := table[i];
    cut, newLength, newTaken := false, length, taken;
    KeptNext(rs, lo, i, hi);
    if group == TypeOf(service) {
      cut, newLength, newTaken := PutService(response, length,
        service.start, service.end, service.uuid, taken, Kept(rs, lo, hi));
    }
  }

  /** The loop of the Read By Group Type handler. */
  method FillServices(table: seq<Entry>, group: u16, start: u16, end: nat, response: array<byte>)
      returns (responseLength: nat, ghost taken: seq<seq<byte>>)
    requires |table| < 65535 && 23 <= response.Length < 65536
    requires group == SERVICE || group == SECONDARY
    requires response[0] == READ_BY_GROUP_RESP && response[1] == 0
    modifies response
    ensures responseLength <= response.Length
    ensures ListFilled(response[..], responseLength, READ_BY_GROUP_RESP, taken)
    ensures CutRightly(RecordsIn(table, Group(group), SlotOf(start), Min(end, |table|)), taken,
                       responseLength, response.Length)
  {
    hide ListDone, ListFilled, CutRightly, Kept, SlotRecords;
    responseLength := 2;
    ghost var hi := Min(end, |table|);
    ghost var lo := Min(SlotOf(start), hi);
    ghost var rs := SlotRecords(table, Group(group));
    var cut, i: nat := false, SlotOf(start);
    taken := [];
    ListStart(rs, SlotOf(start), hi, response[..], READ_BY_GROUP_RESP);
    while i < |table| && i <= end - 1
      invariant !cut && ListDone(rs, lo, hi, i, response[..], responseLength, READ_BY_GROUP_RESP, taken)
    {
      cut, responseLength, taken := TryService(
        table, group, i, Min(end, |table|), response, responseLength, rs, lo, taken);
      if cut {
        break;
      }
      i := i + 1;
    }
    if !cut {
      ListEnd(rs, lo, hi, i, response[..], responseLength, READ_BY_GROUP_RESP, taken);
    }
  }

  /** Read By Group Type: the primary services of a handle range. */
  method ReadByGroupReq(table: seq<Entry>, mtu: u16, dlen: byte, data: seq<byte>) returns (reply: seq<byte>)
    requires |table| < 65535 && 23 <= mtu && 6 <= |data|
    ensures |reply| <= mtu
    ensures var start, end, group := U16At(data, 0), U16At(data, 2), U16At(data, 4);
      var notFound := ErrorPdu(READ_BY_GROUP_REQ, start, ATTR_NOT_FOUND);
      if dlen != 6 || (group != SERVICE && group != SECONDARY) then
        reply == ErrorPdu(READ_BY_GROUP_REQ, start, UNSUPP_GRP_TYPE)
      else
        IsListReply(reply, READ_BY_GROUP_RESP, notFound, Listed(table, Group(group), start, end), mtu)
  {
    var start, end, group := U16At(data, 0), U16At(data, 2), U16At(data, 4);
    if dlen != 6 || (group != SERVICE && group != SECONDARY) {
      return ErrorPdu(READ_BY_GROUP_REQ, start, UNSUPP_GRP_TYPE);
    }
    var response := new byte[mtu];
    response[0], response[1] := READ_BY_GROUP_RESP, 0;
    var responseLength, taken := FillServices(table, group, start, end, response);
    if responseLength == 2 {
      reply := ErrorPdu(READ_BY_GROUP_REQ, start, ATTR_NOT_FOUND);
    } else {
      FilledIsReply(response[..], responseLength, READ_BY_GROUP_RESP, taken,
        ErrorPdu(READ_BY_GROUP_REQ, start, ATTR_NOT_FOUND), Listed(table, Group(group), start, end), mtu);
      reply := response[..responseLength];
    }
  }

  /** The value slot of a characteristic contributes nothing to a listing. */
  lemma ValueSlotSkipped(t: seq<Entry>, i: nat)
    requires WellLaid(t) && i < |t| && t[i].Characteristic?
    ensures t[i].handle == i ==> RecordAt(t, Declarations, i) == []
    ensures t[i].handle != i ==> IsDeclaration(t, i) && i + 1 < |t| && RecordAt(t, Declarations, i + 1) == []
  {
    assert SlotWellLaid(t, i);
  }

  /** One turn of the loop over declarations: the slot is not a characteristic, or is a value slot,
      or is a declaration whose value slot is skipped along with it. */
  method TryDeclaration(table: seq<Entry>, i: nat, hi: nat, response: array<byte>, length: nat,
                        ghost rs: seq<seq<byte>>, ghost lo: nat, ghost taken: seq<seq<byte>>)
      returns (cut: bool, next: nat, newLength: nat, ghost newTaken: seq<seq<byte>>)
    requires WellLaid(table) && rs == SlotRecords(table, Declarations) && i < hi <= |table|
    requires 23 <= response.Length
    requires ListDone(rs, lo, hi, i, response[..], length, READ_BY_TYPE_RESP, taken)
    modifies response
    ensures i < next && newLength <= response.Length
    ensures ListFilled(response[..], newLength, READ_BY_TYPE_RESP, newTaken)
    ensures cut ==> CutRightly(Kept(rs, lo, hi), newTaken, newLength, response.Length)
    ensures !cut ==> ListDone(rs, lo, hi, next, response[..], newLength, READ_BY_TYPE_RESP, newTaken)
  {
    hide Kept;
    var characteristic, handle := table[i], i + 1;
    cut, next, newLength, newTaken := false, i + 1, length, taken;
    KeptNext(rs, lo, i, hi);
    if TypeOf(characteristic) == CHARACTERISTIC {
      ValueSlotSkipped(table, i);
      if characteristic.handle + 1 == handle {
        return;
      }
      cut, newLength, newTaken := PutDeclaration(response, length,
        handle, characteristic.properties, characteristic.uuid, taken, Kept(rs, lo, hi));
      next := next + 1;
      if i + 1 < hi {
        KeptNext(rs, lo, i + 1, hi);
      }
    }
  }

  /** The loop of the Read By Type handler for characteristic declarations. */
  method FillDeclarations(table: seq<Entry>, start: u16, end: nat, response: array<byte>)
      returns (responseLength: nat, ghost taken: seq<seq<byte>>)
    requires WellLaid(table) && 23 <= response.Length < 65536
    requires response[0] == READ_BY_TYPE_RESP && response[1] == 0
    modifies response
    ensures responseLength <= response.Length
    ensures ListFilled(response[..], responseLength, READ_BY_TYPE_RESP, taken)
    ensures CutRightly(RecordsIn(table, Declarations, SlotOf(start), Min(end, |table|)), taken,
                       responseLength, response.Length)
  {
    hide ListDone, ListFilled, CutRightly, Kept, SlotRecords;
    responseLength := 2;
    ghost var hi := Min(end, |table|);
    ghost var lo := Min(SlotOf(start), hi);
    ghost var rs := SlotRecords(table, Declarations);
    var cut, i: nat := false, SlotOf(start);
    taken := [];
    ListStart(rs, SlotOf(start), hi, response[..], READ_BY_TYPE_RESP);
    while i < |table| && i <= end - 1
      invariant !cut && ListDone(rs, lo, hi, i, response[..], responseLength, READ_BY_TYPE_RESP, taken)
    {
      cut, i, responseLength, taken := TryDeclaration(
        table, i, Min(end, |table|), response, responseLength, rs, lo, taken);
      if cut {
        break;
      }
    }
    if !cut {
      ListEnd(rs, lo, hi, i, response[..], responseLength, READ_BY_TYPE_RESP, taken);
    }
  }

  /** A characteristic whose own two-octet UUID is asked for. */
  predicate HasShortUuid(e: Entry, uuid: u16) {
    e.Characteristic? && |e.uuid| == 2 && U16At(e.uuid, 0) == uuid
  }

  method PutValue(response: array<byte>, handle: u16, value: seq<byte>) returns (newLength: nat)
    requires 4 <= response.Length
    modifies response
    ensures response[0] == old(response[0])
    ensures newLength == 4 + Min(response.Length - 4, |value|)
    ensures response[1] == (newLength - 2) % 256
    ensures response[2..newLength] == Le16(handle) + value[..newLength - 4]
  {
    ghost var head := response[..2];
    newLength := Append(response, 2, Le16(handle));
    var valueLength := Min(response.Length - newLength, |value|);
    newLength := Append(response, newLength, value[..valueLength]);
    ghost var after := response[..newLength];
    assert after == head + (Le16(handle) + value[..valueLength]);
    assert after[2..] == Le16(handle) + value[..valueLength] && after[0] == head[0];
    response[1] := (2 + valueLength) % 256;
    assert response[2..newLength] == after[2..];
  }

  /** The loop of the Read By Type handler for any other type: the value of the
      first characteristic slot with that UUID, cut to the room in the buffer. */
  method FillValue(table: seq<Entry>, uuid: u16, start: u16, end: nat, response: array<byte>)
      returns (responseLength: nat, ghost found: nat)
    requires |table| < 65535 && 23 <= response.Length < 65536 && uuid != CHARACTERISTIC
    requires response[0] == READ_BY_TYPE_RESP && response[1] == 0
    modifies response
    ensures response[0] == READ_BY_TYPE_RESP && SlotOf(start) <= found
    ensures forall j :: SlotOf(start) <= j < found && j < |table| ==> !HasShortUuid(table[j], uuid)
    ensures if found < Min(end, |table|) then
        && HasShortUuid(table[found], uuid)
        && responseLength == 4 + Min(response.Length - 4, |table[found].value|)
        && response[1] == (responseLength - 2) % 256
        && response[2..responseLength] == Le16(found + 1) + table[found].value[..responseLength - 4]
      else responseLength == 2
  {
    responseLength := 2;
    var i: nat := SlotOf(start);
    while i < |table| && i <= end - 1
      invariant SlotOf(start) <= i && responseLength == 2
      invariant response[0] == READ_BY_TYPE_RESP
      invariant forall j :: SlotOf(start) <= j < i && j < |table| ==> !HasShortUuid(table[j], uuid)
    {
      var attribute, handle := table[i], i + 1;
      if TypeOf(attribute) != uuid && HasShortUuid(attribute, uuid) {
        responseLength := PutValue(response, handle, attribute.value);
        break;
      }
      i := i + 1;
    }
    found := i;
  }

  /** Read By Type: characteristic declarations, or one value by UUID. */
  method ReadByTypeReq(table: seq<Entry>, mtu: u16, dlen: byte, data: seq<byte>) returns (reply: seq<byte>)
    requires WellLaid(table) && 23 <= mtu && 6 <= |data|
    ensures |reply| <= mtu
    ensures var start, end, uuid := U16At(data, 0), U16At(data, 2), U16At(data, 4);
      var notFound := ErrorPdu(READ_BY_TYPE_REQ, start, ATTR_NOT_FOUND);
      if dlen != 6 then reply == ErrorPdu(READ_BY_TYPE_REQ, start, INVALID_PDU)
      else if uuid == CHARACTERISTIC then
        IsListReply(reply, READ_BY_TYPE_RESP, notFound, Listed(table, Declarations, start, end), mtu)
      else if forall k :: SlotOf(start) <= k < Min(end, |table|) ==> !HasShortUuid(table[k], uuid) then
        reply == notFound
      else
        && 4 <= |reply| && reply[0] == READ_BY_TYPE_RESP && reply[1] == (|reply| - 2) % 256
        && IsFirstValue(table, uuid, SlotOf(start), U16At(reply, 2) - 1, reply[4..], mtu)
  {
    var start, end, uuid := U16At(data, 0), U16At(data, 2), U16At(data, 4);
    var notFound := ErrorPdu(READ_BY_TYPE_REQ, start, ATTR_NOT_FOUND);
    if dlen != 6 {
      return ErrorPdu(READ_BY_TYPE_REQ, start, INVALID_PDU);
    }
    var response := new byte[mtu];
    response[0], response[1] := READ_BY_TYPE_RESP, 0;
    var responseLength;
    if uuid == CHARACTERISTIC {
      ghost var taken;
      responseLength, taken := FillDeclarations(table, start, end, response);
      FilledIsReply(response[..], responseLength, READ_BY_TYPE_RESP, taken, notFound,
        Listed(table, Declarations, start, end), mtu);
    } else {
      ghost var found;
      responseLength, found := FillValue(table, uuid, start, end, response);
      assert responseLength != 2 ==> response[..responseLength][2..] == response[2..responseLength];
    }
    reply := if responseLength == 2 then notFound else response[..responseLength];
  }

  ghost predicate IsFirstValue(table: seq<Entry>, uuid: u16, lo: nat, k: int, value: seq<byte>, mtu: nat) {
    && lo <= k < |table| && HasShortUuid(table[k], uuid)
    && (forall j :: lo <= j < k ==> !HasShortUuid(table[j], uuid))
    && 4 <= mtu && value == table[k].value[..Min(mtu - 4, |table[k].value|)]
  }

  /** The handle that Read By Type answers with for a characteristic's own UUID is the
      handle of the value if and only if the range starts right there; the declaration
      before it has the same UUID. */
  lemma ValueHandleAnswered(t: seq<Entry>, uuid: u16, lo: nat, k: int, value: seq<byte>, mtu: nat)
    requires WellLaid(t) && IsFirstValue(t, uuid, lo, k, value, mtu)
    ensures IsValueSlotAt(t, k) <==> k == lo && IsValueSlotAt(t, lo)
  {
    assert SlotWellLaid(t, k);
  }

  /** The answer to a search for a value does not depend on the properties: values without
      the read property are handed out just as the others. */
  lemma PropertiesIgnored(t: seq<Entry>, u: seq<Entry>, uuid: u16, lo: nat, k: int, value: seq<byte>, mtu: nat)
    requires |u| == |t| && forall i :: 0 <= i < |t| ==>
      u[i] == t[i] || (t[i].Characteristic? && u[i].Characteristic? && u[i] == t[i].(properties := u[i].properties))
    ensures IsFirstValue(t, uuid, lo, k, value, mtu) <==> IsFirstValue(u, uuid, lo, k, value, mtu)
  {
    assert forall i :: 0 <= i < |t| ==> (HasShortUuid(u[i], uuid) <==> HasShortUuid(t[i], uuid));
  }

  /** A service with one characteristic: a search of the whole table for its UUID 0x2a00
      answers with handle 2, the declaration, where the value has handle 3. */
  lemma DeclarationAnswered(k: int, value: seq<byte>)
    ensures var c := Characteristic(2, 2, [0x00, 0x2a], [7], 1);
      var t := [Service(1, 3, [0x00, 0x18]), c, c];
      WellLaid(t) && (IsFirstValue(t, 0x2a00, 0, k, value, 23) <==> k == 1 && value == [7]) && IsValueSlotAt(t, 2)
  {
    var c := Characteristic(2, 2, [0x00, 0x2a], [7], 1);
    var t := [Service(1, 3, [0x00, 0x18]), c, c];
    assert SlotWellLaid(t, 0) && SlotWellLaid(t, 1) && SlotWellLaid(t, 2);
    assert HasShortUuid(t[1], 0x2a00) && [7][..1] == [7];
  }

  /** The range check of Read, Read Blob and Prepare Write, which turns a handle away
      when its slot is above the number of attributes, is right if and only if the
      handle is not the one right after the last attribute. */
  lemma RangeCheckRight(count: nat, handle: u16)
    requires count < 65535
    ensures (SlotOf(handle) > count <==> !(1 <= handle <= count)) <==> SlotOf(handle) != count
  {
  }

  method PutRange(response: array<byte>, length: nat, start: u16, end: u16, ghost taken: seq<seq<byte>>)
      returns (newLength: nat)
    requires length + 4 <= response.Length && response[..length] == [FIND_BY_TYPE_RESP] + Flat(taken)
    modifies response
    ensures newLength == length + 4
    ensures response[..newLength] == [FIND_BY_TYPE_RESP] + Flat(taken + [RangeRecord(start, end)])
  {
    newLength := Append(response, length, Le16(start));
    newLength := Append(response, newLength, Le16(end));
    ghost var record := RangeRecord(start, end);
    assert (taken + [record])[..|taken|] == taken;
    assert response[..newLength] == [FIND_BY_TYPE_RESP] + (Flat(taken) + record);
  }

  /** What the loop over services called `uuid` has done when it stands at slot `i`. */
  ghost predicate NamedDone(rs: seq<seq<byte>>, lo: nat, hi: nat, i: nat, buffer: seq<byte>, length: nat,
                            taken: seq<seq<byte>>)
    requires hi <= |rs|
  {
    && lo <= i && taken == Kept(rs, lo, if i < hi then i else hi) && AllOfLength(taken, 4)
    && 1 <= length <= |buffer| && buffer[..length] == [FIND_BY_TYPE_RESP] + Flat(taken)
  }

  /** One turn of that loop. */
  method TryNamed(table: seq<Entry>, uuid: seq<byte>, i: nat, response: array<byte>, length: nat,
                  ghost rs: seq<seq<byte>>, ghost lo: nat, ghost hi: nat, ghost taken: seq<seq<byte>>)
      returns (newLength: nat, ghost newTaken: seq<seq<byte>>)
    requires |table| < 65535 && rs == SlotRecords(table, Named(uuid)) && i < hi <= |table|
    requires length + 4 <= response.Length && NamedDone(rs, lo, hi, i, response[..], length, taken)
    modifies response
    ensures NamedDone(rs, lo, hi, i + 1, response[..], newLength, newTaken)
    ensures newTaken <= Kept(rs, lo, hi) && (newLength == length || newTaken != [])
  {
    hide Kept;
    KeptNext(rs, lo, i, hi);
    newLength, newTaken := length, taken;
    var service := table[i];
    if service.Service? && service.uuid == uuid {
      newLength := PutRange(response, length, service.start, service.end, taken);
      newTaken := taken + [RangeRecord(service.start, service.end)];
    } else {
      KeptGrows(rs, lo, i, hi);
    }
  }

  /** The loop of the Find By Type Value handler over the services called `uuid`. */
  method FillNamed(table: seq<Entry>, uuid: seq<byte>, start: u16, end: nat, response: array<byte>)
      returns (responseLength: nat, ghost taken: seq<seq<byte>>)
    requires |table| < 65535 && 23 <= response.Length < 65536 && response[0] == FIND_BY_TYPE_RESP
    modifies response
    ensures 1 <= responseLength <= response.Length
    ensures response[..responseLength] == [FIND_BY_TYPE_RESP] + Flat(taken) && AllOfLength(taken, 4)
    ensures CutRightly(RecordsIn(table, Named(uuid), SlotOf(start), Min(end, |table|)), taken,
                       responseLength, response.Length)
  {
    responseLength := 1;
    ghost var hi := Min(end, |table|);
    ghost var lo := Min(SlotOf(start), hi);
    ghost var rs := SlotRecords(table, Named(uuid));
    var i: nat := SlotOf(start);
    taken := [];
    while i < |table| && i <= end - 1
      invariant responseLength + 4 <= response.Length
      invariant NamedDone(rs, lo, hi, i, response[..], responseLength, taken)
    {
      responseLength, taken := TryNamed(table, uuid, i, response, responseLength, rs, lo, hi, taken);
      if responseLength + 4 > response.Length {
        break;
      }
      i := i + 1;
    }
  }

  /** Find By Type Value: the ranges of the services with the given UUID. The
      response carries no record length, so its records start at octet 1. */
  method FindByTypeReq(table: seq<Entry>, mtu: u16, dlen: byte, data: seq<byte>) returns (reply: seq<byte>)
    requires |table| < 65535 && 23 <= mtu && 6 <= |data| && dlen <= |data|
    ensures |reply| <= mtu
    ensures var start, end, group := U16At(data, 0), U16At(data, 2), U16At(data, 4);
      var notFound := ErrorPdu(FIND_BY_TYPE_RESP, start, ATTR_NOT_FOUND);
      if dlen < 6 then reply == ErrorPdu(FIND_BY_TYPE_RESP, start, INVALID_PDU)
      else if group != SERVICE then reply == notFound
      else
        var all := Listed(table, Named(data[6..dlen]), start, end);
        if all == [] then reply == notFound
        else
          && reply != [] && IsBatch(all, Split(reply[1..], 4), 1, mtu)
          && reply == [FIND_BY_TYPE_RESP] + Flat(Split(reply[1..], 4))
  {
    var start, end, group := U16At(data, 0), U16At(data, 2), U16At(data, 4);
    if dlen < 6 {
      return ErrorPdu(FIND_BY_TYPE_RESP, start, INVALID_PDU);
    }
    var response := new byte[mtu];
    response[0] := FIND_BY_TYPE_RESP;
    var responseLength := 1;
    if group == SERVICE {
      ghost var taken;
      responseLength, taken := FillNamed(table, data[6..dlen], start, end, response);
      SplitFlat(taken, 4);
      assert response[..responseLength][1..] == Flat(taken);
    }
    reply := if responseLength == 1 then ErrorPdu(FIND_BY_TYPE_RESP, start, ATTR_NOT_FOUND)
             else response[..responseLength];
  }

  /** Slot `i` is the value slot of a characteristic. */
  predicate IsValueSlotAt(t: seq<Entry>, i: nat)
    requires i < |t|
  {
    t[i].Characteristic? && t[i].handle == i
  }

  /** The length of the UUID that a Find Information entry goes by. */
  function InfoUuidLength(t: seq<Entry>, i: nat): (n: nat)
    requires i < |t|
    ensures n == 2 || n == 16
  {
    if IsValueSlotAt(t, i) then 2 else |t[i].uuid|
  }

  function InfoFormat(t: seq<Entry>, i: nat): (format: byte)
    requires i < |t|
    ensures format == 1 || format == 2
  {
    if InfoUuidLength(t, i) == 2 then 1 else 2
  }

  function InfoEntry(t: seq<Entry>, i: nat): (r: seq<byte>)
    requires i < |t| < 65535
    ensures 4 <= |r| <= 2 + InfoUuidLength(t, i)
  {
    Le16(i + 1) +
    (if IsValueSlotAt(t, i) then t[i].uuid[..2] else if t[i].Descriptor? then t[i].uuid else Le16(TypeOf(t[i])))
  }

  /** The entries of the slots `lo` up to `stop`. */
  function InfoEntries(t: seq<Entry>, lo: nat, stop: nat): (rs: seq<seq<byte>>)
    requires lo <= stop <= |t| < 65535
    ensures |rs| == stop - lo
  {
    if stop == lo then [] else InfoEntries(t, lo, stop - 1) + [InfoEntry(t, stop - 1)]
  }

  ghost predicate OneFormat(t: seq<Entry>, lo: nat, stop: nat, format: byte)
    requires stop <= |t|
  {
    forall i :: lo <= i < stop ==> InfoFormat(t, i) == format
  }

  /** The slots up to `stop` have one format, and the next one has another format or
      might not fit. */
  ghost predicate InfoTaken(t: seq<Entry>, lo: nat, hi: nat, stop: nat, format: byte, mtu: nat)
    requires lo < hi <= |t| < 65535
  {
    && lo < stop <= hi && OneFormat(t, lo, stop, format)
    && (stop < hi ==>
          || InfoFormat(t, stop) != format
          || 2 + |Flat(InfoEntries(t, lo, stop))| + 2 + (if format == 1 then 2 else 16) > mtu)
  }

  /** What the loop over the slots has done when it stands at slot `i`. */
  ghost predicate InfoDone(t: seq<Entry>, lo: nat, i: nat, buffer: seq<byte>, length: nat)
    requires lo <= i <= |t| < 65535
  {
    && 2 <= length <= |buffer| && buffer[0] == FIND_INFO_RESP
    && buffer[2..length] == Flat(InfoEntries(t, lo, i)) && OneFormat(t, lo, i, buffer[1])
    && (i == lo <==> buffer[1] == 0) && (i == lo <==> length == 2)
  }

  /** One turn of that loop, past its test of the format. */
  method PutInfo(t: seq<Entry>, i: nat, response: array<byte>, length: nat, ghost lo: nat) returns (newLength: nat)
    requires lo <= i < |t| < 65535 && InfoDone(t, lo, i, response[..], length)
    requires response[1] == 0 || response[1] == InfoFormat(t, i)
    requires length + 2 + InfoUuidLength(t, i) <= response.Length
    modifies response
    ensures InfoDone(t, lo, i + 1, response[..], newLength) && response[1] == InfoFormat(t, i)
    ensures length < newLength <= length + 2 + InfoUuidLength(t, i)
  {
    hide InfoFormat, InfoEntry, InfoUuidLength, OneFormat;
    OneMore(t, lo, i, response[1]);
    var entry := InfoEntry(t, i);
    response[1] := InfoFormat(t, i);
    ghost var before := response[..length];
    newLength := Append(response, length, entry);
    ghost var after := response[..];
    assert after[..newLength] == before + entry;
    assert after[2..newLength] == before[2..] + entry;
    assert after[0] == before[0] && after[1] == before[1];
    FlatMore(InfoEntries(t, lo, i), entry);
  }

  lemma OneMore(t: seq<Entry>, lo: nat, i: nat, format: byte)
    requires lo <= i < |t| && OneFormat(t, lo, i, format) && (i == lo || format == InfoFormat(t, i))
    ensures OneFormat(t, lo, i + 1, InfoFormat(t, i))
  {
  }

  lemma FlatMore(rs: seq<seq<byte>>, r: seq<byte>)
    ensures Flat(rs + [r]) == Flat(rs) + r
  {
    assert (rs + [r])[..|rs|] == rs;
  }

  /** The loop of the Find Information handler. */
  method FillInfo(table: seq<Entry>, start: u16, end: int, response: array<byte>)
      returns (responseLength: nat, ghost stop: nat)
    requires |table| < 65535 && 23 <= response.Length && SlotOf(start) < Min(end, |table|)
    requires response[0] == FIND_INFO_RESP && response[1] == 0
    modifies response
    ensures 2 < responseLength <= response.Length && response[0] == FIND_INFO_RESP
    ensures InfoTaken(table, SlotOf(start), Min(end, |table|), stop, response[1], response.Length)
    ensures response[2..responseLength] == Flat(InfoEntries(table, SlotOf(start), stop))
  {
    hide InfoFormat, InfoEntry, InfoUuidLength, OneFormat, InfoEntries, Flat;
    responseLength := 2;
    ghost var lo := SlotOf(start);
    var i: nat := SlotOf(start);
    InfoStart(table, lo);
    while i < |table| && i <= end - 1
      invariant lo <= i <= Min(end, |table|) && InfoDone(table, lo, i, response[..], responseLength)
      invariant responseLength + 2 + (if response[1] == 1 then 2 else 16) <= response.Length
    {
      var uuidLen := InfoUuidLength(table, i);
      FormatLength(table, i);
      if response[1] != 0 && response[1] != InfoFormat(table, i) {
        break;
      }
      responseLength := PutInfo(table, i, response, responseLength, lo);
      i := i + 1;
      if responseLength + 2 + uuidLen > response.Length {
        break;
      }
    }
    stop := i;
    assert |response[..][2..responseLength]| == responseLength - 2;
  }

  lemma InfoStart(t: seq<Entry>, lo: nat)
    requires lo <= |t| < 65535
    ensures Flat(InfoEntries(t, lo, lo)) == [] && OneFormat(t, lo, lo, 0)
  {
  }

  lemma FormatLength(t: seq<Entry>, i: nat)
    requires i < |t|
    ensures InfoUuidLength(t, i) == if InfoFormat(t, i) == 1 then 2 else 16
  {
  }

  /** Find Information: as many handles and types as fit, of the slots whose UUIDs have
      the format of the first. */
  method FindInfoReq(table: seq<Entry>, mtu: u16, dlen: byte, data: seq<byte>)
      returns (reply: seq<byte>, ghost stop: nat)
    requires |table| < 65535 && 23 <= mtu && 4 <= |data|
    ensures |reply| <= mtu
    ensures var start, end := U16At(data, 0), U16At(data, 2);
      var lo, hi := SlotOf(start), Min(end, |table|);
      if dlen != 4 then reply == ErrorPdu(FIND_INFO_REQ, start, INVALID_PDU)
      else if hi <= lo then reply == ErrorPdu(FIND_INFO_REQ, start, ATTR_NOT_FOUND)
      else
        && 2 <= |reply| && InfoTaken(table, lo, hi, stop, reply[1], mtu)
        && reply == [FIND_INFO_RESP, reply[1]] + Flat(InfoEntries(table, lo, stop))
  {
    hide InfoTaken, InfoEntries, Flat;
    var start, end: int := U16At(data, 0), U16At(data, 2);
    stop := 0;
    if dlen != 4 {
      return ErrorPdu(FIND_INFO_REQ, start, INVALID_PDU), 0;
    }
    var response := new byte[mtu];
    response[0], response[1] := FIND_INFO_RESP, 0;
    var responseLength := 2;
    if SlotOf(start) < |table| && SlotOf(start) <= end - 1 {
      responseLength, stop := FillInfo(table, start, end, response);
    }
    if responseLength == 2 {
      reply := ErrorPdu(FIND_INFO_REQ, start, ATTR_NOT_FOUND);
    } else {
      reply := response[..responseLength];
      assert reply == [FIND_INFO_RESP, response[1]] + response[2..responseLength];
    }
  }

  /** The type of the attribute in slot `i`. */
  function AttributeType(t: seq<Entry>, i: nat): seq<byte>
    requires i < |t|
  {
    match t[i]
    case Service(_, _, _) => Le16(SERVICE)
    case Characteristic(_, _, uuid, _, _) => if IsValueSlotAt(t, i) then uuid else Le16(CHARACTERISTIC)
    case Descriptor(_, uuid, _) => uuid
  }

  /** What a client should learn about the slots `lo` up to `stop`. */
  function HandlesAndTypes(t: seq<Entry>, lo: nat, stop: nat): (rs: seq<seq<byte>>)
    requires lo <= stop <= |t| < 65535
    ensures |rs| == stop - lo
  {
    if stop == lo then [] else HandlesAndTypes(t, lo, stop - 1) + [Le16(stop) + AttributeType(t, stop - 1)]
  }

  /** How a client takes a response apart: records of a handle and as many octets as
      the format says. */
  function InfoRecords(entries: seq<byte>, format: byte): seq<seq<byte>> {
    Split(entries, if format == 1 then 4 else 18)
  }

  predicate ShortOrDescriptor(t: seq<Entry>, i: nat)
    requires i < |t|
  {
    t[i].Descriptor? || |t[i].uuid| == 2
  }

  lemma {:induction false} SplitLengths(s: seq<byte>, n: nat)
    requires n > 0
    ensures AllOfLength(Split(s, n), n)
  {
    if |s| >= n {
      SplitLengths(s[n..], n);
    }
  }

  /** The handle and the type of a slot have the size that the format says just when
      the slot has no service or characteristic UUID of 16 octets, and then they are
      what the entry holds. */
  lemma EntryRight(t: seq<Entry>, i: nat)
    requires i < |t| < 65535
    ensures var record := Le16(i + 1) + AttributeType(t, i);
      && (ShortOrDescriptor(t, i) <==> |record| == if InfoFormat(t, i) == 1 then 4 else 18)
      && (ShortOrDescriptor(t, i) ==> InfoEntry(t, i) == record)
  {
    assert |Le16(i + 1) + AttributeType(t, i)| == 2 + |AttributeType(t, i)|;
  }

  /** Where it has such a UUID, the entry still begins with the handle, and holds the first
      two octets of the type. */
  lemma EntryCut(t: seq<Entry>, i: nat)
    requires i < |t| < 65535 && !ShortOrDescriptor(t, i)
    ensures InfoEntry(t, i) == Le16(i + 1) + AttributeType(t, i)[..2]
  {
  }

  lemma AllOfLengthMore(rs: seq<seq<byte>>, r: seq<byte>, n: nat)
    ensures AllOfLength(rs + [r], n) <==> AllOfLength(rs, n) && |r| == n
  {
    assert (rs + [r])[|rs|] == r;
    assert forall k :: 0 <= k < |rs| ==> (rs + [r])[k] == rs[k];
  }

  lemma {:induction false} EntriesRight(t: seq<Entry>, lo: nat, stop: nat, format: byte)
    requires lo <= stop <= |t| < 65535 && OneFormat(t, lo, stop, format)
    ensures var records, size := HandlesAndTypes(t, lo, stop), if format == 1 then 4 else 18;
      && ((forall i :: lo <= i < stop ==> ShortOrDescriptor(t, i)) <==> AllOfLength(records, size))
      && (AllOfLength(records, size) ==> InfoEntries(t, lo, stop) == records)
  {
    hide InfoFormat, InfoEntry, AttributeType, ShortOrDescriptor;
    if lo < stop {
      EntriesRight(t, lo, stop - 1, format);
      EntryRight(t, stop - 1);
      var front, records := HandlesAndTypes(t, lo, stop - 1), HandlesAndTypes(t, lo, stop);
      var last := Le16(stop) + AttributeType(t, stop - 1);
      assert InfoFormat(t, stop - 1) == format;
      AllOfLengthMore(front, last, if format == 1 then 4 else 18);
      assert records == front + [last];
    }
  }

  /** The client learns the handles and types of the slots taken if and only if no
      service or characteristic among them has a UUID of 16 octets. */
  lemma InfoReadRight(t: seq<Entry>, lo: nat, hi: nat, stop: nat, format: byte, mtu: nat)
    requires lo < hi <= |t| < 65535 && InfoTaken(t, lo, hi, stop, format, mtu)
    ensures InfoRecords(Flat(InfoEntries(t, lo, stop)), format) == HandlesAndTypes(t, lo, stop) <==>
            forall i :: lo <= i < stop ==> ShortOrDescriptor(t, i)
  {
    hide InfoEntries, HandlesAndTypes, OneFormat, ShortOrDescriptor, Flat, Split;
    var size, entries := if format == 1 then 4 else 18, InfoEntries(t, lo, stop);
    EntriesRight(t, lo, stop, format);
    SplitLengths(Flat(entries), size);
    if AllOfLength(entries, size) {
      SplitFlat(entries, size);
    }
  }
}
