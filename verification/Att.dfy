/**
 The attribute server's state: the MTU, the connection and the write queue over the
 attribute table. Each handler returns the packets it hands to the controller.
 A request is the `dlen` octets at the front of `data`; `data` goes on with the
 other octets of the receive buffer, which a handler may look at when a request is
 too short.
 */
module Att {
  import opened Bytes
  import opened AttributeTable
  import opened AttDiscovery
  import opened AttValues
  import opened Gatt

  const NO_CONNECTION: u16 := 0xffff

  lemma ThreeParts(s: seq<byte>, i: nat, j: nat)
    requires i <= j <= |s|
    ensures s == s[..i] + s[i..j] + s[j..]
  {
  }

  class AttServer {
    const gatt: Table
    var mtu: u16
    var connectionHandle: u16
    var longWriteHandle: u16
    var longWriteValue: array<byte>
    var longWriteValueLength: u16

    constructor (gatt: Table)
      requires gatt.Valid()
      ensures Valid() && this.gatt == gatt && mtu == 23 && fresh(longWriteValue)
      ensures Pending().handle == 0
    {
      this.gatt, mtu, connectionHandle := gatt, 23, NO_CONNECTION;
      longWriteHandle, longWriteValueLength := 0, 0;
      longWriteValue := new byte[0];
    }

    /** The write queue as a value. */
    ghost function Pending(): Queue
      reads this, longWriteValue
    {
      Queue(longWriteHandle, longWriteValue[..], longWriteValueLength)
    }

    ghost predicate Valid()
      reads this, longWriteValue, gatt, gatt.Repr
    {
      && gatt.Valid() && this !in gatt.Repr && longWriteValue !in gatt.Repr + {gatt as object}
      && 23 <= mtu
      && QueueFits(gatt.Shown(), Pending())
    }

    /** The checks on the handle of a Prepare Write. */
    method FindWritable(handle: u16) returns (refusal: byte, characteristic: LocalCharacteristic?)
      requires gatt.Valid() && SlotOf(handle) != |gatt.attributes|
      ensures refusal == WriteRefusal(gatt.Shown(), handle)
      ensures refusal == 0 ==>
        && IsValueSlot(gatt.Shown(), handle) && characteristic != null
        && characteristic.valueSize == gatt.Shown()[handle - 1].valueSize <= 512
    {
      hide Counted, BuffersApart;
      refusal, characteristic := 0, null;
      if SlotOf(handle) > |gatt.attributes| {
        return ATTR_NOT_FOUND, null;
      }
      var attribute := gatt.attributes[SlotOf(handle)];
      assert gatt.Shown()[SlotOf(handle)] == attribute.Shown();
      assert SlotWellLaid(gatt.Shown(), SlotOf(handle));
      if !attribute.Chr? {
        return ATTR_NOT_LONG, null;
      }
      characteristic := attribute.characteristic;
      if handle != characteristic.ValueHandle() {
        return ATTR_NOT_LONG, null;
      }
      if !CanWrite(characteristic.properties) {
        return WRITE_NOT_PERM, null;
      }
    }

    /** The queue's part of a Prepare Write. */
    method StorePart(handle: u16, valueSize: nat, offset: u16, value: seq<byte>) returns (code: byte)
      requires handle != 0 && valueSize <= 512 && |value| < 256
      requires longWriteHandle == handle ==> longWriteValue.Length == valueSize
      modifies this`longWriteHandle, this`longWriteValue, this`longWriteValueLength, longWriteValue
      ensures longWriteValue == old(longWriteValue) || fresh(longWriteValue)
      ensures var (after, outcome) := Enqueue(old(Pending()), handle, valueSize, offset, value);
        Pending() == after && if code == 0 then outcome == Accepted else outcome == Refused(code)
    {
      if longWriteHandle == 0 {
        longWriteValue := new byte[valueSize](_ => 0);
        longWriteValueLength := 0;
        longWriteHandle := handle;
        assert longWriteValue[..] == Zeros(valueSize);
      } else if longWriteHandle != handle {
        return UNLIKELY;
      }
      if offset != longWriteValueLength || offset + |value| > valueSize {
        return INVALID_OFFSET;
      }
      ghost var before := longWriteValue[..];
      CopyInto(longWriteValue, offset, value);
      longWriteValueLength := longWriteValueLength + |value|;
      ThreeParts(longWriteValue[..], offset, offset + |value|);
      assert longWriteValue[..] == before[..offset] + value + before[offset + |value|..];
      code := 0;
    }

    /** Prepare Write. */
    method PrepWriteReq(dlen: byte, data: seq<byte>) returns (reply: seq<byte>)
      requires Valid() && 4 <= |data| && dlen <= |data| && dlen < mtu
      requires SlotOf(U16At(data, 0)) != |gatt.attributes|
      modifies this`longWriteHandle, this`longWriteValue, this`longWriteValueLength, longWriteValue
      ensures Valid() && |reply| <= mtu
      ensures longWriteValue == old(longWriteValue) || fresh(longWriteValue)
      ensures var handle, offset := U16At(data, 0), U16At(data, 2);
        if dlen < 4 then
          reply == ErrorPdu(PREP_WRITE_REQ, 0, INVALID_PDU) && Pending() == old(Pending())
        else
          var (after, outcome) := Prepare(gatt.Shown(), old(Pending()), handle, offset, data[4..dlen]);
          && Pending() == after
          && reply == match outcome
             case Accepted => [PREP_WRITE_RESP] + data[..dlen]
             case Refused(code) => ErrorPdu(PREP_WRITE_REQ, handle, code)
    {
      hide Table.Valid, Table.Shown, WellLaid, WriteRefusal, Enqueue;
      gatt.Small();
      if dlen < 4 {
        return ErrorPdu(PREP_WRITE_REQ, 0, INVALID_PDU);
      }
      var handle, offset := U16At(data, 0), U16At(data, 2);
      ghost var t, q := gatt.Shown(), Pending();
      var code, characteristic := FindWritable(handle);
      if code == 0 {
        code := StorePart(handle, characteristic.valueSize, offset, data[4..dlen]);
      }
      assert gatt.Valid() && gatt.Shown() == t;
      assert Pending() == Prepare(t, q, handle, offset, data[4..dlen]).0;
      reply := if code == 0 then [PREP_WRITE_RESP] + data[..dlen] else ErrorPdu(PREP_WRITE_REQ, handle, code);
    }

    /** A notification or indication carries as much of the value as the MTU leaves
        room for. */
    function ValuePdu(opcode: byte, handle: u16, value: seq<byte>): (pdu: seq<byte>)
      requires 3 <= mtu
      reads this
      ensures |pdu| <= mtu
    {
      [opcode] + Le16(handle) + value[..Min(mtu - 3, |value|)]
    }

    method PutValuePdu(opcode: byte, handle: u16, value: seq<byte>) returns (pdu: seq<byte>)
      requires 3 <= mtu
      ensures pdu == ValuePdu(opcode, handle, value)
    {
      var response := new byte[mtu];
      response[0] := opcode;
      var responseLength := Append(response, 1, Le16(handle));
      var length := Min(mtu - responseLength, |value|);
      responseLength := Append(response, responseLength, value[..length]);
      pdu := response[..responseLength];
    }

    method HandleNotify(handle: u16, value: seq<byte>) returns (ok: bool, sent: seq<seq<byte>>)
      requires 23 <= mtu
      ensures ok == (connectionHandle != NO_CONNECTION)
      ensures sent == if ok then [ValuePdu(HANDLE_NOTIFY, handle, value)] else []
    {
      if connectionHandle == NO_CONNECTION {
        return false, [];
      }
      var notification := PutValuePdu(HANDLE_NOTIFY, handle, value);
      return true, [notification];
    }

    /** An indication waits for its confirmation, with which the client answers it. */
    method HandleInd(handle: u16, value: seq<byte>) returns (ok: bool, sent: seq<seq<byte>>)
      requires 23 <= mtu
      ensures ok == (connectionHandle != NO_CONNECTION)
      ensures sent == if ok then [ValuePdu(HANDLE_IND, handle, value)] else []
    {
      if connectionHandle == NO_CONNECTION {
        return false, [];
      }
      var indication := PutValuePdu(HANDLE_IND, handle, value);
      return true, [indication];
    }

    /** The characteristic the queue is for. */
    ghost function Target(): (c: LocalCharacteristic)
      requires Valid() && longWriteHandle != 0
      reads this, longWriteValue, gatt, gatt.Repr
      ensures gatt.attributes[longWriteHandle - 1] == Chr(c) && c.Valid() && c in gatt.Repr && c.value in gatt.Repr
      ensures c.handle == longWriteHandle - 1 && c.valueSize == gatt.Shown()[longWriteHandle - 1].valueSize
    {
      assert gatt.Shown()[longWriteHandle - 1] == gatt.attributes[longWriteHandle - 1].Shown();
      assert gatt.attributes[longWriteHandle - 1].Owned() <= gatt.Repr;
      gatt.attributes[longWriteHandle - 1].characteristic
    }

    /** What stands behind the value that the queue is for. */
    ghost function Behind(): (b: Buffer)
      requires Valid()
      reads this, longWriteValue, gatt, gatt.Repr
      ensures longWriteHandle != 0 ==> |Pending().value| <= |b.octets|
      ensures longWriteHandle != 0 ==> b == Buffer(Target().fixedLength, Target().value[..])
    {
      if longWriteHandle == 0 then Buffer(false, []) else Buffer(Target().fixedLength, Target().value[..])
    }

    predicate NotifySubscribed(c: LocalCharacteristic)
      reads c
    {
      CanNotify(c.properties) && c.cccdValue % 2 == 1
    }

    predicate IndicateSubscribed(c: LocalCharacteristic)
      reads c
    {
      CanIndicate(c.properties) && c.cccdValue / 2 % 2 == 1
    }

    /** What a subscribed, connected client is told of the value of a characteristic. */
    function Told(c: LocalCharacteristic): (sent: seq<seq<byte>>)
      requires c.Valid() && 3 <= mtu
      reads this, c, c.value
      ensures forall pdu :: pdu in sent ==> |pdu| <= mtu
    {
      var value := c.value[..c.valueLength];
      if connectionHandle == NO_CONNECTION then []
      else if IndicateSubscribed(c) then [ValuePdu(HANDLE_IND, c.ValueHandle(), value)]
      else if NotifySubscribed(c) then [ValuePdu(HANDLE_NOTIFY, c.ValueHandle(), value)]
      else []
    }

    /** What a client reads from what it is told: by which opcode, of which value, and the
        front of that value that the MTU leaves room for. */
    lemma ToldRead(c: LocalCharacteristic)
      requires c.Valid() && 3 <= mtu && c.handle < 65535
      ensures var indicated := c.properties / 32 % 2 == 1 && c.cccdValue / 2 % 2 == 1;
        var notified := c.properties / 16 % 2 == 1 && c.cccdValue % 2 == 1;
        if connectionHandle == 0xffff || !(indicated || notified) then Told(c) == []
        else
          && |Told(c)| == 1 && var pdu := Told(c)[0];
          && 3 <= |pdu| && pdu[0] == (if indicated then 0x1d else 0x1b) && U16At(pdu, 1) == c.handle + 1
          && |pdu| == Min(mtu, c.valueLength + 3)
          && forall k :: 3 <= k < |pdu| ==> pdu[k] == c.value[k - 3]
    {
      var pdu := ValuePdu(HANDLE_IND, c.ValueHandle(), c.value[..c.valueLength]);
      assert pdu[1] == Le16(c.ValueHandle())[0] && pdu[2] == Le16(c.ValueHandle())[1];
    }

    /** A characteristic takes a value and tells a subscribed client. */
    method WriteCharacteristic(c: LocalCharacteristic, source: seq<byte>) returns (sent: seq<seq<byte>>)
      requires gatt.Valid() && this !in gatt.Repr && Chr(c) in gatt.attributes && c.Valid() && 23 <= mtu
      modifies c`valueLength, c`written, c.value
      ensures gatt.Valid() && ShowsValue(old(gatt.Shown()), c)
      ensures c.Took(source, old(c.value[..])) && sent == Told(c)
    {
      gatt.WriteValue(c, source);
      sent := [];
      if IndicateSubscribed(c) {
        var ok;
        ok, sent := HandleInd(c.ValueHandle(), c.value[..c.valueLength]);
      } else if NotifySubscribed(c) {
        var ok;
        ok, sent := HandleNotify(c.ValueHandle(), c.value[..c.valueLength]);
      }
    }

    /** The table is `before` with the value that `c` now holds. */
    ghost predicate ShowsValue(before: seq<Entry>, c: LocalCharacteristic)
      requires gatt.Valid()
      reads gatt, gatt.Repr, c, c.value
    {
      c.Valid() && gatt.Shown() == WithValue(before, c.handle, c.value[..c.valueLength])
    }

    /** The queue `q` stands in the characteristic, whose buffer held `before`; behind
        the octets written a characteristic of fixed length shows what stood there. */
    ghost predicate StandsIn(c: LocalCharacteristic, q: Queue, before: seq<byte>)
      reads c, c.value
    {
      var n := Min(q.length, c.valueSize) % 256;
      && c.valueLength == (if c.fixedLength then c.valueSize % 256 else n)
      && n <= |before| && q.length <= |q.value| && c.value[..] == q.value[..n] + before[n..]
    }

    lemma StandsThere(c: LocalCharacteristic, q: Queue, before: seq<byte>)
      requires q.length <= |q.value| && |before| == c.value.Length && c.valueSize <= c.value.Length
      requires c.Took(q.value[..q.length], before)
      ensures StandsIn(c, q, before)
      ensures c.value[..c.valueLength] == Kept8(q.value[..q.length], c.valueSize, Buffer(c.fixedLength, before))
    {
      var n := Min(q.length, c.valueSize) % 256;
      assert c.value[..] == c.value[..n] + c.value[n..];
    }

    /** Writing the queue out; only the connected client may. */
    method WriteQueued(connection: u16, ghost flag: byte) returns (sent: seq<seq<byte>>)
      requires flag % 2 == 1
      requires Valid() && longWriteHandle != 0
      modifies gatt.Repr
      ensures gatt.Valid() && gatt.attributes == old(gatt.attributes) && gatt.Repr == old(gatt.Repr)
      ensures forall pdu :: pdu in sent ==> |pdu| <= mtu
      ensures connection == connectionHandle ==>
        StandsIn(old(Target()), old(Pending()), old(Target().value[..])) && ShowsValue(old(gatt.Shown()), old(Target()))
      ensures connection == connectionHandle ==>
        |old(Pending()).value| <= |old(Behind()).octets| &&
        gatt.Shown() == Execute(old(gatt.Shown()), old(Pending()), flag, old(Behind()))
      ensures connection != connectionHandle ==> gatt.Shown() == old(gatt.Shown())
    {
      hide Table.Valid, Table.Shown, WellLaid, QueueFits, Execute, StandsIn, Kept8;
      ExecuteSets(gatt.Shown(), Pending(), flag, Behind());
      sent := [];
      ghost var target, q := Target(), Pending();
      var characteristic := gatt.attributes[longWriteHandle - 1].characteristic;
      if connection == connectionHandle {
        sent := WriteCharacteristic(characteristic, longWriteValue[..longWriteValueLength]);
        StandsThere(target, q, old(target.value[..]));
      }
    }

    /** Execute Write: flag 1 writes the queue to its characteristic, any other flag
        drops it; either way the queue is idle afterwards. */
    method ExecWriteReq(connection: u16, dlen: byte, data: seq<byte>) returns (sent: seq<seq<byte>>)
      requires Valid() && 1 <= |data|
      modifies this`longWriteHandle, this`longWriteValueLength, gatt.Repr
      ensures Valid()
      ensures forall pdu :: pdu in sent ==> |pdu| <= mtu
      ensures if dlen != 1 then
          sent == [ErrorPdu(EXEC_WRITE_REQ, 0, INVALID_PDU)] &&
          Pending() == old(Pending()) && gatt.Shown() == old(gatt.Shown())
        else
          sent != [] && sent[|sent| - 1] == [EXEC_WRITE_RESP] && Pending().handle == 0
      ensures dlen == 1 && connection == connectionHandle && data[0] % 2 == 1 && old(longWriteHandle) != 0 ==>
        StandsIn(old(Target()), old(Pending()), old(Target().value[..])) && ShowsValue(old(gatt.Shown()), old(Target()))
      ensures dlen == 1 && connection == connectionHandle ==>
        gatt.Shown() == Execute(old(gatt.Shown()), old(Pending()), data[0], old(Behind()))
      ensures connection != connectionHandle ==> gatt.Shown() == old(gatt.Shown())
    {
      hide Table.Valid, Table.Shown, WellLaid, Execute;
      gatt.Small();
      ghost var t, q, b := gatt.Shown(), Pending(), Behind();
      ExecuteNothing(t, q, data[0], b);
      if dlen != 1 {
        return [ErrorPdu(EXEC_WRITE_REQ, 0, INVALID_PDU)];
      }
      sent := [];
      if longWriteHandle != 0 && data[0] % 2 == 1 {
        sent := WriteQueued(connection, data[0]);
      }
      assert connection == connectionHandle ==> gatt.Shown() == Execute(t, q, data[0], b);
      longWriteHandle, longWriteValueLength := 0, 0;
      sent := sent + [[EXEC_WRITE_RESP]];
    }
  }
}
