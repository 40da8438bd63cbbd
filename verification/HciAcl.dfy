/**
 Protocol data units on their way through the transport: `sendAclPkt` puts one into an
 ACL data packet behind the header of its channel, with lengths that pass through one
 octet, and the receive buffer of `poll` bounds what can come in.
 */
module HciAcl {
  import opened Bytes
  import HciFraming

  const ATT_CID: u16 := 0x0004

  /** The octets that go out for a PDU: its length is handed over as one octet, and the
      length of the packet is computed in one octet again. */
  function Outgoing(handle: u16, cid: u16, pdu: seq<byte>): seq<byte> {
    var plen: byte := |pdu| % 256;
    [HciFraming.ACLDATA] + Le16(handle) + Le16((plen + 4) % 256) + Le16(plen) + Le16(cid) + pdu[..plen]
  }

  method SendAclPkt(handle: u16, cid: u16, plen: byte, data: seq<byte>) returns (sent: seq<byte>)
    requires plen <= |data|
    ensures sent == Outgoing(handle, cid, data[..plen])
  {
    var txBuffer := new byte[9 + plen as int];
    txBuffer[0] := HciFraming.ACLDATA;
    var length := Append(txBuffer, 1, Le16(handle));
    length := Append(txBuffer, length, Le16((plen + 4) % 256));
    length := Append(txBuffer, length, Le16(plen));
    length := Append(txBuffer, length, Le16(cid));
    length := Append(txBuffer, length, data[..plen]);
    sent := txBuffer[..length];
    assert data[..plen][..plen] == data[..plen];
  }

  datatype Arrival = Nothing | Pdu(octets: seq<byte>)

  /** What the other side makes of a packet: the octets that the packet's length covers
      have to hold the header of the channel and the octets that its length announces. */
  function Incoming(packet: seq<byte>): Arrival {
    if |packet| < 5 || |packet| < 5 + U16At(packet, 3) then Nothing
    else
      var frame := packet[5..5 + U16At(packet, 3)];
      if |frame| < 4 || U16At(frame, 0) as int != |frame| - 4 then Nothing else Pdu(frame[4..])
  }

  /** What of a PDU arrives: all of it, the front that is left of its length in one
      octet, or nothing. */
  function Delivered(pdu: seq<byte>): Arrival {
    if |pdu| % 256 <= 251 then Pdu(pdu[..|pdu| % 256]) else Nothing
  }

  /** The packet for a Read request of handle 3 on connection 0x40, octet by octet. */
  lemma ReadRequestOut()
    ensures Outgoing(0x40, ATT_CID, [0x0a, 3, 0]) == [0x02, 0x40, 0, 7, 0, 3, 0, 4, 0, 0x0a, 3, 0]
    ensures HciFraming.Acl(0x40, [3, 0, 4, 0, 0x0a, 3, 0]).Encode() == Outgoing(0x40, ATT_CID, [0x0a, 3, 0])
    ensures HciFraming.Event(0x13, [1, 0x40, 0, 2, 0]).Encode() == [0x04, 0x13, 5, 1, 0x40, 0, 2, 0]
  {
    var pdu: seq<byte> := [0x0a, 3, 0];
    assert pdu[..3] == pdu;
  }

  lemma FieldAt(s: seq<byte>, at: nat, x: u16)
    requires at + 2 <= |s| && s[at..at + 2] == Le16(x)
    ensures U16At(s, at) == x
  {
    assert s[at] == s[at..at + 2][0] && s[at + 1] == s[at..at + 2][1];
  }

  lemma OutgoingArrives(handle: u16, cid: u16, pdu: seq<byte>)
    ensures Incoming(Outgoing(handle, cid, pdu)) == Delivered(pdu)
  {
    hide Le16;
    var plen: u16 := |pdu| % 256;
    var dlen: u16 := (plen + 4) % 256;
    var packet := Outgoing(handle, cid, pdu);
    FieldAt(packet, 3, dlen);
    if plen <= 251 {
      var frame := packet[5..5 + dlen as int];
      assert frame == Le16(plen) + Le16(cid) + pdu[..plen];
      FieldAt(frame, 0, plen);
      assert frame[4..] == pdu[..plen];
    }
  }

  /** A PDU arrives whole if and only if it has at most 251 octets. */
  lemma WholeExactly(pdu: seq<byte>)
    ensures Delivered(pdu) == Pdu(pdu) <==> |pdu| <= 251
  {
    if |pdu| % 256 <= 251 && Delivered(pdu) == Pdu(pdu) {
      assert |pdu[..|pdu| % 256]| == |pdu|;
    }
  }

  /** A PDU of 252 to 255 octets goes out in a packet that announces 0 to 3 octets, and
      does not arrive at all. */
  lemma LengthWraps(handle: u16, cid: u16, pdu: seq<byte>)
    requires 252 <= |pdu| <= 255
    ensures U16At(Outgoing(handle, cid, pdu), 3) == |pdu| - 252 && Delivered(pdu) == Nothing
  {
    hide Le16;
    var plen: u16, dlen: u16 := |pdu|, |pdu| - 252;
    var packet := Outgoing(handle, cid, pdu);
    assert plen % 256 == plen && (plen + 4) % 256 == dlen;
    assert packet == [HciFraming.ACLDATA] + Le16(handle) + Le16(dlen) + (Le16(plen) + Le16(cid) + pdu[..plen]);
    FieldAt(packet, 3, dlen);
  }

  /** What `sendAclPkt` puts out is the packet of the PDU if and only if the PDU has at
      most 251 octets. */
  lemma OutgoingPacket(handle: u16, cid: u16, pdu: seq<byte>)
    requires |pdu| < 65532
    ensures Outgoing(handle, cid, pdu) == HciFraming.Acl(handle, Le16(|pdu|) + Le16(cid) + pdu).Encode() <==>
            |pdu| <= 251
  {
    hide Le16;
    var frame := Le16(|pdu|) + Le16(cid) + pdu;
    var packet := HciFraming.Acl(handle, frame).Encode();
    var dlen: u16 := (|pdu| % 256 + 4) % 256;
    Le16Differs(dlen, |pdu| + 4);
    assert Outgoing(handle, cid, pdu)[3..5] == Le16(dlen) && packet[3..5] == Le16(|frame|);
    if |pdu| <= 251 {
      assert pdu[..|pdu|] == pdu;
      assert Outgoing(handle, cid, pdu) == [HciFraming.ACLDATA] + Le16(handle) + Le16(|frame|) + frame;
    }
  }

  lemma Le16Differs(x: u16, y: u16)
    ensures Le16(x) == Le16(y) <==> x == y
  {
    assert U16At(Le16(x), 0) == x && U16At(Le16(y), 0) == y;
  }

  /** A PDU that comes in stays inside the receive buffer if and only if it has at most
      249 octets. */
  lemma IncomingFits(handle: u16, pdu: seq<byte>, log: seq<seq<byte>>)
    requires |pdu| < 65532
    ensures var packet := HciFraming.Acl(handle, Le16(|pdu|) + Le16(ATT_CID) + pdu);
      HciFraming.Fits(HciFraming.State([], log), packet.Encode()) <==> |pdu| <= 249
  {
    var packet := HciFraming.Acl(handle, Le16(|pdu|) + Le16(ATT_CID) + pdu);
    HciFraming.PacketFits(packet, log);
    HciFraming.Header(packet);
  }

  /** Sends a PDU, as the request handlers do, and says what arrives. */
  method Transmit(handle: u16, pdu: seq<byte>) returns (arrived: Arrival)
    ensures arrived == Delivered(pdu)
  {
    var sent := SendAclPkt(handle, ATT_CID, |pdu| % 256, pdu);
    assert pdu[..|pdu| % 256][..|pdu| % 256] == pdu[..|pdu| % 256];
    arrived := Incoming(sent);
    OutgoingArrives(handle, ATT_CID, pdu);
  }
}
