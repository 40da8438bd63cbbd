/**
 Requests and replies octet by octet: a server with one service, 0x1800, that has one
 characteristic, 0x2a00, with the value 7, and a server with nothing.
 */
module AttExchange {
  import opened Bytes
  import opened AttributeTable
  import opened AttDiscovery

  function Single(): (t: seq<Entry>)
    ensures |t| == 3 && WellLaid(t)
    ensures t[0] == Service(1, 3, [0x00, 0x18])
    ensures t[1] == t[2] == Characteristic(2, 2, [0x00, 0x2a], [7], 1)
  {
    var c := Characteristic(2, 2, [0x00, 0x2a], [7], 1);
    var t := [Service(1, 3, [0x00, 0x18]), c, c];
    assert SlotWellLaid(t, 0) && SlotWellLaid(t, 1) && SlotWellLaid(t, 2);
    t
  }

  /** The list of the first `n` slots when just slot `at` has a record. */
  lemma {:induction false} OneListed(t: seq<Entry>, what: Listing, at: nat, n: nat)
    requires at < |t| < 65535 && n <= |t|
    requires forall i :: 0 <= i < |t| ==> (RecordAt(t, what, i) != [] <==> i == at)
    ensures RecordsIn(t, what, 0, n) == if at < n then [RecordAt(t, what, at)] else []
  {
    if n > 0 {
      OneListed(t, what, at, n - 1);
    }
  }

  lemma OneReplied(reply: seq<byte>, op: byte, notFound: seq<byte>, r: seq<byte>, mtu: nat)
    requires IsListReply(reply, op, notFound, [r], mtu)
    ensures |r| < 256 && reply == [op, |r|] + r
  {
    var taken := Split(reply[2..], reply[1]);
    assert taken == [r];
    FlatFirst(taken);
  }

  lemma SingleListed()
    ensures RecordsIn(Single(), Services, 0, 3) == [[1, 0, 3, 0, 0x00, 0x18]]
    ensures RecordsIn(Single(), Named([0x00, 0x18]), 0, 3) == [[1, 0, 3, 0]]
    ensures RecordsIn(Single(), Declarations, 0, 3) == [[2, 0, 2, 3, 0, 0x00, 0x2a]]
  {
    hide RecordsIn, Single, WellLaid;
    var t := Single();
    assert RecordAt(t, Services, 0) == [1, 0, 3, 0, 0x00, 0x18];
    assert RecordAt(t, Named([0x00, 0x18]), 0) == [1, 0, 3, 0];
    assert RecordAt(t, Declarations, 1) == [2, 0, 2, 3, 0, 0x00, 0x2a];
    OneListed(t, Services, 0, 3);
    OneListed(t, Named([0x00, 0x18]), 0, 3);
    OneListed(t, Declarations, 1, 3);
  }

  lemma Asked(request: seq<byte>)
    requires 6 <= |request| && request[..4] == [1, 0, 0xff, 0xff] && request[5] == 0x28
    ensures U16At(request, 0) == 1 && U16At(request, 2) == 0xffff && U16At(request, 4) as int == 0x2800 + request[4] as int
  {
    assert request[..4][0] == request[0] && request[..4][1] == request[1];
    assert request[..4][2] == request[2] && request[..4][3] == request[3];
  }

  lemma OneNamed(reply: seq<byte>, r: seq<byte>)
    requires reply != [] && |r| == 4 && IsBatch([r], Split(reply[1..], 4), 1, 23)
    requires reply == [0x07] + Flat(Split(reply[1..], 4))
    ensures reply == [0x07] + r
  {
    var taken := Split(reply[1..], 4);
    assert taken == [r];
    FlatFirst(taken);
  }

  /** The search for the value itself, from its own handle on. */
  method AskValue() returns (reply: seq<byte>)
    ensures reply == [0x09, 3, 3, 0, 7]
  {
    var t := Single();
    var request := [3, 0, 3, 0, 0x00, 0x2a];
    assert U16At(request, 0) == 3 && U16At(request, 2) == 3 && U16At(request, 4) == 0x2a00;
    assert HasShortUuid(t[2], 0x2a00);
    reply := ReadByTypeReq(t, 23, 6, request);
    assert reply[4..] == [7] && U16At(reply, 2) == 3;
  }

  /** A server with nothing answers all four requests with an error. */
  method AskNothing() returns (groups: seq<byte>, ranges: seq<byte>, declarations: seq<byte>, types: seq<byte>)
    ensures groups == [0x01, 0x10, 1, 0, 0x0a]
    ensures ranges == [0x01, 0x07, 1, 0, 0x0a]
    ensures declarations == [0x01, 0x08, 1, 0, 0x0a]
    ensures types == [0x01, 0x04, 1, 0, 0x0a]
  {
    hide U16At, Split, Flat;
    var request := [1, 0, 0xff, 0xff, 0x00, 0x28];
    Asked(request);
    groups := ReadByGroupReq([], 23, 6, request);
    ranges := FindByTypeReq([], 23, 6, request);
    request := [1, 0, 0xff, 0xff, 0x03, 0x28];
    Asked(request);
    declarations := ReadByTypeReq([], 23, 6, request);
    ghost var stop;
    types, stop := FindInfoReq([], 23, 4, request);
  }

  lemma SingleEntries(n: nat)
    requires 1 <= n <= 3
    ensures var rs: seq<seq<byte>> := [[1, 0, 0x00, 0x28], [2, 0, 0x03, 0x28], [3, 0, 0x00, 0x2a]];
      InfoEntries(Single(), 0, n) == rs[..n] && InfoFormat(Single(), n - 1) == 1
  {
    hide WellLaid;
    if n > 1 {
      SingleEntries(n - 1);
    }
    var rs: seq<seq<byte>> := [[1, 0, 0x00, 0x28], [2, 0, 0x03, 0x28], [3, 0, 0x00, 0x2a]];
    assert InfoEntry(Single(), n - 1) == rs[n - 1] && rs[..n] == rs[..n - 1] + [rs[n - 1]];
  }

  lemma SingleTypes(stop: nat, format: byte)
    requires InfoTaken(Single(), 0, 3, stop, format, 23)
    ensures stop == 3 && format == 1
    ensures Flat(InfoEntries(Single(), 0, stop)) == [1, 0, 0x00, 0x28, 2, 0, 0x03, 0x28, 3, 0, 0x00, 0x2a]
  {
    hide InfoFormat, Single;
    SingleEntries(1);
    SingleEntries(2);
    SingleEntries(3);
    var rs: seq<seq<byte>> := [[1, 0, 0x00, 0x28], [2, 0, 0x03, 0x28], [3, 0, 0x00, 0x2a]];
    SplitFlat(rs[..stop], 4);
    assert rs[..3][..2] == rs[..2] && rs[..2][..1] == rs[..1];
  }

  method AskTypes() returns (reply: seq<byte>)
    ensures reply == [0x05, 1, 1, 0, 0x00, 0x28, 2, 0, 0x03, 0x28, 3, 0, 0x00, 0x2a]
  {
    hide InfoTaken, Single, WellLaid, Flat, InfoEntries;
    var request := [1, 0, 0xff, 0xff];
    assert U16At(request, 0) == 1 && U16At(request, 2) == 0xffff;
    ghost var stop;
    reply, stop := FindInfoReq(Single(), 23, 4, request);
    SingleTypes(stop, reply[1]);
  }

  method AskGroups() returns (reply: seq<byte>)
    ensures reply == [0x11, 6, 1, 0, 3, 0, 0x00, 0x18]
  {
    hide IsListReply, RecordsIn, Split, Flat, U16At, Single;
    SingleListed();
    var request := [1, 0, 0xff, 0xff, 0x00, 0x28];
    Asked(request);
    reply := ReadByGroupReq(Single(), 23, 6, request);
    OneReplied(reply, 0x11, ErrorPdu(READ_BY_GROUP_REQ, 1, ATTR_NOT_FOUND), [1, 0, 3, 0, 0x00, 0x18], 23);
  }

  method AskDeclarations() returns (reply: seq<byte>)
    ensures reply == [0x09, 7, 2, 0, 2, 3, 0, 0x00, 0x2a]
  {
    hide IsListReply, RecordsIn, Split, Flat, U16At, Single, IsFirstValue;
    SingleListed();
    var request := [1, 0, 0xff, 0xff, 0x03, 0x28];
    Asked(request);
    reply := ReadByTypeReq(Single(), 23, 6, request);
    OneReplied(reply, 0x09, ErrorPdu(READ_BY_TYPE_REQ, 1, ATTR_NOT_FOUND), [2, 0, 2, 3, 0, 0x00, 0x2a], 23);
  }

  method AskRanges() returns (reply: seq<byte>)
    ensures reply == [0x07, 1, 0, 3, 0]
  {
    hide IsBatch, RecordsIn, Split, Flat, U16At, Single;
    SingleListed();
    var request := [1, 0, 0xff, 0xff, 0x00, 0x28, 0x00, 0x18];
    Asked(request);
    assert request[6..8] == [0x00, 0x18];
    reply := FindByTypeReq(Single(), 23, 8, request);
    OneNamed(reply, [1, 0, 3, 0]);
  }
}
