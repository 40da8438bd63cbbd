/**
 A client of the attribute server: the discovery procedures of the Bluetooth Core
 Specification, Vol 3 Part G, sections 4.4.1 and 4.6.1, run against the handlers.
 The client sees the octets of responses as they arrive through the transport.
 */
module AttClient {
  import opened Bytes
  import opened AttributeTable
  import opened AttDiscovery
  import opened AttPaging
  import opened HciAcl

  function ParseServices(rs: seq<seq<byte>>): (ss: seq<ServiceInfo>)
    requires forall k :: 0 <= k < |rs| ==> |rs[k]| == 6 || |rs[k]| == 20
    ensures |ss| == |rs| && forall k :: 0 <= k < |rs| ==> ss[k] == ParseService(rs[k])
  {
    seq(|rs|, k requires 0 <= k < |rs| => ParseService(rs[k]))
  }

  function ParseChars(rs: seq<seq<byte>>): (cs: seq<CharInfo>)
    requires forall k :: 0 <= k < |rs| ==> |rs[k]| == 7 || |rs[k]| == 21
    ensures |cs| == |rs| && forall k :: 0 <= k < |rs| ==> cs[k] == ParseChar(rs[k])
  {
    seq(|rs|, k requires 0 <= k < |rs| => ParseChar(rs[k]))
  }

  lemma RequestReads(start: u16, end: u16, uuid: u16)
    ensures var request := Le16(start) + Le16(end) + Le16(uuid);
      U16At(request, 0) == start && U16At(request, 2) == end && U16At(request, 4) == uuid
  {
  }

  // ---------- responses as they arrive ----------

  datatype Reading = Unusable | End | Records(rs: seq<seq<byte>>)

  /** How a client takes a list response apart: an error ends the list, and otherwise
      there has to be at least one record of the length that octet 1 says. */
  function ReadingOf(arrived: Arrival): Reading {
    if arrived.Nothing? || arrived.octets == [] then Unusable
    else if arrived.octets[0] == ERROR then End
    else if |arrived.octets| < 2 || arrived.octets[1] == 0 then Unusable
    else
      var rs := Split(arrived.octets[2..], arrived.octets[1]);
      if rs == [] then Unusable else Records(rs)
  }

  lemma {:induction false} SplitFront(s: seq<byte>, k: nat, n: nat)
    requires k <= |s| && n > 0
    ensures Split(s[..k], n) <= Split(s, n) && |Split(s[..k], n)| == k / n
  {
    if k >= n {
      assert s[..k][..n] == s[..n] && s[..k][n..] == s[n..][..k - n];
      OneRecordMore(k, n);
      SplitFront(s[n..], k - n, n);
    }
  }

  /** The octets of a list response with records. */
  lemma ListShape(reply: seq<byte>, op: byte, notFound: seq<byte>, all: seq<seq<byte>>, mtu: nat)
    requires IsListReply(reply, op, notFound, all, mtu) && 2 <= mtu && all != [] && all[0] != []
    ensures var size, count := |all[0]|, PageCount(Lengths(all), mtu);
      && |reply| == 2 + size * count && reply[0] == op && reply[1] == size
      && count <= |all| && Split(reply[2..], size) == all[..count]
  {
    hide Split, Flat, PageCount;
    var taken := Split(reply[2..], reply[1]);
    SplitFlat(taken, reply[1]);
    BatchCount(all, taken, mtu);
    assert reply[2..] == Flat(taken);
  }

  /** What a client makes of a list response: the end of the list exactly when nothing
      matches, and otherwise as many of the first records as arrive; when none do, the
      response is useless. */
  lemma ListReading(reply: seq<byte>, op: byte, notFound: seq<byte>, all: seq<seq<byte>>, mtu: nat)
    requires IsListReply(reply, op, notFound, all, mtu) && op != ERROR && 2 <= mtu
    requires |notFound| == 5 && notFound[0] == ERROR && (all != [] ==> all[0] != [])
    ensures ReadingOf(Delivered(reply)) == ReadingFor(all, mtu)
  {
    hide Split, PageCount;
    if all != [] {
      ListShape(reply, op, notFound, all, mtu);
      var n := |reply| % 256;
      if 2 <= n <= 251 {
        assert reply[..n][2..] == reply[2..][..n - 2];
        SplitFront(reply[2..], n - 2, |all[0]|);
      }
    }
  }

  /** The reading of a response to a request for the records `all`. */
  function ReadingFor(all: seq<seq<byte>>, mtu: nat): Reading
    requires 2 <= mtu && (all != [] ==> all[0] != [])
  {
    if all == [] then End
    else
      var n := Arriving(Lengths(all), mtu);
      if n == 0 then Unusable else Records(all[..n])
  }

  // ---------- the procedures ----------

  /** The record lengths of a listing are those that its UUIDs decide. */
  lemma LengthsOfServices(t: seq<Entry>, lo: nat)
    requires |t| < 65535
    ensures Lengths(RecordsIn(t, Services, lo, |t|)) == ServiceSizes(ServicesIn(t, lo, |t|))
    ensures RecordsIn(t, Services, lo, |t|) == [] <==> ServicesIn(t, lo, |t|) == []
  {
    ServiceRecordsRead(t, lo, |t|);
    var rs, ss := RecordsIn(t, Services, lo, |t|), ServicesIn(t, lo, |t|);
    assert forall k :: 0 <= k < |rs| ==> |rs[k]| == 4 + |ParseService(rs[k]).uuid|;
  }

  lemma LengthsOfChars(t: seq<Entry>, lo: nat, hi: nat)
    requires hi <= |t| < 65535
    ensures Lengths(RecordsIn(t, Declarations, lo, hi)) == CharSizes(CharsIn(t, lo, hi))
    ensures RecordsIn(t, Declarations, lo, hi) == [] <==> CharsIn(t, lo, hi) == []
  {
    CharRecordsRead(t, lo, hi);
    var rs, cs := RecordsIn(t, Declarations, lo, hi), CharsIn(t, lo, hi);
    assert forall k :: 0 <= k < |rs| ==> |rs[k]| == 5 + |ParseChar(rs[k]).uuid|;
  }

  /** The services that a client reads from the response to a request for those left. */
  lemma ServicesRead(t: seq<Entry>, lo: nat, mtu: nat)
    requires |t| < 65535 && 2 <= mtu
    ensures var all, left := RecordsIn(t, Services, lo, |t|), ServicesIn(t, lo, |t|);
      && (all != [] ==> all[0] != [])
      && var reading := ReadingFor(all, mtu);
      && (reading.End? <==> left == [])
      && (left != [] ==>
            var n := Arriving(ServiceSizes(left), mtu);
            && (reading.Records? <==> n > 0)
            && (n > 0 ==>
                  && (forall k :: 0 <= k < |reading.rs| ==> |reading.rs[k]| == 6 || |reading.rs[k]| == 20)
                  && ParseServices(reading.rs) == left[..n]))
  {
    hide ServicesIn, RecordsIn, Arriving;
    LengthsOfServices(t, lo);
    ServiceRecordsRead(t, lo, |t|);
  }

  lemma CharsRead(t: seq<Entry>, lo: nat, hi: nat, mtu: nat)
    requires hi <= |t| < 65535 && 2 <= mtu
    ensures var all, left := RecordsIn(t, Declarations, lo, hi), CharsIn(t, lo, hi);
      && (all != [] ==> all[0] != [])
      && var reading := ReadingFor(all, mtu);
      && (reading.End? <==> left == [])
      && (left != [] ==>
            var n := Arriving(CharSizes(left), mtu);
            && (reading.Records? <==> n > 0)
            && (n > 0 ==>
                  && (forall k :: 0 <= k < |reading.rs| ==> |reading.rs[k]| == 7 || |reading.rs[k]| == 21)
                  && ParseChars(reading.rs) == left[..n]))
  {
    hide CharsIn, RecordsIn, Arriving;
    LengthsOfChars(t, lo, hi);
    CharRecordsRead(t, lo, hi);
  }

  method AskServices(table: seq<Entry>, mtu: u16, start: u16) returns (pdu: seq<byte>)
    requires |table| < 65535 && 23 <= mtu && 1 <= start <= |table| + 1
    ensures IsListReply(pdu, READ_BY_GROUP_RESP, ErrorPdu(READ_BY_GROUP_REQ, start, ATTR_NOT_FOUND),
                        RecordsIn(table, Services, start - 1, |table|), mtu)
  {
    hide RecordsIn, IsListReply;
    RequestReads(start, 0xffff, SERVICE);
    pdu := ReadByGroupReq(table, mtu, 6, Le16(start) + Le16(0xffff) + Le16(SERVICE));
  }

  /** One request for services from `start` on: the client gets the first ones of those
      left, as many as arrive. */
  method NextServices(table: seq<Entry>, mtu: u16, start: u16) returns (ok: bool, page: seq<ServiceInfo>)
    requires WellLaid(table) && 23 <= mtu && 1 <= start <= |table| + 1
    ensures var left := ServicesIn(table, start - 1, |table|);
      if left == [] then ok && page == []
      else
        var n := Arriving(ServiceSizes(left), mtu);
        (ok <==> n > 0) && page == left[..n]
  {
    hide ServicesIn, RecordsIn, IsListReply, ReadingOf, Delivered, Arriving, ReadingFor, ServiceSizes, WellLaid;
    Nowhere(table, 0, 0);
    var pdu := AskServices(table, mtu, start);
    var arrived := Transmit(0, pdu);
    ServicesRead(table, start - 1, mtu);
    ListReading(pdu, READ_BY_GROUP_RESP, ErrorPdu(READ_BY_GROUP_REQ, start, ATTR_NOT_FOUND),
      RecordsIn(table, Services, start - 1, |table|), mtu);
    var reading := ReadingOf(arrived);
    ok := !reading.Unusable?;
    page := if reading.Records? then ParseServices(reading.rs) else [];
  }

  /** The services behind a page, and the request that asks for them. */
  lemma ServicesLeft(t: seq<Entry>, lo: nat, n: nat)
    requires WellLaid(t) && lo <= |t| && 0 < n <= |ServicesIn(t, lo, |t|)|
    ensures var left := ServicesIn(t, lo, |t|);
      var end := left[n - 1].end;
      && lo < end <= |t| && ServicesIn(t, end, |t|) == left[n..]
      && ServiceSizes(left)[n..] == ServiceSizes(left[n..])
      && ServicesIn(t, 0, lo) + left[..n] == ServicesIn(t, 0, end)
  {
    ServicesResume(t, lo, |t|, n - 1);
    var end := ServicesIn(t, lo, |t|)[n - 1].end;
    ServicesSplit(t, lo, end, |t|);
    ServicesSplit(t, 0, lo, end);
  }

  /** Discover All Primary Services: ask again from the handle after the last range
      until the server reports that nothing is left. The client gets all services, in
      order, if and only if their records arrive, and the first ones otherwise. */
  method DiscoverServices(table: seq<Entry>, mtu: u16) returns (ok: bool, found: seq<ServiceInfo>)
    requires WellLaid(table) && 23 <= mtu
    ensures ok <==> AllArrive(ServiceSizes(ServicesIn(table, 0, |table|)), mtu)
    ensures ok <==> found == ServicesIn(table, 0, |table|)
    ensures found <= ServicesIn(table, 0, |table|)
    ensures mtu <= 253 ==> ok
  {
    hide ServicesIn, WellLaid, ServiceSizes, Arriving, AllArrive, Positive, RecordSizes;
    if mtu <= 253 {
      ArriveUpTo253(ServiceSizes(ServicesIn(table, 0, |table|)), mtu);
    }
    Nowhere(table, 0, 0);
    found := [];
    var start: u16 := 1;
    ghost var left := ServicesIn(table, 0, |table|);
    while true
      invariant 1 <= start <= |table| + 1
      invariant found == ServicesIn(table, 0, start - 1) && left == ServicesIn(table, start - 1, |table|)
      invariant found + left == ServicesIn(table, 0, |table|)
      invariant AllArrive(ServiceSizes(ServicesIn(table, 0, |table|)), mtu) <==> AllArrive(ServiceSizes(left), mtu)
      decreases |table| + 1 - start
    {
      var page;
      ok, page := NextServices(table, mtu, start);
      AnyArrive(ServiceSizes(left), mtu);
      if page == [] {
        return;
      }
      ServicesLeft(table, start - 1, |page|);
      found, left := found + page, left[|page|..];
      start := page[|page| - 1].end + 1;
    }
  }

  // ---------- services by their UUID ----------

  datatype Range = Range(start: u16, end: u16)

  function RangesOf(ss: seq<ServiceInfo>): (rs: seq<Range>)
    ensures |rs| == |ss| && forall k :: 0 <= k < |ss| ==> rs[k] == Range(ss[k].start, ss[k].end)
  {
    seq(|ss|, k requires 0 <= k < |ss| => Range(ss[k].start, ss[k].end))
  }

  function ParseRanges(rs: seq<seq<byte>>): (ss: seq<Range>)
    requires forall k :: 0 <= k < |rs| ==> |rs[k]| == 4
    ensures |ss| == |rs| && forall k :: 0 <= k < |rs| ==> ss[k] == Range(U16At(rs[k], 0), U16At(rs[k], 2))
  {
    seq(|rs|, k requires 0 <= k < |rs| => Range(U16At(rs[k], 0), U16At(rs[k], 2)))
  }

  /** How a client takes a response with ranges apart. */
  function RangeReading(arrived: Arrival): Reading {
    if arrived.Nothing? || arrived.octets == [] then Unusable
    else if arrived.octets[0] == ERROR then End
    else
      var rs := Split(arrived.octets[1..], 4);
      if rs == [] then Unusable else Records(rs)
  }

  /** The lengths of so many ranges. */
  function RangeSizes(n: nat): (sizes: seq<nat>)
    ensures |sizes| == n && (forall k :: 0 <= k < n ==> sizes[k] == 4) && Positive(sizes)
  {
    seq(n, _ => 4)
  }

  /** One request for the ranges of the services called `uuid` from `start` on. */
  method AskNamed(table: seq<Entry>, mtu: u16, uuid: Uuid, start: u16) returns (pdu: seq<byte>)
    requires |table| < 65535 && 23 <= mtu && 1 <= start <= |table| + 1
    ensures var all := RecordsIn(table, Named(uuid), start - 1, |table|);
      if all == [] then pdu == ErrorPdu(FIND_BY_TYPE_RESP, start, ATTR_NOT_FOUND)
      else
        && pdu != [] && IsBatch(all, Split(pdu[1..], 4), 1, mtu)
        && pdu == [FIND_BY_TYPE_RESP] + Flat(Split(pdu[1..], 4))
  {
    hide RecordsIn, IsBatch, Split, Flat;
    RequestReads(start, 0xffff, SERVICE);
    RequestValue(start, uuid);
    var head := Le16(start) + Le16(0xffff) + Le16(SERVICE);
    pdu := FindByTypeReq(table, mtu, 6 + |uuid|, head + uuid);
  }

  lemma RequestValue(start: u16, uuid: Uuid)
    ensures var request := Le16(start) + Le16(0xffff) + Le16(SERVICE) + uuid;
      && |request| == 6 + |uuid| && request[6..6 + |uuid|] == uuid
      && U16At(request, 0) == start && U16At(request, 2) == 0xffff && U16At(request, 4) == SERVICE
  {
  }

  lemma RangesArriving(count: nat, mtu: nat, length: nat)
    requires 23 <= mtu && 0 < count && length == 1 + 4 * PageCount(RangeSizes(count), mtu, 1)
    ensures Arriving(RangeSizes(count), mtu, 1) == if 1 <= length % 256 <= 251 then (length % 256 - 1) / 4 else 0
  {
    hide PageCount;
  }

  /** The octets of an answer with ranges. */
  lemma RangesShape(pdu: seq<byte>, all: seq<seq<byte>>, mtu: nat)
    requires 23 <= mtu && all != [] && forall k :: 0 <= k < |all| ==> |all[k]| == 4
    requires pdu != [] && IsBatch(all, Split(pdu[1..], 4), 1, mtu)
    requires pdu == [FIND_BY_TYPE_RESP] + Flat(Split(pdu[1..], 4))
    ensures var count := PageCount(RangeSizes(|all|), mtu, 1);
      |pdu| == 1 + 4 * count && pdu[0] == 7 && count <= |all| && Split(pdu[1..], 4) == all[..count]
  {
    hide Split, Flat, PageCount;
    BatchCount(all, Split(pdu[1..], 4), mtu, 1);
    assert Lengths(all) == RangeSizes(|all|);
  }

  /** What a client makes of the answer, after its way through the transport. */
  lemma RangesRead(pdu: seq<byte>, all: seq<seq<byte>>, start: u16, mtu: nat)
    requires 23 <= mtu && forall k :: 0 <= k < |all| ==> |all[k]| == 4
    requires if all == [] then pdu == ErrorPdu(FIND_BY_TYPE_RESP, start, ATTR_NOT_FOUND)
      else
        && pdu != [] && IsBatch(all, Split(pdu[1..], 4), 1, mtu)
        && pdu == [FIND_BY_TYPE_RESP] + Flat(Split(pdu[1..], 4))
    ensures RangeReading(Delivered(pdu)) ==
      if all == [] then End
      else
        var n := Arriving(RangeSizes(|all|), mtu, 1);
        if n == 0 then Unusable else Records(all[..n])
  {
    hide Split, PageCount, IsBatch, Arriving, Flat;
    if all != [] {
      RangesShape(pdu, all, mtu);
      var n := |pdu| % 256;
      RangesArriving(|all|, mtu, |pdu|);
      if 1 <= n <= 251 {
        assert pdu[..n][1..] == pdu[1..][..n - 1];
        SplitFront(pdu[1..], n - 1, 4);
      }
    }
  }

  method NextNamed(table: seq<Entry>, mtu: u16, uuid: Uuid, start: u16) returns (ok: bool, page: seq<Range>)
    requires WellLaid(table) && 23 <= mtu && 1 <= start <= |table| + 1
    ensures var left := NamedOf(ServicesIn(table, start - 1, |table|), uuid);
      if left == [] then ok && page == []
      else
        var n := Arriving(RangeSizes(|left|), mtu, 1);
        (ok <==> n > 0) && page == RangesOf(left[..n])
  {
    hide ServicesIn, RecordsIn, NamedOf, RangeReading, Delivered, Arriving, IsBatch, Split, Flat;
    Nowhere(table, 0, 0);
    RangeRecordsRead(table, uuid, start - 1, |table|);
    var pdu := AskNamed(table, mtu, uuid, start);
    var arrived := Transmit(0, pdu);
    RangesRead(pdu, RecordsIn(table, Named(uuid), start - 1, |table|), start, mtu);
    var reading := RangeReading(arrived);
    ok := !reading.Unusable?;
    page := if reading.Records? then ParseRanges(reading.rs) else [];
  }

  /** The services called `uuid` behind a page of them. */
  lemma NamedLeft(t: seq<Entry>, uuid: Uuid, lo: nat, n: nat)
    requires WellLaid(t) && lo <= |t| && 0 < n <= |NamedOf(ServicesIn(t, lo, |t|), uuid)|
    ensures var left := NamedOf(ServicesIn(t, lo, |t|), uuid);
      lo < left[n - 1].end <= |t| && NamedOf(ServicesIn(t, left[n - 1].end, |t|), uuid) == left[n..]
  {
    hide ServicesIn, NamedOf, WellLaid;
    var ss := ServicesIn(t, lo, |t|);
    var left := NamedOf(ss, uuid);
    var k := NamedAt(ss, uuid, n - 1);
    ServicesLeft(t, lo, k + 1);
    NamedSplit(ss[..k + 1], ss[k + 1..], uuid);
    assert ss == ss[..k + 1] + ss[k + 1..] && left == left[..n] + left[n..];
    assert left == left[..n] + NamedOf(ss[k + 1..], uuid);
  }

  /** Where the `n`-th of the services called `uuid` stands. */
  lemma {:induction false} NamedAt(ss: seq<ServiceInfo>, uuid: seq<byte>, n: nat) returns (k: nat)
    requires n < |NamedOf(ss, uuid)|
    ensures k < |ss| && ss[k] == NamedOf(ss, uuid)[n] && NamedOf(ss[..k + 1], uuid) == NamedOf(ss, uuid)[..n + 1]
  {
    var front := ss[..|ss| - 1];
    if n < |NamedOf(front, uuid)| {
      k := NamedAt(front, uuid, n);
      assert front[..k + 1] == ss[..k + 1];
    } else {
      k := |ss| - 1;
      assert ss[..k + 1] == ss;
    }
  }

  /** Discover Primary Service by UUID: ask again from the handle after the last range
      until the server reports that nothing is left. The client gets the ranges of all
      services with the UUID, in order, and of no others, if and only if they arrive. */
  method DiscoverByUuid(table: seq<Entry>, mtu: u16, uuid: Uuid) returns (ok: bool, found: seq<Range>)
    requires WellLaid(table) && 23 <= mtu
    ensures var all := NamedOf(ServicesIn(table, 0, |table|), uuid);
      && (ok <==> AllArrive(RangeSizes(|all|), mtu, 1)) && (mtu <= 252 ==> ok)
      && (ok <==> found == RangesOf(all)) && found <= RangesOf(all)
  {
    hide ServicesIn, NamedOf, WellLaid, Arriving, AllArrive, Positive, RecordSizes;
    Nowhere(table, 0, 0);
    found := [];
    var start: u16 := 1;
    ghost var all := NamedOf(ServicesIn(table, 0, |table|), uuid);
    if mtu <= 252 {
      RangesArrive(RangeSizes(|all|), mtu);
    }
    while true
      invariant 1 <= start <= |table| + 1 && |found| <= |all| && found == RangesOf(all[..|found|])
      invariant NamedOf(ServicesIn(table, start - 1, |table|), uuid) == all[|found|..]
      invariant AllArrive(RangeSizes(|all|), mtu, 1) <==> AllArrive(RangeSizes(|all| - |found|), mtu, 1)
      decreases |table| + 1 - start
    {
      var page;
      ok, page := NextNamed(table, mtu, uuid, start);
      MoreRangesArrive(|all| - |found|, mtu);
      if page == [] {
        FrontRanges(all, |found|);
        return;
      }
      NamedLeft(table, uuid, start - 1, |page|);
      NextRanges(all, |found|, page);
      found := found + page;
      start := page[|page| - 1].end + 1;
    }
  }

  lemma MoreRangesArrive(count: nat, mtu: nat)
    requires 2 <= mtu
    ensures AllArrive(RangeSizes(count), mtu, 1) <==>
            || count == 0
            || var n := Arriving(RangeSizes(count), mtu, 1); n > 0 && AllArrive(RangeSizes(count - n), mtu, 1)
  {
    AnyArrive(RangeSizes(count), mtu, 1);
    if count > 0 {
      var n := Arriving(RangeSizes(count), mtu, 1);
      assert RangeSizes(count)[n..] == RangeSizes(count - n);
    }
  }

  lemma FrontRanges(all: seq<ServiceInfo>, n: nat)
    requires n <= |all|
    ensures RangesOf(all[..n]) <= RangesOf(all) && |RangesOf(all[..n])| == n
    ensures n == |all| ==> RangesOf(all[..n]) == RangesOf(all)
  {
  }

  lemma NextRanges(all: seq<ServiceInfo>, n: nat, page: seq<Range>)
    requires n + |page| <= |all| && page == RangesOf(all[n..][..|page|])
    ensures RangesOf(all[..n]) + page == RangesOf(all[..n + |page|]) && all[n..][|page|..] == all[n + |page|..]
    ensures page != [] ==> page[|page| - 1].end == all[n..][|page| - 1].end
  {
  }

  lemma Nowhere(t: seq<Entry>, lo: nat, hi: nat)
    requires WellLaid(t) && hi <= lo <= |t|
    ensures |t| < 65535 && ServicesIn(t, lo, hi) == [] && CharsIn(t, lo, hi) == []
  {
  }

  method AskChars(table: seq<Entry>, mtu: u16, start: u16, last: u16) returns (pdu: seq<byte>)
    requires WellLaid(table) && 23 <= mtu && 1 <= start <= Min(last, |table|) + 1
    ensures IsListReply(pdu, READ_BY_TYPE_RESP, ErrorPdu(READ_BY_TYPE_REQ, start, ATTR_NOT_FOUND),
                        RecordsIn(table, Declarations, start - 1, Min(last, |table|)), mtu)
  {
    hide RecordsIn, IsListReply, WellLaid, IsFirstValue;
    RequestReads(start, last, CHARACTERISTIC);
    pdu := ReadByTypeReq(table, mtu, 6, Le16(start) + Le16(last) + Le16(CHARACTERISTIC));
  }

  /** One request for characteristics from `start` to `last`. */
  method NextChars(table: seq<Entry>, mtu: u16, start: u16, last: u16) returns (ok: bool, page: seq<CharInfo>)
    requires WellLaid(table) && 23 <= mtu && 1 <= start <= Min(last, |table|) + 1
    ensures var left := CharsIn(table, start - 1, Min(last, |table|));
      if left == [] then ok && page == []
      else
        var n := Arriving(CharSizes(left), mtu);
        (ok <==> n > 0) && page == left[..n]
  {
    hide CharsIn, RecordsIn, IsListReply, ReadingOf, Delivered, Arriving, ReadingFor, CharSizes, WellLaid;
    Nowhere(table, 0, 0);
    var pdu := AskChars(table, mtu, start, last);
    var arrived := Transmit(0, pdu);
    CharsRead(table, start - 1, Min(last, |table|), mtu);
    ListReading(pdu, READ_BY_TYPE_RESP, ErrorPdu(READ_BY_TYPE_REQ, start, ATTR_NOT_FOUND),
      RecordsIn(table, Declarations, start - 1, Min(last, |table|)), mtu);
    var reading := ReadingOf(arrived);
    ok := !reading.Unusable?;
    page := if reading.Records? then ParseChars(reading.rs) else [];
  }

  lemma CharsLeft(t: seq<Entry>, first: nat, lo: nat, hi: nat, n: nat)
    requires first <= lo <= hi <= |t| < 65535 && 0 < n <= |CharsIn(t, lo, hi)|
    ensures var left := CharsIn(t, lo, hi);
      var last := left[n - 1].declaration;
      && lo < last <= hi && CharsIn(t, last, hi) == left[n..]
      && CharSizes(left)[n..] == CharSizes(left[n..])
      && CharsIn(t, first, lo) + left[..n] == CharsIn(t, first, last)
  {
    CharsResume(t, lo, hi, n - 1);
    var last := CharsIn(t, lo, hi)[n - 1].declaration;
    CharsSplit(t, lo, last, hi);
    CharsSplit(t, first, lo, last);
  }

  /** Discover All Characteristics of a handle range. */
  method DiscoverCharacteristics(table: seq<Entry>, mtu: u16, first: u16, last: u16)
      returns (ok: bool, found: seq<CharInfo>)
    requires WellLaid(table) && 23 <= mtu && 1 <= first <= |table|
    ensures ok <==> AllArrive(CharSizes(CharsIn(table, first - 1, Min(last, |table|))), mtu)
    ensures ok <==> found == CharsIn(table, first - 1, Min(last, |table|))
    ensures found <= CharsIn(table, first - 1, Min(last, |table|))
    ensures mtu <= 253 ==> ok
  {
    hide CharsIn, WellLaid, CharSizes, Arriving, AllArrive, Positive, RecordSizes;
    Nowhere(table, first - 1, Min(last, first - 1));
    Nowhere(table, first - 1, first - 1);
    ghost var hi := Min(last, |table|);
    ghost var all := CharsIn(table, first - 1, hi);
    if mtu <= 253 {
      ArriveUpTo253(CharSizes(all), mtu);
    }
    MoreCharsArrive(all, mtu);
    ok, found := true, [];
    if last < first {
      return;
    }
    var start := first;
    ghost var n := 0;
    while start <= last
      invariant ok && first <= start <= hi + 1 && n == |found| <= |all| && found == all[..n]
      invariant CharsIn(table, start - 1, hi) == all[n..]
      invariant AllArrive(CharSizes(all), mtu) <==> AllArrive(CharSizes(all[n..]), mtu)
      decreases last + 1 - start
    {
      var page;
      ok, page, start := TurnChars(table, mtu, start, last, hi, all, n);
      if page == [] {
        return;
      }
      found, n := found + page, n + |page|;
    }
    Nowhere(table, start - 1, hi);
    MoreCharsArrive(all[n..], mtu);
  }

  /** One turn: a page behind the first `n`, and where the next request starts. */
  method TurnChars(table: seq<Entry>, mtu: u16, start: u16, last: u16, ghost hi: nat,
                   ghost all: seq<CharInfo>, ghost n: nat)
      returns (ok: bool, page: seq<CharInfo>, next: u16)
    requires WellLaid(table) && 23 <= mtu && 1 <= start <= hi + 1 && hi == Min(last, |table|)
    requires n <= |all| && CharsIn(table, start - 1, hi) == all[n..]
    ensures start <= next <= hi + 1 && n + |page| <= |all| && all[..n] + page == all[..n + |page|]
    ensures CharsIn(table, next - 1, hi) == all[n + |page|..]
    ensures if page == [] then next == start && (ok <==> n == |all|) else ok && start < next
    ensures AllArrive(CharSizes(all[n..]), mtu) <==> ok && (page == [] || AllArrive(CharSizes(all[n + |page|..]), mtu))
  {
    hide CharsIn, WellLaid, CharSizes, Arriving, AllArrive, Positive, RecordSizes;
    Nowhere(table, 0, 0);
    ok, page := NextChars(table, mtu, start, last);
    MoreCharsArrive(all[n..], mtu);
    NextPage(all, n, page);
    next := start;
    if page != [] {
      CharsLeft(table, start - 1, start - 1, hi, |page|);
      next := page[|page| - 1].declaration + 1;
    }
  }

  lemma MoreCharsArrive(left: seq<CharInfo>, mtu: nat)
    requires 2 <= mtu
    ensures AllArrive(CharSizes(left), mtu) <==>
            left == [] || var n := Arriving(CharSizes(left), mtu); n > 0 && AllArrive(CharSizes(left[n..]), mtu)
  {
    AnyArrive(CharSizes(left), mtu);
    if left != [] {
      var n := Arriving(CharSizes(left), mtu);
      assert CharSizes(left)[n..] == CharSizes(left[n..]);
    }
  }

  /** A page behind the first `n`. */
  lemma NextPage<T>(all: seq<T>, n: nat, page: seq<T>)
    requires n + |page| <= |all| && page == all[n..][..|page|]
    ensures all[..n] + page == all[..n + |page|] && all[n..][|page|..] == all[n + |page|..]
    ensures page != [] ==> page[|page| - 1] == all[n..][|page| - 1] == all[n + |page| - 1]
  {
  }

  // ---------- above an MTU of 253 ----------

  /** 42 services with short UUIDs, and one with a long UUID behind them. */
  function ManyServices(): (t: seq<Entry>)
    ensures |t| == 43 && WellLaid(t)
    ensures forall i :: 0 <= i < 43 ==> t[i] == Service(i + 1, i + 1, ManyUuid(i, 42))
  {
    var t := seq(43, i requires 0 <= i < 43 => Service(i + 1, i + 1, ManyUuid(i, 42)));
    assert forall i :: 0 <= i < 43 ==> SlotWellLaid(t, i);
    t
  }

  function ManyUuid(i: nat, short: nat): Uuid {
    if i < short then [0, 24] else seq(16, _ => 0)
  }

  /** A service with 36 characteristics with short UUIDs, and one with a long UUID. */
  function ManyChars(): (t: seq<Entry>)
    ensures |t| == 75 && t[0] == Service(1, 75, [0, 24])
    ensures forall i :: 1 <= i < 75 ==> t[i] == ManyChar((i - 1) / 2)
  {
    [Service(1, 75, [0, 24])] + seq(74, i requires 0 <= i < 74 => ManyChar(i / 2))
  }

  function ManyChar(k: nat): Entry
    requires k < 37
  {
    Characteristic(2 * k + 2, 2, ManyUuid(k, 36), [], 0)
  }

  lemma ManyCharsLaid()
    ensures WellLaid(ManyChars())
  {
    hide ManyChars, ManyUuid;
    var t := ManyChars();
    forall i | 0 <= i < 75 ensures SlotWellLaid(t, i) {
      if i > 0 {
        ManyCharLaid((i - 1) / 2, i);
      }
    }
  }

  lemma ManyCharLaid(k: nat, i: nat)
    requires k < 37 && (i == 2 * k + 1 || i == 2 * k + 2)
    ensures SlotWellLaid(ManyChars(), i)
  {
    hide ManyChars, ManyUuid;
    var t := ManyChars();
    assert (2 * k + 1 - 1) / 2 == k && (2 * k + 2 - 1) / 2 == k;
    assert t[2 * k + 1] == ManyChar(k) && t[2 * k + 2] == ManyChar(k);
  }

  lemma {:induction false} ManyServicesListed(k: nat)
    requires k <= 43
    ensures var ss := ServicesIn(ManyServices(), 0, k);
      |ss| == k && forall i :: 0 <= i < k ==> ss[i].uuid == ManyUuid(i, 42)
  {
    if k > 0 {
      ManyServicesListed(k - 1);
    }
  }

  lemma {:induction false} ManyCharsListed(k: nat)
    requires k <= 37
    ensures var cs := CharsIn(ManyChars(), 0, 2 * k + 1);
      |cs| == k && forall i :: 0 <= i < k ==> cs[i].uuid == ManyUuid(i, 36)
  {
    hide ManyChars, ManyUuid, WellLaid, CharsIn;
    CharsNext(ManyChars(), if k > 0 then 2 * k else 0);
    if k > 0 {
      ManyCharsListed(k - 1);
      var t := ManyChars();
      CharsNext(t, 2 * k - 1);
      assert t[2 * k - 1] == t[2 * k] == ManyChar(k - 1);
      assert IsDeclaration(t, 2 * k - 1) && !IsDeclaration(t, 2 * k);
    }
  }

  lemma CharsNext(t: seq<Entry>, n: nat)
    requires n < |t| < 65535
    ensures CharsIn(t, 0, 0) == []
    ensures CharsIn(t, 0, n + 1) ==
      CharsIn(t, 0, n) + if IsDeclaration(t, n) then [CharInfo(n + 1, t[n].properties, n + 2, t[n].uuid)] else []
  {
  }

  /** The first response for either table has 254 octets, for every MTU that has room for
      them, and never arrives: 253 is the largest MTU up to which all tables are discovered. */
  method DiscoveryCutShort(mtu: u16) returns (services: bool, chars: bool)
    requires 254 <= mtu
    ensures !services && !chars
  {
    hide ServicesIn, CharsIn, AllArrive;
    ManyServicesListed(43);
    NoneOf254(ServiceSizes(ServicesIn(ManyServices(), 0, 43)), 42, mtu);
    var found;
    services, found := DiscoverServices(ManyServices(), mtu);
    ManyCharsListed(37);
    ManyCharsLaid();
    NoneOf254(CharSizes(CharsIn(ManyChars(), 0, 75)), 36, mtu);
    var own;
    chars, own := DiscoverCharacteristics(ManyChars(), mtu, 1, 75);
  }
}
