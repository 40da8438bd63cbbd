/**
 A client that asks for the handles and types of all attributes of a range (Bluetooth Core
 Specification, Vol 3 Part G, section 4.7.1), by way of Find Information.
 */
module AttInformation {
  import opened Bytes
  import opened AttributeTable
  import opened AttDiscovery
  import opened AttPaging
  import opened HciAcl
  import opened AttClient

  /** No service or characteristic of the slots has a UUID of 16 octets. */
  ghost predicate AllPlain(t: seq<Entry>, lo: nat, hi: nat)
    requires hi <= |t|
  {
    forall i :: lo <= i < hi ==> ShortOrDescriptor(t, i)
  }

  lemma {:induction false} HandlesAt(t: seq<Entry>, lo: nat, hi: nat, k: nat)
    requires lo + k < hi <= |t| < 65535
    ensures HandlesAndTypes(t, lo, hi)[k] == Le16(lo + k + 1) + AttributeType(t, lo + k)
  {
    if lo + k < hi - 1 {
      HandlesAt(t, lo, hi - 1, k);
    }
  }

  /** The list splits after any of its slots. */
  lemma HandlesSplit(t: seq<Entry>, lo: nat, mid: nat, hi: nat)
    requires lo <= mid <= hi <= |t| < 65535
    ensures HandlesAndTypes(t, lo, hi)[..mid - lo] == HandlesAndTypes(t, lo, mid)
    ensures HandlesAndTypes(t, lo, hi)[mid - lo..] == HandlesAndTypes(t, mid, hi)
  {
    hide HandlesAndTypes;
    var all, front, rest := HandlesAndTypes(t, lo, hi), HandlesAndTypes(t, lo, mid), HandlesAndTypes(t, mid, hi);
    forall k | 0 <= k < |front| ensures front[k] == all[k] {
      HandlesAt(t, lo, mid, k);
      HandlesAt(t, lo, hi, k);
    }
    forall k | 0 <= k < |rest| ensures rest[k] == all[mid - lo + k] {
      HandlesAt(t, mid, hi, k);
      HandlesAt(t, lo, hi, mid - lo + k);
    }
  }

  lemma RecordSize(t: seq<Entry>, lo: nat, hi: nat, k: nat)
    requires lo + k < hi <= |t| < 65535 && AllPlain(t, lo, hi)
    ensures |HandlesAndTypes(t, lo, hi)[k]| == if InfoFormat(t, lo + k) == 1 then 4 else 18
    ensures U16At(HandlesAndTypes(t, lo, hi)[k], 0) == lo + k + 1
  {
    HandlesAt(t, lo, hi, k);
    EntryRight(t, lo + k);
  }

  lemma SizesPlain(t: seq<Entry>, lo: nat, hi: nat)
    requires lo <= hi <= |t| < 65535 && AllPlain(t, lo, hi)
    ensures RecordSizes(Lengths(HandlesAndTypes(t, lo, hi))) && Positive(Lengths(HandlesAndTypes(t, lo, hi)))
  {
    hide HandlesAndTypes, InfoFormat;
    forall k | 0 <= k < hi - lo ensures |HandlesAndTypes(t, lo, hi)[k]| in {4, 18} {
      RecordSize(t, lo, hi, k);
    }
  }

  /** What the server takes into one response is the longest batch of the records. */
  lemma InfoBatch(t: seq<Entry>, lo: nat, hi: nat, stop: nat, format: byte, mtu: nat)
    requires lo < hi <= |t| < 65535 && AllPlain(t, lo, hi) && InfoTaken(t, lo, hi, stop, format, mtu)
    requires 2 + |Flat(InfoEntries(t, lo, stop))| <= mtu
    ensures var all, taken := HandlesAndTypes(t, lo, hi), HandlesAndTypes(t, lo, stop);
      && InfoEntries(t, lo, stop) == taken && |taken| == stop - lo
      && IsBatch(all, taken, 2, mtu) && |all[0]| == if format == 1 then 4 else 18
  {
    hide HandlesAndTypes, InfoEntries, InfoFormat, Flat;
    var all, taken := HandlesAndTypes(t, lo, hi), HandlesAndTypes(t, lo, stop);
    EntriesRight(t, lo, stop, format);
    HandlesSplit(t, lo, stop, hi);
    forall k | 0 <= k < hi - lo
      ensures |all[k]| == if InfoFormat(t, lo + k) == 1 then 4 else 18
    {
      RecordSize(t, lo, hi, k);
    }
    assert InfoFormat(t, lo) == format;
    if stop < hi {
      assert InfoFormat(t, lo + (stop - lo)) == InfoFormat(t, stop);
    }
  }

  /** How a client takes a response apart: the format in octet 1 says how long its
      records are. */
  function TypeReading(arrived: Arrival): Reading {
    if arrived.Nothing? || arrived.octets == [] then Unusable
    else if arrived.octets[0] == ERROR then End
    else if |arrived.octets| < 2 then Unusable
    else
      var rs := InfoRecords(arrived.octets[2..], arrived.octets[1]);
      if rs == [] then Unusable else Records(rs)
  }

  lemma InfoArrives(pdu: seq<byte>, all: seq<seq<byte>>, taken: seq<seq<byte>>, format: byte, mtu: nat)
    requires 23 <= mtu && IsBatch(all, taken, 2, mtu) && pdu == [FIND_INFO_RESP, format] + Flat(taken)
    requires |all[0]| == if format == 1 then 4 else 18
    ensures var n := Arriving(Lengths(all), mtu);
      TypeReading(Delivered(pdu)) == if n == 0 then Unusable else Records(all[..n])
  {
    hide Split, Flat, PageCount;
    var size, n := |all[0]|, |pdu| % 256;
    BatchCount(all, taken, mtu);
    SplitFlat(taken, size);
    assert pdu[2..] == Flat(taken);
    if 2 <= n <= 251 {
      assert pdu[..n][2..] == pdu[2..][..n - 2];
      SplitFront(pdu[2..], n - 2, size);
    }
  }

  /** What the server answers to a request for the slots `lo` up to `hi`. */
  ghost predicate TypesReply(t: seq<Entry>, lo: nat, hi: nat, stop: nat, mtu: nat, pdu: seq<byte>)
    requires lo <= |t| < 65535 && hi <= |t|
  {
    if hi <= lo then pdu == ErrorPdu(FIND_INFO_REQ, lo + 1, ATTR_NOT_FOUND)
    else
      && 2 <= |pdu| <= mtu && InfoTaken(t, lo, hi, stop, pdu[1], mtu)
      && pdu == [FIND_INFO_RESP, pdu[1]] + Flat(InfoEntries(t, lo, stop))
  }

  method AskTypes(table: seq<Entry>, mtu: u16, start: u16, last: u16) returns (pdu: seq<byte>, ghost stop: nat)
    requires WellLaid(table) && 23 <= mtu && 1 <= start <= Min(last, |table|) + 1
    ensures TypesReply(table, start - 1, Min(last, |table|), stop, mtu, pdu)
  {
    hide Flat, InfoEntries, InfoTaken;
    RangeReads(start, last);
    pdu, stop := FindInfoReq(table, mtu, 4, Le16(start) + Le16(last));
  }

  /** What a client makes of the answer. */
  lemma TypesRead(t: seq<Entry>, lo: nat, hi: nat, stop: nat, mtu: nat, pdu: seq<byte>)
    requires lo <= hi <= |t| < 65535 && AllPlain(t, lo, hi) && 23 <= mtu && TypesReply(t, lo, hi, stop, mtu, pdu)
    ensures var left := HandlesAndTypes(t, lo, hi);
      && (left == [] <==> lo == hi)
      && (left != [] ==> |left[0]| > 0)
      && TypeReading(Delivered(pdu)) ==
           if left == [] then End
           else
             var n := Arriving(Lengths(left), mtu);
             if n == 0 then Unusable else Records(left[..n])
  {
    hide HandlesAndTypes, TypeReading, Delivered, Arriving, IsBatch, Flat, InfoEntries;
    if lo < hi {
      assert |pdu| == 2 + |Flat(InfoEntries(t, lo, stop))|;
      InfoBatch(t, lo, hi, stop, pdu[1], mtu);
      InfoArrives(pdu, HandlesAndTypes(t, lo, hi), HandlesAndTypes(t, lo, stop), pdu[1], mtu);
    } else {
      ErrorEnds(FIND_INFO_REQ, lo + 1, ATTR_NOT_FOUND);
    }
  }

  /** What a client should learn of an attribute. */
  datatype TypeInfo = TypeInfo(handle: u16, attributeType: seq<byte>)

  /** The attributes in the slots `lo` up to `hi`. */
  function TypesIn(t: seq<Entry>, lo: nat, hi: nat): (ts: seq<TypeInfo>)
    requires lo <= hi <= |t| < 65535
    ensures |ts| == hi - lo
  {
    seq(hi - lo, k requires 0 <= k < hi - lo => TypeInfo(lo + k + 1, AttributeType(t, lo + k)))
  }

  function ParseType(r: seq<byte>): TypeInfo
    requires 2 <= |r|
  {
    TypeInfo(U16At(r, 0), r[2..])
  }

  function ParseTypes(rs: seq<seq<byte>>): (ts: seq<TypeInfo>)
    requires forall k :: 0 <= k < |rs| ==> 2 <= |rs[k]|
    ensures |ts| == |rs| && forall k :: 0 <= k < |rs| ==> ts[k] == ParseType(rs[k])
  {
    seq(|rs|, k requires 0 <= k < |rs| => ParseType(rs[k]))
  }

  /** The record lengths of a list of attributes. */
  function TypeSizes(ts: seq<TypeInfo>): (sizes: seq<nat>)
    ensures |sizes| == |ts| && (forall k :: 0 <= k < |ts| ==> sizes[k] == 2 + |ts[k].attributeType|)
    ensures Positive(sizes)
  {
    seq(|ts|, k requires 0 <= k < |ts| => 2 + |ts[k].attributeType|)
  }

  /** The records of a range, read one by one, are its attributes. */
  lemma RecordsRead(t: seq<Entry>, lo: nat, hi: nat)
    requires lo <= hi <= |t| < 65535
    ensures var rs, ts := HandlesAndTypes(t, lo, hi), TypesIn(t, lo, hi);
      && |rs| == |ts| && Lengths(rs) == TypeSizes(ts)
      && forall k :: 0 <= k < |rs| ==> 2 <= |rs[k]| && ParseType(rs[k]) == ts[k]
  {
    hide HandlesAndTypes, AttributeType;
    var rs, ts := HandlesAndTypes(t, lo, hi), TypesIn(t, lo, hi);
    forall k | 0 <= k < |rs| ensures 2 <= |rs[k]| && ParseType(rs[k]) == ts[k] && |rs[k]| == 2 + |ts[k].attributeType| {
      HandlesAt(t, lo, hi, k);
      assert rs[k][2..] == AttributeType(t, lo + k);
    }
  }

  /** One request for the handles and types from `start` to `last`. */
  method NextTypes(table: seq<Entry>, mtu: u16, start: u16, last: u16) returns (ok: bool, page: seq<TypeInfo>)
    requires WellLaid(table) && 23 <= mtu && 1 <= start <= Min(last, |table|) + 1
    requires AllPlain(table, start - 1, Min(last, |table|))
    ensures var left := TypesIn(table, start - 1, Min(last, |table|));
      if left == [] then ok && page == []
      else
        var n := Arriving(TypeSizes(left), mtu);
        (ok <==> n > 0) && page == left[..n]
  {
    hide HandlesAndTypes, TypeReading, Delivered, Arriving, TypesReply, WellLaid, AllPlain, Lengths, TypeSizes,
         ParseType, TypesIn;
    Nowhere(table, 0, 0);
    RecordsRead(table, start - 1, Min(last, |table|));
    var pdu;
    ghost var stop;
    pdu, stop := AskTypes(table, mtu, start, last);
    TypesRead(table, start - 1, Min(last, |table|), stop, mtu, pdu);
    var arrived := Transmit(0, pdu);
    var reading := TypeReading(arrived);
    ok := !reading.Unusable?;
    page := if reading.Records? then ParseTypes(reading.rs) else [];
  }

  lemma RangeReads(start: u16, last: u16)
    ensures var request := Le16(start) + Le16(last); U16At(request, 0) == start && U16At(request, 2) == last
  {
  }

  lemma ErrorEnds(opcode: byte, handle: u16, code: byte)
    ensures TypeReading(Delivered(ErrorPdu(opcode, handle, code))) == End
  {
  }

  /** The attributes from some slot on, and the handle of the one before it. */
  lemma TypesLeft(t: seq<Entry>, lo: nat, mid: nat, hi: nat)
    requires lo <= mid <= hi <= |t| < 65535
    ensures var all := TypesIn(t, lo, hi);
      && TypesIn(t, mid, hi) == all[mid - lo..] && (AllPlain(t, lo, hi) ==> AllPlain(t, mid, hi))
      && (mid > lo ==> all[mid - lo - 1].handle == mid)
  {
  }

  /** All arrive if and only if some do and all behind them. */
  lemma MoreArrive(left: seq<TypeInfo>, mtu: nat)
    requires 2 <= mtu
    ensures AllArrive(TypeSizes(left), mtu) <==>
            left == [] || var n := Arriving(TypeSizes(left), mtu); n > 0 && AllArrive(TypeSizes(left[n..]), mtu)
  {
    AnyArrive(TypeSizes(left), mtu);
    if left != [] {
      var n := Arriving(TypeSizes(left), mtu);
      assert TypeSizes(left)[n..] == TypeSizes(left[n..]);
    }
  }

  lemma SizesFit(t: seq<Entry>, lo: nat, hi: nat)
    requires lo <= hi <= |t| < 65535 && AllPlain(t, lo, hi)
    ensures RecordSizes(TypeSizes(TypesIn(t, lo, hi)))
  {
    SizesPlain(t, lo, hi);
    RecordsRead(t, lo, hi);
  }

  /** Ask again from the handle after the last one until the server reports that nothing is
      left. In a range without long service and characteristic UUIDs the client gets the
      handle and the type of every attribute, in order, if and only if the records arrive. */
  method DiscoverTypes(table: seq<Entry>, mtu: u16, first: u16, last: u16) returns (ok: bool, found: seq<TypeInfo>)
    requires WellLaid(table) && 23 <= mtu && 1 <= first <= Min(last, |table|)
    requires AllPlain(table, first - 1, Min(last, |table|))
    ensures var all := TypesIn(table, first - 1, Min(last, |table|));
      && (ok <==> AllArrive(TypeSizes(all), mtu)) && (mtu <= 253 ==> ok)
      && (ok <==> found == all) && found <= all
  {
    hide TypesIn, WellLaid, Arriving, AllArrive, Positive, RecordSizes, TypeSizes, AllPlain;
    Nowhere(table, 0, 0);
    ghost var hi := Min(last, |table|);
    ghost var all := TypesIn(table, first - 1, hi);
    if mtu <= 253 {
      SizesFit(table, first - 1, hi);
      ArriveUpTo253(TypeSizes(all), mtu);
    }
    ok, found := true, [];
    var start := first;
    ghost var n := 0;
    while start <= last
      invariant ok && first <= start <= hi + 1 && n == |found| <= |all| && found == all[..n]
      invariant AllPlain(table, start - 1, hi) && TypesIn(table, start - 1, hi) == all[n..]
      invariant AllArrive(TypeSizes(all), mtu) <==> AllArrive(TypeSizes(all[n..]), mtu)
      decreases last + 1 - start
    {
      var page;
      ok, page, start := TurnTypes(table, mtu, start, last, hi, all, n);
      if page == [] {
        return;
      }
      found, n := found + page, n + |page|;
    }
    MoreArrive(all[n..], mtu);
  }

  /** One turn: a page behind the first `n`, and where the next request starts. */
  method TurnTypes(table: seq<Entry>, mtu: u16, start: u16, last: u16, ghost hi: nat,
                   ghost all: seq<TypeInfo>, ghost n: nat)
      returns (ok: bool, page: seq<TypeInfo>, next: u16)
    requires WellLaid(table) && 23 <= mtu && 1 <= start <= hi + 1 && hi == Min(last, |table|) && |table| < 65535
    requires AllPlain(table, start - 1, hi) && n <= |all| && TypesIn(table, start - 1, hi) == all[n..]
    ensures start <= next <= hi + 1 && n + |page| <= |all| && all[..n] + page == all[..n + |page|]
    ensures AllPlain(table, next - 1, hi) && TypesIn(table, next - 1, hi) == all[n + |page|..]
    ensures if page == [] then next == start && (ok <==> n == |all|) else ok && start < next
    ensures AllArrive(TypeSizes(all[n..]), mtu) <==> ok && (page == [] || AllArrive(TypeSizes(all[n + |page|..]), mtu))
  {
    hide TypesIn, WellLaid, Arriving, AllArrive, Positive, RecordSizes, TypeSizes, AllPlain;
    ok, page := NextTypes(table, mtu, start, last);
    MoreArrive(all[n..], mtu);
    NextPage(all, n, page);
    next := start;
    if page != [] {
      TypesLeft(table, start - 1, start - 1 + |page|, hi);
      next := page[|page| - 1].handle + 1;
    }
  }
}
