/**
 The attribute table as a value: one entry per slot, slot `i` answering for
 handle `i + 1`. A characteristic fills two slots, its declaration and its value.
 This module says what a well laid out table is, which services and
 characteristics it declares, and what a maximal batch of list records is.
 */
module AttributeTable {
  import opened Bytes

  type Uuid = s: seq<byte> | |s| == 2 || |s| == 16 witness [0, 0]

  datatype Entry =
    | Service(start: u16, end: u16, uuid: Uuid)
    | Characteristic(handle: u16, properties: byte, uuid: Uuid, value: seq<byte>, valueSize: nat)
    | Descriptor(handle: u16, uuid: Uuid, value: seq<byte>)

  /** Each service starts at its own slot and runs to the next service or to the
      end of the table; each characteristic fills the slots of its handle and of
      the handle after it; each descriptor has the handle of its slot. */
  ghost predicate SlotWellLaid(t: seq<Entry>, i: nat)
    requires i < |t|
  {
    match t[i]
    case Service(start, end, _) =>
      && start == i + 1 <= end <= |t|
      && (forall j :: i < j < end ==> !t[j].Service?)
      && (end < |t| ==> t[end].Service?)
    case Characteristic(handle, _, _, value, valueSize) =>
      && 1 <= handle < |t|
      && (i == handle - 1 || i == handle)
      && t[handle - 1] == t[handle] == t[i]
      && |value| <= valueSize <= 512
    case Descriptor(handle, _, value) => handle == i + 1 && |value| <= 512
  }

  ghost predicate WellLaid(t: seq<Entry>) {
    && |t| < 65535
    && (t != [] ==> t[0].Service?)
    && (forall i {:trigger SlotWellLaid(t, i)} :: 0 <= i < |t| ==> SlotWellLaid(t, i))
  }

  ghost predicate InRangeOf(t: seq<Entry>, i: nat, handle: int) {
    i < |t| && t[i].Service? && t[i].start <= handle <= t[i].end
  }

  /** Service ranges are disjoint and cover the table: every handle belongs to
      exactly one of them. */
  lemma {:induction false} HandleInOneService(t: seq<Entry>, handle: nat) returns (i: nat)
    requires WellLaid(t) && 1 <= handle <= |t|
    ensures InRangeOf(t, i, handle)
    ensures forall k :: InRangeOf(t, k, handle) ==> k == i
  {
    i := handle - 1;
    while !t[i].Service?
      invariant i < handle
      invariant forall j :: i < j < handle ==> !t[j].Service?
      decreases i
    {
      assert SlotWellLaid(t, i);
      i := i - 1;
    }
    assert SlotWellLaid(t, i);
    forall k | InRangeOf(t, k, handle)
      ensures k == i
    {
      assert SlotWellLaid(t, k);
    }
  }

  // ---------- what the table declares ----------

  datatype ServiceInfo = ServiceInfo(start: u16, end: u16, uuid: Uuid)

  datatype CharInfo = CharInfo(declaration: u16, properties: byte, valueHandle: u16, uuid: Uuid)

  predicate IsDeclaration(t: seq<Entry>, i: nat)
    requires i < |t|
  {
    t[i].Characteristic? && t[i].handle == i + 1
  }

  /** The services declared in slots `lo` up to `hi`, in slot order. */
  function ServicesIn(t: seq<Entry>, lo: nat, hi: nat): seq<ServiceInfo>
    requires hi <= |t|
  {
    if hi <= lo then []
    else
      ServicesIn(t, lo, hi - 1) +
      (if t[hi - 1].Service? then [ServiceInfo(t[hi - 1].start, t[hi - 1].end, t[hi - 1].uuid)] else [])
  }

  /** The characteristics whose declaration lies in slots `lo` up to `hi`. */
  function CharsIn(t: seq<Entry>, lo: nat, hi: nat): seq<CharInfo>
    requires hi <= |t| < 65535
  {
    if hi <= lo then []
    else
      CharsIn(t, lo, hi - 1) +
      (if IsDeclaration(t, hi - 1) then [CharInfo(hi, t[hi - 1].properties, hi + 1, t[hi - 1].uuid)] else [])
  }

  lemma {:induction false} ServicesSplit(t: seq<Entry>, lo: nat, mid: nat, hi: nat)
    requires lo <= mid <= hi <= |t|
    ensures ServicesIn(t, lo, hi) == ServicesIn(t, lo, mid) + ServicesIn(t, mid, hi)
  {
    if mid < hi {
      ServicesSplit(t, lo, mid, hi - 1);
    }
  }

  lemma {:induction false} CharsSplit(t: seq<Entry>, lo: nat, mid: nat, hi: nat)
    requires lo <= mid <= hi <= |t| < 65535
    ensures CharsIn(t, lo, hi) == CharsIn(t, lo, mid) + CharsIn(t, mid, hi)
  {
    if mid < hi {
      CharsSplit(t, lo, mid, hi - 1);
    }
  }

  /** `ServicesIn` lists each service slot of the range once, in ascending order,
      and nothing else. */
  lemma {:induction false} ServicesExactlyOnce(t: seq<Entry>, lo: nat, hi: nat)
    requires WellLaid(t) && hi <= |t|
    ensures forall k :: 0 <= k < |ServicesIn(t, lo, hi)| ==>
      var s := ServicesIn(t, lo, hi)[k];
      lo < s.start <= hi && t[s.start - 1] == Service(s.start, s.end, s.uuid)
    ensures forall k, l :: 0 <= k < l < |ServicesIn(t, lo, hi)| ==>
      ServicesIn(t, lo, hi)[k].start < ServicesIn(t, lo, hi)[l].start
    ensures forall i :: lo <= i < hi && t[i].Service? ==>
      ServiceInfo(t[i].start, t[i].end, t[i].uuid) in ServicesIn(t, lo, hi)
  {
    if lo < hi {
      ServicesExactlyOnce(t, lo, hi - 1);
      assert SlotWellLaid(t, hi - 1);
    }
  }

  lemma {:induction false} CharsExactlyOnce(t: seq<Entry>, lo: nat, hi: nat)
    requires hi <= |t| < 65535
    ensures forall k :: 0 <= k < |CharsIn(t, lo, hi)| ==>
      var c := CharsIn(t, lo, hi)[k];
      && lo < c.declaration <= hi && IsDeclaration(t, c.declaration - 1)
      && c.valueHandle == c.declaration + 1
      && c.properties == t[c.declaration - 1].properties && c.uuid == t[c.declaration - 1].uuid
    ensures forall k, l :: 0 <= k < l < |CharsIn(t, lo, hi)| ==>
      CharsIn(t, lo, hi)[k].declaration < CharsIn(t, lo, hi)[l].declaration
  {
    if lo < hi {
      CharsExactlyOnce(t, lo, hi - 1);
    }
  }

  lemma {:induction false} CharsAllFound(t: seq<Entry>, lo: nat, hi: nat, i: nat)
    requires hi <= |t| < 65535 && lo <= i < hi && IsDeclaration(t, i)
    ensures CharInfo(i + 1, t[i].properties, i + 2, t[i].uuid) in CharsIn(t, lo, hi)
  {
    if i < hi - 1 {
      CharsAllFound(t, lo, hi - 1, i);
    }
  }

  /** Resuming a search after the range of the `k`-th service found skips no
      service and repeats none. */
  lemma {:induction false} ServicesResume(t: seq<Entry>, lo: nat, hi: nat, k: nat)
    requires WellLaid(t) && hi <= |t| && k < |ServicesIn(t, lo, hi)|
    requires hi == |t| || t[hi].Service?
    ensures var end := ServicesIn(t, lo, hi)[k].end;
      lo < end <= hi && ServicesIn(t, lo, end) == ServicesIn(t, lo, hi)[..k + 1]
    decreases hi
  {
    var all := ServicesIn(t, lo, hi);
    var last := LastService(t, lo, hi);
    assert SlotWellLaid(t, last);
    assert t[last].end == hi;
    if k + 1 == |all| {
      assert all[..k + 1] == all;
    } else {
      ServicesResume(t, lo, last, k);
      assert all[..k + 1] == ServicesIn(t, lo, last)[..k + 1];
    }
  }

  lemma {:induction false} LastService(t: seq<Entry>, lo: nat, hi: nat) returns (last: nat)
    requires WellLaid(t) && hi <= |t| && ServicesIn(t, lo, hi) != []
    ensures lo <= last < hi && t[last].Service?
    ensures forall j :: last < j < hi ==> !t[j].Service?
    ensures ServicesIn(t, lo, hi) ==
      ServicesIn(t, lo, last) + [ServiceInfo(t[last].start, t[last].end, t[last].uuid)]
  {
    if t[hi - 1].Service? {
      last := hi - 1;
    } else {
      last := LastService(t, lo, hi - 1);
    }
  }

  /** Resuming after the `k`-th declaration found skips none and repeats none. */
  lemma {:induction false} CharsResume(t: seq<Entry>, lo: nat, hi: nat, k: nat)
    requires hi <= |t| < 65535 && k < |CharsIn(t, lo, hi)|
    ensures var declaration := CharsIn(t, lo, hi)[k].declaration;
      lo < declaration <= hi && CharsIn(t, lo, declaration) == CharsIn(t, lo, hi)[..k + 1]
  {
    var all := CharsIn(t, lo, hi);
    if k < |CharsIn(t, lo, hi - 1)| {
      CharsResume(t, lo, hi - 1, k);
      assert all[..k + 1] == CharsIn(t, lo, hi - 1)[..k + 1];
    } else {
      assert all[..k + 1] == all;
    }
  }

  // ---------- list records ----------

  /** The lists a client can ask for: the primary services of a range, the secondary
      services (this server has none), the characteristic declarations, and the
      services with a given UUID. */
  datatype Listing = Services | SecondaryServices | Declarations | Named(uuid: seq<byte>)

  function ServiceRecord(start: u16, end: u16, uuid: Uuid): (r: seq<byte>)
    ensures |r| == 4 + |uuid|
  {
    Le16(start) + Le16(end) + uuid
  }

  function RangeRecord(start: u16, end: u16): (r: seq<byte>)
    ensures |r| == 4
  {
    Le16(start) + Le16(end)
  }

  function CharRecord(handle: u16, properties: byte, uuid: Uuid): (r: seq<byte>)
    requires handle < 65535
    ensures |r| == 5 + |uuid|
  {
    Le16(handle) + [properties] + Le16(handle + 1) + uuid
  }

  /** The record that slot `i` contributes to a listing; empty when it has none. */
  function RecordAt(t: seq<Entry>, what: Listing, i: nat): seq<byte>
    requires i < |t| < 65535
  {
    var e := t[i];
    match what
    case Services => if e.Service? then ServiceRecord(e.start, e.end, e.uuid) else []
    case SecondaryServices => []
    case Declarations =>
      if IsDeclaration(t, i) then CharRecord(i + 1, e.properties, e.uuid) else []
    case Named(uuid) => if e.Service? && e.uuid == uuid then RangeRecord(e.start, e.end) else []
  }

  /** The records of all slots, empty ones included. */
  function SlotRecords(t: seq<Entry>, what: Listing): (rs: seq<seq<byte>>)
    requires |t| < 65535
    ensures |rs| == |t|
    ensures forall i :: 0 <= i < |t| ==> rs[i] == RecordAt(t, what, i)
  {
    seq(|t|, i requires 0 <= i < |t| => RecordAt(t, what, i))
  }

  /** The nonempty ones among the records `lo` up to `hi`. */
  function Kept(rs: seq<seq<byte>>, lo: nat, hi: nat): seq<seq<byte>>
    requires hi <= |rs|
  {
    if hi <= lo then []
    else if rs[hi - 1] == [] then Kept(rs, lo, hi - 1)
    else Kept(rs, lo, hi - 1) + [rs[hi - 1]]
  }

  function RecordsIn(t: seq<Entry>, what: Listing, lo: nat, hi: nat): seq<seq<byte>>
    requires hi <= |t| < 65535
  {
    Kept(SlotRecords(t, what), lo, hi)
  }

  lemma {:induction false} KeptGrows(rs: seq<seq<byte>>, lo: nat, mid: nat, hi: nat)
    requires lo <= mid <= hi <= |rs|
    ensures Kept(rs, lo, mid) <= Kept(rs, lo, hi)
  {
    if mid < hi {
      KeptGrows(rs, lo, mid, hi - 1);
    }
  }

  /** One slot further, the records kept grow by the record of that slot. */
  lemma KeptNext(rs: seq<seq<byte>>, lo: nat, i: nat, hi: nat)
    requires lo <= i < hi <= |rs|
    ensures rs[i] == [] ==> Kept(rs, lo, i + 1) == Kept(rs, lo, i)
    ensures rs[i] != [] ==> Kept(rs, lo, i + 1) == Kept(rs, lo, i) + [rs[i]] <= Kept(rs, lo, hi)
  {
    KeptGrows(rs, lo, i + 1, hi);
  }

  /** `taken` is the longest beginning of `all` whose records have one length and
      fit, after `header` octets, into `mtu` octets. */
  ghost predicate IsBatch(all: seq<seq<byte>>, taken: seq<seq<byte>>, header: nat, mtu: nat) {
    && 0 < |taken| <= |all|
    && taken == all[..|taken|]
    && AllOfLength(taken, |taken[0]|)
    && header + |Flat(taken)| <= mtu
    && (|taken| < |all| ==>
          || |all[|taken|]| != |taken[0]|
          || header + |Flat(taken)| + |taken[0]| > mtu)
  }

  /** A client's reading of one record. */
  function ParseService(r: seq<byte>): ServiceInfo
    requires |r| == 6 || |r| == 20
  {
    ServiceInfo(U16At(r, 0), U16At(r, 2), r[4..])
  }

  function ParseChar(r: seq<byte>): CharInfo
    requires |r| == 7 || |r| == 21
  {
    CharInfo(U16At(r, 0), r[2], U16At(r, 3), r[5..])
  }

  /** The records of a service listing, read one by one, are the services. */
  lemma {:induction false} ServiceRecordsRead(t: seq<Entry>, lo: nat, hi: nat)
    requires hi <= |t| < 65535
    ensures |RecordsIn(t, Services, lo, hi)| == |ServicesIn(t, lo, hi)|
    ensures forall k :: 0 <= k < |ServicesIn(t, lo, hi)| ==>
      var r := RecordsIn(t, Services, lo, hi)[k];
      (|r| == 6 || |r| == 20) && ParseService(r) == ServicesIn(t, lo, hi)[k]
  {
    if lo < hi {
      ServiceRecordsRead(t, lo, hi - 1);
      if t[hi - 1].Service? {
        assert RecordAt(t, Services, hi - 1)[4..] == t[hi - 1].uuid;
      }
    }
  }

  /** The services with a given UUID among some services. */
  function NamedOf(ss: seq<ServiceInfo>, uuid: seq<byte>): seq<ServiceInfo> {
    if ss == [] then []
    else
      var front, last := NamedOf(ss[..|ss| - 1], uuid), ss[|ss| - 1];
      if last.uuid == uuid then front + [last] else front
  }

  lemma {:induction false} NamedExactly(ss: seq<ServiceInfo>, uuid: seq<byte>, s: ServiceInfo)
    ensures s in NamedOf(ss, uuid) <==> s in ss && s.uuid == uuid
  {
    if ss != [] {
      NamedExactly(ss[..|ss| - 1], uuid, s);
    }
  }

  lemma {:induction false} NamedSplit(a: seq<ServiceInfo>, b: seq<ServiceInfo>, uuid: seq<byte>)
    ensures NamedOf(a + b, uuid) == NamedOf(a, uuid) + NamedOf(b, uuid)
  {
    if b == [] {
      assert a + b == a;
    } else {
      NamedSplit(a, b[..|b| - 1], uuid);
      assert (a + b)[..|a + b| - 1] == a + b[..|b| - 1];
    }
  }

  lemma RecordsNext(t: seq<Entry>, what: Listing, lo: nat, hi: nat)
    requires lo < hi <= |t| < 65535
    ensures var before, r := RecordsIn(t, what, lo, hi - 1), RecordAt(t, what, hi - 1);
      RecordsIn(t, what, lo, hi) == if r == [] then before else before + [r]
  {
  }

  lemma ServicesNext(t: seq<Entry>, lo: nat, hi: nat)
    requires lo < hi <= |t|
    ensures var before, e := ServicesIn(t, lo, hi - 1), t[hi - 1];
      ServicesIn(t, lo, hi) == if e.Service? then before + [ServiceInfo(e.start, e.end, e.uuid)] else before
  {
  }

  lemma NamedNext(ss: seq<ServiceInfo>, s: ServiceInfo, uuid: seq<byte>)
    ensures NamedOf(ss + [s], uuid) == if s.uuid == uuid then NamedOf(ss, uuid) + [s] else NamedOf(ss, uuid)
  {
    assert (ss + [s])[..|ss|] == ss;
  }

  lemma NoneListed(t: seq<Entry>, what: Listing, lo: nat, hi: nat)
    requires hi <= |t| < 65535 && hi <= lo
    ensures RecordsIn(t, what, lo, hi) == [] && ServicesIn(t, lo, hi) == []
  {
  }

  lemma NoneNamed(uuid: seq<byte>)
    ensures NamedOf([], uuid) == []
  {
  }

  lemma RangeRead(start: u16, end: u16)
    ensures U16At(RangeRecord(start, end), 0) == start && U16At(RangeRecord(start, end), 2) == end
  {
  }

  /** The ranges of the services with a given UUID, read one by one, are just theirs, in
      order. */
  lemma {:induction false} RangeRecordsRead(t: seq<Entry>, uuid: seq<byte>, lo: nat, hi: nat)
    requires hi <= |t| < 65535
    ensures var rs, ss := RecordsIn(t, Named(uuid), lo, hi), NamedOf(ServicesIn(t, lo, hi), uuid);
      && |rs| == |ss|
      && forall k :: 0 <= k < |rs| ==>
        |rs[k]| == 4 && U16At(rs[k], 0) == ss[k].start && U16At(rs[k], 2) == ss[k].end
  {
    hide NamedOf, RangeRecord, Le16, U16At, RecordsIn, ServicesIn;
    if lo < hi {
      RangeRecordsRead(t, uuid, lo, hi - 1);
      RecordsNext(t, Named(uuid), lo, hi);
      ServicesNext(t, lo, hi);
      if t[hi - 1].Service? {
        var s := ServiceInfo(t[hi - 1].start, t[hi - 1].end, t[hi - 1].uuid);
        NamedNext(ServicesIn(t, lo, hi - 1), s, uuid);
        RangeRead(s.start, s.end);
      }
    } else {
      NoneNamed(uuid);
      NoneListed(t, Named(uuid), lo, hi);
    }
  }

  /** This server lists no secondary services. */
  lemma {:induction false} NoSecondary(t: seq<Entry>, lo: nat, hi: nat)
    requires hi <= |t| < 65535
    ensures RecordsIn(t, SecondaryServices, lo, hi) == []
  {
    if lo < hi {
      NoSecondary(t, lo, hi - 1);
    }
  }

  lemma {:induction false} CharRecordsRead(t: seq<Entry>, lo: nat, hi: nat)
    requires hi <= |t| < 65535
    ensures |RecordsIn(t, Declarations, lo, hi)| == |CharsIn(t, lo, hi)|
    ensures forall k :: 0 <= k < |CharsIn(t, lo, hi)| ==>
      var r := RecordsIn(t, Declarations, lo, hi)[k];
      (|r| == 7 || |r| == 21) && ParseChar(r) == CharsIn(t, lo, hi)[k]
  {
    if lo < hi {
      CharRecordsRead(t, lo, hi - 1);
      if IsDeclaration(t, hi - 1) {
        assert RecordAt(t, Declarations, hi - 1)[5..] == t[hi - 1].uuid;
      }
    }
  }

  /** An entry after the characteristic declared at `handle` got the value `v`. */
  function Rewritten(e: Entry, handle: u16, v: seq<byte>): Entry {
    match e
    case Characteristic(h, properties, uuid, _, valueSize) =>
      if h == handle then Characteristic(h, properties, uuid, v, valueSize) else e
    case _ => e
  }

  function WithValue(t: seq<Entry>, handle: u16, v: seq<byte>): (u: seq<Entry>)
    ensures |u| == |t|
    ensures forall i :: 0 <= i < |t| ==> u[i] == Rewritten(t[i], handle, v)
  {
    seq(|t|, i requires 0 <= i < |t| => Rewritten(t[i], handle, v))
  }
}
