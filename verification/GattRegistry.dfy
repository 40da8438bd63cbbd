/**
 From registration to discovery: what the services handed to `addService` list, and
 that a client discovers just that from the table they build.
 */
module GattRegistry {
  import opened Bytes
  import opened AttributeTable
  import opened Gatt
  import opened AttPaging
  import AttClient

  // ---------- what slots list ----------

  ghost function SlotServices(ss: seq<Slot>, n: nat): seq<ServiceInfo>
    requires n <= |ss|
  {
    if n == 0 then []
    else
      var Slot(attribute, first, last) := ss[n - 1];
      SlotServices(ss, n - 1) + if attribute.Svc? then [ServiceInfo(first, last, attribute.service.uuid)] else []
  }

  ghost function SlotChars(ss: seq<Slot>, n: nat): seq<CharInfo>
    requires n <= |ss| < 65535
  {
    if n == 0 then []
    else
      var Slot(attribute, first, _) := ss[n - 1];
      SlotChars(ss, n - 1) +
      if attribute.Chr? && first == n then
        [CharInfo(n, attribute.characteristic.properties, n + 1, attribute.characteristic.uuid)]
      else []
  }

  lemma {:induction false} SlotsShown(attributes: seq<Attribute>, objects: set<object>, n: nat)
    requires Holds(attributes, objects) && n <= |attributes| < 65535
    ensures ServicesIn(ShownOf(attributes, objects), 0, n) == SlotServices(SlotsOf(attributes, objects), n)
    ensures CharsIn(ShownOf(attributes, objects), 0, n) == SlotChars(SlotsOf(attributes, objects), n)
  {
    if n > 0 {
      SlotsShown(attributes, objects, n - 1);
      assert SlotsOf(attributes, objects)[n - 1] == attributes[n - 1].Slotted();
      assert ShownOf(attributes, objects)[n - 1] == attributes[n - 1].Shown();
    }
  }

  lemma {:induction false} SlotsPrefix(ss: seq<Slot>, more: seq<Slot>, n: nat)
    requires n <= |ss| && |ss + more| < 65535
    ensures SlotServices(ss + more, n) == SlotServices(ss, n) && SlotChars(ss + more, n) == SlotChars(ss, n)
  {
    if n > 0 {
      SlotsPrefix(ss, more, n - 1);
    }
  }

  // ---------- what a service lists ----------

  /** The characteristics of a service whose first one is registered when `n` slots
      are taken. */
  ghost function CharsListed(cs: seq<LocalCharacteristic>, n: nat): seq<CharInfo>
    requires n + SlotCount(cs) < 65535
  {
    if cs == [] then []
    else
      var front, c := cs[..|cs| - 1], cs[|cs| - 1];
      var declaration := n + SlotCount(front) + 1;
      CharsListed(front, n) + [CharInfo(declaration, c.properties, declaration + 1, c.uuid)]
  }

  lemma CharSlotsBehind(ss: seq<Slot>, c: LocalCharacteristic)
    requires |ss| + 2 + |c.descriptors| < 65535
    ensures var all := ss + CharSlots(c, |ss|);
      && all[|ss|] == all[|ss| + 1] == Slot(Chr(c), |ss| + 1, |ss| + 2)
      && forall i :: |ss| + 2 <= i < |all| ==> all[i].attribute.Dsc?
  {
  }

  lemma {:induction false} CharAdds(ss: seq<Slot>, c: LocalCharacteristic, j: nat)
    requires |ss| + 2 + |c.descriptors| < 65535 && j <= |c.descriptors|
    ensures var all := ss + CharSlots(c, |ss|);
      && SlotServices(all, |ss| + 2 + j) == SlotServices(ss, |ss|)
      && SlotChars(all, |ss| + 2 + j) == SlotChars(ss, |ss|) + [CharInfo(|ss| + 1, c.properties, |ss| + 2, c.uuid)]
  {
    hide CharSlots;
    CharSlotsBehind(ss, c);
    if j > 0 {
      CharAdds(ss, c, j - 1);
    } else {
      SlotsPrefix(ss, CharSlots(c, |ss|), |ss|);
    }
  }

  lemma {:induction false} CharsAdd(ss: seq<Slot>, cs: seq<LocalCharacteristic>)
    requires |ss| + SlotCount(cs) < 65535
    ensures var all := ss + CharsSlots(cs, |ss|);
      && SlotServices(all, |all|) == SlotServices(ss, |ss|)
      && SlotChars(all, |all|) == SlotChars(ss, |ss|) + CharsListed(cs, |ss|)
  {
    hide SlotServices, SlotChars, CharSlots;
    if cs == [] {
      assert ss + CharsSlots(cs, |ss|) == ss;
    } else {
      var front, c := cs[..|cs| - 1], cs[|cs| - 1];
      CharsAdd(ss, front);
      var before := ss + CharsSlots(front, |ss|);
      CharAdds(before, c, |c.descriptors|);
      Associative(ss, CharsSlots(front, |ss|), CharSlots(c, |before|));
    }
  }

  lemma ServiceSlotAdds(ss: seq<Slot>, s: LocalService, last: u16)
    requires |ss| + 1 < 65535
    ensures var all := ss + [Slot(Svc(s), |ss| + 1, last)];
      && SlotServices(all, |all|) == SlotServices(ss, |ss|) + [ServiceInfo(|ss| + 1, last, s.uuid)]
      && SlotChars(all, |all|) == SlotChars(ss, |ss|)
  {
    SlotsPrefix(ss, [Slot(Svc(s), |ss| + 1, last)], |ss|);
  }

  /** A service more: one entry more in the list of services, and its characteristics
      behind the earlier ones. */
  lemma ServiceAdds(ss: seq<Slot>, s: LocalService)
    requires |ss| + 1 + SlotCount(s.characteristics) < 65535
    ensures var n, count := |ss|, SlotCount(s.characteristics);
      var all := ss + ServiceSlots(s, n);
      && |all| == n + 1 + count
      && SlotServices(all, |all|) == SlotServices(ss, n) + [ServiceInfo(n + 1, n + 1 + count, s.uuid)]
      && SlotChars(all, |all|) == SlotChars(ss, n) + CharsListed(s.characteristics, n + 1)
  {
    hide CharsSlots, CharsListed, SlotCount, SlotServices, SlotChars;
    var n, count := |ss|, SlotCount(s.characteristics);
    var own := [Slot(Svc(s), n + 1, n + 1 + count)];
    ServiceSlotAdds(ss, s, n + 1 + count);
    CharsAdd(ss + own, s.characteristics);
    Associative(ss, own, CharsSlots(s.characteristics, n + 1));
  }

  // ---------- a run of registrations ----------

  ghost function Objects(s: LocalService): set<object> {
    {s} + CharsObjects(s.characteristics)
  }

  /** The slots that a list of services takes. */
  function Taken(services: seq<LocalService>): nat {
    if services == [] then 0
    else Taken(services[..|services| - 1]) + 1 + SlotCount(services[|services| - 1].characteristics)
  }

  ghost function AllSlots(services: seq<LocalService>): (ss: seq<Slot>)
    requires Taken(services) < 65535
    ensures |ss| == Taken(services)
  {
    if services == [] then []
    else
      var front := services[..|services| - 1];
      AllSlots(front) + ServiceSlots(services[|services| - 1], Taken(front))
  }

  ghost function AllServices(services: seq<LocalService>): (infos: seq<ServiceInfo>)
    requires Taken(services) < 65535
    ensures |infos| == |services|
  {
    if services == [] then []
    else
      var front, s := services[..|services| - 1], services[|services| - 1];
      AllServices(front) + [ServiceInfo(Taken(front) + 1, Taken(services), s.uuid)]
  }

  ghost function AllChars(services: seq<LocalService>): seq<CharInfo>
    requires Taken(services) < 65535
  {
    if services == [] then []
    else
      var front, s := services[..|services| - 1], services[|services| - 1];
      AllChars(front) + CharsListed(s.characteristics, Taken(front) + 1)
  }

  lemma NothingListed(ss: seq<Slot>)
    requires |ss| < 65535
    ensures SlotServices(ss, 0) == [] && SlotChars(ss, 0) == []
  {
  }

  lemma {:induction false} AllListed(services: seq<LocalService>)
    requires Taken(services) < 65535
    ensures SlotServices(AllSlots(services), Taken(services)) == AllServices(services)
    ensures SlotChars(AllSlots(services), Taken(services)) == AllChars(services)
  {
    hide ServiceSlots, CharsListed, SlotCount, SlotServices, SlotChars;
    if services == [] {
      NothingListed([]);
    } else {
      var front := services[..|services| - 1];
      AllListed(front);
      ServiceAdds(AllSlots(front), services[|services| - 1]);
    }
  }

  lemma {:induction false} TakenGrows(services: seq<LocalService>, k: nat)
    requires k <= |services|
    ensures Taken(services[..k]) <= Taken(services)
    ensures k < |services| ==>
      Taken(services[..k + 1]) == Taken(services[..k]) + 1 + SlotCount(services[k].characteristics) <= Taken(services)
    decreases |services|
  {
    if k == |services| {
      assert services[..k] == services;
    } else {
      var front := services[..|services| - 1];
      if k < |front| {
        TakenGrows(front, k);
        assert front[..k + 1] == services[..k + 1] && front[..k] == services[..k];
      } else {
        assert services[..k + 1] == services && services[..k + 1][..k] == services[..k];
      }
    }
  }

  /** The slots of the first `k` services come first. */
  lemma {:induction false} SlotsOfFirst(services: seq<LocalService>, k: nat)
    requires k <= |services| && Taken(services) < 65535
    ensures Taken(services[..k]) <= Taken(services)
    ensures AllSlots(services[..k]) <= AllSlots(services)
    decreases |services|
  {
    hide ServiceSlots, SlotCount;
    if k == |services| {
      assert services[..k] == services;
    } else {
      var front := services[..|services| - 1];
      SlotsOfFirst(front, k);
      assert front[..k] == services[..k];
    }
  }

  /** Service `k` starts after the slots of the services before it. */
  lemma {:induction false} ServiceAt(services: seq<LocalService>, k: nat)
    requires k < |services| && Taken(services) < 65535
    ensures Taken(services[..k]) < Taken(services[..k + 1]) <= Taken(services)
    ensures AllServices(services)[k] ==
      ServiceInfo(Taken(services[..k]) + 1, Taken(services[..k + 1]), services[k].uuid)
    decreases |services|
  {
    TakenGrows(services, k);
    var front := services[..|services| - 1];
    if k < |front| {
      ServiceAt(front, k);
      assert front[..k + 1] == services[..k + 1] && front[..k] == services[..k];
    } else {
      assert services[..k + 1] == services && services[..k] == front;
    }
  }

  /** The services share no objects, and each is made up of objects of its own. */
  ghost predicate Apart(table: Table, services: seq<LocalService>) {
    && (forall i, j :: 0 <= i < j < |services| ==> Objects(services[i]) !! Objects(services[j]))
    && (forall i :: 0 <= i < |services| ==> ObjectsApart(services[i].characteristics) && table !in Objects(services[i]))
  }

  /** A service that holds proper values and is not registered yet. */
  ghost predicate Waits(table: Table, s: LocalService)
    reads table`Repr, s.characteristics
  {
    CharsFit(s.characteristics) && Objects(s) !! table.Repr
  }

  /** The table holds these services and nothing else. */
  ghost predicate Lists(table: Table, services: seq<LocalService>)
    requires Taken(services) < 65535
    reads table, table.Repr
  {
    table.Valid() && SlotsOf(table.attributes, table.Repr) == AllSlots(services)
  }

  lemma {:induction false} CharInObjects(cs: seq<LocalCharacteristic>, c: LocalCharacteristic)
    requires c in cs
    ensures c in CharsObjects(cs)
  {
    if c != cs[|cs| - 1] {
      CharInObjects(cs[..|cs| - 1], c);
    }
  }

  /** A call of `addService` in a run: the other services go on waiting. */
  method RegisterNext(table: Table, services: seq<LocalService>, k: nat)
    requires k < |services| && Apart(table, services) && Taken(services) < 65535
    requires Taken(services[..k]) < 65535 && Lists(table, services[..k])
    requires forall i :: k <= i < |services| ==> Waits(table, services[i])
    modifies table, services[k], CharsObjects(services[k].characteristics)
    ensures table.Repr == old(table.Repr) + Objects(services[k])
    ensures Taken(services[..k + 1]) < 65535 && Lists(table, services[..k + 1])
    ensures forall i :: k + 1 <= i < |services| ==> Waits(table, services[i])
  {
    hide Holds, Placed, BuffersApart, SlotsOf, ServiceSlots, ObjectsApart, CharsObjects, SlotCount;
    TakenGrows(services, k);
    assert services[..k + 1][..k] == services[..k];
    table.Small();
    assert Objects(services[k]) !! table.Repr && table !in Objects(services[k]);
    forall i, c | k < i < |services| && c in services[i].characteristics
      ensures c as object != table && c as object != services[k] && c !in CharsObjects(services[k].characteristics)
    {
      CharInObjects(services[i].characteristics, c);
      assert c in Objects(services[i]) && Objects(services[i]) !! Objects(services[k]);
    }
    table.AddService(services[k]);
  }

  /** Any sequence of `addService` calls. */
  method RegisterAll(table: Table, services: seq<LocalService>, ghost objects: set<object>)
    requires table.Valid() && table.attributes == [] && table.Repr == {}
    requires Apart(table, services) && Taken(services) < 65535
    requires forall i :: 0 <= i < |services| ==> Waits(table, services[i]) && Objects(services[i]) <= objects
    modifies table, objects
    ensures Lists(table, services)
  {
    hide Waits, Objects, Apart;
    for k := 0 to |services|
      invariant Taken(services[..k]) < 65535 && Lists(table, services[..k])
      invariant table.Repr <= objects
      invariant forall i :: k <= i < |services| ==> Waits(table, services[i])
    {
      ObjectsHas(services[k]);
      RegisterNext(table, services, k);
    }
    assert services[..|services|] == services;
  }

  lemma ObjectsHas(s: LocalService)
    ensures s in Objects(s) && CharsObjects(s.characteristics) <= Objects(s)
  {
  }

  // ---------- and their discovery ----------

  /** What the table shows of the first `k` services. */
  lemma FirstShown(table: Table, services: seq<LocalService>, k: nat)
    requires Taken(services) < 65535 && Lists(table, services) && k <= |services|
    ensures table.Valid() && WellLaid(table.Shown())
    ensures Taken(services[..k]) <= Taken(services) == |table.Shown()| < 65535
    ensures ServicesIn(table.Shown(), 0, Taken(services[..k])) == AllServices(services[..k])
    ensures CharsIn(table.Shown(), 0, Taken(services[..k])) == AllChars(services[..k])
  {
    hide ServicesIn, CharsIn, AllSlots, AllServices, AllChars, SlotServices, SlotChars, Placed, SlotCount;
    SlotsOfFirst(services, k);
    var first, all := AllSlots(services[..k]), AllSlots(services);
    table.Small();
    SlotsShown(table.attributes, table.Repr, Taken(services[..k]));
    SlotsPrefix(first, all[|first|..], |first|);
    assert first + all[|first|..] == all;
    AllListed(services[..k]);
  }

  /** What service `k` lists. */
  ghost predicate OwnList(services: seq<LocalService>, k: nat, chars: seq<CharInfo>)
    requires k < |services|
  {
    && Taken(services[..k]) + 1 + SlotCount(services[k].characteristics) < 65535
    && chars == CharsListed(services[k].characteristics, Taken(services[..k]) + 1)
  }

  /** The record lengths of the services and of their characteristics. */
  function ServiceLengths(services: seq<LocalService>): (sizes: seq<nat>)
    ensures RecordSizes(sizes)
  {
    seq(|services|, i requires 0 <= i < |services| => 4 + |services[i].uuid|)
  }

  function CharLengths(cs: seq<LocalCharacteristic>): (sizes: seq<nat>)
    ensures RecordSizes(sizes)
  {
    seq(|cs|, i requires 0 <= i < |cs| => 5 + |cs[i].uuid|)
  }

  /** Whether the responses for these services, and for the characteristics of each of
      them, arrive; the lengths of the UUIDs and the MTU decide it. */
  predicate Discoverable(services: seq<LocalService>, mtu: nat)
    requires 2 <= mtu
  {
    AllArrive(ServiceLengths(services), mtu) &&
    forall k :: 0 <= k < |services| ==> AllArrive(CharLengths(services[k].characteristics), mtu)
  }

  lemma DiscoverableUpTo253(services: seq<LocalService>, mtu: nat)
    requires 23 <= mtu <= 253
    ensures Discoverable(services, mtu)
  {
    ArriveUpTo253(ServiceLengths(services), mtu);
    forall k | 0 <= k < |services| ensures AllArrive(CharLengths(services[k].characteristics), mtu) {
      ArriveUpTo253(CharLengths(services[k].characteristics), mtu);
    }
  }

  /** Lists whose records have at most 249 octets arrive whatever the MTU. */
  lemma FewDiscoverable(services: seq<LocalService>, mtu: nat)
    requires 23 <= mtu && Total(ServiceLengths(services)) <= 249
    requires forall k :: 0 <= k < |services| ==> Total(CharLengths(services[k].characteristics)) <= 249
    ensures Discoverable(services, mtu)
  {
    FewArrive(ServiceLengths(services), mtu);
    forall k | 0 <= k < |services| ensures AllArrive(CharLengths(services[k].characteristics), mtu) {
      FewArrive(CharLengths(services[k].characteristics), mtu);
    }
  }

  lemma SizesOfServices(services: seq<LocalService>)
    requires Taken(services) < 65535
    ensures ServiceSizes(AllServices(services)) == ServiceLengths(services)
  {
    hide AllServices, Taken;
    forall k | 0 <= k < |services| ensures AllServices(services)[k].uuid == services[k].uuid {
      ServiceAt(services, k);
    }
  }

  lemma {:induction false} SizesOfChars(cs: seq<LocalCharacteristic>, n: nat)
    requires n + SlotCount(cs) < 65535
    ensures CharSizes(CharsListed(cs, n)) == CharLengths(cs)
  {
    if cs != [] {
      SizesOfChars(cs[..|cs| - 1], n);
    }
  }

  method DiscoverOwn(table: Table, mtu: u16, info: ServiceInfo, ghost services: seq<LocalService>, ghost k: nat)
      returns (ok: bool, own: seq<CharInfo>)
    requires Taken(services) < 65535 && Lists(table, services) && k < |services| && 23 <= mtu
    requires info == AllServices(services)[k]
    ensures ok <==> AllArrive(CharLengths(services[k].characteristics), mtu)
    ensures ok ==> OwnList(services, k, own)
  {
    hide Table.Valid, Table.Shown, CharsIn, AllServices, Lists, WellLaid, CharsListed, Taken, SlotCount;
    hide AllArrive, CharLengths, CharSizes;
    FirstShown(table, services, k);
    ServiceAt(services, k);
    OwnChars(table, services, k);
    SizesOfChars(services[k].characteristics, Taken(services[..k]) + 1);
    ok, own := AttClient.DiscoverCharacteristics(table.Shown(), mtu, info.start, info.end);
  }

  /** Discovery by a client that knows nothing of the table. */
  method Discover(table: Table, mtu: u16, ghost services: seq<LocalService>)
      returns (ok: bool, found: seq<ServiceInfo>, chars: seq<seq<CharInfo>>)
    requires Taken(services) < 65535 && Lists(table, services) && 23 <= mtu
    ensures ok <==> Discoverable(services, mtu)
    ensures ok <==> found == AllServices(services) && |chars| == |services|
    ensures found <= AllServices(services) && |chars| <= |services|
    ensures forall k :: 0 <= k < |chars| ==> OwnList(services, k, chars[k])
  {
    hide Table.Valid, Table.Shown, ServicesIn, CharsIn, AllServices, AllChars, Lists, WellLaid, OwnList, Taken;
    hide AllArrive, ServiceSizes, ServiceLengths, CharLengths;
    chars := [];
    FirstShown(table, services, |services|);
    assert services[..|services|] == services;
    SizesOfServices(services);
    ok, found := AttClient.DiscoverServices(table.Shown(), mtu);
    if !ok {
      return;
    }
    for k := 0 to |found|
      invariant ok && |chars| == k && Lists(table, services)
      invariant forall i :: 0 <= i < k ==> OwnList(services, i, chars[i])
      invariant forall i :: 0 <= i < k ==> AllArrive(CharLengths(services[i].characteristics), mtu)
    {
      var own;
      ok, own := DiscoverOwn(table, mtu, found[k], services, k);
      if !ok {
        return;
      }
      chars := chars + [own];
    }
  }

  /** Registration, then discovery, for any services and every MTU: if and only if their
      records arrive, which up to an MTU of 253 they always do, the client finds every
      service, in order, with its range and its UUID, and in each of those ranges the
      characteristics of that service and no others. Otherwise it finds the first ones. */
  method RegisterThenDiscover(table: Table, services: seq<LocalService>, ghost objects: set<object>, mtu: u16)
      returns (ok: bool, found: seq<ServiceInfo>, chars: seq<seq<CharInfo>>)
    requires table.Valid() && table.attributes == [] && table.Repr == {} && 23 <= mtu
    requires Apart(table, services) && Taken(services) < 65535
    requires forall i :: 0 <= i < |services| ==> Waits(table, services[i]) && Objects(services[i]) <= objects
    modifies table, objects
    ensures (ok <==> Discoverable(services, mtu)) && (mtu <= 253 ==> ok)
    ensures ok <==> found == AllServices(services) && |chars| == |services|
    ensures found <= AllServices(services) && |chars| <= |services|
    ensures forall k :: 0 <= k < |chars| ==> OwnList(services, k, chars[k])
  {
    hide Waits, Objects, Apart, Table.Valid, Lists, AllServices, OwnList, Discoverable;
    if mtu <= 253 {
      DiscoverableUpTo253(services, mtu);
    }
    RegisterAll(table, services, objects);
    ok, found, chars := Discover(table, mtu, services);
  }

  lemma CharsOfNext(services: seq<LocalService>, k: nat)
    requires k < |services| && Taken(services) < 65535
    ensures Taken(services[..k]) + 1 + SlotCount(services[k].characteristics) == Taken(services[..k + 1]) < 65535
    ensures AllChars(services[..k + 1]) ==
      AllChars(services[..k]) + CharsListed(services[k].characteristics, Taken(services[..k]) + 1)
  {
    hide CharsListed, SlotCount, Taken, AllChars;
    TakenGrows(services, k);
    AllCharsNext(services[..k], services[k]);
    assert services[..k + 1] == services[..k] + [services[k]];
  }

  lemma AllCharsNext(front: seq<LocalService>, s: LocalService)
    requires Taken(front) + 1 + SlotCount(s.characteristics) < 65535
    ensures Taken(front + [s]) == Taken(front) + 1 + SlotCount(s.characteristics)
    ensures AllChars(front + [s]) == AllChars(front) + CharsListed(s.characteristics, Taken(front) + 1)
  {
    hide CharsListed, SlotCount;
    assert (front + [s])[..|front|] == front;
  }

  lemma OwnChars(table: Table, services: seq<LocalService>, k: nat)
    requires Taken(services) < 65535 && Lists(table, services) && k < |services|
    ensures Taken(services[..k + 1]) == Taken(services[..k]) + 1 + SlotCount(services[k].characteristics)
    ensures Taken(services[..k + 1]) <= Taken(services)
    ensures |table.Shown()| == Taken(services)
    ensures CharsIn(table.Shown(), Taken(services[..k]), Taken(services[..k + 1])) ==
      CharsListed(services[k].characteristics, Taken(services[..k]) + 1)
  {
    hide ServicesIn, CharsIn, AllServices, AllChars, CharsListed, Lists, Table.Valid, Table.Shown, SlotCount, Taken;
    TakenGrows(services, k);
    CharsOfNext(services, k);
    FirstShown(table, services, k);
    FirstShown(table, services, k + 1);
    CharsSplit(table.Shown(), 0, Taken(services[..k]), Taken(services[..k + 1]));
    var own := CharsIn(table.Shown(), Taken(services[..k]), Taken(services[..k + 1]));
    var listed := CharsListed(services[k].characteristics, Taken(services[..k]) + 1);
    SameRest(AllChars(services[..k]), own, listed);
  }

  lemma SameRest<T>(front: seq<T>, a: seq<T>, b: seq<T>)
    requires front + a == front + b
    ensures a == b
  {
    assert a == (front + a)[|front|..] && b == (front + b)[|front|..];
  }
}
