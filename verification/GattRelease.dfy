/**
 Clearing the attribute table: which objects are deleted, and which are released again
 after that. Services retain their characteristics and characteristics their descriptors,
 but for the configuration descriptor that a characteristic makes for itself.
 */
module GattRelease {
  import opened Bytes
  import opened AttributeTable
  import opened AttValues
  import opened Gatt
  import opened GattRegistry

  // ---------- what a release reaches ----------

  ghost function Itself(a: Attribute): object {
    match a
    case Svc(s) => s
    case Chr(c) => c
    case Dsc(d) => d
  }

  /** The object and all its parts. */
  ghost function Family(a: Attribute): set<object> {
    match a
    case Svc(s) => Objects(s)
    case Chr(c) => CharObjects(c)
    case Dsc(d) => {d}
  }

  lemma PartsInFamily(a: Attribute, p: Attribute)
    requires p in PartsOf(a)
    ensures Family(p) <= Family(a)
  {
    if a.Svc? {
      var cs := a.service.characteristics;
      var i :| 0 <= i < |cs| && p == Chr(cs[i]);
      CharFamily(cs, cs[i]);
    }
  }

  lemma {:induction false} CharFamily(cs: seq<LocalCharacteristic>, c: LocalCharacteristic)
    requires c in cs
    ensures CharObjects(c) <= CharsObjects(cs)
  {
    if c != cs[|cs| - 1] {
      CharFamily(cs[..|cs| - 1], c);
    }
  }

  /** A release leaves the counts of all objects outside the family alone. */
  lemma {:induction false} Untouched(held: multiset<Attribute>, released: multiset<Attribute>,
                                     a: Attribute, x: Attribute)
    requires Itself(x) !in Family(a)
    ensures Release(held, released, a)[x] == released[x]
    decreases Rank(a), |PartsOf(a)| + 1
  {
    assert Itself(a) in Family(a);
    var now := released + multiset{a};
    if now[a] == held[a] {
      forall p | p in PartsOf(a) ensures Itself(x) !in Family(p) {
        PartsInFamily(a, p);
      }
      AllUntouched(held, now, PartsOf(a), Rank(a), x);
    }
  }

  lemma {:induction false} AllUntouched(held: multiset<Attribute>, released: multiset<Attribute>,
                                        attributes: seq<Attribute>, rank: nat, x: Attribute)
    requires forall a :: a in attributes ==> Rank(a) < rank && Itself(x) !in Family(a)
    ensures ReleaseAll(held, released, attributes, rank)[x] == released[x]
    decreases rank, |attributes|
  {
    if attributes != [] {
      var n := |attributes| - 1;
      AllUntouched(held, released, attributes[..n], rank, x);
      Untouched(held, ReleaseAll(held, released, attributes[..n], rank), attributes[n], x);
    }
  }

  lemma {:induction false} ReleaseConcat(held: multiset<Attribute>, released: multiset<Attribute>,
                                         a: seq<Attribute>, b: seq<Attribute>, rank: nat)
    requires forall x :: x in a || x in b ==> Rank(x) < rank
    ensures ReleaseAll(held, released, a + b, rank) ==
      ReleaseAll(held, ReleaseAll(held, released, a, rank), b, rank)
  {
    if b == [] {
      assert a + b == a;
    } else {
      var n := |b| - 1;
      ReleaseConcat(held, released, a, b[..n], rank);
      assert (a + b)[..|a| + n] == a + b[..n];
    }
  }

  lemma PlainOne(held: multiset<Attribute>, released: multiset<Attribute>, a: Attribute)
    requires a.Dsc? || released[a] + 1 != held[a]
    ensures Release(held, released, a) == released + multiset{a}
  {
  }

  /** Different objects none of which is brought to zero, or none of which has parts. */
  lemma {:induction false} Plain(held: multiset<Attribute>, released: multiset<Attribute>, attributes: seq<Attribute>,
                                 rank: nat)
    requires forall a :: a in attributes ==> Rank(a) < rank
    requires forall i, j :: 0 <= i < j < |attributes| ==> attributes[i] != attributes[j]
    requires forall a :: a in attributes ==> a.Dsc? || released[a] + 1 != held[a]
    ensures ReleaseAll(held, released, attributes, rank) == released + multiset(attributes)
  {
    hide Release, Rank;
    if attributes != [] {
      var n := |attributes| - 1;
      var front, a := attributes[..n], attributes[n];
      Plain(held, released, front, rank);
      assert attributes == front + [a] && a !in front;
      assert multiset(attributes) == multiset(front) + multiset{a};
      PlainOne(held, released + multiset(front), a);
    }
  }

  lemma OnceOf(attributes: seq<Attribute>, a: Attribute)
    requires forall i, j :: 0 <= i < j < |attributes| ==> attributes[i] != attributes[j]
    ensures multiset(attributes)[a] == if a in attributes then 1 else 0
  {
    if a in attributes {
      var p :| 0 <= p < |attributes| && attributes[p] == a;
      OccursOnce(attributes, a, p);
    }
  }

  // ---------- one characteristic, one service ----------

  /** The slots of a characteristic that was released `before` times already: two more
      for the characteristic, one for each descriptor, and one more for each descriptor
      if the characteristic is deleted at either of its slots. */
  lemma CharReleased(held: multiset<Attribute>, released: multiset<Attribute>, c: LocalCharacteristic, before: nat)
    requires DescriptorsOnce(c) && CharFresh(released, c, before) && before <= 1 && 2 <= held[Chr(c)]
    ensures forall a :: a in CharAttributes(c) ==> Rank(a) < 3
    ensures CharDone(held, ReleaseAll(held, released, CharAttributes(c), 3), c, before + 2)
  {
    var parts := PartsOf(Chr(c));
    assert CharAttributes(c) == [Chr(c), Chr(c)] + parts;
    CharFamilies(c);
    ReleaseConcat(held, released, [Chr(c), Chr(c)], parts, 3);
    TwiceReleased(held, released, c);
    var now := ReleaseAll(held, released, [Chr(c), Chr(c)], 3);
    Plain(held, now, parts, 3);
    OnceOf(parts, Chr(c));
    forall d | d in c.descriptors ensures multiset(parts)[Dsc(d)] == 1 {
      var i :| 0 <= i < |c.descriptors| && c.descriptors[i] == d;
      assert parts[i] == Dsc(d);
      OnceOf(parts, Dsc(d));
    }
  }

  lemma TwiceReleased(held: multiset<Attribute>, released: multiset<Attribute>, c: LocalCharacteristic)
    requires DescriptorsOnce(c) && released[Chr(c)] <= 1 && 2 <= held[Chr(c)]
    ensures ReleaseAll(held, released, [Chr(c), Chr(c)], 3) ==
      released + multiset{Chr(c), Chr(c)} +
      if released[Chr(c)] + 2 >= held[Chr(c)] then multiset(PartsOf(Chr(c))) else multiset{}
  {
    var parts := PartsOf(Chr(c));
    var once := released + multiset{Chr(c)};
    assert [Chr(c), Chr(c)][..1] == [Chr(c)] && [Chr(c)][..0] == [];
    assert ReleaseAll(held, released, [Chr(c)], 3) == Release(held, released, Chr(c));
    Plain(held, once, parts, 1);
    Plain(held, Release(held, released, Chr(c)) + multiset{Chr(c)}, parts, 1);
    OnceOf(parts, Chr(c));
  }

  lemma CharFamilies(c: LocalCharacteristic)
    ensures forall a :: a in CharAttributes(c) ==> Rank(a) < 3 && Family(a) <= CharObjects(c)
  {
  }

  lemma {:induction false} CharsFamilies(cs: seq<LocalCharacteristic>)
    ensures forall a :: a in CharsAttributes(cs) ==> Rank(a) < 3 && Family(a) <= CharsObjects(cs)
  {
    if cs != [] {
      CharsFamilies(cs[..|cs| - 1]);
      CharFamilies(cs[|cs| - 1]);
    }
  }

  /** What a characteristic and one of its descriptors have come to. */
  ghost predicate CharDone(held: multiset<Attribute>, released: multiset<Attribute>, c: LocalCharacteristic, count: nat)
  {
    && released[Chr(c)] == count
    && forall d :: d in c.descriptors ==> released[Dsc(d)] == if count >= held[Chr(c)] then 2 else 1
  }

  /** Nothing was released of a characteristic but itself, `before` times. */
  ghost predicate CharFresh(released: multiset<Attribute>, c: LocalCharacteristic, before: nat) {
    released[Chr(c)] == before && forall d :: d in c.descriptors ==> released[Dsc(d)] == 0
  }

  /** The attributes of other objects leave a characteristic and its parts alone. */
  lemma OthersReleased(held: multiset<Attribute>, released: multiset<Attribute>, attributes: seq<Attribute>,
                       c: LocalCharacteristic)
    requires forall a :: a in attributes ==> Rank(a) < 3 && Family(a) !! CharObjects(c)
    ensures var now := ReleaseAll(held, released, attributes, 3);
      now[Chr(c)] == released[Chr(c)] && forall d :: d in c.descriptors ==> now[Dsc(d)] == released[Dsc(d)]
  {
    AllUntouched(held, released, attributes, 3, Chr(c));
    forall d | d in c.descriptors
      ensures ReleaseAll(held, released, attributes, 3)[Dsc(d)] == released[Dsc(d)]
    {
      AllUntouched(held, released, attributes, 3, Dsc(d));
    }
  }

  lemma {:induction false} CharsReleased(held: multiset<Attribute>, released: multiset<Attribute>,
                                         cs: seq<LocalCharacteristic>, before: nat, k: nat)
    requires ObjectsApart(cs) && before <= 1 && k < |cs|
    requires forall c :: c in cs ==> 2 <= held[Chr(c)] && CharFresh(released, c, before)
    ensures forall a :: a in CharsAttributes(cs) ==> Rank(a) < 3
    ensures CharDone(held, ReleaseAll(held, released, CharsAttributes(cs), 3), cs[k], before + 2)
  {
    hide ReleaseAll, Rank, Family;
    var n := |cs| - 1;
    var front, last := cs[..n], cs[n];
    CharsFamilies(cs);
    CharsFamilies(front);
    CharFamilies(last);
    CharsObjectsHas(cs, n);
    ReleaseConcat(held, released, CharsAttributes(front), CharAttributes(last), 3);
    var now := ReleaseAll(held, released, CharsAttributes(front), 3);
    if k == n {
      OthersReleased(held, released, CharsAttributes(front), last);
      CharReleased(held, now, last, before);
    } else {
      CharsReleased(held, released, front, before, k);
      assert CharObjects(cs[k]) !! CharObjects(last);
      OthersReleased(held, now, CharAttributes(last), cs[k]);
    }
  }

  function ServiceAttributes(s: LocalService): seq<Attribute> {
    [Svc(s)] + CharsAttributes(s.characteristics)
  }

  function AllAttributes(services: seq<LocalService>): (attributes: seq<Attribute>)
    ensures |attributes| == Taken(services)
  {
    if services == [] then []
    else AllAttributes(services[..|services| - 1]) + ServiceAttributes(services[|services| - 1])
  }

  ghost predicate ServiceFresh(released: multiset<Attribute>, s: LocalService) {
    released[Svc(s)] == 0 && forall c :: c in s.characteristics ==> CharFresh(released, c, 0)
  }

  /** The service has been released once, and its characteristics twice, and once more if
      the service was deleted. */
  ghost predicate ServiceDone(held: multiset<Attribute>, released: multiset<Attribute>, s: LocalService) {
    && released[Svc(s)] == 1
    && forall c :: c in s.characteristics ==> CharDone(held, released, c, if held[Svc(s)] == 1 then 3 else 2)
  }

  /** Retained as often as the table and the lists of services do. */
  ghost predicate ServiceHeld(held: multiset<Attribute>, s: LocalService) {
    1 <= held[Svc(s)] && forall c :: c in s.characteristics ==> 2 <= held[Chr(c)]
  }

  lemma PartsDiffer(s: LocalService)
    requires ObjectsApart(s.characteristics)
    ensures var parts := PartsOf(Svc(s)); forall i, j :: 0 <= i < j < |parts| ==> parts[i] != parts[j]
  {
    var cs := s.characteristics;
    forall i, j | 0 <= i < j < |cs| ensures cs[i] != cs[j] {
      assert cs[i] in CharObjects(cs[i]) && CharObjects(cs[i]) !! CharObjects(cs[j]);
    }
  }

  lemma CountsOfParts(s: LocalService)
    requires ObjectsApart(s.characteristics)
    ensures var parts := PartsOf(Svc(s));
      && (forall i, j :: 0 <= i < j < |parts| ==> parts[i] != parts[j])
      && (forall c :: c in s.characteristics ==> multiset(parts)[Chr(c)] == 1)
  {
    var parts := PartsOf(Svc(s));
    PartsDiffer(s);
    forall c | c in s.characteristics ensures multiset(parts)[Chr(c)] == 1 {
      var i :| 0 <= i < |s.characteristics| && s.characteristics[i] == c;
      assert parts[i] == Chr(c);
      OnceOf(parts, Chr(c));
    }
  }

  lemma HeadReleased(held: multiset<Attribute>, released: multiset<Attribute>, s: LocalService)
    requires ObjectsApart(s.characteristics) && ServiceFresh(released, s) && ServiceHeld(held, s)
    ensures var now := ReleaseAll(held, released, [Svc(s)], 3);
      && now[Svc(s)] == 1
      && forall c :: c in s.characteristics ==> CharFresh(now, c, if held[Svc(s)] == 1 then 1 else 0)
  {
    hide ObjectsApart;
    var parts := PartsOf(Svc(s));
    CountsOfParts(s);
    assert [Svc(s)][..0] == [];
    assert ReleaseAll(held, released, [Svc(s)], 3) == Release(held, released, Svc(s));
    var once := released + multiset{Svc(s)};
    forall p | p in parts ensures Rank(p) < 2 && once[p] + 1 != held[p] {
      assert p.Chr? && p.characteristic in s.characteristics && CharFresh(released, p.characteristic, 0);
    }
    Plain(held, once, parts, 2);
  }

  lemma ServiceReleased(held: multiset<Attribute>, released: multiset<Attribute>, s: LocalService)
    requires ObjectsApart(s.characteristics) && ServiceFresh(released, s) && ServiceHeld(held, s)
    ensures forall a :: a in ServiceAttributes(s) ==> Rank(a) < 3 && Family(a) <= Objects(s)
    ensures ServiceDone(held, ReleaseAll(held, released, ServiceAttributes(s), 3), s)
  {
    hide ReleaseAll, CharsAttributes, CharFresh, CharDone;
    var cs := s.characteristics;
    CharsFamilies(cs);
    NotAService(cs, s);
    HeadReleased(held, released, s);
    ReleaseConcat(held, released, [Svc(s)], CharsAttributes(cs), 3);
    var now := ReleaseAll(held, released, [Svc(s)], 3);
    AllUntouched(held, now, CharsAttributes(cs), 3, Svc(s));
    forall c | c in cs
      ensures CharDone(held, ReleaseAll(held, now, CharsAttributes(cs), 3), c, if held[Svc(s)] == 1 then 3 else 2)
    {
      var k :| 0 <= k < |cs| && cs[k] == c;
      CharsReleased(held, now, cs, if held[Svc(s)] == 1 then 1 else 0, k);
    }
  }

  lemma {:induction false} AllFamilies(services: seq<LocalService>)
    ensures forall a :: a in AllAttributes(services) ==>
      Rank(a) < 3 && exists s :: s in services && Family(a) <= Objects(s)
  {
    if services != [] {
      var n := |services| - 1;
      AllFamilies(services[..n]);
      CharsFamilies(services[n].characteristics);
      assert services[n] in services;
    }
  }

  /** The attributes of other services leave a service alone. */
  lemma OtherServices(held: multiset<Attribute>, released: multiset<Attribute>, attributes: seq<Attribute>,
                      s: LocalService)
    requires forall a :: a in attributes ==> Rank(a) < 3 && Family(a) !! Objects(s)
    ensures var now := ReleaseAll(held, released, attributes, 3);
      && (ServiceFresh(released, s) ==> ServiceFresh(now, s))
      && (ServiceDone(held, released, s) ==> ServiceDone(held, now, s))
  {
    AllUntouched(held, released, attributes, 3, Svc(s));
    forall c | c in s.characteristics
      ensures var now := ReleaseAll(held, released, attributes, 3);
        now[Chr(c)] == released[Chr(c)] && forall d :: d in c.descriptors ==> now[Dsc(d)] == released[Dsc(d)]
    {
      CharFamily(s.characteristics, c);
      OthersReleased(held, released, attributes, c);
    }
  }

  /** Clearing the slots of services that share no objects. */
  lemma {:induction false} ServicesReleased(held: multiset<Attribute>, table: Table, services: seq<LocalService>,
                                            k: nat)
    requires Apart(table, services) && k < |services|
    requires forall s :: s in services ==> ServiceHeld(held, s)
    ensures forall a :: a in AllAttributes(services) ==> Rank(a) < 3
    ensures ServiceDone(held, ReleaseAll(held, multiset{}, AllAttributes(services), 3), services[k])
  {
    hide ReleaseAll, ServiceAttributes, ServiceDone, ServiceFresh, Family, Rank, Apart, Objects, ServiceHeld;
    var n := |services| - 1;
    var front, last := services[..n], services[n];
    AllFamilies(services);
    FrontApart(table, services);
    NothingReleased(last);
    var before := ReleaseAll(held, multiset{}, AllAttributes(front), 3);
    OtherServices(held, multiset{}, AllAttributes(front), last);
    ServiceReleased(held, before, last);
    ReleaseConcat(held, multiset{}, AllAttributes(front), ServiceAttributes(last), 3);
    if k < n {
      ServicesReleased(held, table, front, k);
      OtherServices(held, before, ServiceAttributes(last), services[k]);
    }
  }

  lemma FrontApart(table: Table, services: seq<LocalService>)
    requires Apart(table, services) && services != []
    ensures var front, last := services[..|services| - 1], services[|services| - 1];
      && Apart(table, front) && ObjectsApart(last.characteristics)
      && (forall a :: a in AllAttributes(front) ==> Rank(a) < 3 && Family(a) !! Objects(last))
      && (forall s :: s in front ==> Objects(last) !! Objects(s))
  {
    hide Objects, Family, Rank, AllAttributes;
    AllFamilies(services[..|services| - 1]);
  }

  lemma NothingReleased(s: LocalService)
    ensures ServiceFresh(multiset{}, s)
  {
  }

  // ---------- the attributes of a table ----------

  lemma {:induction false} CharsSlotAttributes(cs: seq<LocalCharacteristic>, n: nat)
    requires n + SlotCount(cs) < 65535
    ensures forall i :: 0 <= i < SlotCount(cs) ==> CharsSlots(cs, n)[i].attribute == CharsAttributes(cs)[i]
  {
    if cs != [] {
      CharsSlotAttributes(cs[..|cs| - 1], n);
    }
  }

  lemma {:induction false} SlotAttributes(services: seq<LocalService>)
    requires Taken(services) < 65535
    ensures forall i :: 0 <= i < Taken(services) ==> AllSlots(services)[i].attribute == AllAttributes(services)[i]
  {
    hide CharsSlots, CharsAttributes, SlotCount;
    if services != [] {
      var n := |services| - 1;
      SlotAttributes(services[..n]);
      CharsSlotAttributes(services[n].characteristics, Taken(services[..n]) + 1);
    }
  }

  lemma TableAttributes(table: Table, services: seq<LocalService>)
    requires Taken(services) < 65535 && Lists(table, services)
    ensures table.attributes == AllAttributes(services)
  {
    hide AllSlots, AllAttributes, Placed, BuffersApart, Counted;
    SlotAttributes(services);
    var ss := SlotsOf(table.attributes, table.Repr);
    assert forall i :: 0 <= i < |ss| ==> ss[i].attribute == table.attributes[i];
  }

  // ---------- who holds what ----------

  /** The descriptor that a characteristic with notifications or indications makes for
      itself, its first one. */
  predicate IsConfiguration(c: LocalCharacteristic, d: LocalDescriptor) {
    (CanNotify(c.properties) || CanIndicate(c.properties)) && c.descriptors != [] && d == c.descriptors[0]
  }

  /** `others` counts who retains an object besides the table: the service or the
      characteristic that lists it, but not the one that made it for itself, and whoever
      `outside` counts. */
  ghost predicate Retaining(s: LocalService, others: multiset<Attribute>, outside: multiset<Attribute>) {
    && others[Svc(s)] == outside[Svc(s)]
    && forall c :: c in s.characteristics ==>
      && others[Chr(c)] == outside[Chr(c)] + 1
      && forall d :: d in c.descriptors ==>
        others[Dsc(d)] == outside[Dsc(d)] + if IsConfiguration(c, d) then 0 else 1
  }

  /** An object that was released as often as it was retained has been deleted. */
  predicate Deleted(others: multiset<Attribute>, released: multiset<Attribute>, a: Attribute) {
    released[a] >= others[a] + 1
  }

  predicate ReleasedAfter(others: multiset<Attribute>, released: multiset<Attribute>, a: Attribute) {
    released[a] > others[a] + 1
  }

  /** What becomes of a descriptor. One that was added goes with its characteristic if
      nobody outside holds it. The configuration descriptor is deleted also when its
      characteristic stays, and when that is deleted it goes even if one other holds it,
      and is released again if nobody does. */
  ghost predicate DescriptorEnds(c: LocalCharacteristic, d: LocalDescriptor, others: multiset<Attribute>,
                                 released: multiset<Attribute>, outside: multiset<Attribute>)
  {
    var deleted, gone := Deleted(others, released, Dsc(d)), Deleted(others, released, Chr(c));
    if IsConfiguration(c, d) then
      && (deleted <==> outside[Dsc(d)] == 0 || (outside[Dsc(d)] == 1 && gone))
      && (ReleasedAfter(others, released, Dsc(d)) <==> outside[Dsc(d)] == 0 && gone)
    else
      && (deleted <==> outside[Dsc(d)] == 0 && gone)
      && !ReleasedAfter(others, released, Dsc(d))
  }

  /** What becomes of a service and its parts. A service goes if and only if nobody outside
      holds it. A characteristic goes if nobody outside holds it, and also when one does
      and its service goes; if nobody does and its service goes, it is released again. */
  ghost predicate ServiceEnds(s: LocalService, others: multiset<Attribute>, released: multiset<Attribute>,
                              outside: multiset<Attribute>)
  {
    var gone := Deleted(others, released, Svc(s));
    && (gone <==> outside[Svc(s)] == 0) && !ReleasedAfter(others, released, Svc(s))
    && forall c :: c in s.characteristics ==>
      && (Deleted(others, released, Chr(c)) <==> outside[Chr(c)] == 0 || (outside[Chr(c)] == 1 && gone))
      && (ReleasedAfter(others, released, Chr(c)) <==> outside[Chr(c)] == 0 && gone)
      && forall d :: d in c.descriptors ==> DescriptorEnds(c, d, others, released, outside)
  }

  /** So where an application holds on to a service and its characteristic, clearing the
      table deletes the configuration descriptor that the characteristic goes on listing. */
  lemma ConfigurationGoesFirst(s: LocalService, c: LocalCharacteristic, others: multiset<Attribute>,
                               released: multiset<Attribute>, outside: multiset<Attribute>)
    requires ServiceEnds(s, others, released, outside) && c in s.characteristics
    requires c.descriptors != [] && IsConfiguration(c, c.descriptors[0])
    requires 0 < outside[Svc(s)] && 0 < outside[Chr(c)] && outside[Dsc(c.descriptors[0])] == 0
    ensures !Deleted(others, released, Chr(c)) && Deleted(others, released, Dsc(c.descriptors[0]))
  {
    assert DescriptorEnds(c, c.descriptors[0], others, released, outside);
  }

  ghost predicate HeldOnce(retained: multiset<Attribute>, s: LocalService) {
    && retained[Svc(s)] == 1
    && forall c :: c in s.characteristics ==>
      retained[Chr(c)] == 1 && forall d :: d in c.descriptors ==> retained[Dsc(d)] == 1
  }

  lemma {:induction false} CharsInside(cs: seq<LocalCharacteristic>, c: LocalCharacteristic)
    requires c in cs
    ensures Chr(c) in CharsAttributes(cs) && forall d :: d in c.descriptors ==> Dsc(d) in CharsAttributes(cs)
  {
    if c != cs[|cs| - 1] {
      CharsInside(cs[..|cs| - 1], c);
    } else {
      forall d | d in c.descriptors ensures Dsc(d) in CharAttributes(c) {
        var i :| 0 <= i < |c.descriptors| && c.descriptors[i] == d;
        assert CharAttributes(c)[i + 2] == Dsc(d);
      }
      assert CharAttributes(c)[0] == Chr(c);
    }
  }

  lemma {:induction false} AllInside(services: seq<LocalService>, s: LocalService)
    requires s in services
    ensures forall a :: a in ServiceAttributes(s) ==> a in AllAttributes(services)
  {
    if s != services[|services| - 1] {
      AllInside(services[..|services| - 1], s);
    }
  }

  /** The table retains each of its objects once. */
  lemma RegisteredOnce(table: Table, services: seq<LocalService>, s: LocalService)
    requires table.Valid() && table.attributes == AllAttributes(services) && s in services
    ensures HeldOnce(table.retained, s)
  {
    hide AllAttributes, CharsAttributes, Table.Valid;
    table.RetainedOnce();
    AllInside(services, s);
    assert Svc(s) in ServiceAttributes(s);
    forall c | c in s.characteristics
      ensures table.retained[Chr(c)] == 1 && forall d :: d in c.descriptors ==> table.retained[Dsc(d)] == 1
    {
      CharsInside(s.characteristics, c);
    }
  }

  lemma Ends(s: LocalService, retained: multiset<Attribute>, others: multiset<Attribute>, released: multiset<Attribute>,
             outside: multiset<Attribute>)
    requires HeldOnce(retained, s) && Retaining(s, others, outside)
    ensures ServiceHeld(retained + others, s)
    ensures ServiceDone(retained + others, released, s) ==> ServiceEnds(s, others, released, outside)
  {
  }

  /** Any registrations, then `clearAttributes`: what becomes of every object, by who holds
      it outside. */
  method RegisterThenClear(table: Table, services: seq<LocalService>, ghost objects: set<object>,
                           ghost others: multiset<Attribute>, ghost outside: multiset<Attribute>)
      returns (ghost released: multiset<Attribute>)
    requires table.Valid() && table.attributes == [] && table.Repr == {}
    requires Apart(table, services) && Taken(services) < 65535
    requires forall i :: 0 <= i < |services| ==> Waits(table, services[i]) && Objects(services[i]) <= objects
    requires forall s :: s in services ==> Retaining(s, others, outside)
    modifies table, objects
    ensures table.Valid() && table.attributes == []
    ensures forall s :: s in services ==> ServiceEnds(s, others, released, outside)
  {
    hide Waits, Objects, Table.Valid, Lists, AllAttributes, ReleaseAll, ServiceEnds, Retaining, ServiceDone;
    hide HeldOnce, ServiceHeld, Apart;
    RegisterAll(table, services, objects);
    ListsValid(table, services);
    TableAttributes(table, services);
    ghost var retained := table.retained;
    forall s | s in services ensures HeldOnce(retained, s) && ServiceHeld(retained + others, s) {
      RegisteredOnce(table, services, s);
      Ends(s, retained, others, multiset{}, outside);
    }
    released := table.ClearAttributes(others);
    forall s | s in services ensures ServiceEnds(s, others, released, outside) {
      var k :| 0 <= k < |services| && services[k] == s;
      ServicesReleased(retained + others, table, services, k);
      Ends(s, retained, others, released, outside);
    }
  }

  lemma ListsValid(table: Table, services: seq<LocalService>)
    requires Taken(services) < 65535 && Lists(table, services)
    ensures table.Valid()
  {
  }
}
