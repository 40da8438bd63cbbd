/**
 The attribute server's objects and the table that `addService` lays them into.
 The attribute list and the lists inside services and characteristics are held as
 sequences, which is what `BleLinkedList.LinkedList` is proved to be.
 */
module Gatt {
  import opened Bytes
  import opened AttributeTable

  class LocalDescriptor {
    const uuid: Uuid
    const value: seq<byte>
    var handle: u16

    constructor (uuid: Uuid, value: seq<byte>)
      ensures this.uuid == uuid && this.value == value && handle == 0
    {
      this.uuid, this.value := uuid, value;
      handle := 0;
    }
  }

  class LocalCharacteristic {
    const uuid: Uuid
    const properties: byte
    const valueSize: nat
    const fixedLength: bool
    const value: array<byte>
    const descriptors: seq<LocalDescriptor>
    var valueLength: byte
    var handle: u16
    var written: bool
    var cccdValue: u16

    constructor (uuid: Uuid, properties: byte, size: nat, fixedLength: bool, descriptors: seq<LocalDescriptor>)
      ensures Valid() && fresh(value) && valueSize == Min(size, 512) && valueLength == 0
      ensures this.uuid == uuid && this.properties == properties
      ensures this.fixedLength == fixedLength && this.descriptors == descriptors
      ensures handle == 0 && cccdValue == 0
    {
      this.uuid, this.properties, this.fixedLength := uuid, properties, fixedLength;
      this.descriptors := descriptors;
      valueSize := Min(size, 512);
      value := new byte[size];
      valueLength, handle, written, cccdValue := 0, 0, false, 0;
    }

    ghost predicate Valid()
      reads this`valueLength
    {
      valueLength <= valueSize <= 512 && valueSize <= value.Length
    }

    function ValueHandle(): u16
      reads this
    {
      (handle + 1) % 65536
    }

    /** A written value stands in the buffer, which held `before`; the length shown is kept
        in one octet. */
    ghost predicate Took(source: seq<byte>, before: seq<byte>)
      reads this, value
    {
      var n := Min(|source|, valueSize) % 256;
      && Valid() && n <= |before|
      && valueLength == (if fixedLength then valueSize else Min(|source|, valueSize)) % 256
      && value[..n] == source[..n] && value[n..] == before[n..]
    }

    /** Stores a written value. The length is kept in one octet, so it is taken
        modulo 256 before anything is copied; a fixed-length characteristic then
        shows its whole size. */
    method StoreValue(source: seq<byte>)
      requires Valid()
      modifies this`valueLength, value
      ensures Took(source, old(value[..]))
    {
      var n := Min(|source|, valueSize) % 256;
      valueLength := n;
      CopyInto(value, 0, source[..n]);
      assert value[..n] == value[0..n];
      if fixedLength {
        valueLength := valueSize % 256;
      }
    }
  }

  class LocalService {
    const uuid: Uuid
    const characteristics: seq<LocalCharacteristic>
    var startHandle: u16
    var endHandle: u16

    constructor (uuid: Uuid, characteristics: seq<LocalCharacteristic>)
      ensures this.uuid == uuid && this.characteristics == characteristics
      ensures startHandle == 0 == endHandle
    {
      this.uuid, this.characteristics := uuid, characteristics;
      startHandle, endHandle := 0, 0;
    }
  }

  /** An attribute pointer together with the class of the object it points to. */
  datatype Attribute =
    | Svc(service: LocalService)
    | Chr(characteristic: LocalCharacteristic)
    | Dsc(descriptor: LocalDescriptor)
  {
    ghost function Owned(): set<object> {
      match this
      case Svc(s) => {s}
      case Chr(c) => {c, c.value}
      case Dsc(d) => {d}
    }

    /** The handles the object of this slot reports. */
    ghost function Slotted(): Slot
      reads Owned()
    {
      match this
      case Svc(s) => Slot(this, s.startHandle, s.endHandle)
      case Chr(c) => Slot(this, c.handle, c.ValueHandle())
      case Dsc(d) => Slot(this, d.handle, d.handle)
    }

    /** What the slot shows: the value octets of a characteristic are the first
        `valueLength` octets of its buffer. */
    function Shown(): Entry
      reads Owned(), if Chr? then {characteristic} else {}
      requires Chr? ==> characteristic.Valid()
    {
      match this
      case Svc(s) => Service(s.startHandle, s.endHandle, s.uuid)
      case Chr(c) => Characteristic(c.handle, c.properties, c.uuid, c.value[..c.valueLength], c.valueSize)
      case Dsc(d) => Descriptor(d.handle, d.uuid, d.value)
    }
  }

  // ---------- the layout, as a function of the registered objects ----------

  datatype Slot = Slot(attribute: Attribute, first: u16, last: u16)

  /** The slots of a characteristic registered when `n` slots are taken. */
  ghost function CharSlots(c: LocalCharacteristic, n: nat): (ss: seq<Slot>)
    requires n + 2 + |c.descriptors| < 65535
    ensures |ss| == 2 + |c.descriptors|
  {
    var own := Slot(Chr(c), n + 1, n + 2);
    [own, own] + seq(|c.descriptors|, j requires 0 <= j < |c.descriptors| =>
      Slot(Dsc(c.descriptors[j]), n + 3 + j, n + 3 + j))
  }

  function CharAttributes(c: LocalCharacteristic): seq<Attribute> {
    [Chr(c), Chr(c)] + seq(|c.descriptors|, j requires 0 <= j < |c.descriptors| => Dsc(c.descriptors[j]))
  }

  function CharsAttributes(cs: seq<LocalCharacteristic>): (slots: seq<Attribute>)
    ensures |slots| == SlotCount(cs)
  {
    if cs == [] then [] else CharsAttributes(cs[..|cs| - 1]) + CharAttributes(cs[|cs| - 1])
  }

  function SlotCount(cs: seq<LocalCharacteristic>): nat {
    if cs == [] then 0 else SlotCount(cs[..|cs| - 1]) + 2 + |cs[|cs| - 1].descriptors|
  }

  ghost function CharsSlots(cs: seq<LocalCharacteristic>, n: nat): (ss: seq<Slot>)
    requires n + SlotCount(cs) < 65535
    ensures |ss| == SlotCount(cs)
  {
    if cs == [] then []
    else
      var front := cs[..|cs| - 1];
      CharsSlots(front, n) + CharSlots(cs[|cs| - 1], n + SlotCount(front))
  }

  ghost function ServiceSlots(s: LocalService, n: nat): seq<Slot>
    requires n + 1 + SlotCount(s.characteristics) < 65535
  {
    [Slot(Svc(s), n + 1, n + 1 + SlotCount(s.characteristics))] + CharsSlots(s.characteristics, n + 1)
  }

  /** The object-level counterpart of `AttributeTable.SlotWellLaid`. */
  ghost predicate SlotPlaced(ss: seq<Slot>, i: nat)
    requires i < |ss|
  {
    var Slot(attribute, first, last) := ss[i];
    match attribute
    case Svc(_) =>
      && first == i + 1 <= last <= |ss|
      && (forall j :: i < j < last ==> !ss[j].attribute.Svc?)
      && (last < |ss| ==> ss[last].attribute.Svc?)
    case Chr(_) =>
      1 <= first < |ss| && (i == first - 1 || i == first) && ss[first - 1] == ss[first] == ss[i]
    case Dsc(_) => first == i + 1
  }

  ghost predicate Placed(ss: seq<Slot>) {
    && |ss| < 65535
    && (ss != [] ==> ss[0].attribute.Svc?)
    && (forall i {:trigger SlotPlaced(ss, i)} :: 0 <= i < |ss| ==> SlotPlaced(ss, i))
  }

  /** Slots `lo` up to `hi` hold characteristics and descriptors, each in its own
      places, and none reaches outside. */
  ghost predicate PlacedWithin(ss: seq<Slot>, lo: nat, hi: nat)
    requires hi <= |ss|
  {
    forall i {:trigger PlacedInside(ss, i, lo, hi)} :: lo <= i < hi ==> PlacedInside(ss, i, lo, hi)
  }

  ghost predicate PlacedInside(ss: seq<Slot>, i: nat, lo: nat, hi: nat)
    requires lo <= i < hi <= |ss|
  {
    var first := ss[i].first;
    match ss[i].attribute
    case Svc(_) => false
    case Chr(_) => lo < first < hi && (i == first - 1 || i == first) && ss[first - 1] == ss[first] == ss[i]
    case Dsc(_) => first == i + 1
  }

  lemma {:induction false} CharsPlaced(before: seq<Slot>, cs: seq<LocalCharacteristic>)
    requires |before| + SlotCount(cs) < 65535
    ensures var ss := before + CharsSlots(cs, |before|);
      PlacedWithin(ss, |before|, |ss|)
  {
    if cs != [] {
      var front := cs[..|cs| - 1];
      CharsPlaced(before, front);
      var ss := before + CharsSlots(front, |before|);
      CharPlaced(ss, cs[|cs| - 1], |before|);
      assert ss + CharSlots(cs[|cs| - 1], |ss|) == before + CharsSlots(cs, |before|);
    }
  }

  lemma CharPlaced(ss: seq<Slot>, c: LocalCharacteristic, lo: nat)
    requires lo <= |ss| && PlacedWithin(ss, lo, |ss|) && |ss| + 2 + |c.descriptors| < 65535
    ensures var all := ss + CharSlots(c, |ss|);
      PlacedWithin(all, lo, |all|)
  {
    var own := CharSlots(c, |ss|);
    var all := ss + own;
    forall i | lo <= i < |all|
      ensures PlacedInside(all, i, lo, |all|)
    {
      if i < |ss| {
        assert PlacedInside(ss, i, lo, |ss|);
      } else {
        assert all[i] == own[i - |ss|];
      }
    }
  }

  /** Registering one more service keeps the layout. */
  lemma ServiceKeepsPlaced(ss: seq<Slot>, s: LocalService)
    requires Placed(ss) && |ss| + 1 + SlotCount(s.characteristics) < 65535
    ensures Placed(ss + ServiceSlots(s, |ss|))
  {
    var n, cs := |ss|, s.characteristics;
    var head := ss + [Slot(Svc(s), n + 1, n + 1 + SlotCount(cs))];
    var all := head + CharsSlots(cs, n + 1);
    CharsPlaced(head, cs);
    forall i | 0 <= i < |all|
      ensures SlotPlaced(all, i)
    {
      if i < n {
        assert SlotPlaced(ss, i);
      } else if i > n {
        assert PlacedInside(all, i, n + 1, |all|);
      } else {
        forall j | n < j < |all|
          ensures !all[j].attribute.Svc?
        {
          assert PlacedInside(all, j, n + 1, |all|);
        }
      }
    }
    assert all == ss + ServiceSlots(s, n);
  }

  // ---------- the objects a service brings ----------

  ghost function CharObjects(c: LocalCharacteristic): set<object> {
    {c, c.value} + set d | d in c.descriptors
  }

  ghost function CharsObjects(cs: seq<LocalCharacteristic>): set<object> {
    if cs == [] then {} else CharsObjects(cs[..|cs| - 1]) + CharObjects(cs[|cs| - 1])
  }

  /** No two characteristics share an object, and no descriptor occurs twice. */
  ghost predicate ObjectsApart(cs: seq<LocalCharacteristic>) {
    && (forall k, l :: 0 <= k < l < |cs| ==> CharObjects(cs[k]) !! CharObjects(cs[l]))
    && (forall c :: c in cs ==> DescriptorsOnce(c))
  }

  ghost predicate DescriptorsOnce(c: LocalCharacteristic) {
    forall i, j :: 0 <= i < j < |c.descriptors| ==> c.descriptors[i] != c.descriptors[j]
  }

  lemma {:induction false} CharsObjectsHas(cs: seq<LocalCharacteristic>, k: nat)
    requires k < |cs| && ObjectsApart(cs)
    ensures CharObjects(cs[k]) <= CharsObjects(cs)
    ensures CharObjects(cs[k]) !! CharsObjects(cs[..k])
    ensures SlotCount(cs[..k]) + 2 + |cs[k].descriptors| <= SlotCount(cs)
  {
    var front := cs[..|cs| - 1];
    if k < |front| {
      CharsObjectsHas(front, k);
      assert front[..k] == cs[..k];
    } else {
      ApartFromAll(cs, k, k);
    }
  }

  lemma {:induction false} ApartFromAll(cs: seq<LocalCharacteristic>, k: nat, m: nat)
    requires m <= k < |cs| && ObjectsApart(cs)
    ensures CharObjects(cs[k]) !! CharsObjects(cs[..m])
  {
    if m > 0 {
      ApartFromAll(cs, k, m - 1);
      assert cs[..m][..m - 1] == cs[..m - 1];
    }
  }

  lemma CharsStep(cs: seq<LocalCharacteristic>, k: nat, n: nat)
    requires k < |cs| && n + SlotCount(cs[..k]) + 2 + |cs[k].descriptors| < 65535
    ensures SlotCount(cs[..k + 1]) == SlotCount(cs[..k]) + 2 + |cs[k].descriptors|
    ensures CharsAttributes(cs[..k + 1]) == CharsAttributes(cs[..k]) + CharAttributes(cs[k])
    ensures CharsObjects(cs[..k + 1]) == CharsObjects(cs[..k]) + CharObjects(cs[k])
    ensures CharsSlots(cs[..k + 1], n) == CharsSlots(cs[..k], n) + CharSlots(cs[k], n + SlotCount(cs[..k]))
  {
    hide CharSlots, CharAttributes, CharObjects;
    assert cs[..k + 1][..k] == cs[..k];
  }

  lemma {:induction false} NotAService(cs: seq<LocalCharacteristic>, s: LocalService)
    ensures s !in CharsObjects(cs)
  {
    if cs != [] {
      NotAService(cs[..|cs| - 1], s);
    }
  }

  /** Two characteristics of the table never share a value buffer. */
  ghost predicate BuffersApart(attributes: seq<Attribute>) {
    forall a, b :: a in attributes && b in attributes && a.Chr? && b.Chr? && a != b ==>
      a.characteristic.value != b.characteristic.value
  }

  lemma {:induction false} BuffersOf(cs: seq<LocalCharacteristic>)
    requires ObjectsApart(cs)
    ensures BuffersApart(CharsAttributes(cs))
    ensures forall a :: a in CharsAttributes(cs) ==> a.Owned() <= CharsObjects(cs)
  {
    if cs != [] {
      var k := |cs| - 1;
      BuffersOf(cs[..k]);
      CharsObjectsHas(cs, k);
      forall a | a in CharsAttributes(cs[..k]) && a.Chr?
        ensures a.characteristic.value != cs[k].value
      {
        assert a.Owned() <= CharsObjects(cs[..k]) && a.characteristic.value in a.Owned();
      }
      forall a | a in CharAttributes(cs[k])
        ensures a.Owned() <= CharObjects(cs[k]) && (a.Chr? ==> a == Chr(cs[k]))
      {
      }
    }
  }

  lemma BuffersStayApart(before: seq<Attribute>, known: set<object>, s: LocalService)
    requires BuffersApart(before) && ObjectsApart(s.characteristics)
    requires Holds(before, known) && CharsObjects(s.characteristics) !! known
    ensures BuffersApart(before + [Svc(s)] + CharsAttributes(s.characteristics))
  {
    assert forall a :: a in before ==> a.Owned() <= known;
    var own := CharsAttributes(s.characteristics);
    BuffersOf(s.characteristics);
    forall a, b | a in before && b in own && a.Chr? && b.Chr?
      ensures a.characteristic.value != b.characteristic.value
    {
      assert a.characteristic.value in a.Owned() && b.characteristic.value in b.Owned();
    }
  }

  // ---------- what a list of attributes shows ----------

  ghost predicate ValueFits(a: Attribute)
    reads a.Owned()
  {
    match a
    case Svc(_) => true
    case Chr(c) => c.Valid()
    case Dsc(d) => |d.value| <= 512
  }

  /** The objects of the attributes lie in `objects` and hold proper values. */
  ghost predicate Holds(attributes: seq<Attribute>, objects: set<object>)
    reads objects
  {
    forall i :: 0 <= i < |attributes| ==> attributes[i].Owned() <= objects && ValueFits(attributes[i])
  }

  ghost function SlotsOf(attributes: seq<Attribute>, objects: set<object>): (ss: seq<Slot>)
    requires Holds(attributes, objects)
    reads objects
    ensures |ss| == |attributes|
    ensures forall i :: 0 <= i < |ss| ==> ss[i] == attributes[i].Slotted()
  {
    seq(|attributes|, i requires 0 <= i < |attributes| && attributes[i].Owned() <= objects
                        reads objects => attributes[i].Slotted())
  }

  function ShownOf(attributes: seq<Attribute>, ghost objects: set<object>): (t: seq<Entry>)
    requires Holds(attributes, objects)
    reads objects
    ensures |t| == |attributes|
    ensures forall i :: 0 <= i < |t| ==> ValueFits(attributes[i]) && t[i] == attributes[i].Shown()
  {
    seq(|attributes|, i requires 0 <= i < |attributes| && attributes[i].Owned() <= objects && ValueFits(attributes[i])
                        reads objects => attributes[i].Shown())
  }

  lemma HoldsConcat(a: seq<Attribute>, b: seq<Attribute>, objects: set<object>, more: set<object>)
    requires Holds(a, objects) && Holds(b, more)
    ensures Holds(a + b, objects + more)
    ensures SlotsOf(a + b, objects + more) == SlotsOf(a, objects) + SlotsOf(b, more)
  {
  }

  /** The two slots and the descriptor slots of a characteristic whose handles
      have been set. */
  lemma CharSlotsShown(c: LocalCharacteristic, n: nat)
    requires c.Valid() && n + 2 + |c.descriptors| < 65535
    requires forall d :: d in c.descriptors ==> |d.value| <= 512
    requires c.handle == n + 1
    requires forall j :: 0 <= j < |c.descriptors| ==> c.descriptors[j].handle == n + 3 + j
    ensures Holds(CharAttributes(c), CharObjects(c))
    ensures SlotsOf(CharAttributes(c), CharObjects(c)) == CharSlots(c, n)
  {
  }

  /** A well placed list of slots gives a well laid out table. */
  lemma ShownWellLaid(attributes: seq<Attribute>, objects: set<object>)
    requires Holds(attributes, objects) && Placed(SlotsOf(attributes, objects))
    ensures WellLaid(ShownOf(attributes, objects))
  {
    var t, ss := ShownOf(attributes, objects), SlotsOf(attributes, objects);
    forall i | 0 <= i < |t|
      ensures SlotWellLaid(t, i)
    {
      assert SlotPlaced(ss, i) && ValueFits(attributes[i]);
      match attributes[i]
      case Svc(s) =>
        assert forall j :: 0 <= j < |t| ==> (t[j].Service? <==> ss[j].attribute.Svc?);
      case Chr(c) =>
        assert ss[c.handle - 1] == ss[c.handle] == ss[i];
      case Dsc(d) =>
    }
  }

  /** The slots of a table with one more service whose handles have been set. */
  lemma ServiceShown(before: seq<Attribute>, known: set<object>, s: LocalService)
    requires Holds(before, known) && |before| + 1 + SlotCount(s.characteristics) < 65535
    requires var cs := s.characteristics;
      && Holds(CharsAttributes(cs), CharsObjects(cs))
      && SlotsOf(CharsAttributes(cs), CharsObjects(cs)) == CharsSlots(cs, |before| + 1)
    requires s.startHandle == |before| + 1 && s.endHandle == |before| + 1 + SlotCount(s.characteristics)
    ensures var all := before + [Svc(s)] + CharsAttributes(s.characteristics);
      var objects := known + {s} + CharsObjects(s.characteristics);
      Holds(all, objects) && SlotsOf(all, objects) == SlotsOf(before, known) + ServiceSlots(s, |before|)
  {
    hide Holds, SlotsOf, CharsSlots, CharsAttributes, CharsObjects, SlotCount;
    var rest, more := CharsAttributes(s.characteristics), CharsObjects(s.characteristics);
    OwnSlot(s);
    HoldsConcat(before, [Svc(s)], known, {s});
    HoldsConcat(before + [Svc(s)], rest, known + {s}, more);
    Associative(SlotsOf(before, known), SlotsOf([Svc(s)], {s}), SlotsOf(rest, more));
  }

  lemma OwnSlot(s: LocalService)
    ensures Holds([Svc(s)], {s})
    ensures SlotsOf([Svc(s)], {s}) == [Slot(Svc(s), s.startHandle, s.endHandle)]
  {
  }

  ghost predicate CharsFit(cs: seq<LocalCharacteristic>)
    reads cs`valueLength
  {
    forall c :: c in cs ==> c.Valid() && forall d :: d in c.descriptors ==> |d.value| <= 512
  }

  lemma NthFits(cs: seq<LocalCharacteristic>, k: nat)
    requires k < |cs| && ObjectsApart(cs) && CharsFit(cs)
    ensures DescriptorsOnce(cs[k]) && cs[k].Valid()
    ensures forall d :: d in cs[k].descriptors ==> |d.value| <= 512
  {
  }

  /** No other slot has a share in the objects of a registered characteristic. */
  lemma OthersApart(attributes: seq<Attribute>, c: LocalCharacteristic, a: Attribute)
    requires BuffersApart(attributes) && Chr(c) in attributes && a in attributes && a != Chr(c)
    ensures a.Owned() !! {c, c.value}
  {
  }

  lemma CountsOne(attributes: seq<Attribute>, retained: multiset<Attribute>, a: Attribute)
    requires !a.Chr?
    ensures Counted(attributes, retained) ==> Counted(attributes + [a], retained + multiset{a})
  {
  }

  lemma CountsTwo(attributes: seq<Attribute>, retained: multiset<Attribute>, a: Attribute)
    requires a.Chr?
    ensures Counted(attributes, retained) ==> Counted(attributes + [a] + [a], retained + multiset{a})
  {
  }

  lemma OccursOnce(s: seq<Attribute>, a: Attribute, p: nat)
    requires p < |s| && forall i :: 0 <= i < |s| ==> (s[i] == a <==> i == p)
    ensures multiset(s)[a] == 1
  {
    assert s == s[..p] + [a] + s[p + 1..];
    assert a !in s[..p] && a !in s[p + 1..];
  }

  lemma OccursTwice(s: seq<Attribute>, a: Attribute, p: nat)
    requires p + 1 < |s| && forall i :: 0 <= i < |s| ==> (s[i] == a <==> i == p || i == p + 1)
    ensures multiset(s)[a] == 2
  {
    assert s == s[..p] + [a] + [a] + s[p + 2..];
    assert a !in s[..p] && a !in s[p + 2..];
  }

  // ---------- reference counts ----------

  /** The objects that an object lists, and lets go of when it is destroyed. */
  function PartsOf(a: Attribute): (parts: seq<Attribute>)
    ensures forall p :: p in parts ==> Rank(p) < Rank(a)
  {
    match a
    case Svc(s) => seq(|s.characteristics|, i requires 0 <= i < |s.characteristics| => Chr(s.characteristics[i]))
    case Chr(c) => seq(|c.descriptors|, i requires 0 <= i < |c.descriptors| => Dsc(c.descriptors[i]))
    case Dsc(_) => []
  }

  function Rank(a: Attribute): nat {
    if a.Svc? then 2 else if a.Chr? then 1 else 0
  }

  /** Function `release` and, where it brings the count of an object to zero, the
      destructor, which releases the parts. `held` says how often each object has been
      retained, and `released` how often released; an object released that often has been
      deleted, and one released more often has been released after its deletion. */
  ghost function Release(held: multiset<Attribute>, released: multiset<Attribute>, a: Attribute): multiset<Attribute>
    decreases Rank(a), |PartsOf(a)| + 1
  {
    var now := released + multiset{a};
    if now[a] == held[a] then ReleaseAll(held, now, PartsOf(a), Rank(a)) else now
  }

  ghost function ReleaseAll(held: multiset<Attribute>, released: multiset<Attribute>, attributes: seq<Attribute>,
                            rank: nat): multiset<Attribute>
    requires forall a :: a in attributes ==> Rank(a) < rank
    decreases rank, |attributes|
  {
    if attributes == [] then released
    else
      var n := |attributes| - 1;
      Release(held, ReleaseAll(held, released, attributes[..n], rank), attributes[n])
  }

  /** Only the slots of `c` can carry its handle. */
  lemma OwnHandle(attributes: seq<Attribute>, objects: set<object>, c: LocalCharacteristic, i: nat)
    requires Holds(attributes, objects) && Placed(SlotsOf(attributes, objects))
    requires Chr(c) in attributes && i < |attributes| && attributes[i].Chr?
    requires attributes[i].characteristic.handle == c.handle
    ensures attributes[i] == Chr(c)
  {
    var ss := SlotsOf(attributes, objects);
    var k :| 0 <= k < |attributes| && attributes[k] == Chr(c);
    assert SlotPlaced(ss, i) && SlotPlaced(ss, k);
  }

  /** A characteristic is retained once for its two slots, any other object once for
      its one slot. */
  ghost predicate Counted(attributes: seq<Attribute>, retained: multiset<Attribute>) {
    && (forall a :: a in attributes ==> multiset(attributes)[a] == if a.Chr? then 2 * retained[a] else retained[a])
    && (forall a :: a in retained ==> a in attributes)
  }

  class Table {
    var attributes: seq<Attribute>
    ghost var Repr: set<object>
    ghost var retained: multiset<Attribute>

    ghost predicate Valid()
      reads this, Repr
    {
      && this !in Repr
      && Holds(attributes, Repr) && Placed(SlotsOf(attributes, Repr)) && BuffersApart(attributes)
      && Counted(attributes, retained)
    }

    /** The table as a value. */
    function Shown(): (t: seq<Entry>)
      requires Valid()
      reads this, Repr
      ensures WellLaid(t) && |t| == |attributes|
    {
      ShownWellLaid(attributes, Repr);
      ShownOf(attributes, Repr)
    }

    lemma Small()
      requires Valid()
      ensures |attributes| == |Shown()| < 65535 && this !in Repr
    {
    }

    constructor ()
      ensures Valid() && attributes == [] && Repr == {}
    {
      attributes, Repr, retained := [], {}, multiset{};
    }

    /** One turn of the outer loop of `AddService`. */
    method AddCharacteristic(c: LocalCharacteristic)
      requires DescriptorsOnce(c)
      requires |attributes| + 2 + |c.descriptors| < 65535
      modifies this`attributes, this`retained, c`handle, c.descriptors`handle
      ensures attributes == old(attributes) + CharAttributes(c)
      ensures old(Counted(attributes, retained)) ==> Counted(attributes, retained)
      ensures c.handle == |old(attributes)| + 1
      ensures forall j :: 0 <= j < |c.descriptors| ==> c.descriptors[j].handle == |old(attributes)| + 3 + j
    {
      hide Counted;
      CountsTwo(attributes, retained, Chr(c));
      retained := retained + multiset{Chr(c)};
      attributes := attributes + [Chr(c)];
      c.handle := |attributes|;
      attributes := attributes + [Chr(c)];
      for j := 0 to |c.descriptors|
        invariant attributes == old(attributes) + CharAttributes(c)[..2 + j]
        invariant old(Counted(attributes, retained)) ==> Counted(attributes, retained)
        invariant c.handle == |old(attributes)| + 1
        invariant forall k :: 0 <= k < j ==> c.descriptors[k].handle == |old(attributes)| + 3 + k
      {
        var descriptor := c.descriptors[j];
        CountsOne(attributes, retained, Dsc(descriptor));
        retained := retained + multiset{Dsc(descriptor)};
        attributes := attributes + [Dsc(descriptor)];
        descriptor.handle := |attributes|;
      }
    }

    /** That turn as seen next to attributes `done` over other objects. */
    method AddNext(c: LocalCharacteristic, ghost done: seq<Attribute>, ghost objects: set<object>)
      requires this !in objects && Holds(done, objects)
      requires c.Valid() && DescriptorsOnce(c) && CharObjects(c) !! objects
      requires forall d :: d in c.descriptors ==> |d.value| <= 512
      requires |attributes| + 2 + |c.descriptors| < 65535
      modifies this`attributes, this`retained, c`handle, c.descriptors`handle
      ensures attributes == old(attributes) + CharAttributes(c)
      ensures old(Counted(attributes, retained)) ==> Counted(attributes, retained)
      ensures Holds(done + CharAttributes(c), objects + CharObjects(c))
      ensures SlotsOf(done + CharAttributes(c), objects + CharObjects(c)) ==
        old(SlotsOf(done, objects)) + CharSlots(c, |old(attributes)|)
    {
      ghost var n := |attributes|;
      AddCharacteristic(c);
      CharSlotsShown(c, n);
      HoldsConcat(done, CharAttributes(c), objects, CharObjects(c));
    }

    /** The first `k` characteristics are in place after `before`. */
    ghost predicate Added(cs: seq<LocalCharacteristic>, k: nat, before: seq<Attribute>)
      requires k <= |cs| && |before| + SlotCount(cs[..k]) < 65535
      reads this`attributes, CharsObjects(cs[..k])
    {
      var done, objects := CharsAttributes(cs[..k]), CharsObjects(cs[..k]);
      && this !in objects && attributes == before + done
      && Holds(done, objects) && SlotsOf(done, objects) == CharsSlots(cs[..k], |before|)
    }

    method AddNth(c: LocalCharacteristic, ghost cs: seq<LocalCharacteristic>, ghost k: nat,
                  ghost before: seq<Attribute>)
      requires CanAddChars(cs) && k < |cs| && c == cs[k] && |before| + SlotCount(cs) < 65535
      requires SlotCount(cs[..k]) <= SlotCount(cs) && Added(cs, k, before)
      modifies this`attributes, this`retained, c`handle, c.descriptors`handle
      ensures SlotCount(cs[..k + 1]) <= SlotCount(cs) && Added(cs, k + 1, before)
      ensures CharsFit(cs) && (old(Counted(attributes, retained)) ==> Counted(attributes, retained))
    {
      hide Holds, SlotsOf, CharsSlots, CharsAttributes, CharsObjects, CharSlots, CharAttributes, SlotCount;
      hide Counted, ObjectsApart, DescriptorsOnce, CharsFit;
      CharsObjectsHas(cs, k);
      NthFits(cs, k);
      CharsStep(cs, k, |before|);
      Associative(before, CharsAttributes(cs[..k]), CharAttributes(c));
      AddNext(c, CharsAttributes(cs[..k]), CharsObjects(cs[..k]));
    }

    /** The loop of `AddService` over the characteristics. */
    method AddCharacteristics(cs: seq<LocalCharacteristic>)
      requires CanAddChars(cs) && |attributes| + SlotCount(cs) < 65535
      modifies this`attributes, this`retained, CharsObjects(cs)
      ensures attributes == old(attributes) + CharsAttributes(cs)
      ensures old(Counted(attributes, retained)) ==> Counted(attributes, retained)
      ensures Holds(CharsAttributes(cs), CharsObjects(cs))
      ensures SlotsOf(CharsAttributes(cs), CharsObjects(cs)) == CharsSlots(cs, |old(attributes)|)
    {
      hide Counted, CharSlots, CharAttributes, DescriptorsOnce;
      ghost var before := attributes;
      for k := 0 to |cs|
        invariant SlotCount(cs[..k]) <= SlotCount(cs) && Added(cs, k, before) && CharsFit(cs)
        invariant old(Counted(attributes, retained)) ==> Counted(attributes, retained)
      {
        CharsObjectsHas(cs, k);
        AddNth(cs[k], cs, k, before);
      }
      assert cs[..|cs|] == cs;
    }

    ghost predicate CanAddChars(cs: seq<LocalCharacteristic>)
      reads cs
    {
      this !in CharsObjects(cs) && ObjectsApart(cs) && CharsFit(cs)
    }

    /** What `AddService` asks of a service: its objects are its own, well formed
        and not yet registered, and the handles do not run out. */
    ghost predicate CanAdd(s: LocalService)
      reads this, s.characteristics
    {
      && CharsObjects(s.characteristics) + {s} !! Repr && CanAddChars(s.characteristics)
      && |attributes| + 1 + SlotCount(s.characteristics) < 65535
    }

    /** Registers a service. The table grows by the slots of the service, laid out
        from the first free handle on, and every object learns its handles. */
    method AddService(service: LocalService)
      requires Valid() && CanAdd(service)
      modifies this, service, CharsObjects(service.characteristics)
      ensures Valid()
      ensures SlotsOf(attributes, Repr) ==
        old(SlotsOf(attributes, Repr)) + ServiceSlots(service, |old(attributes)|)
      ensures Repr == old(Repr) + {service} + CharsObjects(service.characteristics)
    {
      hide Holds, SlotsOf, Placed, CharsSlots, CharsAttributes, CharsObjects, SlotCount;
      hide BuffersApart, Counted, ObjectsApart, CharsFit, ServiceSlots;
      ghost var before, known := attributes, Repr;
      ghost var cs := service.characteristics;
      NotAService(cs, service);
      CountsOne(attributes, retained, Svc(service));
      retained := retained + multiset{Svc(service)};
      attributes := attributes + [Svc(service)];
      var startHandle := |attributes|;
      AddCharacteristics(service.characteristics);
      service.startHandle, service.endHandle := startHandle, |attributes|;
      Repr := Repr + {service} + CharsObjects(cs);
      ServiceShown(before, known, service);
      ServiceKeepsPlaced(SlotsOf(before, known), service);
      BuffersStayApart(before, known, service);
    }

    /** Releases the object of every slot in turn and empties the table. `others` counts
        who retains an object besides the table. */
    method ClearAttributes(ghost others: multiset<Attribute>) returns (ghost released: multiset<Attribute>)
      requires Valid()
      modifies this
      ensures Valid() && attributes == [] && Repr == {} && retained == multiset{}
      ensures released == ReleaseAll(old(retained) + others, multiset{}, old(attributes), 3)
    {
      released := multiset{};
      for i := 0 to |attributes|
        invariant released == ReleaseAll(retained + others, multiset{}, attributes[..i], 3)
      {
        released := Release(retained + others, released, attributes[i]);
        assert attributes[..i + 1][..i] == attributes[..i];
      }
      assert attributes[..|attributes|] == attributes;
      attributes, Repr, retained := [], {}, multiset{};
    }

    /** Registration has retained every object once. */
    lemma RetainedOnce()
      requires Valid()
      ensures forall a :: a in attributes ==>
        retained[a] == 1 && multiset(attributes)[a] == if a.Chr? then 2 else 1
    {
      forall a | a in attributes ensures retained[a] == 1 {
        var i :| 0 <= i < |attributes| && attributes[i] == a;
        SlotsOfEach(i);
        forall j | 0 <= j < |attributes| && attributes[j] == a
          ensures if a.Chr? then j + 1 == a.characteristic.handle || j == a.characteristic.handle else j == i
        {
          SlotsOfEach(j);
        }
        if a.Chr? {
          OccursTwice(attributes, a, a.characteristic.handle - 1);
        } else {
          OccursOnce(attributes, a, i);
        }
      }
    }

    /** Every registered object stands in one slot, but a characteristic in the two of
        its handle and the handle after it. */
    lemma SlotsOfEach(i: nat)
      requires Valid() && i < |attributes|
      ensures match attributes[i]
        case Svc(s) => i == s.startHandle - 1
        case Chr(c) => 1 <= c.handle < |attributes| && (i == c.handle - 1 || i == c.handle)
        case Dsc(d) => i == d.handle - 1
      ensures attributes[i].Chr? ==>
        var handle := attributes[i].characteristic.handle;
        attributes[handle - 1] == attributes[handle] == attributes[i]
    {
      var ss := SlotsOf(attributes, Repr);
      assert SlotPlaced(ss, i) && ss[i] == attributes[i].Slotted();
      if attributes[i].Chr? {
        var handle := attributes[i].characteristic.handle;
        assert ss[handle - 1] == attributes[handle - 1].Slotted() && ss[handle] == attributes[handle].Slotted();
      }
    }

    /** A value written by a client: the two slots of the characteristic show the
        new value, all other slots and all handles stay as they are. */
    method WriteValue(c: LocalCharacteristic, source: seq<byte>)
      requires Valid() && Chr(c) in attributes && c.Valid()
      modifies c`valueLength, c`written, c.value
      ensures Valid() && SlotsOf(attributes, Repr) == old(SlotsOf(attributes, Repr))
      ensures c.Valid() && c.written && Shown() == WithValue(old(Shown()), c.handle, c.value[..c.valueLength])
      ensures c.Took(source, old(c.value[..]))
    {
      hide Counted;
      ghost var before, slots := Shown(), SlotsOf(attributes, Repr);
      forall i | 0 <= i < |attributes|
        ensures before[i] == attributes[i].Shown() && slots[i] == attributes[i].Slotted()
        ensures attributes[i].Owned() <= Repr && ValueFits(attributes[i])
        ensures attributes[i] != Chr(c) ==> attributes[i].Owned() !! {c, c.value}
        ensures before[i].Characteristic? && before[i].handle == c.handle <==> attributes[i] == Chr(c)
      {
        if attributes[i] != Chr(c) {
          OthersApart(attributes, c, attributes[i]);
          if attributes[i].Chr? && attributes[i].characteristic.handle == c.handle {
            OwnHandle(attributes, Repr, c, i);
          }
        }
      }
      c.written := true;
      c.StoreValue(source);
      assert Holds(attributes, Repr);
      assert SlotsOf(attributes, Repr) == slots;
      assert Shown() == WithValue(before, c.handle, c.value[..c.valueLength]);
    }
  }
}
