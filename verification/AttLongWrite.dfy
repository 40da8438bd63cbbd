/**
 Whole long writes by a client of the attribute server: any Prepare Writes, then one
 Execute Write; and the long write of one value, part by part, followed by a long read.
 */
module AttLongWrite {
  import opened Bytes
  import opened AttributeTable
  import opened AttDiscovery
  import opened AttValues
  import opened Att
  import opened HciAcl
  import Gatt

  /** A Prepare Write within the MTU that the receive buffer of the server holds. */
  ghost predicate Sendable(r: Request, mtu: nat) {
    |r.part| + 5 <= mtu && |r.part| + 5 <= 249
  }

  /** The server stands at the table `t` with the queue `q`. */
  ghost predicate StandsAt(server: AttServer, t: seq<Entry>, q: Queue)
    reads server, server.longWriteValue, server.gatt, server.gatt.Repr
  {
    server.Valid() && server.gatt.Shown() == t && server.Pending() == q
  }

  lemma StandsWell(server: AttServer, t: seq<Entry>, q: Queue)
    requires StandsAt(server, t, q)
    ensures server.Valid() && QueueFits(t, q) && |t| == |server.gatt.attributes| < 65535
    ensures WellLaid(t) && server.gatt.Shown() == t && server.Pending() == q
    ensures server !in server.gatt.Repr && server.gatt !in server.gatt.Repr
    ensures server.longWriteValue !in server.gatt.Repr
  {
  }

  /** One Prepare Write request; the client learns whether its part was accepted. */
  method SendRequest(server: AttServer, r: Request, ghost t: seq<Entry>, ghost q: Queue) returns (accepted: bool)
    requires |t| < 65535 && QueueFits(t, q) && StandsAt(server, t, q)
    requires SlotOf(r.handle) != |t| && Sendable(r, server.mtu)
    modifies server`longWriteHandle, server`longWriteValue, server`longWriteValueLength, server.longWriteValue
    ensures server.longWriteValue == old(server.longWriteValue) || fresh(server.longWriteValue)
    ensures var (after, outcome) := Prepare(t, q, r.handle, r.offset, r.part);
      StandsAt(server, t, after) && (accepted <==> outcome == Accepted)
  {
    hide Gatt.Table.Valid, Gatt.Table.Shown, WellLaid, Prepare, QueueFits;
    StandsWell(server, t, q);
    var data := Le16(r.handle) + Le16(r.offset) + r.part;
    assert data[4..|r.part| + 4] == r.part;
    var reply := server.PrepWriteReq(|r.part| + 4, data);
    var arrived := Transmit(server.connectionHandle, reply);
    WholeExactly(reply);
    accepted := arrived.octets[0] != ERROR;
  }

  lemma PrepareAllNext(t: seq<Entry>, q: Queue, rs: seq<Request>, k: nat)
    requires |t| < 65535 && QueueFits(t, q) && k <= |rs| && forall r :: r in rs ==> SlotOf(r.handle) != |t|
    ensures k == 0 ==> PrepareAll(t, q, rs[..k]) == (q, [])
    ensures k < |rs| ==>
      var (before, parts) := PrepareAll(t, q, rs[..k]);
      var (after, outcome) := Prepare(t, before, rs[k].handle, rs[k].offset, rs[k].part);
      PrepareAll(t, q, rs[..k + 1]) == (after, if outcome == Accepted then parts + [rs[k].part] else parts)
  {
    if k < |rs| {
      assert rs[..k + 1][..k] == rs[..k];
    }
  }

  /** A list of Prepare Writes; the client keeps the parts that were accepted. */
  method SendRequests(server: AttServer, rs: seq<Request>, ghost t: seq<Entry>, ghost q: Queue)
      returns (parts: seq<seq<byte>>)
    requires |t| < 65535 && QueueFits(t, q) && StandsAt(server, t, q)
    requires forall r :: r in rs ==> SlotOf(r.handle) != |t|
    requires forall r :: r in rs ==> Sendable(r, server.mtu)
    modifies server`longWriteHandle, server`longWriteValue, server`longWriteValueLength, server.longWriteValue
    ensures server.longWriteValue == old(server.longWriteValue) || fresh(server.longWriteValue)
    ensures StandsAt(server, t, PrepareAll(t, q, rs).0) && parts == PrepareAll(t, q, rs).1
  {
    hide StandsAt, Prepare, PrepareAll, QueueFits;
    parts := [];
    PrepareAllNext(t, q, rs, 0);
    for k := 0 to |rs|
      invariant server.longWriteValue == old(server.longWriteValue) || fresh(server.longWriteValue)
      invariant StandsAt(server, t, PrepareAll(t, q, rs[..k]).0) && parts == PrepareAll(t, q, rs[..k]).1
    {
      PrepareAllNext(t, q, rs, k);
      var accepted := SendRequest(server, rs[k], t, PrepareAll(t, q, rs[..k]).0);
      if accepted {
        parts := parts + [rs[k].part];
      }
    }
    assert rs[..|rs|] == rs;
  }

  lemma QueuedSlot(t: seq<Entry>, q: Queue)
    requires QueueFits(t, q) && q.handle != 0
    ensures IsValueSlot(t, q.handle)
  {
  }

  /** What stands behind the value at `handle`. */
  ghost function BehindAt(server: AttServer, handle: u16): Buffer
    reads server, server.gatt, server.gatt.Repr
  {
    if 1 <= handle <= |server.gatt.attributes| && server.gatt.attributes[handle - 1].Chr? then
      var c := server.gatt.attributes[handle - 1].characteristic;
      Buffer(c.fixedLength, if c.value in server.gatt.Repr then c.value[..] else [])
    else Buffer(false, [])
  }

  /** The characteristic at `handle` has taken the queue `q` over into its buffer, which
      held `before`. */
  ghost predicate TookOver(server: AttServer, handle: u16, q: Queue, before: seq<byte>)
    reads server, server.gatt, server.gatt.Repr
  {
    1 <= handle <= |server.gatt.attributes| && server.gatt.attributes[handle - 1].Chr? &&
    var c := server.gatt.attributes[handle - 1].characteristic;
    c in server.gatt.Repr && c.value in server.gatt.Repr && server.StandsIn(c, q, before)
  }

  lemma BehindQueue(server: AttServer, q: Queue)
    requires server.Valid() && server.Pending() == q && q.handle != 0
    ensures BehindAt(server, q.handle) == server.Behind() && |q.value| <= |server.Behind().octets|
  {
    var target := server.Target();
  }

  /** The Execute Write of the client. */
  method Finish(server: AttServer, ghost t: seq<Entry>, ghost q: Queue)
    requires |t| < 65535 && QueueFits(t, q) && StandsAt(server, t, q)
    modifies server`longWriteHandle, server`longWriteValueLength, server.gatt.Repr
    ensures q.handle != 0 ==> |q.value| <= |old(BehindAt(server, q.handle)).octets|
    ensures server.Valid() && server.gatt.Shown() == Execute(t, q, 1, old(BehindAt(server, q.handle)))
    ensures q.handle != 0 ==> TookOver(server, q.handle, q, old(BehindAt(server, q.handle)).octets)
  {
    hide Gatt.Table.Valid, Gatt.Table.Shown, Execute, WellLaid, QueueFits;
    StandsWell(server, t, q);
    ghost var b := BehindAt(server, q.handle);
    if q.handle != 0 {
      QueuedSlot(t, q);
      ghost var target := server.Target();
      assert server.gatt.attributes[q.handle - 1] == Gatt.Chr(target);
      BehindQueue(server, q);
    } else {
      ExecuteNothing(t, q, 1, b);
      ExecuteNothing(t, q, 1, server.Behind());
    }
    var _ := server.ExecWriteReq(server.connectionHandle, 1, [1]);
  }

  /** What a list of Prepare Writes and an Execute Write leave in the table. */
  ghost predicate Stored(t: seq<Entry>, u: seq<Entry>, handle: u16, parts: seq<seq<byte>>, b: Buffer) {
    |u| == |t| && if handle == 0 then u == t && parts == [] else Written(t, u, handle, Flat(parts), b)
  }

  lemma ExecuteStores(t: seq<Entry>, q: Queue, rs: seq<Request>, b: Buffer)
    requires |t| < 65535 && QueueFits(t, q) && q.handle == 0
    requires forall r :: r in rs ==> SlotOf(r.handle) != |t|
    requires var after := PrepareAll(t, q, rs).0; after.handle != 0 ==> |after.value| <= |b.octets|
    ensures var (after, parts) := PrepareAll(t, q, rs); Stored(t, Execute(t, after, 1, b), after.handle, parts, b)
  {
    hide Written;
    LongWriteStored(t, q, rs, b);
    NothingAccepted(t, q, rs);
  }

  lemma {:induction false} NothingAccepted(t: seq<Entry>, q: Queue, rs: seq<Request>)
    requires |t| < 65535 && QueueFits(t, q) && q.handle == 0
    requires forall r :: r in rs ==> SlotOf(r.handle) != |t|
    ensures var (after, parts) := PrepareAll(t, q, rs); after.handle == 0 ==> parts == []
  {
    if rs != [] {
      NothingAccepted(t, q, rs[..|rs| - 1]);
      RefusedClaims(t, PrepareAll(t, q, rs[..|rs| - 1]).0, rs[|rs| - 1].handle, rs[|rs| - 1].offset, rs[|rs| - 1].part);
    }
  }

  /** Any Prepare Writes, to any handles at any offsets, refused ones among them, and an
      Execute Write: the characteristic that got hold of the queue stores the parts that
      were accepted, and no other attribute changes. */
  method WriteRequests(server: AttServer, rs: seq<Request>, ghost t: seq<Entry>, ghost q: Queue)
      returns (parts: seq<seq<byte>>)
    requires |t| < 65535 && QueueFits(t, q) && StandsAt(server, t, q) && q.handle == 0
    requires forall r :: r in rs ==> SlotOf(r.handle) != |t|
    requires forall r :: r in rs ==> Sendable(r, server.mtu)
    modifies server, server.longWriteValue, server.gatt.Repr
    ensures server.Valid() && parts == PrepareAll(t, q, rs).1 && server.mtu == old(server.mtu)
    ensures var handle := PrepareAll(t, q, rs).0.handle;
      Stored(t, server.gatt.Shown(), handle, parts, old(BehindAt(server, handle)))
    ensures var after := PrepareAll(t, q, rs).0;
      after.handle != 0 ==> TookOver(server, after.handle, after, old(BehindAt(server, after.handle)).octets)
    ensures |server.gatt.Shown()| == |t| && forall i :: 0 <= i < |t| ==> KeptUnwritable(t, server.gatt.Shown(), i)
  {
    hide StandsAt, Prepare, PrepareAll, QueueFits, Execute, Stored, AttServer.Valid, Gatt.Table.Shown, KeptUnwritable;
    StandsWell(server, t, q);
    ghost var b := BehindAt(server, PrepareAll(t, q, rs).0.handle);
    parts := SendRequests(server, rs, t, q);
    Finish(server, t, PrepareAll(t, q, rs).0);
    ExecuteStores(t, q, rs, b);
    AllKeptUnwritable(t, q, rs, b);
  }

  /** A characteristic without the write property shows what it showed before. */
  ghost predicate KeptUnwritable(t: seq<Entry>, u: seq<Entry>, i: nat)
    requires i < |t| == |u|
  {
    t[i].Characteristic? && t[i].properties / 8 % 2 == 0 ==> u[i] == t[i]
  }

  lemma AllKeptUnwritable(t: seq<Entry>, q: Queue, rs: seq<Request>, b: Buffer)
    requires |t| < 65535 && WellLaid(t) && QueueFits(t, q) && q.handle == 0
    requires forall r :: r in rs ==> SlotOf(r.handle) != |t|
    requires var after := PrepareAll(t, q, rs).0; after.handle != 0 ==> |after.value| <= |b.octets|
    ensures var u := Execute(t, PrepareAll(t, q, rs).0, 1, b); forall i :: 0 <= i < |t| ==> KeptUnwritable(t, u, i)
  {
    hide PrepareAll, Execute, WellLaid;
    var u := Execute(t, PrepareAll(t, q, rs).0, 1, b);
    forall i | 0 <= i < |t| ensures KeptUnwritable(t, u, i) {
      if t[i].Characteristic? && t[i].properties / 8 % 2 == 0 {
        UnwritableKept(t, q, rs, 1, b, i);
      }
    }
  }

  // ---------- one value, part by part ----------

  /** The server is ready for a long write to the value at `handle`. */
  ghost predicate Writable(server: AttServer, handle: u16, c: Gatt.LocalCharacteristic)
    reads server, server.longWriteValue, server.gatt, server.gatt.Repr
  {
    && server.Valid() && server.Pending().handle == 0
    && IsValueSlot(server.gatt.Shown(), handle) && server.gatt.attributes[handle - 1] == Gatt.Chr(c)
    && CanWrite(c.properties)
  }

  lemma WritableShown(server: AttServer, handle: u16, c: Gatt.LocalCharacteristic)
    requires Writable(server, handle, c)
    ensures var t := server.gatt.Shown();
      && |t| < 65535 && StandsAt(server, t, server.Pending()) && QueueFits(t, server.Pending())
      && IsValueSlot(t, handle) && t[handle - 1].valueSize == c.valueSize <= 512
      && t[handle - 1].properties == c.properties && CanWrite(c.properties)
    ensures server.Valid() && server.gatt.Valid() && server.gatt !in server.gatt.Repr
    ensures handle <= |server.gatt.attributes| && server.gatt.attributes[handle - 1] == Gatt.Chr(c)
    ensures server.Pending().handle == 0 && server.Pending().length == 0
    ensures BehindAt(server, handle) == Buffer(c.fixedLength, c.value[..])
    ensures c.valueSize <= |c.value[..]|
  {
    assert server.gatt.Shown()[handle - 1] == Gatt.Chr(c).Shown();
    assert Gatt.Chr(c).Owned() <= server.gatt.Repr;
  }

  lemma {:induction false} PartsOfSplit(handle: u16, parts: seq<seq<byte>>)
    requires |Flat(parts)| <= 512
    ensures forall r :: r in SplitWrite(handle, parts) ==> r.handle == handle && r.part in parts
  {
    if parts != [] {
      PartsOfSplit(handle, parts[..|parts| - 1]);
    }
  }

  /** A long write in any split stores the value, as the characteristic shows it, and
      changes no other attribute. */
  method WriteLong(server: AttServer, handle: u16, parts: seq<seq<byte>>, ghost c: Gatt.LocalCharacteristic)
    requires Writable(server, handle, c) && parts != [] && |Flat(parts)| <= c.valueSize
    requires forall p :: p in parts ==> |p| + 5 <= server.mtu && |p| + 5 <= 249
    modifies server, server.longWriteValue, server.gatt.Repr
    ensures server.Valid() && |server.gatt.Shown()| == |old(server.gatt.Shown())| && server.mtu == old(server.mtu)
    ensures Written(old(server.gatt.Shown()), server.gatt.Shown(), handle, Flat(parts),
                    Buffer(c.fixedLength, old(c.value[..])))
  {
    hide Writable, AttServer.Valid, Gatt.Table.Shown, Written, Flat, SplitWrite, PrepareAll, StandsAt, QueueFits;
    WritableShown(server, handle, c);
    ghost var t, q := server.gatt.Shown(), server.Pending();
    PartsOfSplit(handle, parts);
    SplitWriteAccepted(t, q, handle, parts);
    assert forall r :: r in SplitWrite(handle, parts) ==> Sendable(r, server.mtu);
    var _ := WriteRequests(server, SplitWrite(handle, parts), t, q);
  }

  /** Long write, then long read, for every MTU, every split and every characteristic: the
      client gets back what it wrote if and only if that is not empty, is as long as the
      characteristic shows in one octet, and either the MTU is at most 251 or the value at
      most 250 octets long. */
  method WriteLongThenRead(server: AttServer, handle: u16, parts: seq<seq<byte>>, ghost c: Gatt.LocalCharacteristic)
      returns (ok: bool, back: seq<byte>)
    requires Writable(server, handle, c) && CanRead(c.properties)
    requires parts != [] && |Flat(parts)| <= c.valueSize
    requires forall p :: p in parts ==> |p| + 5 <= server.mtu && |p| + 5 <= 249
    modifies server, server.longWriteValue, server.gatt.Repr
    ensures server.Valid() && |server.gatt.Shown()| == |old(server.gatt.Shown())|
    ensures Written(old(server.gatt.Shown()), server.gatt.Shown(), handle, Flat(parts),
                    Buffer(c.fixedLength, old(c.value[..])))
    ensures var length := |Flat(parts)|;
      ok && back == Flat(parts) <==>
      0 < length == (if c.fixedLength then c.valueSize else length) % 256 && (old(server.mtu) <= 251 || length <= 250)
  {
    hide Writable, Gatt.Table.Valid, Gatt.Table.Shown, Flat, CanRead, StandsAt, Kept8;
    WritableShown(server, handle, c);
    ghost var b := Buffer(c.fixedLength, c.value[..]);
    WriteLong(server, handle, parts, c);
    KeptWhole(Flat(parts), c.valueSize, b);
    ok, back := ReadLongValue(server.gatt.Shown(), server.mtu, handle);
  }
}
