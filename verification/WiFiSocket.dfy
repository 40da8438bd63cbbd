/**
 Receiving on the sockets of a WiFi101 chip. The chip lends its one receive buffer to
 the socket that something arrived for; the host moves it through a buffer of that
 socket to the reader, gives the chip's buffer back with the last transfer, and arms
 the next `recv` of the socket once both are empty.
 */
module WiFiSocket {
  import opened Bytes

  const SOCKET_BUFFER_SIZE := 1472
  const TCP_SOCK_MAX := 7
  const MAX_SOCKET := 11

  /** The sockets below `TCP_SOCK_MAX` are for TCP, the others for UDP. */
  type Sock = k: nat | k < MAX_SOCKET witness 0

  /** What the chip can raise: octets for a socket, a failed or empty receive, or a
      connection that a listening socket is offered on another socket. */
  datatype Arrival =
    | Quiet
    | Received(sock: Sock, octets: seq<byte>)
    | Failed(sock: Sock)
    | Offered(sock: Sock, child: Sock)

  function OctetsIn(a: Arrival, k: Sock): seq<byte> {
    if a.Received? && a.sock == k then a.octets else []
  }

  /** All octets that a script of arrivals carries for a socket. */
  function Octets(arrivals: seq<Arrival>, k: Sock): seq<byte> {
    if arrivals == [] then [] else OctetsIn(arrivals[0], k) + Octets(arrivals[1..], k)
  }

  lemma OctetsNext(before: seq<byte>, sent: seq<byte>, arrivals: seq<Arrival>, k: Sock)
    requires arrivals != []
    ensures before + sent + Octets(arrivals, k) == before + (sent + OctetsIn(arrivals[0], k)) + Octets(arrivals[1..], k)
  {
    var more, rest := OctetsIn(arrivals[0], k), Octets(arrivals[1..], k);
    Associative(before, sent, more);
    Associative(before + sent, more, rest);
  }

  /** The chip as the environment: scripts of what arrives and of which transfers
      succeed stand for every possible run. It raises one event for each `recv`, offers
      only sockets that are not in use, and raises nothing while its buffer is lent. */
  class Chip {
    var arrivals: seq<Arrival>
    var transfers: seq<bool>
    var armed: set<Sock>
    var used: set<Sock>
    var memory: seq<byte>
    var lent: bool
    ghost const script: seq<Arrival>
    ghost var earlier: seq<seq<byte>>
    ghost var sent: seq<seq<byte>>
    ghost var ended: set<Sock>
    ghost var offers: map<Sock, Sock>
    ghost var lentCount: nat
    ghost var releasedCount: nat

    constructor (arrivals: seq<Arrival>, transfers: seq<bool>)
      ensures Balanced() && armed == {} == used && !lent
      ensures script == arrivals && this.transfers == transfers && lentCount == 0
      ensures sent == seq(MAX_SOCKET, _ => []) && ended == {} && offers == map[]
    {
      this.arrivals, this.transfers := arrivals, transfers;
      armed, used, lent, memory := {}, {}, false, [];
      script := arrivals;
      earlier, sent := seq(MAX_SOCKET, _ => []), seq(MAX_SOCKET, _ => []);
      ended, offers := {}, map[];
      lentCount, releasedCount := 0, 0;
    }

    /** Every buffer lent has been given back once, but for one still lent; what has
        arrived on earlier connections of a socket and on the present one and what is
        still to come make up the script. */
    ghost predicate Balanced()
      reads this
    {
      && |earlier| == |sent| == MAX_SOCKET
      && (forall k: Sock :: earlier[k] + sent[k] + Octets(arrivals, k) == Octets(script, k))
      && lentCount == releasedCount + (if lent then 1 else 0)
    }

    /** Functions `recv` and `recvfrom`: one outstanding for each socket. */
    method Recv(sock: Sock)
      requires Balanced()
      modifies this`armed
      ensures Balanced() && armed == old(armed) + {sock}
    {
      armed := armed + {sock};
    }

    /** A new connection begins on a socket. */
    method Begin(sock: Sock)
      requires Balanced()
      modifies this`earlier, this`sent, this`ended, this`offers
      ensures Balanced() && sent == old(sent)[sock := []]
      ensures ended == old(ended) - {sock} && offers == old(offers) - {sock}
    {
      hide Octets;
      earlier := earlier[sock := earlier[sock] + sent[sock]];
      sent := sent[sock := []];
      ended, offers := ended - {sock}, offers - {sock};
      assert earlier[sock] + sent[sock] == old(earlier[sock] + sent[sock]);
    }

    method Allot(sock: Sock)
      requires Balanced()
      modifies this`used, this`ended
      ensures Balanced() && used == old(used) + {sock} && ended == old(ended) - {sock}
    {
      used, ended := used + {sock}, ended - {sock};
    }

    /** Function `close` of the driver; what still arrives for the socket is discarded there. */
    method Drop(sock: Sock)
      requires Balanced()
      modifies this`used, this`armed, this`offers
      ensures Balanced() && used == old(used) - {sock} && armed == old(armed) - {sock}
      ensures offers == old(offers) - {sock}
    {
      used, armed, offers := used - {sock}, armed - {sock}, offers - {sock};
    }

    /** Whether the chip may raise an arrival now. */
    predicate Raises(a: Arrival)
      reads this
    {
      match a
      case Quiet => true
      case Received(sock, _) => !lent && sock in armed
      case Failed(sock) => !lent && sock in armed
      case Offered(_, child) => !lent && child < TCP_SOCK_MAX && child !in used
    }

    lemma RaisesWhat(a: Arrival)
      ensures Raises(Quiet) && (Raises(a) && a != Quiet ==> !lent)
    {
    }

    /** Whether an arrival ends the connection of its socket. */
    predicate Ends(a: Arrival) {
      a.Failed? || (a.Received? && a.octets == [])
    }

    /** The next thing that arrives, if the chip may raise it now. */
    method Take() returns (a: Arrival)
      requires Balanced()
      modifies this`arrivals, this`armed, this`used, this`memory, this`lent, this`lentCount, this`sent
      modifies this`ended, this`offers
      ensures Balanced() && old(Raises(a))
      ensures if old(arrivals != [] && Raises(arrivals[0])) then old(arrivals) == [a] + arrivals
        else a == Quiet && arrivals == old(arrivals)
      ensures ended == old(ended) + (if Ends(a) then {a.sock} else {}) - (if a.Offered? then {a.child} else {})
      ensures offers == if a.Offered? then old(offers)[a.child := a.sock] else old(offers)
      ensures armed == old(armed) - (if a.Received? || a.Failed? then {a.sock} else {})
      ensures used == old(used) + (if a.Offered? then {a.child} else {})
      ensures sent == if a.Received? then old(sent)[a.sock := old(sent)[a.sock] + a.octets] else old(sent)
      ensures lent == if a.Received? then a.octets != [] else old(lent)
      ensures memory == if a.Received? && a.octets != [] then a.octets else old(memory)
    {
      hide Octets, Raises;
      RaisesWhat(Quiet);
      if arrivals == [] || !Raises(arrivals[0]) {
        return Quiet;
      }
      a := arrivals[0];
      RaisesWhat(a);
      forall k: Sock ensures earlier[k] + (sent[k] + OctetsIn(a, k)) + Octets(arrivals[1..], k) == Octets(script, k) {
        OctetsNext(earlier[k], sent[k], arrivals, k);
      }
      arrivals := arrivals[1..];
      Apply(a);
      Note(a);
    }

    /** All but the arrival `a`, which has just been taken off the script, is accounted for. */
    ghost predicate Due(a: Arrival)
      reads this
    {
      && |earlier| == |sent| == MAX_SOCKET
      && (forall k: Sock :: earlier[k] + (sent[k] + OctetsIn(a, k)) + Octets(arrivals, k) == Octets(script, k))
      && lentCount == releasedCount + (if lent then 1 else 0)
    }

    method Apply(a: Arrival)
      requires Due(a) && (a.Received? ==> !lent)
      modifies this`armed, this`used, this`memory, this`lent, this`lentCount, this`sent
      ensures Balanced()
      ensures armed == old(armed) - (if a.Received? || a.Failed? then {a.sock} else {})
      ensures used == old(used) + (if a.Offered? then {a.child} else {})
      ensures sent == if a.Received? then old(sent)[a.sock := old(sent)[a.sock] + a.octets] else old(sent)
      ensures lent == if a.Received? then a.octets != [] else old(lent)
      ensures memory == if a.Received? && a.octets != [] then a.octets else old(memory)
    {
      hide Octets;
      match a {
        case Quiet =>
        case Received(sock, octets) =>
          armed, sent := armed - {sock}, sent[sock := sent[sock] + octets];
          if octets != [] {
            memory, lent, lentCount := octets, true, lentCount + 1;
          }
        case Failed(sock) => armed := armed - {sock};
        case Offered(_, child) => used := used + {child};
      }
    }

    ghost method Note(a: Arrival)
      requires Balanced()
      modifies this`ended, this`offers
      ensures Balanced()
      ensures ended == old(ended) + (if Ends(a) then {a.sock} else {}) - (if a.Offered? then {a.child} else {})
      ensures offers == if a.Offered? then old(offers)[a.child := a.sock] else old(offers)
    {
      hide Octets;
      if Ends(a) {
        ended := ended + {a.sock};
      }
      if a.Offered? {
        ended, offers := ended - {a.child}, offers[a.child := a.sock];
      }
    }

    /** Function `hif_receive`: copies out of the lent buffer, and gives it back with
        the last transfer or when all of it has been copied. */
    method HifReceive(address: nat, dst: array<byte>, size: nat, isDone: bool) returns (ok: bool)
      requires Balanced() && lent && 0 < size <= dst.Length && address + size <= |memory|
      modifies this`transfers, this`lent, this`releasedCount, dst
      ensures Balanced() && (AllGood(old(transfers)) ==> ok && AllGood(transfers))
      ensures ok ==> dst[..size] == memory[address..address + size]
      ensures ok ==> lent == !(isDone || address + size == |memory|)
      ensures !ok ==> lent
    {
      hide Octets;
      ok := true;
      if transfers != [] {
        ok, transfers := transfers[0], transfers[1..];
      }
      if ok {
        CopyInto(dst, 0, memory[address..address + size]);
        assert dst[..size] == dst[0..0 + size];
        if isDone || address + size == |memory| {
          lent, releasedCount := false, releasedCount + 1;
        }
      }
    }

    /** Function `hif_receive` without a destination: gives the buffer back. */
    method Flush()
      requires Balanced() && lent
      modifies this`lent, this`releasedCount
      ensures Balanced() && !lent
    {
      lent, releasedCount := false, releasedCount + 1;
    }
  }

  /** No transfer out of the chip's buffer fails. */
  ghost predicate AllGood(transfers: seq<bool>) {
    forall k :: 0 <= k < |transfers| ==> transfers[k]
  }

  datatype SocketState = Invalid | Idle | Connecting | Connected | Binding | Bound | Listen | Listening | Accepted

  /** One entry of the table of sockets: `head` and `length` lead into the host buffer,
      `address` and `size` into the chip's. */
  datatype Info = Info(state: SocketState, parent: int, hasBuffer: bool, head: nat, length: nat,
                       address: nat, size: nat)
  {
    predicate InService() {
      state == Connected || state == Bound
    }

    predicate Empty() {
      length == 0 && size == 0
    }

    /** The indices lie within the two buffers, and what is left of the chip's is its end. */
    predicate Laid(data: seq<byte>, memory: seq<byte>) {
      head + length <= |data| && (size > 0 ==> address + size == |memory|)
    }

    /** The octets received and not yet read: host buffer first, then chip buffer. */
    function Unread(data: seq<byte>, memory: seq<byte>): seq<byte> {
      if !Laid(data, memory) then []
      else data[head..head + length] + if size > 0 then memory[address..address + size] else []
    }
  }

  /** In service and receiving; a TCP socket that is only bound receives nothing. */
  predicate Receiving(k: Sock, i: Info) {
    i.InService() && !(k < TCP_SOCK_MAX && i.state == Bound)
  }

  /** Receiving, with nothing unread. */
  predicate Awaits(k: Sock, i: Info) {
    Receiving(k, i) && i.Empty()
  }

  /** What holds of a socket at every moment. In service, the unread octets are what has
      arrived and was not consumed. Out of service, before it or after its end,
      everything that arrived was consumed, unless the application closed the socket with
      octets unread. A `recv` is outstanding only for a socket that awaits octets. */
  ghost predicate Sound(k: Sock, i: Info, data: seq<byte>, memory: seq<byte>, armed: bool,
                        sent: seq<byte>, consumed: seq<byte>, gaveUp: bool)
  {
    && i.Laid(data, memory) && consumed <= sent
    && (i.InService() ==> !gaveUp && sent == consumed + i.Unread(data, memory))
    && (!i.InService() && !gaveUp ==> sent == consumed)
    && (!Receiving(k, i) ==> i.Empty()) && (armed ==> Awaits(k, i))
  }

  /** A stretch moved from the chip's buffer to the empty host buffer. */
  lemma Moved(i: Info, before: seq<byte>, after: seq<byte>, memory: seq<byte>, n: nat)
    requires i.Laid(before, memory) && i.length == 0 && 0 < n <= |after| && n <= i.size
    requires after[..n] == memory[i.address..i.address + n]
    ensures var j := i.(hasBuffer := true, head := 0, length := n, address := i.address + n, size := i.size - n);
      j.Laid(after, memory) && j.Unread(after, memory) == i.Unread(before, memory)
  {
  }

  /** An untouched chip buffer behind an empty host buffer. */
  lemma NotMoved(i: Info, before: seq<byte>, after: seq<byte>, memory: seq<byte>, head: nat)
    requires i.Laid(before, memory) && i.length == 0 && head <= |after|
    ensures var j := i.(hasBuffer := true, head := head);
      j.Laid(after, memory) && j.Unread(after, memory) == i.Unread(before, memory)
  {
  }

  /** What is unread may stand in the two buffers in any way. */
  lemma Refilled(k: Sock, i: Info, j: Info, before: seq<byte>, after: seq<byte>, memory: seq<byte>, armed: bool,
                 sent: seq<byte>, consumed: seq<byte>, gaveUp: bool)
    requires Sound(k, i, before, memory, armed, sent, consumed, gaveUp) && !i.Empty()
    requires j.Laid(after, memory) && j.Unread(after, memory) == i.Unread(before, memory) && j.state == i.state
    ensures Sound(k, j, after, memory, armed, sent, consumed, gaveUp)
  {
  }

  /** Octets taken from the front of the host buffer. */
  lemma HostTaken(i: Info, data: seq<byte>, memory: seq<byte>, n: nat)
    requires i.Laid(data, memory) && n <= i.length
    ensures var j := i.(head := i.head + n, length := i.length - n);
      j.Laid(data, memory) && i.Unread(data, memory) == data[i.head..i.head + n] + j.Unread(data, memory)
  {
  }

  lemma SameRest(front: seq<byte>, a: seq<byte>, b: seq<byte>)
    requires front + a == front + b
    ensures a == b
  {
    assert a == (front + a)[|front|..] && b == (front + b)[|front|..];
  }

  lemma SomethingUnread(i: Info, data: seq<byte>, memory: seq<byte>)
    requires i.Laid(data, memory)
    ensures |i.Unread(data, memory)| == i.length + i.size
  {
  }

  lemma HeadUnread(i: Info, data: seq<byte>, memory: seq<byte>)
    requires i.Laid(data, memory) && i.length > 0
    ensures i.head < |data| && i.Unread(data, memory) != [] && i.Unread(data, memory)[0] == data[i.head]
  {
  }

  /** The chip's buffer may change under a socket that has nothing in it. */
  lemma MemoryElsewhere(k: Sock, i: Info, data: seq<byte>, memory: seq<byte>, other: seq<byte>, armed: bool,
                        sent: seq<byte>, consumed: seq<byte>, gaveUp: bool)
    requires Sound(k, i, data, memory, armed, sent, consumed, gaveUp) && i.size == 0
    ensures Sound(k, i, data, other, armed, sent, consumed, gaveUp)
  {
  }

  /** A socket whose `recv` is used up was waiting with nothing unread. */
  lemma UsedUp(k: Sock, i: Info, data: seq<byte>, memory: seq<byte>, other: seq<byte>,
               sent: seq<byte>, consumed: seq<byte>, gaveUp: bool)
    requires Sound(k, i, data, memory, true, sent, consumed, gaveUp)
    ensures Awaits(k, i) && Receiving(k, i) && i.Empty() && i.Laid(data, other) && !gaveUp && sent == consumed
    ensures Sound(k, i, data, other, false, sent, consumed, gaveUp)
  {
  }

  /** A socket that is given up. */
  lemma GivenUp(k: Sock, i: Info, data: seq<byte>, memory: seq<byte>, armed: bool,
                sent: seq<byte>, consumed: seq<byte>, gaveUp: bool)
    requires Sound(k, i, data, memory, armed, sent, consumed, gaveUp)
    ensures var j := i.(state := Invalid, parent := -1, hasBuffer := false, length := 0, size := 0);
      Sound(k, j, data, memory, false, sent, consumed, gaveUp || !i.Empty())
    ensures i.size > 0 ==> i.InService()
  {
  }

  /** A socket that receives nothing changes its state without entering service. */
  lemma OutOfService(k: Sock, i: Info, j: Info, data: seq<byte>, memory: seq<byte>, armed: bool,
                     sent: seq<byte>, consumed: seq<byte>, gaveUp: bool)
    requires Sound(k, i, data, memory, armed, sent, consumed, gaveUp) && !Receiving(k, i)
    requires j == i.(state := j.state, parent := j.parent) && !j.InService()
    ensures Sound(k, j, data, memory, armed, sent, consumed, gaveUp) && !Awaits(k, i) && !Awaits(k, j)
  {
  }

  /** A socket out of service enters it on a new connection. */
  lemma Entered(k: Sock, i: Info, data: seq<byte>, memory: seq<byte>, armed: bool,
                sent: seq<byte>, consumed: seq<byte>, gaveUp: bool, target: SocketState)
    requires Sound(k, i, data, memory, armed, sent, consumed, gaveUp)
    requires !i.InService() && target in {Connected, Bound}
    ensures var j := i.(state := target, size := 0);
      && Sound(k, j, data, memory, armed, [], [], false) && !armed && i.size == 0
      && (Awaits(k, j) <==> target == Connected || k >= TCP_SOCK_MAX)
  {
  }

  lemma MayArm(k: Sock, i: Info, data: seq<byte>, memory: seq<byte>, armed: bool,
               sent: seq<byte>, consumed: seq<byte>, gaveUp: bool)
    requires Sound(k, i, data, memory, armed, sent, consumed, gaveUp) && Awaits(k, i)
    ensures Sound(k, i, data, memory, true, sent, consumed, gaveUp)
  {
  }

  ghost predicate Apart(buffers: seq<array<byte>>) {
    forall j, k :: 0 <= j < |buffers| && 0 <= k < |buffers| && j != k ==> buffers[j] != buffers[k]
  }

  method NewBuffers() returns (buffers: seq<array<byte>>)
    ensures |buffers| == MAX_SOCKET && fresh(buffers) && Apart(buffers)
    ensures forall k: Sock :: buffers[k].Length == SOCKET_BUFFER_SIZE
  {
    buffers := [];
    for n := 0 to MAX_SOCKET
      invariant |buffers| == n && fresh(buffers) && Apart(buffers)
      invariant forall k :: 0 <= k < n ==> buffers[k].Length == SOCKET_BUFFER_SIZE
    {
      var data := new byte[SOCKET_BUFFER_SIZE];
      buffers := buffers + [data];
    }
  }

  class WiFiSocketClass {
    const chip: Chip
    const buffers: seq<array<byte>>
    var info: seq<Info>
    ghost var consumed: seq<seq<byte>>
    ghost var gaveUp: seq<bool>
    ghost var holder: Sock

    /** One entry and one buffer for each socket. */
    ghost predicate Shaped()
      reads this, chip
    {
      && |buffers| == |info| == |consumed| == |gaveUp| == |chip.sent| == MAX_SOCKET
      && (forall k: Sock :: buffers[k].Length == SOCKET_BUFFER_SIZE)
      && Apart(buffers)
    }

    ghost predicate SoundAt(k: Sock)
      requires Shaped()
      reads this, chip, buffers
    {
      Sound(k, info[k], buffers[k][..], chip.memory, k in chip.armed, chip.sent[k], consumed[k], gaveUp[k])
    }

    /** The chip's buffer is lent just as long as some socket has octets left in it, and
        that is only the holder. */
    ghost predicate OneHolder()
      requires Shaped()
      reads this, chip
    {
      && (chip.lent <==> info[holder].size > 0)
      && (forall k: Sock :: k != holder ==> info[k].size == 0)
    }

    ghost predicate Consistent()
      reads this, chip, buffers
    {
      Shaped() && AllSound()
    }

    ghost predicate AllSound()
      requires Shaped()
      reads this, chip, buffers
    {
      && chip.Balanced() && OneHolder()
      && EverySound()
      && (forall k: Sock :: k in chip.used <==> info[k].state != Invalid)
    }

    ghost predicate EverySound()
      requires Shaped()
      reads this, chip, buffers
    {
      forall k: Sock {:trigger buffers[k]} {:trigger info[k]} :: SoundAt(k)
    }

    /** Between any two calls a `recv` is outstanding for a socket just when it is
        receiving and has nothing unread. */
    ghost predicate Valid()
      reads this, chip, buffers
    {
      Consistent() && Remembered() && forall k: Sock :: k in chip.armed <==> Awaits(k, info[k])
    }

    /** A socket whose connection has ended is closed, and one that holds a connection not
        yet taken knows which listener it was offered to. */
    ghost predicate Remembered()
      requires Shaped()
      reads this, chip
    {
      && (forall k: Sock :: k in chip.ended ==> info[k].state == Invalid)
      && (forall k: Sock :: k in chip.offers <==> info[k].state == Accepted)
      && (forall k: Sock :: k in chip.offers ==> info[k].parent == chip.offers[k])
    }

    ghost function Unread(k: Sock): seq<byte>
      requires Shaped()
      reads this, chip, buffers
    {
      info[k].Unread(buffers[k][..], chip.memory)
    }

    constructor (chip: Chip)
      requires chip.Balanced() && !chip.lent && chip.armed == {} == chip.used && chip.sent == seq(MAX_SOCKET, _ => [])
      requires chip.ended == {} && chip.offers == map[]
      ensures Valid() && this.chip == chip && fresh(buffers) && consumed == chip.sent
      ensures forall k: Sock :: !gaveUp[k]
    {
      this.chip := chip;
      info := seq(MAX_SOCKET, _ => Info(Invalid, -1, false, 0, 0, 0, 0));
      consumed, gaveUp, holder := seq(MAX_SOCKET, _ => []), seq(MAX_SOCKET, _ => false), 0;
      var made := NewBuffers();
      buffers := made;
      new;
      hide Chip.Balanced, Octets;
      forall k: Sock ensures SoundAt(k) && k !in this.chip.armed {
      }
    }

    /** What `Consistent` says of one socket. */
    lemma LaidAt(sock: Sock)
      requires Consistent()
      ensures SoundAt(sock) && info[sock].Laid(buffers[sock][..], chip.memory)
      ensures info[sock].InService() ==> chip.sent[sock] == consumed[sock] + Unread(sock)
      ensures !Receiving(sock, info[sock]) ==> info[sock].Empty()
    {
    }

    /** What is done to one socket leaves the others sound. */
    twostate lemma OthersStand(sock: Sock)
      requires old(Consistent()) && Shaped() && chip.memory == old(chip.memory)
      requires chip.armed - {sock} == old(chip.armed) - {sock}
      requires info == old(info)[sock := info[sock]] && chip.sent == old(chip.sent)[sock := chip.sent[sock]]
      requires consumed == old(consumed)[sock := consumed[sock]] && gaveUp == old(gaveUp)[sock := gaveUp[sock]]
      requires forall k: Sock :: k != sock ==> unchanged(buffers[k])
      ensures forall k: Sock :: k != sock ==> SoundAt(k)
    {
      hide Apart, Sound, Chip.Balanced;
      forall k: Sock | k != sock ensures SoundAt(k) {
        assert old(SoundAt(k)) && buffers[k][..] == old(buffers[k][..]);
        assert k in chip.armed - {sock} <==> k in old(chip.armed) - {sock};
      }
    }

    /** Moves the next stretch of the chip's buffer into the empty host buffer. */
    method FillRecvBuffer(sock: Sock) returns (ok: bool)
      requires Consistent() && info[sock].length == 0 && info[sock].size > 0
      modifies this`info, chip`transfers, chip`lent, chip`releasedCount, buffers[sock]
      ensures Consistent() && Unread(sock) == old(Unread(sock)) && holder == sock
      ensures info == old(info)[sock := info[sock]] && info[sock].state == old(info[sock].state)
      ensures info[sock].parent == old(info[sock].parent)
      ensures AllGood(old(chip.transfers)) ==> ok && AllGood(chip.transfers)
      ensures if ok then 0 < info[sock].length else info[sock].length == 0 && info[sock].size == old(info[sock].size)
    {
      hide Chip.Balanced, Info.Unread, Info.InService, AllGood, Sound;
      LaidAt(sock);
      ghost var before, i := buffers[sock][..], info[sock];
      if !info[sock].hasBuffer {
        info := info[sock := info[sock].(hasBuffer := true, head := 0)];
      }
      var size := info[sock].size;
      if size > SOCKET_BUFFER_SIZE {
        size := SOCKET_BUFFER_SIZE;
      }
      var lastTransfer := size == info[sock].size;
      ok := chip.HifReceive(info[sock].address, buffers[sock], size, lastTransfer);
      if ok {
        Moved(i, before, buffers[sock][..], chip.memory, size);
        info := info[sock := info[sock].(head := 0, length := size, address := info[sock].address + size,
                                         size := info[sock].size - size)];
      } else {
        NotMoved(i, before, buffers[sock][..], chip.memory, info[sock].head);
      }
      Refilled(sock, i, info[sock], before, buffers[sock][..], chip.memory, sock in chip.armed, chip.sent[sock],
               consumed[sock], gaveUp[sock]);
      OthersStand(sock);
    }

    /** The socket that the chip's buffer has just been lent to: it had nothing unread,
        and its `recv` is used up. Every other socket stands as before. */
    ghost predicate LentFor(sock: Sock)
      reads this, chip, buffers
    {
      && Shaped() && chip.Balanced() && chip.lent && chip.memory != []
      && info[sock].Empty() && info[sock].Laid(buffers[sock][..], chip.memory) && sock !in chip.armed
      && consumed[sock] <= chip.sent[sock]
      && (if info[sock].InService() then
            Receiving(sock, info[sock]) && !gaveUp[sock] && chip.sent[sock] == consumed[sock] + chip.memory
          else gaveUp[sock])
      && (forall k: Sock {:trigger buffers[k]} {:trigger info[k]} :: k != sock ==> SoundAt(k) && info[k].size == 0)
      && (forall k: Sock :: k in chip.used <==> info[k].state != Invalid)
    }

    /** The receive branch of the event handler, for a buffer with octets in it. */
    method HandleReceive(sock: Sock)
      requires LentFor(sock)
      modifies this`info, this`holder, chip`transfers, chip`lent, chip`releasedCount, buffers[sock]
      ensures Consistent() && info == old(info)[sock := info[sock]] && info[sock].state == old(info[sock].state)
      ensures info[sock].InService() ==> !info[sock].Empty()
      ensures AllGood(old(chip.transfers)) ==> AllGood(chip.transfers)
    {
      hide Apart, Chip.Balanced, AllGood;
      if info[sock].InService() {
        info := info[sock := info[sock].(address := 0, size := |chip.memory|)];
        holder := sock;
        assert Unread(sock) == chip.memory;
        assert SoundAt(sock) && OneHolder();
        forall k: Sock | k != sock ensures SoundAt(k) {
        }
        var _ := FillRecvBuffer(sock);
      } else {
        chip.Flush();
        assert SoundAt(sock) && OneHolder();
        forall k: Sock | k != sock ensures SoundAt(k) {
        }
      }
    }

    /** Gives the chip's buffer back if it is this socket that holds it. */
    method GiveBack(sock: Sock)
      requires Shaped() && chip.Balanced() && OneHolder() && (info[sock].size > 0 ==> info[sock].InService())
      modifies this`info, chip`lent, chip`releasedCount
      ensures Shaped() && chip.Balanced() && OneHolder()
      ensures info == old(info)[sock := old(info[sock]).(size := 0)]
    {
      hide Apart, Chip.Balanced, Info.InService;
      if info[sock].InService() && info[sock].size > 0 {
        info := info[sock := info[sock].(size := 0)];
        chip.Flush();
      }
      assert info[sock] == old(info[sock]).(size := 0);
    }

    /** What `close` does after its look for events, which brings this socket nothing when
        it is called from the event handler: unread octets are given up, and the chip gets
        its buffer back if it is this socket that holds it. */
    method Leave(sock: Sock)
      requires Consistent()
      modifies this`info, this`gaveUp, chip`armed, chip`used, chip`offers, chip`lent, chip`releasedCount
      ensures Consistent() && info == old(info)[sock := info[sock]] && info[sock].state == Invalid
      ensures chip.armed == old(chip.armed) - {sock} && chip.offers == old(chip.offers) - {sock}
      ensures gaveUp == old(gaveUp)[sock := gaveUp[sock]]
      ensures gaveUp[sock] == (old(gaveUp[sock]) || old(!info[sock].Empty()))
    {
      hide Apart, Chip.Balanced, Sound, Info.InService, Info.Empty, Info.Laid;
      assert SoundAt(sock);
      GivenUp(sock, info[sock], buffers[sock][..], chip.memory, sock in chip.armed, chip.sent[sock],
              consumed[sock], gaveUp[sock]);
      gaveUp := gaveUp[sock := gaveUp[sock] || !info[sock].Empty()];
      GiveBack(sock);
      info := info[sock := info[sock].(state := Invalid, parent := -1, hasBuffer := false, length := 0, size := 0)];
      chip.Drop(sock);
      assert SoundAt(sock);
      OthersStand(sock);
    }

    /** What looking for events may change: more octets have arrived for some sockets,
        some have been closed from the other side, and some hold a new connection. */
    twostate predicate Looked()
      requires Shaped() && old(Shaped())
      reads this, chip
    {
      && consumed == old(consumed) && gaveUp == old(gaveUp)
      && |chip.arrivals| <= |old(chip.arrivals)|
      && (AllGood(old(chip.transfers)) ==> AllGood(chip.transfers))
      && (forall k: Sock :: old(chip.sent[k]) <= chip.sent[k])
      && (forall k: Sock :: Followed(k, old(info[k].state)))
      && (forall k: Sock :: old(info[k].state != Invalid && !Awaits(k, info[k])) ==> info[k] == old(info[k]))
    }

    /** A socket whose connection ended has been closed, one that was free may hold a new
        connection, and any other is in the state that it was in. */
    ghost predicate Followed(k: Sock, before: SocketState)
      requires Shaped()
      reads this, chip
    {
      info[k].state == before || info[k].state == Accepted || (info[k].state == Invalid && k in chip.ended)
    }

    /** The moment between the chip's raising an event and its handling. */
    ghost predicate Raised(a: Arrival)
      reads this, chip, buffers
    {
      && Shaped() && chip.Balanced()
      && RememberedBut(a)
      && match a
         case Quiet => Valid()
         case Received(sock, octets) =>
           && (if octets != [] then LentFor(sock) && Awaits(sock, info[sock]) else Ended(sock)) && sock !in chip.armed
           && forall k: Sock :: k != sock ==> (k in chip.armed <==> Awaits(k, info[k]))
         case Failed(sock) =>
           Ended(sock) && forall k: Sock :: k != sock ==> (k in chip.armed <==> Awaits(k, info[k]))
         case Offered(_, child) =>
           && info[child].state == Invalid && OneHolder()
           && EverySound()
           && (forall k: Sock :: k in chip.used <==> info[k].state != Invalid || k == child)
           && (forall k: Sock :: k in chip.armed <==> Awaits(k, info[k]))
    }

    /** What is remembered of the sockets but for the one that the event is for. */
    ghost predicate RememberedBut(a: Arrival)
      requires Shaped()
      reads this, chip
    {
      && (forall k: Sock :: k in chip.ended && !(chip.Ends(a) && k == a.sock) ==> info[k].state == Invalid)
      && (forall k: Sock :: k in chip.offers <==> info[k].state == Accepted || (a.Offered? && k == a.child))
      && (forall k: Sock :: k in chip.offers ==>
            chip.offers[k] == if a.Offered? && k == a.child then a.sock else info[k].parent)
      && (chip.Ends(a) ==> a.sock in chip.ended) && (a.Offered? ==> a.child !in chip.ended)
    }

    twostate lemma StandsRemembered()
      requires old(Shaped()) && Shaped() && old(Remembered())
      requires forall k: Sock :: info[k].state == old(info[k].state) && info[k].parent == old(info[k].parent)
      requires chip.ended == old(chip.ended) && chip.offers == old(chip.offers)
      ensures Remembered()
    {
    }

    twostate lemma StillRemembered(a: Arrival)
      requires old(Shaped()) && Shaped() && old(Remembered()) && info == old(info)
      requires chip.ended ==
        old(chip.ended) + (if chip.Ends(a) then {a.sock} else {}) - (if a.Offered? then {a.child} else {})
      requires chip.offers == if a.Offered? then old(chip.offers)[a.child := a.sock] else old(chip.offers)
      ensures RememberedBut(a)
    {
    }

    /** The `recv` of a socket with nothing unread is used up and brought no octets. */
    ghost predicate Ended(sock: Sock)
      reads this, chip, buffers
    {
      Consistent() && Awaits(sock, info[sock]) && chip.sent[sock] == consumed[sock]
    }

    /** The chip's next event, if it raises one. */
    method TakeEvent() returns (a: Arrival)
      requires Valid()
      modifies chip
      ensures Raised(a) && (AllGood(old(chip.transfers)) ==> AllGood(chip.transfers))
      ensures if a == Quiet then chip.sent == old(chip.sent) && chip.lent == old(chip.lent) else !old(chip.lent)
      ensures if old(chip.arrivals != [] && chip.Raises(chip.arrivals[0])) then
          old(chip.arrivals) == [a] + chip.arrivals
        else a == Quiet && chip.arrivals == old(chip.arrivals)
      ensures a == Quiet ==> chip.armed == old(chip.armed) && chip.used == old(chip.used)
      ensures forall k: Sock :: old(chip.sent[k]) <= chip.sent[k]
      ensures old(chip.ended) - (if a.Offered? then {a.child} else {}) <= chip.ended
    {
      hide Apart, Chip.Balanced, AllGood, Sound, Awaits, Remembered, RememberedBut;
      a := chip.Take();
      StillRemembered(a);
      assert a == Quiet ==> chip.ended == old(chip.ended);
      if a == Quiet {
        StandsRemembered();
        forall k: Sock ensures SoundAt(k) {
          assert old(SoundAt(k));
        }
        return;
      }
      forall k: Sock | !((a.Received? || a.Failed?) && k == a.sock) ensures SoundAt(k) && info[k].size == 0 {
        assert old(SoundAt(k));
        MemoryElsewhere(k, info[k], buffers[k][..], old(chip.memory), chip.memory, k in chip.armed, chip.sent[k],
                        consumed[k], gaveUp[k]);
      }
      if a.Received? || a.Failed? {
        assert old(SoundAt(a.sock));
        UsedUp(a.sock, info[a.sock], buffers[a.sock][..], old(chip.memory), chip.memory, old(chip.sent[a.sock]),
               consumed[a.sock], gaveUp[a.sock]);
        if a.Received? && a.octets != [] {
          assert LentFor(a.sock);
        } else {
          assert chip.sent[a.sock] == old(chip.sent[a.sock]);
          assert Ended(a.sock);
        }
      }
    }

    /** Against the state before: the handling of an event for one socket, which awaited
        octets or was free. */
    twostate predicate Handled(sock: Sock)
      requires Shaped() && old(Shaped())
      reads this, chip
    {
      && consumed == old(consumed) && gaveUp == old(gaveUp)
      && chip.arrivals == old(chip.arrivals) && chip.sent == old(chip.sent) && chip.ended == old(chip.ended)
      && (AllGood(old(chip.transfers)) ==> AllGood(chip.transfers))
      && info == old(info)[sock := info[sock]] && Followed(sock, old(info[sock].state))
      && old(info[sock].state == Invalid || Awaits(sock, info[sock]))
    }

    /** The accept branch of the event handler. */
    method HandleOffer(sock: Sock, child: Sock)
      requires Raised(Offered(sock, child))
      modifies this`info
      ensures Valid() && Handled(child) && info[child].state == Accepted
    {
      hide Apart, Chip.Balanced, Sound, Awaits, AllGood;
      Restate(child, Accepted, sock);
    }

    /** The receive branch, for octets. */
    method HandleOctets(sock: Sock, octets: seq<byte>)
      requires Raised(Received(sock, octets)) && octets != []
      modifies this, chip, buffers
      ensures Valid() && Handled(sock)
    {
      hide Apart, Chip.Balanced, AllGood, AllSound, LentFor;
      HandleReceive(sock);
    }

    /** The receive branch, for a failed or an empty receive: the socket is closed. */
    method HandleEnd(a: Arrival)
      requires chip.Ends(a) && Raised(a)
      modifies this, chip, buffers
      ensures Valid() && Handled(a.sock) && info[a.sock].state == Invalid
    {
      hide Apart, Chip.Balanced, AllGood, AllSound;
      Leave(a.sock);
      assert gaveUp == old(gaveUp);
    }

    /** The chip raises nothing more of its script for now: nothing is left of it, or what
        comes next cannot be raised, or the script itself pauses here. */
    ghost predicate Quieted(before: seq<Arrival>)
      reads chip
    {
      || chip.arrivals == [] || !chip.Raises(chip.arrivals[0])
      || (|chip.arrivals| < |before| && before[|before| - |chip.arrivals| - 1] == Quiet)
    }

    lemma NothingRaised()
      requires Raised(Quiet)
      ensures Valid()
    {
    }

    /** One event, if the chip raises one. */
    method HandleEvent() returns (more: bool)
      requires Valid()
      modifies this, chip, buffers
      ensures Valid() && Looked()
      ensures more ==> |chip.arrivals| < |old(chip.arrivals)| && !old(chip.lent)
      ensures || chip.arrivals == old(chip.arrivals)
              || (old(chip.arrivals) != [] && chip.arrivals == old(chip.arrivals)[1..])
      ensures !more ==> info == old(info) && chip.sent == old(chip.sent) && chip.lent == old(chip.lent)
      ensures !more ==> Quieted(old(chip.arrivals))
      ensures forall k: Sock :: k in old(chip.ended) ==> k in chip.ended || info[k].state == Accepted
    {
      hide Apart, Chip.Balanced, AllGood, AllSound, Remembered, Raised;
      var a := TakeEvent();
      more := a != Quiet;
      match a {
        case Quiet =>
          NothingRaised();
        case Received(sock, octets) =>
          if octets != [] {
            HandleOctets(sock, octets);
          } else {
            HandleEnd(a);
          }
        case Failed(sock) => HandleEnd(a);
        case Offered(sock, child) => HandleOffer(sock, child);
      }
    }

    /** Function `m2m_wifi_handle_events`: all events until the chip raises none. While its
        buffer is lent to any socket, it raises none for any other. */
    method HandleEvents()
      requires Valid()
      modifies this, chip, buffers
      ensures Valid() && Looked()
      ensures old(chip.lent) ==> info == old(info) && chip.sent == old(chip.sent) && chip.lent
      ensures Quieted(old(chip.arrivals))
      ensures |chip.arrivals| <= |old(chip.arrivals)|
      ensures chip.arrivals == old(chip.arrivals)[|old(chip.arrivals)| - |chip.arrivals|..]
    {
      hide Apart, AllSound, AllGood;
      var more := true;
      while more
        invariant Valid() && Looked()
        invariant old(chip.lent) ==> info == old(info) && chip.sent == old(chip.sent) && chip.lent
        invariant chip.arrivals == old(chip.arrivals)[|old(chip.arrivals)| - |chip.arrivals|..]
        invariant !more ==> Quieted(old(chip.arrivals))
        decreases |chip.arrivals|, more
      {
        ghost var sent, states, ended := chip.sent, info, chip.ended;
        assert forall k: Sock :: Followed(k, old(info[k].state));
        more := HandleEvent();
        forall k: Sock ensures old(chip.sent[k]) <= chip.sent[k] && Followed(k, old(info[k].state)) {
          assert old(chip.sent[k]) <= sent[k] <= chip.sent[k];
          assert Followed(k, states[k].state);
        }
      }
    }

    /** Takes up to `size` octets out of the host buffer. */
    method TakeHost(sock: Sock, size: nat) returns (part: seq<byte>)
      requires Consistent() && info[sock].InService()
      modifies this`info, this`consumed
      ensures Consistent() && |part| == Min(size, old(info[sock].length))
      ensures old(Unread(sock)) == part + Unread(sock)
      ensures consumed == old(consumed)[sock := old(consumed[sock]) + part]
      ensures info == old(info)[sock := info[sock]] && info[sock].InService()
      ensures info[sock].state == old(info[sock].state)
      ensures info[sock].length == old(info[sock].length) - |part|
    {
      hide Apart, Chip.Balanced, Info.Unread;
      var toCopy := size;
      if toCopy > info[sock].length {
        toCopy := info[sock].length;
      }
      part := buffers[sock][info[sock].head..info[sock].head + toCopy];
      HostTaken(info[sock], buffers[sock][..], chip.memory, toCopy);
      info := info[sock := info[sock].(head := info[sock].head + toCopy, length := info[sock].length - toCopy)];
      Associative(consumed[sock], part, Unread(sock));
      consumed := consumed[sock := consumed[sock] + part];
      OthersStand(sock);
    }

    /** One turn of the copying loop: at least one octet, unless a transfer fails. */
    method NextPart(sock: Sock, size: nat) returns (ok: bool, part: seq<byte>)
      requires Consistent() && info[sock].InService() && 0 < size <= |Unread(sock)|
      modifies this`info, this`consumed, chip`transfers, chip`lent, chip`releasedCount, buffers[sock]
      ensures Consistent() && (if ok then 0 < |part| <= size else part == [])
      ensures old(Unread(sock)) == part + Unread(sock)
      ensures consumed == old(consumed)[sock := old(consumed[sock]) + part]
      ensures info == old(info)[sock := info[sock]] && info[sock].InService()
      ensures info[sock].state == old(info[sock].state)
      ensures AllGood(old(chip.transfers)) ==> ok && AllGood(chip.transfers)
    {
      hide Apart, Chip.Balanced, Info.Unread, AllGood;
      ok, part := true, [];
      assert SoundAt(sock);
      SomethingUnread(info[sock], buffers[sock][..], chip.memory);
      if info[sock].length == 0 && info[sock].size != 0 {
        ok := FillRecvBuffer(sock);
        if !ok {
          assert Unread(sock) == part + Unread(sock) && consumed[sock] == consumed[sock] + part;
          return;
        }
      }
      part := TakeHost(sock, size);
    }

    /** The loop of `read`: it ends with all octets asked for, or with a transfer that
        failed; the octets are the next unread ones. */
    method CopyOut(sock: Sock, size: nat) returns (bytes: seq<byte>)
      requires Consistent() && info[sock].InService() && size <= |Unread(sock)|
      modifies this`info, this`consumed, chip`transfers, chip`lent, chip`releasedCount, buffers[sock]
      ensures Consistent() && |bytes| <= size
      ensures old(Unread(sock)) == bytes + Unread(sock)
      ensures consumed == old(consumed)[sock := old(consumed[sock]) + bytes]
      ensures info == old(info)[sock := info[sock]] && info[sock].state == old(info[sock].state)
      ensures AllGood(old(chip.transfers)) ==> |bytes| == size && AllGood(chip.transfers)
    {
      hide Apart, AllSound, Unread, AllGood;
      var left := size;
      bytes := [];
      assert Unread(sock) == bytes + Unread(sock) && consumed[sock] == consumed[sock] + bytes;
      while left != 0
        invariant Consistent() && info[sock].InService() && left + |bytes| == size && 0 <= left
        invariant old(Unread(sock)) == bytes + Unread(sock)
        invariant consumed == old(consumed)[sock := old(consumed[sock]) + bytes]
        invariant info == old(info)[sock := info[sock]] && info[sock].state == old(info[sock].state)
        invariant AllGood(old(chip.transfers)) ==> AllGood(chip.transfers)
      {
        var ok, part := NextPart(sock, left);
        Associative(bytes, part, Unread(sock));
        Associative(old(consumed[sock]), bytes, part);
        if !ok {
          assert bytes + part == bytes;
          break;
        }
        left := left - |part|;
        bytes := bytes + part;
      }
    }

    /** Arms the next `recv` of a socket with nothing unread. */
    method Arm(sock: Sock)
      requires Consistent() && Awaits(sock, info[sock])
      requires forall k: Sock :: k != sock ==> (k in chip.armed <==> Awaits(k, info[k]))
      requires Remembered()
      modifies chip`armed
      ensures Valid()
    {
      hide Apart, Chip.Balanced, Sound, Awaits;
      assert SoundAt(sock);
      MayArm(sock, info[sock], buffers[sock][..], chip.memory, sock in chip.armed, chip.sent[sock],
             consumed[sock], gaveUp[sock]);
      chip.Recv(sock);
      OthersStand(sock);
    }

    /** The number of octets that have arrived and were not consumed. */
    method Available(sock: Sock) returns (n: nat)
      requires Valid()
      modifies this, chip, buffers
      ensures Valid() && Looked()
      ensures n == if info[sock].InService() then |Unread(sock)| else 0
    {
      hide Apart, AllSound, AllGood, Info.Unread;
      HandleEvents();
      if !info[sock].InService() {
        return 0;
      }
      n := info[sock].length + info[sock].size;
      LaidAt(sock);
      SomethingUnread(info[sock], buffers[sock][..], chip.memory);
    }

    /** Reads up to `size` octets. `held` is what stands unread when the copying
        begins; the result is the front of it, all that was asked for unless a
        transfer fails. */
    method Read(sock: Sock, size: nat) returns (bytes: seq<byte>, ghost held: seq<byte>)
      requires Valid()
      modifies this, chip, buffers
      ensures Valid() && gaveUp == old(gaveUp)
      ensures forall k: Sock :: old(chip.sent[k]) <= chip.sent[k]
      ensures bytes <= held && old(consumed[sock]) + held <= chip.sent[sock]
      ensures old(info[sock].InService() && !info[sock].Empty()) ==> held == old(Unread(sock))
      ensures held == [] ==> !info[sock].InService() || info[sock].Empty()
      ensures consumed == old(consumed)[sock := old(consumed[sock]) + bytes]
      ensures AllGood(old(chip.transfers)) ==> |bytes| == Min(size, |held|)
    {
      hide Apart, AllSound, Info.Unread, AllGood;
      bytes, held := [], [];
      assert consumed[sock] + bytes == consumed[sock];
      LaidAt(sock);
      SomethingUnread(info[sock], buffers[sock][..], chip.memory);
      HandleEvents();
      if !info[sock].InService() {
        return;
      }
      var avail := Available(sock);
      LaidAt(sock);
      SomethingUnread(info[sock], buffers[sock][..], chip.memory);
      if avail == 0 {
        return;
      }
      held := Unread(sock);
      if old(info[sock].InService() && !info[sock].Empty()) {
        assert old(chip.sent[sock]) <= chip.sent[sock] && |old(chip.sent[sock])| == |chip.sent[sock]|;
        SameRest(consumed[sock], old(Unread(sock)), held);
      }
      bytes := ReadUnread(sock, Min(size, avail));
    }

    /** The rest of `read`, when something is unread. */
    method ReadUnread(sock: Sock, size: nat) returns (bytes: seq<byte>)
      requires Valid() && info[sock].InService() && size <= |Unread(sock)| && !info[sock].Empty()
      modifies this, chip, buffers
      ensures Valid() && gaveUp == old(gaveUp)
      ensures forall k: Sock :: old(chip.sent[k]) <= chip.sent[k]
      ensures bytes <= old(Unread(sock)) && consumed == old(consumed)[sock := old(consumed[sock]) + bytes]
      ensures AllGood(old(chip.transfers)) ==> |bytes| == size
    {
      hide Apart, AllSound, Info.Unread, AllGood;
      LaidAt(sock);
      bytes := CopyOut(sock, size);
      if info[sock].length == 0 && info[sock].size == 0 {
        Arm(sock);
        HandleEvents();
      }
    }

    /** The same, between two calls. */
    method Refill(sock: Sock) returns (ok: bool)
      requires Valid() && info[sock].length == 0 && info[sock].size > 0
      modifies this`info, chip`transfers, chip`lent, chip`releasedCount, buffers[sock]
      ensures Valid() && info[sock].state == old(info[sock].state)
      ensures AllGood(old(chip.transfers)) ==> ok
      ensures if ok then 0 < info[sock].length else info[sock].length == 0 && info[sock].size == old(info[sock].size)
    {
      hide Apart, AllSound, AllGood, Remembered;
      LaidAt(sock);
      ok := FillRecvBuffer(sock);
      StandsRemembered();
    }

    /** The octet that the next read would deliver, or -1. */
    method Peek(sock: Sock) returns (r: int)
      requires Valid()
      modifies this, chip, buffers
      ensures Valid() && consumed == old(consumed) && gaveUp == old(gaveUp)
      ensures forall k: Sock :: old(chip.sent[k]) <= chip.sent[k]
      ensures r != -1 ==> info[sock].InService() && Unread(sock) != [] && r == Unread(sock)[0]
      ensures r == -1 && AllGood(old(chip.transfers)) ==> !info[sock].InService() || Unread(sock) == []
    {
      hide Apart, AllSound, AllGood, Info.Unread;
      HandleEvents();
      if !info[sock].InService() {
        return -1;
      }
      var n := Available(sock);
      if n == 0 {
        return -1;
      }
      r := PeekUnread(sock);
    }

    /** The rest of `peek`, when something is unread. */
    method PeekUnread(sock: Sock) returns (r: int)
      requires Valid() && info[sock].InService() && Unread(sock) != []
      modifies this`info, chip`transfers, chip`lent, chip`releasedCount, buffers[sock]
      ensures Valid() && info[sock].InService()
      ensures if r == -1 then !AllGood(old(chip.transfers)) else Unread(sock) != [] && r == Unread(sock)[0]
    {
      hide Apart, AllSound, AllGood, Info.Unread, Remembered;
      LaidAt(sock);
      SomethingUnread(info[sock], buffers[sock][..], chip.memory);
      if info[sock].length == 0 && info[sock].size != 0 {
        var ok := Refill(sock);
        LaidAt(sock);
        if !ok {
          return -1;
        }
      }
      r := buffers[sock][info[sock].head];
      HeadUnread(info[sock], buffers[sock][..], chip.memory);
    }

    method Close(sock: Sock)
      requires Valid()
      modifies this, chip, buffers
      ensures Valid() && info[sock].state == Invalid && consumed == old(consumed)
      ensures forall k: Sock :: old(chip.sent[k]) <= chip.sent[k]
      ensures forall k: Sock :: k != sock ==> gaveUp[k] == old(gaveUp[k])
    {
      hide Apart, AllSound, AllGood;
      HandleEvents();
      Leave(sock);
    }

    /** Takes a socket that is not in use, whichever the driver picks. */
    method Create(sock: Sock) returns (ok: bool)
      requires Valid()
      modifies this`info, chip`used, chip`ended
      ensures Valid() && (ok <==> old(info[sock].state) == Invalid)
      ensures info == if ok then old(info)[sock := old(info[sock]).(state := Idle, parent := -1)] else old(info)
    {
      hide Apart, Chip.Balanced, Sound, Awaits;
      ok := info[sock].state == Invalid;
      if ok {
        chip.Allot(sock);
        forall k: Sock ensures SoundAt(k) {
          assert old(SoundAt(k));
        }
        Restate(sock, Idle, -1);
      }
    }

    /** A socket that receives nothing changes its state without entering service. */
    method Restate(sock: Sock, state: SocketState, parent: int)
      requires Shaped() && chip.Balanced() && OneHolder() && !Receiving(sock, info[sock])
      requires state != Connected && state != Bound
      requires EverySound()
      modifies this`info
      ensures Shaped() && OneHolder() && info == old(info)[sock := old(info[sock]).(state := state, parent := parent)]
      ensures EverySound()
      ensures !old(Awaits(sock, info[sock])) && !Awaits(sock, info[sock])
    {
      hide Apart, Chip.Balanced, Sound, Awaits, Receiving;
      assert SoundAt(sock);
      OutOfService(sock, info[sock], info[sock].(state := state, parent := parent), buffers[sock][..], chip.memory,
                   sock in chip.armed, chip.sent[sock], consumed[sock], gaveUp[sock]);
      info := info[sock := info[sock].(state := state, parent := parent)];
      forall k: Sock ensures SoundAt(k) {
        assert old(SoundAt(k));
      }
    }

    /** A socket enters service on a new connection, with its first receive unless it is a
        TCP socket that is only bound. */
    method EnterUnarmed(sock: Sock, target: SocketState)
      requires Valid() && info[sock].state != Invalid && !info[sock].InService() && target in {Connected, Bound}
      modifies this`info, this`consumed, this`gaveUp, chip`earlier, chip`sent, chip`ended, chip`offers
      ensures Consistent() && sock !in chip.armed
      ensures chip.ended == old(chip.ended) - {sock} && chip.offers == old(chip.offers) - {sock}
      ensures forall k: Sock :: k != sock ==> (k in chip.armed <==> Awaits(k, info[k]))
      ensures Awaits(sock, info[sock]) <==> target == Connected || sock >= TCP_SOCK_MAX
      ensures info == old(info)[sock := old(info[sock]).(state := target, size := 0)]
      ensures consumed == old(consumed)[sock := []] && chip.sent == old(chip.sent)[sock := []]
      ensures gaveUp == old(gaveUp)[sock := false]
    {
      hide Apart, Chip.Balanced, Sound, Awaits, Receiving, Remembered;
      assert SoundAt(sock);
      Entered(sock, info[sock], buffers[sock][..], chip.memory, sock in chip.armed, chip.sent[sock],
              consumed[sock], gaveUp[sock], target);
      chip.Begin(sock);
      consumed, gaveUp := consumed[sock := []], gaveUp[sock := false];
      info := info[sock := info[sock].(state := target, size := 0)];
      OthersStand(sock);
    }

    method Enter(sock: Sock, target: SocketState)
      requires Valid() && info[sock].state != Invalid && !info[sock].InService() && target in {Connected, Bound}
      modifies this`info, this`consumed, this`gaveUp, chip`earlier, chip`sent, chip`armed, chip`ended, chip`offers
      ensures Valid() && info == old(info)[sock := old(info[sock]).(state := target, size := 0)]
      ensures consumed == old(consumed)[sock := []] && chip.sent == old(chip.sent)[sock := []]
      ensures gaveUp == old(gaveUp)[sock := false]
    {
      hide Apart, AllSound, Awaits, Receiving;
      EnterUnarmed(sock, target);
      assert Remembered();
      if target == Connected || sock >= TCP_SOCK_MAX {
        Arm(sock);
      }
    }

    /** Waits for the answer to a request of a socket that receives nothing meanwhile. */
    method Await(sock: Sock, waits: nat)
      requires Valid() && info[sock].state != Invalid && !info[sock].InService()
      modifies this, chip, buffers
      ensures Valid() && info[sock] == old(info[sock]) && consumed == old(consumed) && gaveUp == old(gaveUp)
      ensures forall k: Sock :: old(chip.sent[k]) <= chip.sent[k]
    {
      hide Apart, AllSound, AllGood;
      for i := 0 to waits
        invariant Valid() && info[sock] == old(info[sock]) && consumed == old(consumed) && gaveUp == old(gaveUp)
        invariant forall k: Sock :: old(chip.sent[k]) <= chip.sent[k]
      {
        ghost var sent := chip.sent;
        HandleEvents();
        forall k: Sock ensures old(chip.sent[k]) <= chip.sent[k] {
          assert old(chip.sent[k]) <= sent[k] <= chip.sent[k];
        }
      }
    }

    /** A socket out of service, or in service without receiving, changes its state. */
    method Become(sock: Sock, state: SocketState)
      requires Valid() && !Receiving(sock, info[sock]) && info[sock].state !in {Invalid, Accepted}
      requires state !in {Invalid, Accepted, Connected, Bound}
      modifies this`info
      ensures Valid() && info == old(info)[sock := old(info[sock]).(state := state)]
    {
      hide Apart, Chip.Balanced, Sound, Awaits;
      Restate(sock, state, info[sock].parent);
    }

    /** Functions `connect` and `bind`, for an idle socket. */
    method Join(sock: Sock, target: SocketState, waits: nat, answered: bool) returns (ok: bool)
      requires Valid() && info[sock].state == Idle && target in {Connected, Bound}
      modifies this, chip, buffers
      ensures Valid() && ok == answered && info[sock].state == if ok then target else Idle
      ensures consumed == if ok then old(consumed)[sock := []] else old(consumed)
      ensures gaveUp == if ok then old(gaveUp)[sock := false] else old(gaveUp)
      ensures forall k: Sock :: k != sock ==> old(chip.sent[k]) <= chip.sent[k]
    {
      hide Apart, AllSound;
      Become(sock, if target == Connected then Connecting else Binding);
      Await(sock, waits);
      ok := answered;
      if ok {
        Enter(sock, target);
      } else {
        Become(sock, Idle);
      }
    }

    /** Function `listen`, for a TCP socket that is bound. */
    method StartListening(sock: Sock, waits: nat, answered: bool) returns (ok: bool)
      requires Valid() && info[sock].state == Bound && sock < TCP_SOCK_MAX
      modifies this, chip, buffers
      ensures Valid() && ok == answered && info[sock].state == if ok then Listening else Idle
      ensures consumed == old(consumed) && gaveUp == old(gaveUp)
      ensures forall k: Sock :: old(chip.sent[k]) <= chip.sent[k]
    {
      hide Apart, AllSound;
      Become(sock, Listen);
      Await(sock, waits);
      ok := answered;
      Become(sock, if ok then Listening else Idle);
    }

    /** The first connection offered to a listening socket enters service. */
    method TakeAccepted(sock: Sock) returns (s: int)
      requires Valid()
      modifies this, chip, buffers
      ensures Valid() && -1 <= s < TCP_SOCK_MAX
      ensures forall k: Sock :: k < TCP_SOCK_MAX && (s < 0 || k < s) ==>
        !(info[k].parent == sock && info[k].state == Accepted)
      ensures s >= 0 ==> info[s].parent == sock && info[s].state == Connected
      ensures forall k: Sock :: k < TCP_SOCK_MAX && old(k in chip.offers && chip.offers[k] == sock) ==> 0 <= s <= k
      ensures consumed == if s < 0 then old(consumed) else old(consumed)[s := []]
      ensures gaveUp == if s < 0 then old(gaveUp) else old(gaveUp)[s := false]
      ensures forall k: Sock :: k != s ==> old(chip.sent[k]) <= chip.sent[k]
    {
      hide Apart, AllSound, AllGood;
      HandleEvents();
      for k := 0 to TCP_SOCK_MAX
        invariant forall j: Sock :: j < k ==> !(info[j].parent == sock && info[j].state == Accepted)
      {
        if info[k].parent == sock && info[k].state == Accepted {
          Enter(k, Connected);
          return k;
        }
      }
      return -1;
    }
  }

  datatype Call =
    | CallCreate(sock: Sock)
    | CallConnect(sock: Sock, waits: nat, answered: bool)
    | CallBind(sock: Sock, waits: nat, answered: bool)
    | CallListen(sock: Sock, waits: nat, answered: bool)
    | CallAccepted(sock: Sock)
    | CallAvailable(sock: Sock)
    | CallPeek(sock: Sock)
    | CallRead(sock: Sock, size: nat)
    | CallClose(sock: Sock)

  /** One call of the application, which keeps what its reads have handed out on the
      present connection of each socket. It connects and binds only an idle socket, and
      listens only on a bound one for TCP. */
  method Perform(sockets: WiFiSocketClass, got: seq<seq<byte>>, call: Call) returns (now: seq<seq<byte>>)
    requires sockets.Valid() && got == sockets.consumed
    modifies sockets, sockets.chip, sockets.buffers
    ensures sockets.Valid() && now == sockets.consumed
    ensures forall k: Sock :: sockets.gaveUp[k] ==> old(sockets.gaveUp[k]) || call == CallClose(k)
  {
    hide WiFiSocketClass.AllSound, Apart;
    now := got;
    match call {
      case CallCreate(sock) => var _ := sockets.Create(sock);
      case CallConnect(sock, waits, answered) =>
        if sockets.info[sock].state == Idle {
          var ok := sockets.Join(sock, Connected, waits, answered);
          now := if ok then got[sock := []] else got;
        }
      case CallBind(sock, waits, answered) =>
        if sockets.info[sock].state == Idle {
          var ok := sockets.Join(sock, Bound, waits, answered);
          now := if ok then got[sock := []] else got;
        }
      case CallListen(sock, waits, answered) =>
        if sockets.info[sock].state == Bound && sock < TCP_SOCK_MAX {
          var _ := sockets.StartListening(sock, waits, answered);
        }
      case CallAccepted(sock) =>
        var s := sockets.TakeAccepted(sock);
        now := if s < 0 then got else got[s := []];
      case CallAvailable(sock) => var _ := sockets.Available(sock);
      case CallPeek(sock) => var _ := sockets.Peek(sock);
      case CallRead(sock, size) =>
        var bytes, _ := sockets.Read(sock, size);
        now := got[sock := got[sock] + bytes];
      case CallClose(sock) => sockets.Close(sock);
    }
  }

  /** A whole run over all sockets of the chip, for any script of arrivals, any pattern of
      failed transfers and any calls. What the reads of a socket handed out on its present
      connection is the front of what the chip sent there, and unless the application
      closes the socket itself exactly the octets still unread are missing from it: when
      the peer has ended the connection, none, and then the socket is closed and free.
      Each time the chip lent its buffer it got it back once, but for a buffer still in
      use, and that is in use by one socket. */
  method Run(arrivals: seq<Arrival>, transfers: seq<bool>, calls: seq<Call>)
    returns (got: seq<seq<byte>>, sockets: WiFiSocketClass)
    ensures sockets.Valid() && |got| == MAX_SOCKET
    ensures var chip := sockets.chip; forall k: Sock ::
      && got[k] <= chip.sent[k] && chip.earlier[k] + chip.sent[k] <= Octets(arrivals, k)
      && (sockets.info[k].InService() || CallClose(k) !in calls ==>
            chip.sent[k] == got[k] + if sockets.info[k].InService() then sockets.Unread(k) else [])
    ensures forall j: Sock, k: Sock :: sockets.info[j].size > 0 && sockets.info[k].size > 0 ==> j == k
    ensures sockets.chip.lentCount ==
            sockets.chip.releasedCount + if exists k: Sock :: sockets.info[k].size > 0 then 1 else 0
    ensures forall k: Sock :: k in sockets.chip.ended ==> sockets.info[k].state == Invalid && k !in sockets.chip.used
  {
    hide WiFiSocketClass.AllSound, Octets, Chip.Balanced;
    var chip := new Chip(arrivals, transfers);
    sockets := new WiFiSocketClass(chip);
    got := seq(MAX_SOCKET, _ => []);
    for i := 0 to |calls|
      invariant fresh(chip) && fresh(sockets) && fresh(sockets.buffers) && sockets.chip == chip
      invariant chip.script == arrivals
      invariant sockets.Valid() && sockets.consumed == got
      invariant forall k: Sock :: sockets.gaveUp[k] ==> CallClose(k) in calls[..i]
    {
      got := Perform(sockets, got, calls[i]);
    }
    Summary(sockets);
  }

  lemma Summary(sockets: WiFiSocketClass)
    requires sockets.Valid()
    ensures var chip := sockets.chip; forall k: Sock ::
      && sockets.consumed[k] <= chip.sent[k] && chip.earlier[k] + chip.sent[k] <= Octets(chip.script, k)
      && (sockets.info[k].InService() || !sockets.gaveUp[k] ==>
            chip.sent[k] == sockets.consumed[k] + if sockets.info[k].InService() then sockets.Unread(k) else [])
    ensures forall j: Sock, k: Sock :: sockets.info[j].size > 0 && sockets.info[k].size > 0 ==> j == k
    ensures sockets.chip.lentCount ==
            sockets.chip.releasedCount + if exists k: Sock :: sockets.info[k].size > 0 then 1 else 0
    ensures forall k: Sock :: k in sockets.chip.ended ==> sockets.info[k].state == Invalid && k !in sockets.chip.used
  {
    hide Octets;
    var chip := sockets.chip;
    forall k: Sock ensures sockets.SoundAt(k) && chip.earlier[k] + chip.sent[k] <= Octets(chip.script, k) {
      var arrived, rest := chip.earlier[k] + chip.sent[k], Octets(chip.arrivals, k);
      assert (arrived + rest)[..|arrived|] == arrived;
    }
    assert chip.lent ==> sockets.info[sockets.holder].size > 0;
  }
}
