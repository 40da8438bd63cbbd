/**
 How the records of a listing fall into list responses, and which of them arrive: a
 function of the lengths of the records and of the MTU alone.
 */
module AttPaging {
  import opened Bytes
  import opened AttributeTable

  function Lengths(rs: seq<seq<byte>>): (sizes: seq<nat>)
    ensures |sizes| == |rs| && forall k :: 0 <= k < |rs| ==> sizes[k] == |rs[k]|
  {
    seq(|rs|, k requires 0 <= k < |rs| => |rs[k]|)
  }

  /** The record lengths of a list of services, which their UUIDs decide. */
  function ServiceSizes(ss: seq<ServiceInfo>): (sizes: seq<nat>)
    ensures |sizes| == |ss| && forall k :: 0 <= k < |ss| ==> sizes[k] == 4 + |ss[k].uuid|
    ensures RecordSizes(sizes) && Positive(sizes)
  {
    seq(|ss|, k requires 0 <= k < |ss| => 4 + |ss[k].uuid|)
  }

  function CharSizes(cs: seq<CharInfo>): (sizes: seq<nat>)
    ensures |sizes| == |cs| && forall k :: 0 <= k < |cs| ==> sizes[k] == 5 + |cs[k].uuid|
    ensures RecordSizes(sizes) && Positive(sizes)
  {
    seq(|cs|, k requires 0 <= k < |cs| => 5 + |cs[k].uuid|)
  }

  /** Lengths that records of services, of characteristics, or of handles and types can have. */
  predicate RecordSizes(sizes: seq<nat>) {
    forall k :: 0 <= k < |sizes| ==> sizes[k] in {4, 6, 7, 18, 20, 21}
  }

  /** How many records at the front have the length of the first one. */
  function Alike(sizes: seq<nat>): (n: nat)
    requires sizes != []
    ensures 1 <= n <= |sizes|
  {
    if |sizes| > 1 && sizes[1] == sizes[0] then 1 + Alike(sizes[1..]) else 1
  }

  /** How many records the response to a request for all of them takes. */
  function PageCount(sizes: seq<nat>, mtu: nat, header: nat := 2): nat
    requires sizes != [] && header <= mtu && 0 < sizes[0]
  {
    Min(Alike(sizes), (mtu - header) / sizes[0])
  }

  /** How many of `count` records of `size` octets behind the header a client gets: those
      that the length of the response in one octet leaves, but none if it is more than 251. */
  function Left(size: nat, count: nat, header: nat := 2): (n: nat)
    requires size > 0
    ensures n <= count
  {
    var length := (header + size * count) % 256;
    if header <= length <= 251 then
      Fits(size, count, length - header);
      (length - header) / size
    else 0
  }

  function Arriving(sizes: seq<nat>, mtu: nat, header: nat := 2): (n: nat)
    requires sizes != [] && header <= mtu && 0 < sizes[0]
    ensures n <= |sizes|
  {
    Left(sizes[0], PageCount(sizes, mtu, header), header)
  }

  /** Records have octets. */
  predicate Positive(sizes: seq<nat>) {
    forall k :: 0 <= k < |sizes| ==> 0 < sizes[k]
  }

  lemma Product(size: nat, count: nat, most: nat)
    requires count <= most
    ensures size * count <= size * most
  {
  }

  /** How many records of `size` octets fit. */
  lemma Fits(size: nat, count: nat, room: nat)
    requires size > 0
    ensures size * count <= room ==> count <= room / size
    ensures size * count + size > room ==> count >= room / size
  {
    var q := room / size;
    assert size * q <= room < size * (q + 1);
    if count > q {
      Product(size, q + 1, count);
    } else if count < q {
      Product(size, count + 1, q);
    }
  }

  /** Asking again and again for the records behind those that arrived, a client gets
      all of them: none of the responses loses every record on its way. */
  predicate AllArrive(sizes: seq<nat>, mtu: nat, header: nat := 2)
    requires Positive(sizes) && header <= mtu
  {
    sizes == [] ||
    var n := Arriving(sizes, mtu, header);
    n > 0 && AllArrive(sizes[n..], mtu, header)
  }

  lemma OneRecordMore(room: nat, size: nat)
    requires 0 < size <= room
    ensures room / size == (room - size) / size + 1
  {
    var q := (room - size) / size;
    assert size * q <= room - size < size * (q + 1);
    Fits(size, q + 1, room);
  }

  lemma AnyArrive(sizes: seq<nat>, mtu: nat, header: nat := 2)
    requires Positive(sizes) && header <= mtu
    ensures AllArrive(sizes, mtu, header) <==>
            sizes == [] || var n := Arriving(sizes, mtu, header); n > 0 && AllArrive(sizes[n..], mtu, header)
  {
  }

  // ---------- the batch of a response ----------

  lemma {:induction false} AlikeIs(sizes: seq<nat>, n: nat)
    requires 1 <= n <= |sizes| && forall k :: 0 <= k < n ==> sizes[k] == sizes[0]
    ensures n <= Alike(sizes)
    ensures n < |sizes| && sizes[n] != sizes[0] ==> Alike(sizes) == n
  {
    if n > 1 {
      AlikeIs(sizes[1..], n - 1);
    }
  }

  /** The longest batch of records is what `PageCount` says. */
  lemma BatchCount(all: seq<seq<byte>>, taken: seq<seq<byte>>, mtu: nat, header: nat := 2)
    requires IsBatch(all, taken, header, mtu) && all[0] != [] && header <= mtu
    ensures |taken| == PageCount(Lengths(all), mtu, header)
    ensures |Flat(taken)| == |all[0]| * |taken|
  {
    var sizes, n := Lengths(all), |all[0]|;
    SplitFlat(taken, n);
    assert forall k :: 0 <= k < |taken| ==> sizes[k] == |taken[k]|;
    AlikeIs(sizes, |taken|);
    Fits(n, |taken|, mtu - header);
  }

  // ---------- where all records arrive ----------

  /** No response with records has 252 or 253 octets. */
  lemma NoSuchLength(size: nat, count: nat)
    requires size in {4, 6, 7, 18, 20, 21} && 2 + size * count <= 253
    ensures 2 + size * count <= 251
  {
    if size == 4 {
      assert count <= 62;
    } else if size == 18 {
      assert count <= 13;
    } else if size == 6 {
      assert count <= 41;
    } else if size == 7 {
      assert count <= 35;
    } else if size == 20 {
      assert count <= 12;
    } else {
      assert count <= 11;
    }
  }

  /** A response of at most 251 octets arrives with all of its records. */
  lemma ShortArrives(sizes: seq<nat>, mtu: nat, header: nat := 2)
    requires sizes != [] && 0 < sizes[0] <= 21 && header <= 2 && 23 <= mtu
    requires header + sizes[0] * PageCount(sizes, mtu, header) <= 251
    ensures Arriving(sizes, mtu, header) == PageCount(sizes, mtu, header) > 0
  {
    hide Left, Alike;
    Fits(sizes[0], 1, mtu - header);
    LeftAll(sizes[0], PageCount(sizes, mtu, header), header);
  }

  lemma LeftAll(size: nat, count: nat, header: nat)
    requires size > 0 && header + size * count <= 251
    ensures Left(size, count, header) == count
  {
    Fits(size, count, size * count);
  }

  /** Up to an MTU of 253 all records arrive, whatever they are. */
  lemma {:induction false} ArriveUpTo253(sizes: seq<nat>, mtu: nat)
    requires RecordSizes(sizes) && 23 <= mtu <= 253
    ensures AllArrive(sizes, mtu)
  {
    if sizes != [] {
      var count := PageCount(sizes, mtu);
      assert sizes[0] * count <= mtu - 2 by {
        Product(sizes[0], count, (mtu - 2) / sizes[0]);
      }
      NoSuchLength(sizes[0], count);
      ShortArrives(sizes, mtu);
      ArriveUpTo253(sizes[count..], mtu);
    }
  }

  /** Ranges of four octets behind one octet: no response has 251 or 252 octets, and one of
      253 is the first that does not arrive. */
  lemma {:induction false} RangesArrive(sizes: seq<nat>, mtu: nat)
    requires 23 <= mtu <= 252 && forall k :: 0 <= k < |sizes| ==> sizes[k] == 4
    ensures AllArrive(sizes, mtu, 1)
  {
    if sizes != [] {
      var count := PageCount(sizes, mtu, 1);
      assert 4 * count <= mtu - 1;
      assert count <= 62;
      ShortArrives(sizes, mtu, 1);
      RangesArrive(sizes[count..], mtu);
    }
  }

  /** From an MTU of 253 on, 63 ranges do not arrive. */
  lemma RangesLost(sizes: seq<nat>, mtu: nat)
    requires 253 <= mtu && |sizes| == 63 && forall k :: 0 <= k < |sizes| ==> sizes[k] == 4
    ensures !AllArrive(sizes, mtu, 1)
  {
    AlikeIs(sizes, 63);
    assert PageCount(sizes, mtu, 1) == 63 && Left(4, 63, 1) == 0;
  }

  function Total(sizes: seq<nat>): nat {
    if sizes == [] then 0 else sizes[0] + Total(sizes[1..])
  }

  lemma {:induction false} TotalOfAlike(sizes: seq<nat>, n: nat)
    requires sizes != [] && n <= Alike(sizes)
    ensures Total(sizes) == sizes[0] * n + Total(sizes[n..])
  {
    if n > 1 {
      TotalOfAlike(sizes[1..], n - 1);
      assert sizes[1..][n - 1..] == sizes[n..];
      assert sizes[0] * n == sizes[0] + sizes[0] * (n - 1);
    }
  }

  /** Records that together have at most 249 octets all arrive, whatever the MTU. */
  lemma {:induction false} FewArrive(sizes: seq<nat>, mtu: nat)
    requires RecordSizes(sizes) && 23 <= mtu && Total(sizes) <= 249
    ensures AllArrive(sizes, mtu)
  {
    if sizes != [] {
      var count := PageCount(sizes, mtu);
      TotalOfAlike(sizes, count);
      ShortArrives(sizes, mtu);
      FewArrive(sizes[count..], mtu);
    }
  }

  /** Records whose first response has 254 octets do not, above an MTU of 253. */
  lemma NoneOf254(sizes: seq<nat>, n: nat, mtu: nat)
    requires RecordSizes(sizes) && 254 <= mtu && 1 <= n < |sizes| && sizes[0] * n == 252
    requires forall k :: 0 <= k < n ==> sizes[k] == sizes[0]
    requires sizes[n] != sizes[0]
    ensures !AllArrive(sizes, mtu)
  {
    AlikeIs(sizes, n);
    Fits(sizes[0], n, mtu - 2);
    assert PageCount(sizes, mtu) == n && Left(sizes[0], n) == 0;
  }
}
