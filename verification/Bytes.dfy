/**
 Octets, little-endian 16-bit fields and the record lists that the attribute
 protocol packs into one PDU.
 */
module Bytes {

  type byte = x: int | 0 <= x < 256

  type u16 = x: int | 0 <= x < 65536

  function Min(a: int, b: int): int {
    if a < b then a else b
  }

  /** The two octets of a 16-bit field, least significant first. */
  function Le16(x: u16): (s: seq<byte>)
    ensures |s| == 2
  {
    [x % 256, x / 256]
  }

  /** The 16-bit field that starts at octet `at`. */
  function U16At(s: seq<byte>, at: nat): u16
    requires at + 2 <= |s|
  {
    var low: int, high: int := s[at], s[at + 1];
    low + 256 * high
  }

  /** The octets of a list of records, one after the other. */
  function Flat(rs: seq<seq<byte>>): seq<byte> {
    if rs == [] then [] else Flat(rs[..|rs| - 1]) + rs[|rs| - 1]
  }

  /** Cuts a string of octets into records of `n` octets; a short rest is dropped. */
  function Split(s: seq<byte>, n: nat): seq<seq<byte>>
    requires n > 0
  {
    if |s| < n then [] else [s[..n]] + Split(s[n..], n)
  }

  ghost predicate AllOfLength(rs: seq<seq<byte>>, n: nat) {
    forall k :: 0 <= k < |rs| ==> |rs[k]| == n
  }

  lemma {:induction false} FlatFirst(rs: seq<seq<byte>>)
    requires rs != []
    ensures Flat(rs) == rs[0] + Flat(rs[1..])
  {
    if |rs| == 1 {
      assert rs[..0] == [] && rs[1..] == [];
    } else {
      var front := rs[..|rs| - 1];
      FlatFirst(front);
      assert front[1..] == rs[1..][..|rs| - 2];
    }
  }

  lemma {:induction false} FlatConcat(a: seq<seq<byte>>, b: seq<seq<byte>>)
    ensures Flat(a + b) == Flat(a) + Flat(b)
  {
    if b == [] {
      assert a + b == a;
    } else {
      FlatConcat(a, b[..|b| - 1]);
      assert (a + b)[..|a + b| - 1] == a + b[..|b| - 1];
      Associative(Flat(a), Flat(b[..|b| - 1]), b[|b| - 1]);
    }
  }

  /** Cutting a packed list of equally long records gives the records back. */
  lemma {:induction false} SplitFlat(rs: seq<seq<byte>>, n: nat)
    requires n > 0 && AllOfLength(rs, n)
    ensures Split(Flat(rs), n) == rs
    ensures |Flat(rs)| == |rs| * n
  {
    if rs != [] {
      FlatFirst(rs);
      SplitFlat(rs[1..], n);
      var s := Flat(rs);
      assert s[..n] == rs[0] && s[n..] == Flat(rs[1..]);
      assert |rs| * n == n + (|rs| - 1) * n;
    }
  }

  lemma Associative<T>(a: seq<T>, b: seq<T>, c: seq<T>)
    ensures a + b + c == a + (b + c)
  {
  }

  /** Copies `src` to the octets of `dst` from `at` on; `src` has to fit. */
  method CopyInto(dst: array<byte>, at: nat, src: seq<byte>)
    requires at + |src| <= dst.Length
    modifies dst
    ensures dst[..at] == old(dst[..at])
    ensures dst[at..at + |src|] == src
    ensures dst[at + |src|..] == old(dst[at + |src|..])
  {
    for i := 0 to |src|
      invariant dst[..at] == old(dst[..at])
      invariant dst[at..at + i] == src[..i]
      invariant dst[at + i..] == old(dst[at + i..])
    {
      dst[at + i] := src[i];
      assert dst[at..at + i + 1] == dst[at..at + i] + [src[i]];
    }
  }

  /** Appends `src` to the first `length` octets of a response buffer. */
  method Append(buffer: array<byte>, length: nat, src: seq<byte>) returns (newLength: nat)
    requires length + |src| <= buffer.Length
    modifies buffer
    ensures newLength == length + |src|
    ensures buffer[..newLength] == old(buffer[..length]) + src
  {
    CopyInto(buffer, length, src);
    newLength := length + |src|;
    assert buffer[..newLength] == buffer[..length] + buffer[length..newLength];
  }
}
