/**
 The masks and shifts with which three octets are cut into four digits of six bits,
 and the quotients and remainders that they compute.
 */
module SixBits {
  import opened Bytes

  lemma Quotient4(x: bv8)
    ensures (x / 4) as int == x as int / 4
  {
  }

  lemma Quotient16(x: bv8)
    ensures (x / 16) as int == x as int / 16
  {
  }

  lemma Quotient64(x: bv8)
    ensures (x / 64) as int == x as int / 64
  {
  }

  lemma Remainder4(x: bv8)
    ensures (x % 4) as int == x as int % 4
  {
  }

  lemma Remainder16(x: bv8)
    ensures (x % 16) as int == x as int % 16
  {
  }

  lemma Remainder64(x: bv8)
    ensures (x % 64) as int == x as int % 64
  {
  }

  /** What the encoder takes from the first octet, and from the last. */
  lemma OuterBits(x: bv8)
    ensures ((x & 0xFC) >> 2) as int == x as int / 4
    ensures (x & 0x3F) as int == x as int % 64
  {
    assert (x & 0xFC) >> 2 == x / 4 && x & 0x3F == x % 64;
    Quotient4(x);
    Remainder64(x);
  }

  /** What it takes from two octets that meet in a digit. */
  lemma UpperBits(x: bv8, y: bv8)
    ensures (((x & 0x03) << 4) | ((y & 0xF0) >> 4)) as int == x as int % 4 * 16 + y as int / 16
  {
    var w := ((x & 0x03) << 4) | ((y & 0xF0) >> 4);
    assert w / 16 == x % 4 && w % 16 == y / 16;
    Quotient16(w);
    Remainder16(w);
    Remainder4(x);
    Quotient16(y);
  }

  lemma LowerBits(x: bv8, y: bv8)
    ensures (((x & 0x0F) << 2) | ((y & 0xC0) >> 6)) as int == x as int % 16 * 4 + y as int / 64
  {
    var w := ((x & 0x0F) << 2) | ((y & 0xC0) >> 6);
    assert w / 4 == x % 16 && w % 4 == y / 64;
    Quotient4(w);
    Remainder4(w);
    Remainder16(x);
    Quotient64(y);
  }

  lemma Doubled(b: bv8)
    requires b as int < 128
    ensures (b << 1) as int == b as int * 2 && ((b << 1) | 1) as int == b as int * 2 + 1
  {
  }

  /** The eight bits of an octet. */
  function Bits(x: int): (b: bv8)
    requires 0 <= x < 256
    ensures b as int == x
  {
    if x == 0 then 0
    else
      var b := Bits(x / 2);
      Doubled(b);
      if x % 2 == 0 then b << 1 else (b << 1) | 1
  }

  /** The four digits as the encoder takes them, by masks and shifts. An octet that is
      missing from the last group is 0: it adds no bits to the digit it would share. */
  function FirstDigit(x: byte): (d: nat)
    ensures d == x / 4
  {
    OuterBits(Bits(x));
    ((Bits(x) & 0xFC) >> 2) as nat
  }

  function SecondDigit(x: byte, y: byte): (d: nat)
    ensures d == x % 4 * 16 + y / 16
  {
    UpperBits(Bits(x), Bits(y));
    (((Bits(x) & 0x03) << 4) | ((Bits(y) & 0xF0) >> 4)) as nat
  }

  function ThirdDigit(y: byte, z: byte): (d: nat)
    ensures d == y % 16 * 4 + z / 64
  {
    LowerBits(Bits(y), Bits(z));
    (((Bits(y) & 0x0F) << 2) | ((Bits(z) & 0xC0) >> 6)) as nat
  }

  function FourthDigit(z: byte): (d: nat)
    ensures d == z % 64
  {
    OuterBits(Bits(z));
    (Bits(z) & 0x3F) as nat
  }
}
