/**
 The base64 encoder behind the password check of an over-the-air update, against
 section 4 of RFC 4648: three octets are a 24-bit number, written as four digits of
 six bits, and a short last group is filled up with zero bits and marked by `=`.
 */
module Base64 {
  import opened Bytes
  import opened SixBits

  const UPPER: string := "ABCDEFGH" + "IJKLMNOP" + "QRSTUVWXYZ"
  const LOWER: string := "abcdefgh" + "ijklmnop" + "qrstuvwxyz"
  const FIGURES := "0123456789"
  const CODES: string := UPPER + LOWER + FIGURES + "+/="

  /** The digits in the order of their values. */
  function Code(d: nat): char
    requires d < 64
  {
    if d < 26 then 'A' + d as char
    else if d < 52 then 'a' + (d - 26) as char
    else if d < 62 then '0' + (d - 52) as char
    else if d == 62 then '+'
    else '/'
  }

  /** The value of a digit, or 64. */
  function Value(c: char): (d: nat)
    ensures d <= 64
  {
    if 'A' <= c <= 'Z' then c as int - 'A' as int
    else if 'a' <= c <= 'z' then c as int - 'a' as int + 26
    else if '0' <= c <= '9' then c as int - '0' as int + 52
    else if c == '+' then 62
    else if c == '/' then 63
    else 64
  }

  lemma UpperAt(k: nat)
    requires k < 26
    ensures UPPER[k] as int == 'A' as int + k
  {
  }

  lemma LowerAt(k: nat)
    requires k < 26
    ensures LOWER[k] as int == 'a' as int + k
  {
  }

  /** The encoder's string of digits is the alphabet. */
  lemma CodesAt(d: nat)
    requires d < 64
    ensures CODES[d] == Code(d)
  {
    if d < 26 {
      UpperAt(d);
      assert CODES[d] == UPPER[d];
    } else if d < 52 {
      LowerAt(d - 26);
      assert CODES[d] == LOWER[d - 26];
    } else if d < 62 {
      assert CODES[d] == FIGURES[d - 52];
    }
  }

  /** It has 64 different digits, none of them the padding. */
  lemma ValueOfCode(d: nat)
    requires d < 64
    ensures Value(Code(d)) == d && Code(d) != '='
  {
  }

  method Pick(b: nat) returns (c: char)
    requires b < 64
    ensures c == Code(b)
  {
    c := CODES[b];
    CodesAt(b);
  }

  /** The 24-bit number of a group of up to three octets. */
  function Number(s: seq<byte>): (v: nat)
    requires 0 < |s| <= 3
    ensures v < 0x100_0000
  {
    var a: int := s[0];
    var b: int := if |s| > 1 then s[1] else 0;
    var c: int := if |s| > 2 then s[2] else 0;
    a * 65536 + b * 256 + c
  }

  /** One group: as many digits as it has octets plus one, then the padding. */
  function Group(s: seq<byte>): (t: string)
    requires 0 < |s| <= 3
    ensures |t| == 4
  {
    var v := Number(s);
    [Code(v / 262144), Code(v / 4096 % 64),
     if |s| > 1 then Code(v / 64 % 64) else '=',
     if |s| > 2 then Code(v % 64) else '=']
  }

  function Encoded(s: seq<byte>): string {
    if s == [] then [] else if |s| <= 3 then Group(s) else Group(s[..3]) + Encoded(s[3..])
  }

  lemma Digits(v: nat, d0: nat, d1: nat, d2: nat, d3: nat)
    requires d0 < 64 && d1 < 64 && d2 < 64 && d3 < 64
    requires v == d0 * 262144 + d1 * 4096 + d2 * 64 + d3
    ensures v / 262144 == d0 && v / 4096 % 64 == d1 && v / 64 % 64 == d2 && v % 64 == d3
  {
    assert v / 4096 == d0 * 64 + d1;
    assert v / 64 == (d0 * 64 + d1) * 64 + d2;
  }

  /** The masks and shifts of the encoder pick the digits of the 24-bit number. */
  lemma DigitsOfOctets(s: seq<byte>)
    requires 0 < |s| <= 3
    ensures |s| == 1 ==> Group(s) == [Code(FirstDigit(s[0])), Code(SecondDigit(s[0], 0)), '=', '=']
    ensures |s| == 2 ==>
              Group(s) == [Code(FirstDigit(s[0])), Code(SecondDigit(s[0], s[1])), Code(ThirdDigit(s[1], 0)), '=']
    ensures |s| == 3 ==>
              Group(s) == [Code(FirstDigit(s[0])), Code(SecondDigit(s[0], s[1])),
                           Code(ThirdDigit(s[1], s[2])), Code(FourthDigit(s[2]))]
  {
    hide Code, FirstDigit, SecondDigit, ThirdDigit, FourthDigit;
    var a: int := s[0];
    var b: int := if |s| > 1 then s[1] else 0;
    var c: int := if |s| > 2 then s[2] else 0;
    Digits(Number(s), a / 4, a % 4 * 16 + b / 16, b % 16 * 4 + c / 64, c % 64);
  }

  /** Function `base64Encode`. */
  method Base64Encode(s: seq<byte>) returns (out: string)
    ensures out == Encoded(s)
  {
    hide Code, Group, FirstDigit, SecondDigit, ThirdDigit, FourthDigit;
    out := "";
    var i := 0;
    while i < |s|
      invariant 0 <= i
      invariant if i < |s| then out + Encoded(s[i..]) == Encoded(s) else out == Encoded(s)
      decreases |s| - i
    {
      ghost var before := out;
      ghost var rest := s[i..];
      var b := FirstDigit(s[i]);
      var c := Pick(b);
      out := out + [c];
      b := SecondDigit(s[i], 0);
      if i + 1 < |s| {
        b := SecondDigit(s[i], s[i + 1]);
        c := Pick(b);
        out := out + [c];
        b := ThirdDigit(s[i + 1], 0);
        if i + 2 < |s| {
          b := ThirdDigit(s[i + 1], s[i + 2]);
          c := Pick(b);
          out := out + [c];
          b := FourthDigit(s[i + 2]);
          c := Pick(b);
          out := out + [c];
        } else {
          c := Pick(b);
          out := out + [c];
          out := out + "=";
        }
      } else {
        c := Pick(b);
        out := out + [c];
        out := out + "==";
      }
      ghost var group := rest[..Min(3, |rest|)];
      DigitsOfOctets(group);
      assert out == before + Group(group);
      if |rest| <= 3 {
        assert group == rest;
      } else {
        assert rest[3..] == s[i + 3..];
        Associative(before, Group(group), Encoded(rest[3..]));
      }
      i := i + 3;
    }
  }

  /** The octets of a group of four digits. */
  function Ungroup(t: string): seq<byte>
    requires |t| == 4
  {
    var d2, d3 := if t[2] == '=' then 0 else Value(t[2]), if t[3] == '=' then 0 else Value(t[3]);
    var v := Value(t[0]) * 262144 + Value(t[1]) * 4096 + d2 * 64 + d3;
    [v / 65536 % 256] + if t[2] == '=' then [] else [v / 256 % 256] + if t[3] == '=' then [] else [v % 256]
  }

  /** The reference decoder. */
  function Decoded(t: string): seq<byte> {
    if |t| < 4 then [] else Ungroup(t[..4]) + Decoded(t[4..])
  }

  lemma Octets(a: byte, b: byte, c: byte)
    ensures var v: int := a * 65536 + b * 256 + c; v / 65536 % 256 == a && v / 256 % 256 == b && v % 256 == c
  {
    var v: int := a * 65536 + b * 256 + c;
    assert v / 65536 == a && v / 256 == a * 256 + b;
  }

  lemma SameNumber(a: byte, b: byte, c: byte)
    ensures a / 4 * 262144 + (a % 4 * 16 + b / 16) * 4096 + (b % 16 * 4 + c / 64) * 64 + c % 64 ==
            a * 65536 + b * 256 + c
  {
  }

  lemma GroupDecodes(s: seq<byte>)
    requires 0 < |s| <= 3
    ensures Ungroup(Group(s)) == s
  {
    hide Code, Value;
    var a: int := s[0];
    var b: int := if |s| > 1 then s[1] else 0;
    var c: int := if |s| > 2 then s[2] else 0;
    Digits(Number(s), a / 4, a % 4 * 16 + b / 16, b % 16 * 4 + c / 64, c % 64);
    ValueOfCode(a / 4);
    ValueOfCode(a % 4 * 16 + b / 16);
    ValueOfCode(b % 16 * 4 + c / 64);
    ValueOfCode(c % 64);
    SameNumber(a, b, c);
    Octets(a, b, c);
  }

  /** What was encoded comes back, for every string of octets. */
  lemma {:induction false} RoundTrip(s: seq<byte>)
    ensures Decoded(Encoded(s)) == s
  {
    hide Group, Ungroup;
    if 0 < |s| <= 3 {
      GroupDecodes(s);
      assert Group(s)[..4] == Group(s);
    } else if |s| > 3 {
      GroupDecodes(s[..3]);
      RoundTrip(s[3..]);
      assert Encoded(s)[..4] == Group(s[..3]) && Encoded(s)[4..] == Encoded(s[3..]);
    }
  }

  lemma DifferentInputsDiffer(a: seq<byte>, b: seq<byte>)
    requires Encoded(a) == Encoded(b)
    ensures a == b
  {
    RoundTrip(a);
    RoundTrip(b);
  }

  lemma GroupShape(s: seq<byte>, k: nat)
    requires 0 < |s| <= 3 && k < 4
    ensures if k <= |s| then Value(Group(s)[k]) < 64 else Group(s)[k] == '='
  {
    hide Code, Value;
    var v := Number(s);
    ValueOfCode(v / 262144);
    ValueOfCode(v / 4096 % 64);
    ValueOfCode(v / 64 % 64);
    ValueOfCode(v % 64);
  }

  /** How many places of the padding follow the digits of `n` octets. */
  function Padding(n: nat): nat {
    if n % 3 == 0 then 0 else 3 - n % 3
  }

  /** The length, and for every place whether a digit or the padding stands there. */
  lemma {:induction false} Shape(s: seq<byte>)
    ensures |Encoded(s)| == (|s| + 2) / 3 * 4
    ensures forall k :: 0 <= k < |Encoded(s)| ==>
      if k < |Encoded(s)| - Padding(|s|) then Value(Encoded(s)[k]) < 64 else Encoded(s)[k] == '='
  {
    hide Value, Group;
    if 0 < |s| <= 3 {
      forall k: nat | k < 4
        ensures if k <= |s| then Value(Group(s)[k]) < 64 else Group(s)[k] == '='
      {
        GroupShape(s, k);
      }
    } else if |s| > 3 {
      Shape(s[3..]);
      forall k: nat | k < 4
        ensures Value(Group(s[..3])[k]) < 64
      {
        GroupShape(s[..3], k);
      }
      var t := Encoded(s);
      assert Padding(|s|) == Padding(|s| - 3) && Padding(|s|) <= 2 && |Encoded(s[3..])| >= 4;
      assert forall k :: 0 <= k < |t| ==> t[k] == if k < 4 then Group(s[..3])[k] else Encoded(s[3..])[k - 4];
    }
  }

  /** Vectors of RFC 4648, section 10. */
  lemma Vectors()
    ensures Encoded([102]) == "Zg==" && Encoded([102, 111]) == "Zm8=" && Encoded([102, 111, 111]) == "Zm9v"
    ensures Encoded([102, 111, 111, 98, 97, 114]) == "Zm9vYmFy"
  {
    assert [102, 111, 111, 98, 97, 114][..3] == [102, 111, 111];
    assert [102, 111, 111, 98, 97, 114][3..] == [98, 97, 114];
    assert Encoded([98, 97, 114]) == "YmFy";
    assert Encoded([102, 111, 111]) == "Zm9v";
  }
}
