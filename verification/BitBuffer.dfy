/** The bit buffer: bits appended one at a time, eight to a byte, most significant first. */
module BitBuffer {
  import opened Octets
  import Modular

  /** n shifted right by k bits. */
  function Shr(n: nat, k: nat): nat {
    if k == 0 then n else Shr(n, k - 1) / 2
  }

  /** The low bits of a number, most significant first. */
  function Field(n: nat, width: nat): (f: seq<bool>)
    ensures |f| == width
  {
    if width == 0 then [] else Field(n / 2, width - 1) + [n % 2 == 1]
  }

  /** The number that bits denote. */
  function Number(bits: seq<bool>): nat {
    if bits == [] then 0 else 2 * Number(bits[..|bits| - 1]) + (if bits[|bits| - 1] then 1 else 0)
  }

  /** A field holds its number modulo the field's range. */
  lemma {:induction false} FieldNumber(n: nat, width: nat)
    ensures Number(Field(n, width)) == n % Modular.Pow(2, width)
  {
    if width > 0 {
      FieldNumber(n / 2, width - 1);
      assert Field(n, width)[..width - 1] == Field(n / 2, width - 1);
      ModOfDouble(n, Modular.Pow(2, width - 1));
    }
  }

  lemma ModOfDouble(n: nat, p: nat)
    requires p > 0
    ensures n % (2 * p) == 2 * (n / 2 % p) + n % 2
  {
    var h := n / 2;
    var q, r := h / p, 2 * (h % p) + n % 2;
    assert n == (2 * p) * q + r by { assert h == p * q + h % p; }
    Modular.ModUnique(n, q, r, 2 * p);
  }

  /** The bits of a byte, most significant first. */
  function OctetBits(o: Octet): (r: seq<bool>)
    ensures |r| == 8 && forall i: nat | i < 8 :: r[i] == Bit(o, 7 - i)
  {
    [o.b7, o.b6, o.b5, o.b4] + [o.b3, o.b2, o.b1, o.b0]
  }

  /** The bits of bytes in order. */
  function Bits(s: seq<Octet>): (r: seq<bool>)
    ensures |r| == 8 * |s|
  {
    if s == [] then [] else OctetBits(s[0]) + Bits(s[1..])
  }

  /** The bytes that bits make up, eight bits each. */
  function Packed(bits: seq<bool>): (s: seq<Octet>)
    requires |bits| % 8 == 0
    ensures Bits(s) == bits
  {
    if bits == [] then []
    else
      var o := Octet(bits[0], bits[1], bits[2], bits[3], bits[4], bits[5], bits[6], bits[7]);
      assert OctetBits(o) == bits[..8];
      [o] + Packed(bits[8..])
  }

  lemma OctetBitsInjective(a: Octet, b: Octet)
    requires OctetBits(a) == OctetBits(b)
    ensures a == b
  {
    var x, y := OctetBits(a), OctetBits(b);
    assert x[0] == y[0] && x[1] == y[1] && x[2] == y[2] && x[3] == y[3];
    assert x[4] == y[4] && x[5] == y[5] && x[6] == y[6] && x[7] == y[7];
  }

  lemma {:induction false} BitsInjective(s: seq<Octet>, t: seq<Octet>)
    requires Bits(s) == Bits(t)
    ensures s == t
  {
    if s != [] {
      var x, y := OctetBits(s[0]), OctetBits(t[0]);
      assert Bits(s)[..8] == x && Bits(s)[8..] == Bits(s[1..]);
      assert Bits(t)[..8] == y && Bits(t)[8..] == Bits(t[1..]);
      OctetBitsInjective(s[0], t[0]);
      BitsInjective(s[1..], t[1..]);
      assert s == [s[0]] + s[1..] && t == [t[0]] + t[1..];
    }
  }

  lemma BitsStep(s: seq<Octet>)
    requires s != []
    ensures Bits(s) == OctetBits(s[0]) + Bits(s[1..])
  {
    hide OctetBits;
  }

  lemma {:induction false} BitsConcat(s: seq<Octet>, t: seq<Octet>)
    ensures Bits(s + t) == Bits(s) + Bits(t)
  {
    hide OctetBits, Bits;
    if s == [] {
      assert s + t == t && |Bits(s)| == 0;
    } else {
      BitsConcat(s[1..], t);
      BitsStep(s);
      BitsStep(s + t);
      assert (s + t)[1..] == s[1..] + t;
    }
  }

  function Digit(bit: bool): nat {
    if bit then 1 else 0
  }

  lemma FieldStep(n: nat, bit: bool, width: nat)
    ensures Field(2 * n + Digit(bit), width + 1) == Field(n, width) + [bit]
  {
    assert (2 * n + Digit(bit)) / 2 == n;
  }

  /** Four digits as a number. */
  function Nibble(a: bool, b: bool, c: bool, d: bool): nat {
    8 * Digit(a) + 4 * Digit(b) + 2 * Digit(c) + Digit(d)
  }

  lemma FieldNibble(n: nat, a: bool, b: bool, c: bool, d: bool, width: nat)
    ensures Field(16 * n + Nibble(a, b, c, d), width + 4) == Field(n, width) + [a, b, c, d]
  {
    hide Field, Digit;
    var n1 := 2 * n + Digit(a);
    var n2 := 2 * n1 + Digit(b);
    var n3 := 2 * n2 + Digit(c);
    FieldStep(n, a, width);
    FieldStep(n1, b, width + 1);
    FieldStep(n2, c, width + 2);
    FieldStep(n3, d, width + 3);
    assert 2 * n3 + Digit(d) == 16 * n + Nibble(a, b, c, d);
    FourMore(Field(n, width), a, b, c, d);
  }

  lemma FourMore(s: seq<bool>, a: bool, b: bool, c: bool, d: bool)
    ensures s + [a] + [b] + [c] + [d] == s + [a, b, c, d]
  {
  }

  lemma OctetField(o: Octet)
    ensures Field(ToInt(o), 8) == OctetBits(o)
  {
    hide Field, Nibble, ToInt, Bit;
    var high := Nibble(o.b7, o.b6, o.b5, o.b4);
    ByDigits(o);
    FieldNibble(0, o.b7, o.b6, o.b5, o.b4, 0);
    FieldNibble(high, o.b3, o.b2, o.b1, o.b0, 4);
    assert Field(0, 0) + [o.b7, o.b6, o.b5, o.b4] == [o.b7, o.b6, o.b5, o.b4];
  }

  lemma ByDigits(o: Octet)
    ensures ToInt(o) == 16 * Nibble(o.b7, o.b6, o.b5, o.b4) + Nibble(o.b3, o.b2, o.b1, o.b0)
  {
  }

  class QRBitBuffer {
    var buffer: seq<Octet>
    var length: nat

    ghost predicate Valid()
      reads this
    {
      && |buffer| == (length + 7) / 8
      && forall i | length <= i < 8 * |buffer| :: !Bits(buffer)[i]
    }

    /** The bits put so far. */
    ghost function Content(): (r: seq<bool>)
      reads this
      requires Valid()
      ensures |r| == length
    {
      Bits(buffer)[..length]
    }

    constructor ()
      ensures Valid() && Content() == []
    {
      buffer, length := [], 0;
    }

    method PutBit(bit: bool)
      requires Valid()
      modifies this
      ensures Valid() && Content() == old(Content()) + [bit]
    {
      hide Bits, WithBit;
      var index := length / 8;
      if |buffer| <= index {
        ZeroByte(buffer);
        buffer := buffer + [ZERO];
      }
      ghost var before := buffer;
      if bit {
        buffer := buffer[index := WithBit(buffer[index], length % 8)];
        SetBit(before, index, length % 8);
      }
      length := length + 1;
    }

    method Put(num: nat, width: nat)
      requires Valid()
      modifies this
      ensures Valid() && Content() == old(Content()) + Field(num, width)
    {
      for i := 0 to width
        invariant Valid() && Content() == old(Content()) + Field(Shr(num, width - i), i)
      {
        PutBit(Shr(num, width - i - 1) % 2 == 1);
      }
    }
  }

  lemma ZeroByte(s: seq<Octet>)
    ensures Bits(s + [ZERO]) == Bits(s) + seq(8, _ => false)
  {
    BitsConcat(s, [ZERO]);
    assert Bits([ZERO]) == OctetBits(ZERO) + Bits([]);
    assert OctetBits(ZERO) == seq(8, _ => false);
  }

  /** The byte or-ed with 0x80 shifted right by k. */
  function WithBit(o: Octet, k: nat): Octet
    requires k < 8
  {
    Octet(o.b7 || k == 0, o.b6 || k == 1, o.b5 || k == 2, o.b4 || k == 3,
          o.b3 || k == 4, o.b2 || k == 5, o.b1 || k == 6, o.b0 || k == 7)
  }

  lemma {:induction false} SetBit(s: seq<Octet>, index: nat, k: nat)
    requires index < |s| && k < 8
    ensures Bits(s[index := WithBit(s[index], k)]) == Bits(s)[8 * index + k := true]
    decreases index
  {
    var t := s[index := WithBit(s[index], k)];
    hide WithBit, OctetBits;
    WithBitBits(s[index], k);
    if index == 0 {
      assert t[1..] == s[1..];
    } else {
      SetBit(s[1..], index - 1, k);
      assert t[1..] == s[1..][index - 1 := WithBit(s[index], k)];
    }
  }

  lemma WithBitBits(o: Octet, k: nat)
    requires k < 8
    ensures OctetBits(WithBit(o, k)) == OctetBits(o)[k := true]
  {
    hide OctetBits;
    var a, b := OctetBits(WithBit(o, k)), OctetBits(o)[k := true];
    forall i: nat | i < 8 ensures a[i] == b[i] {
      assert Bit(WithBit(o, k), 7 - i) == (Bit(o, 7 - i) || i == k);
    }
  }
}
