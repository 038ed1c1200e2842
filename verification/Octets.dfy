/** Bytes as their eight bits. */
module Octets {
  datatype Octet = Octet(b7: bool, b6: bool, b5: bool, b4: bool, b3: bool, b2: bool, b1: bool, b0: bool)

  const ZERO := Octet(false, false, false, false, false, false, false, false)
  const ONE := Octet(false, false, false, false, false, false, false, true)

  /** Exclusive or, as a program computes it. */
  function BitXor(a: Octet, b: Octet): Octet {
    Octet(a.b7 != b.b7, a.b6 != b.b6, a.b5 != b.b5, a.b4 != b.b4, a.b3 != b.b3, a.b2 != b.b2, a.b1 != b.b1, a.b0 != b.b0)
  }

  /** Bit i, bit 7 being the most significant. */
  function Bit(o: Octet, i: nat): bool
    requires i < 8
  {
    match i
    case 7 => o.b7 case 6 => o.b6 case 5 => o.b5 case 4 => o.b4
    case 3 => o.b3 case 2 => o.b2 case 1 => o.b1 case 0 => o.b0
  }

  ghost predicate IsXor(a: Octet, b: Octet, r: Octet) {
    forall i: nat | i < 8 :: Bit(r, i) == (Bit(a, i) != Bit(b, i))
  }

  /** Exclusive or, as the field's sum: the byte each of whose bits is the exclusive or of theirs. */
  ghost function Xor(a: Octet, b: Octet): Octet {
    BitXorIsXor(a, b);
    var r :| IsXor(a, b, r);
    r
  }

  lemma BitXorIsXor(a: Octet, b: Octet)
    ensures IsXor(a, b, BitXor(a, b))
  {
    hide Bit, BitXor;
    LowBits(a, b);
    HighBits(a, b);
    forall i: nat | i < 8 ensures Bit(BitXor(a, b), i) == (Bit(a, i) != Bit(b, i)) {
      assert i == 0 || i == 1 || i == 2 || i == 3 || i == 4 || i == 5 || i == 6 || i == 7;
    }
  }

  lemma LowBits(a: Octet, b: Octet)
    ensures Bit(BitXor(a, b), 0) == (Bit(a, 0) != Bit(b, 0)) && Bit(BitXor(a, b), 1) == (Bit(a, 1) != Bit(b, 1))
    ensures Bit(BitXor(a, b), 2) == (Bit(a, 2) != Bit(b, 2)) && Bit(BitXor(a, b), 3) == (Bit(a, 3) != Bit(b, 3))
  {
  }

  lemma HighBits(a: Octet, b: Octet)
    ensures Bit(BitXor(a, b), 4) == (Bit(a, 4) != Bit(b, 4)) && Bit(BitXor(a, b), 5) == (Bit(a, 5) != Bit(b, 5))
    ensures Bit(BitXor(a, b), 6) == (Bit(a, 6) != Bit(b, 6)) && Bit(BitXor(a, b), 7) == (Bit(a, 7) != Bit(b, 7))
  {
  }

  lemma SameBits(a: Octet, b: Octet)
    requires forall i: nat | i < 8 :: Bit(a, i) == Bit(b, i)
    ensures a == b
  {
    assert Bit(a, 0) == Bit(b, 0) && Bit(a, 1) == Bit(b, 1) && Bit(a, 2) == Bit(b, 2) && Bit(a, 3) == Bit(b, 3);
    assert Bit(a, 4) == Bit(b, 4) && Bit(a, 5) == Bit(b, 5) && Bit(a, 6) == Bit(b, 6) && Bit(a, 7) == Bit(b, 7);
  }

  lemma XorBit(a: Octet, b: Octet)
    ensures Xor(a, b) == BitXor(a, b)
  {
    hide Bit;
    BitXorIsXor(a, b);
    SameBits(Xor(a, b), BitXor(a, b));
  }

  /** The sum spelled out, everywhere. */
  lemma XorBits()
    ensures forall a, b :: Xor(a, b) == BitXor(a, b)
  {
    forall a, b ensures Xor(a, b) == BitXor(a, b) { XorBit(a, b); }
  }

  function ToInt(o: Octet): (n: int)
    ensures 0 <= n < 256
  {
    (if o.b7 then 128 else 0) + (if o.b6 then 64 else 0) + (if o.b5 then 32 else 0) + (if o.b4 then 16 else 0) +
    (if o.b3 then 8 else 0) + (if o.b2 then 4 else 0) + (if o.b1 then 2 else 0) + (if o.b0 then 1 else 0)
  }

  function FromInt(n: nat): Octet {
    Octet(n / 128 % 2 == 1, n / 64 % 2 == 1, n / 32 % 2 == 1, n / 16 % 2 == 1,
          n / 8 % 2 == 1, n / 4 % 2 == 1, n / 2 % 2 == 1, n % 2 == 1)
  }

  lemma ToIntInjective(a: Octet, b: Octet)
    requires ToInt(a) == ToInt(b)
    ensures a == b
  {
  }

  lemma XorLaws(a: Octet, b: Octet, c: Octet)
    ensures Xor(a, b) == Xor(b, a) && Xor(Xor(a, b), c) == Xor(a, Xor(b, c))
    ensures Xor(a, a) == ZERO && Xor(a, ZERO) == a && (Xor(a, b) == ZERO ==> a == b)
  {
    XorAssociates(a, b, c);
    XorBits();
  }

  lemma XorAssociates(a: Octet, b: Octet, c: Octet)
    ensures Xor(Xor(a, b), c) == Xor(a, Xor(b, c))
  {
    XorBits();
  }
}
