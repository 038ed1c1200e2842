/** The 24-bit checksum of the text armour. A register is written out as its bits, least significant first. */
module Crc24 {
  import opened Bytes
  import opened Modular
  import opened Sequences

  /** The low bits of a number. */
  function ToBits(n: nat, len: nat): (r: seq<bool>)
    ensures |r| == len
    decreases len
  {
    if len == 0 then [] else [n % 2 == 1] + ToBits(n / 2, len - 1)
  }

  /** The number with the given bits. */
  function FromBits(s: seq<bool>): (n: nat) {
    if s == [] then 0 else (if s[0] then 1 else 0) + 2 * FromBits(s[1..])
  }

  function Xor(a: seq<bool>, b: seq<bool>): (r: seq<bool>)
    requires |a| == |b|
    ensures |r| == |a| && forall i | 0 <= i < |a| :: r[i] == (a[i] != b[i])
  {
    seq(|a|, i requires 0 <= i < |a| => a[i] != b[i])
  }

  const INIT: seq<bool> := ToBits(0xB704CE, 24)
  const POLY: seq<bool> := ToBits(0x864CFB, 24)

  /** One left shift; when bit 24 comes out set, the generator 0x1864CFB is subtracted. */
  function Shift(x: seq<bool>): (r: seq<bool>)
    requires |x| == 24
    ensures |r| == 24
  {
    var y := [false] + x[..23];
    if x[23] then Xor(y, POLY) else y
  }

  function Shifts(x: seq<bool>, n: nat): (r: seq<bool>)
    requires |x| == 24
    ensures |r| == 24
    decreases n
  {
    if n == 0 then x else Shifts(Shift(x), n - 1)
  }

  /** The register with a byte mixed into its top eight bits. */
  function Mix(x: seq<bool>, o: byte): (r: seq<bool>)
    requires |x| == 24
    ensures |r| == 24
  {
    Xor(x, Repeat(false, 16) + ToBits(o, 8))
  }

  /** The register after the bytes of m. */
  function Register(x: seq<bool>, m: seq<byte>): (r: seq<bool>)
    requires |x| == 24
    ensures |r| == 24
    decreases |m|
  {
    if m == [] then x else Register(Shifts(Mix(x, m[0]), 8), m[1..])
  }

  lemma {:induction false} FromBitsBound(s: seq<bool>)
    requires |s| <= 8
    ensures FromBits(s) < 256
  {
    assert forall t: seq<bool> | |t| == 0 :: FromBits(t) < 1;
    assert forall t: seq<bool> | |t| <= 1 :: FromBits(t) < 2;
    assert forall t: seq<bool> | |t| <= 2 :: FromBits(t) < 4;
    assert forall t: seq<bool> | |t| <= 3 :: FromBits(t) < 8;
    assert forall t: seq<bool> | |t| <= 4 :: FromBits(t) < 16;
    assert forall t: seq<bool> | |t| <= 5 :: FromBits(t) < 32;
    assert forall t: seq<bool> | |t| <= 6 :: FromBits(t) < 64;
    assert forall t: seq<bool> | |t| <= 7 :: FromBits(t) < 128;
  }

  /** The register's three bytes, the low one first. */
  function Octets(x: seq<bool>): (r: seq<byte>)
    requires |x| == 24
    ensures |r| == 3
  {
    FromBitsBound(x[..8]);
    FromBitsBound(x[8..16]);
    FromBitsBound(x[16..]);
    [FromBits(x[..8]), FromBits(x[8..16]), FromBits(x[16..])]
  }

  function Checksum(m: seq<byte>): (r: seq<byte>)
    ensures |r| == 3
  {
    Octets(Register(INIT, m))
  }

  method ComputeChecksum(m: seq<byte>) returns (r: seq<byte>)
    ensures r == Checksum(m)
  {
    hide Shift, Mix, ToBits;
    var crc := INIT;
    for k := 0 to |m|
      invariant |crc| == 24 && Register(crc, m[k..]) == Register(INIT, m)
    {
      crc := Mix(crc, m[k]);
      ghost var mixed := crc;
      for i := 0 to 8
        invariant |crc| == 24 && Shifts(crc, 8 - i) == Shifts(mixed, 8)
      {
        crc := Shift(crc);
      }
      assert m[k..][1..] == m[k + 1..];
    }
    r := Octets(crc);
  }

  // ----- one bit at a time -----

  function Step(x: seq<bool>, bit: bool): (r: seq<bool>)
    requires |x| == 24
    ensures |r| == 24
  {
    Shift(x[23 := x[23] != bit])
  }

  function Run(x: seq<bool>, bits: seq<bool>): (r: seq<bool>)
    requires |x| == 24
    ensures |r| == 24
    decreases |bits|
  {
    if bits == [] then x else Run(Step(x, bits[0]), bits[1..])
  }

  function Reverse(s: seq<bool>): (r: seq<bool>)
    ensures |r| == |s| && forall i | 0 <= i < |s| :: r[i] == s[|s| - 1 - i]
  {
    seq(|s|, i requires 0 <= i < |s| => s[|s| - 1 - i])
  }

  /** The bits of the message in the order they are fed in: each byte's most significant bit first. */
  function MessageBits(m: seq<byte>): (r: seq<bool>)
    ensures |r| == 8 * |m|
  {
    if m == [] then [] else Reverse(ToBits(m[0], 8)) + MessageBits(m[1..])
  }

  /** Shifting a register with a word mixed in feeds in the word's top bit and keeps the rest mixed in. */
  lemma Peel(x: seq<bool>, w: seq<bool>)
    requires |x| == |w| == 24
    ensures Shift(Xor(x, w)) == Xor(Step(x, w[23]), [false] + w[..23])
  {
  }

  lemma {:induction false} PeelAll(x: seq<bool>, w: seq<bool>, n: nat)
    requires |x| == |w| == 24 && n <= 24
    ensures Shifts(Xor(x, w), n) == Xor(Run(x, Reverse(w[24 - n..])), Repeat(false, n) + w[..24 - n])
    decreases n
  {
    hide Shift, Step, ToBits, Xor, Repeat, Reverse, Run;
    if n == 0 {
      NothingPeeled(x, w);
    } else {
      Peel(x, w);
      var w' := [false] + w[..23];
      PeelAll(Step(x, w[23]), w', n - 1);
      PeelWord(w, n);
      RunCons(x, w[23], Reverse(w'[25 - n..]));
    }
  }

  lemma NothingPeeled(x: seq<bool>, w: seq<bool>)
    requires |x| == |w| == 24
    ensures Run(x, Reverse(w[24..])) == x && Repeat(false, 0) + w[..24] == w
  {
    assert Reverse(w[24..]) == [];
  }

  lemma RunCons(x: seq<bool>, bit: bool, bits: seq<bool>)
    requires |x| == 24
    ensures Run(x, [bit] + bits) == Run(Step(x, bit), bits)
  {
    hide Step;
    assert ([bit] + bits)[1..] == bits;
  }

  lemma PeelWord(w: seq<bool>, n: nat)
    requires |w| == 24 && 0 < n <= 24
    ensures var w' := [false] + w[..23];
            && Reverse(w[24 - n..]) == [w[23]] + Reverse(w'[25 - n..])
            && Repeat(false, n) + w[..24 - n] == Repeat(false, n - 1) + w'[..25 - n]
  {
    hide Repeat, Reverse;
    var w' := [false] + w[..23];
    var a, b := Reverse(w[24 - n..]), [w[23]] + Reverse(w'[25 - n..]);
    assert |a| == |b| == n;
    forall i | 0 <= i < n ensures a[i] == b[i] {
      assert a[i] == w[23 - i];
      if i > 0 { assert b[i] == w'[24 - i]; }
    }
    assert w'[..25 - n] == [false] + w[..24 - n];
    assert Repeat(false, n) == Repeat(false, n - 1) + [false];
  }

  /** A byte's update is eight bit steps. */
  lemma UpdateIsRun(x: seq<bool>, o: byte)
    requires |x| == 24
    ensures Shifts(Mix(x, o), 8) == Run(x, Reverse(ToBits(o, 8)))
  {
    hide Shift, Shifts, Run, ToBits;
    var w := Repeat(false, 16) + ToBits(o, 8);
    PeelAll(x, w, 8);
    assert w[16..] == ToBits(o, 8);
    var r := Run(x, Reverse(ToBits(o, 8)));
    assert Xor(r, Repeat(false, 8) + w[..16]) == r;
  }

  lemma {:induction false} RunConcat(x: seq<bool>, a: seq<bool>, b: seq<bool>)
    requires |x| == 24
    ensures Run(x, a + b) == Run(Run(x, a), b)
    decreases |a|
  {
    if a == [] {
      assert a + b == b;
    } else {
      RunConcat(Step(x, a[0]), a[1..], b);
      assert (a + b)[1..] == a[1..] + b;
    }
  }

  /** The checksum computed byte by byte is the bit-serial one. */
  lemma {:induction false} RegisterIsRun(x: seq<bool>, m: seq<byte>)
    requires |x| == 24
    ensures Register(x, m) == Run(x, MessageBits(m))
    decreases |m|
  {
    if m != [] {
      var bits := Reverse(ToBits(m[0], 8));
      UpdateIsRun(x, m[0]);
      RunConcat(x, bits, MessageBits(m[1..]));
      RegisterIsRun(Run(x, bits), m[1..]);
    }
  }

  // ----- what the checksum tells apart -----

  lemma PolyOdd()
    ensures POLY[0]
  {
    hide ToBits;
    LowBit(0x864CFB, 24);
  }

  lemma LowBit(n: nat, len: nat)
    requires len > 0
    ensures ToBits(n, len)[0] == (n % 2 == 1)
  {
  }

  /** The low bit of a shifted register tells whether the generator was subtracted, so shifting loses nothing. */
  lemma ShiftInjective(x: seq<bool>, y: seq<bool>)
    requires |x| == |y| == 24 && Shift(x) == Shift(y)
    ensures x == y
  {
    hide ToBits;
    PolyOdd();
    ShiftBits(x);
    ShiftBits(y);
    forall i | 0 <= i < 24
      ensures x[i] == y[i]
    {
      if i < 23 { assert Shift(x)[i + 1] == Shift(y)[i + 1]; } else { assert Shift(x)[0] == Shift(y)[0]; }
    }
  }

  lemma ShiftBits(x: seq<bool>)
    requires |x| == 24
    ensures Shift(x)[0] == x[23]
    ensures forall i | 0 <= i < 23 :: Shift(x)[i + 1] == if x[23] && POLY[i + 1] then !x[i] else x[i]
  {
    hide ToBits, Xor;
    PolyOdd();
    var y := [false] + x[..23];
    assert y[0] == false && forall i | 0 <= i < 23 :: y[i + 1] == x[i];
  }

  lemma StepInjective(x: seq<bool>, y: seq<bool>, bit: bool)
    requires |x| == |y| == 24 && Step(x, bit) == Step(y, bit)
    ensures x == y
  {
    var x', y' := x[23 := x[23] != bit], y[23 := y[23] != bit];
    ShiftInjective(x', y');
    assert forall i | 0 <= i < 24 :: x[i] == if i == 23 then x'[i] != bit else x'[i];
    assert forall i | 0 <= i < 24 :: y[i] == if i == 23 then y'[i] != bit else y'[i];
  }

  lemma {:induction false} RunInjective(x: seq<bool>, y: seq<bool>, bits: seq<bool>)
    requires |x| == |y| == 24 && Run(x, bits) == Run(y, bits)
    ensures x == y
    decreases |bits|
  {
    if bits != [] {
      RunInjective(Step(x, bits[0]), Step(y, bits[0]), bits[1..]);
      StepInjective(x, y, bits[0]);
    }
  }

  /** Registers that come together after j steps agreed on their low 24 - j bits. */
  lemma {:induction false} LowAgree(x: seq<bool>, y: seq<bool>, a: seq<bool>, b: seq<bool>)
    requires |x| == |y| == 24 && |a| == |b| <= 24 && Run(x, a) == Run(y, b)
    ensures x[..24 - |a|] == y[..24 - |a|]
    decreases |a|
  {
    hide Shift, ToBits;
    if a != [] {
      var j := |a|;
      var u, v := Step(x, a[0]), Step(y, b[0]);
      LowAgree(u, v, a[1..], b[1..]);
      var x', y' := x[23 := x[23] != a[0]], y[23 := y[23] != b[0]];
      ShiftBits(x');
      ShiftBits(y');
      assert u[0] == u[..25 - j][0] == v[..25 - j][0] == v[0];
      forall i | 0 <= i < 24 - j
        ensures x[i] == y[i]
      {
        assert u[i + 1] == u[..25 - j][i + 1] == v[..25 - j][i + 1] == v[i + 1];
        assert x[i] == x'[i] && y[i] == y'[i];
        assert Shift(x')[i + 1] == Shift(y')[i + 1];
      }
    }
  }

  /** Up to 24 bits fed into the same register leave different registers when they differ. */
  lemma {:induction false} WindowInjective(x: seq<bool>, a: seq<bool>, b: seq<bool>)
    requires |x| == 24 && |a| == |b| <= 24 && Run(x, a) == Run(x, b)
    ensures a == b
    decreases |a|
  {
    hide Shift, ToBits;
    if a != [] {
      var u, v := Step(x, a[0]), Step(x, b[0]);
      LowAgree(u, v, a[1..], b[1..]);
      assert u[0] == u[..25 - |a|][0] == v[..25 - |a|][0] == v[0];
      ShiftBits(x[23 := x[23] != a[0]]);
      ShiftBits(x[23 := x[23] != b[0]]);
      WindowInjective(u, a[1..], b[1..]);
      assert a == [a[0]] + a[1..] && b == [b[0]] + b[1..];
    }
  }

  lemma {:induction false} ToBitsInjective(m: nat, n: nat, len: nat, bound: nat)
    requires m < bound && n < bound && ToBits(m, len) == ToBits(n, len)
    requires bound <= Pow(2, len)
    ensures m == n
    decreases len
  {
    if len > 0 {
      assert ToBits(m, len)[0] == ToBits(n, len)[0];
      assert ToBits(m, len)[1..] == ToBits(m / 2, len - 1) && ToBits(n, len)[1..] == ToBits(n / 2, len - 1);
      ToBitsInjective(m / 2, n / 2, len - 1, Pow(2, len - 1));
    }
  }

  lemma {:induction false} FromBitsInjective(s: seq<bool>, t: seq<bool>)
    requires |s| == |t| && FromBits(s) == FromBits(t)
    ensures s == t
  {
    if s != [] {
      FromBitsInjective(s[1..], t[1..]);
      assert s == [s[0]] + s[1..] && t == [t[0]] + t[1..];
    }
  }

  lemma {:induction false} MessageBitsInjective(m: seq<byte>, n: seq<byte>)
    requires MessageBits(m) == MessageBits(n)
    ensures m == n
    decreases |m|
  {
    hide ToBits, Reverse;
    assert |MessageBits(m)| == 8 * |m| && |MessageBits(n)| == 8 * |n|;
    if m != [] {
      FirstByte(m);
      FirstByte(n);
      ReverseInjective(ToBits(m[0], 8), ToBits(n[0], 8));
      ToBitsInjective(m[0], n[0], 8, 256);
      MessageBitsInjective(m[1..], n[1..]);
      assert m == [m[0]] + m[1..] && n == [n[0]] + n[1..];
    }
  }

  lemma FirstByte(m: seq<byte>)
    requires m != []
    ensures |MessageBits(m)| >= 8 && MessageBits(m)[..8] == Reverse(ToBits(m[0], 8))
    ensures MessageBits(m)[8..] == MessageBits(m[1..]) && Pow(2, 8) == 256
  {
    hide ToBits, Reverse;
  }

  lemma ReverseInjective(s: seq<bool>, t: seq<bool>)
    requires |s| == |t| && Reverse(s) == Reverse(t)
    ensures s == t
  {
    var n := |s|;
    forall i | 0 <= i < n ensures s[i] == t[i] {
      assert Reverse(s)[n - 1 - i] == Reverse(t)[n - 1 - i];
    }
  }

  lemma OctetsInjective(x: seq<bool>, y: seq<bool>)
    requires |x| == |y| == 24 && Octets(x) == Octets(y)
    ensures x == y
  {
    var s, t := Octets(x), Octets(y);
    assert s[0] == t[0] && s[1] == t[1] && s[2] == t[2];
    FromBitsInjective(x[..8], y[..8]);
    FromBitsInjective(x[8..16], y[8..16]);
    FromBitsInjective(x[16..], y[16..]);
    assert x == x[..8] + x[8..16] + x[16..] && y == y[..8] + y[8..16] + y[16..];
  }

  /** Any two different messages of one length whose bits differ only inside a window of 24 consecutive bits
      have different checksums; a change of one byte, or of three neighbouring bytes, is a special case. */
  lemma BurstDetected(m: seq<byte>, n: seq<byte>, start: nat, width: nat)
    requires |m| == |n| && m != n && width <= 24 && start + width <= 8 * |m|
    requires forall i | 0 <= i < 8 * |m| && !(start <= i < start + width) :: MessageBits(m)[i] == MessageBits(n)[i]
    ensures Checksum(m) != Checksum(n)
  {
    hide ToBits, Run, Register, MessageBits;
    if Checksum(m) == Checksum(n) {
      OctetsInjective(Register(INIT, m), Register(INIT, n));
      RegisterIsRun(INIT, m);
      RegisterIsRun(INIT, n);
      WindowSame(INIT, MessageBits(m), MessageBits(n), start, width);
      MessageBitsInjective(m, n);
      assert false;
    }
  }

  lemma ThreeParts(s: seq<bool>, t: seq<bool>, start: nat, width: nat)
    requires |s| == |t| && start + width <= |s|
    requires forall i | 0 <= i < |s| && !(start <= i < start + width) :: s[i] == t[i]
    ensures var head, tail := s[..start], s[start + width..];
            && s == head + (s[start..start + width] + tail)
            && t == head + (t[start..start + width] + tail)
  {
    var a, b := s[..start], s[start + width..];
    assert s == a + (s[start..start + width] + b);
    assert t[..start] == a;
    assert t[start + width..] == b;
    assert t == t[..start] + (t[start..start + width] + t[start + width..]);
  }

  /** Bits that agree outside a window of 24 and lead a register to the same place are the same. */
  lemma WindowSame(x: seq<bool>, s: seq<bool>, t: seq<bool>, start: nat, width: nat)
    requires |x| == 24 && |s| == |t| && width <= 24 && start + width <= |s| && Run(x, s) == Run(x, t)
    requires forall i | 0 <= i < |s| && !(start <= i < start + width) :: s[i] == t[i]
    ensures s == t
  {
    hide Run;
    var head, tail := s[..start], s[start + width..];
    var a, b := s[start..start + width], t[start..start + width];
    ThreeParts(s, t, start, width);
    RunConcat(x, head, a + tail);
    RunConcat(x, head, b + tail);
    var y := Run(x, head);
    RunConcat(y, a, tail);
    RunConcat(y, b, tail);
    RunInjective(Run(y, a), Run(y, b), tail);
    WindowInjective(y, a, b);
  }

  // ----- the checksum as a remainder -----

  /** The generator 0x1864CFB, its highest coefficient first. */
  const GENERATOR: seq<bool> := Reverse(ToBits(0x1864CFB, 25))

  /** One step of a division: where the highest coefficient is set, the generator is subtracted; then it is taken off. */
  function Divided(s: seq<bool>): (r: seq<bool>)
    requires |s| > 24
    ensures |r| == |s| - 1
  {
    if s[0] then Xor(s[..25], GENERATOR)[1..] + s[25..] else s[1..]
  }

  /** Polynomial long division by the generator: coefficients are taken off from the highest on until 24 are left. */
  function LongDivision(s: seq<bool>): (r: seq<bool>)
    requires |s| >= 24
    ensures |r| == 24
    decreases |s|
  {
    if |s| == 24 then s else LongDivision(Divided(s))
  }

  /** The polynomial of the bits and 24 zeros behind them, with the register added to its highest coefficients. */
  function Dividend(x: seq<bool>, bits: seq<bool>): (r: seq<bool>)
    requires |x| == 24
    ensures |r| == |bits| + 24
  {
    Xor(Reverse(x) + Repeat(false, |bits|), bits + Repeat(false, 24))
  }

  lemma {:induction false} HighBit(n: nat, len: nat)
    requires n < Pow(2, len)
    ensures ToBits(n + Pow(2, len), len + 1) == ToBits(n, len) + [true]
  {
    if len == 0 {
      assert ToBits(0, 0) == [];
      assert ToBits(1, 1) == [true] + ToBits(0, 0);
    } else {
      HighBit(n / 2, len - 1);
      var m := n + Pow(2, len);
      assert m / 2 == n / 2 + Pow(2, len - 1) && m % 2 == n % 2;
    }
  }

  lemma GeneratorBits()
    ensures |GENERATOR| == 25 && GENERATOR[0] && GENERATOR[1..] == Reverse(POLY)
  {
    hide ToBits, Pow;
    Power24();
    HighBit(0x864CFB, 24);
    assert 0x864CFB + 0x1000000 == 0x1864CFB;
    var p := ToBits(0x864CFB, 24) + [true];
    assert ToBits(0x1864CFB, 25) == p;
    forall i | 0 <= i < 24 ensures GENERATOR[1..][i] == Reverse(POLY)[i] { assert p[23 - i] == POLY[23 - i]; }
  }

  lemma Power24()
    ensures Pow(2, 24) == 0x1000000
  {
    hide Pow;
    Power8();
    PowAdd(2, 8, 8);
    PowAdd(2, 16, 8);
  }

  lemma DividendBit(x: seq<bool>, bits: seq<bool>, j: nat)
    requires |x| == 24 && j < |bits| + 24
    ensures Dividend(x, bits)[j] == ((j < 24 && x[23 - j]) != (j < |bits| && bits[j]))
  {
  }

  lemma DividedBit(s: seq<bool>, i: nat)
    requires |s| > 24 && i < |s| - 1
    ensures Divided(s)[i] == (s[i + 1] != (s[0] && i < 24 && POLY[23 - i]))
  {
    hide ToBits;
    GeneratorBits();
    if s[0] && i < 24 { assert GENERATOR[1..][i] == POLY[23 - i]; }
  }

  /** One step of the division is one step of the register. */
  lemma DivisionStep(x: seq<bool>, bits: seq<bool>)
    requires |x| == 24 && bits != []
    ensures Divided(Dividend(x, bits)) == Dividend(Step(x, bits[0]), bits[1..])
  {
    hide ToBits, Dividend, Divided, Shift;
    var s, y := Dividend(x, bits), Step(x, bits[0]);
    var x' := x[23 := x[23] != bits[0]];
    DividendBit(x, bits, 0);
    PolyOdd();
    ShiftBits(x');
    forall i | 0 <= i < |bits| + 23 ensures Divided(s)[i] == Dividend(y, bits[1..])[i] {
      DividedBit(s, i);
      DividendBit(x, bits, i + 1);
      DividendBit(y, bits[1..], i);
      if i < 23 { assert y[(22 - i) + 1] == if x'[23] && POLY[(22 - i) + 1] then !x'[22 - i] else x'[22 - i]; }
    }
  }

  /** The register after some bits is the remainder of their polynomial. */
  lemma {:induction false} RunIsRemainder(x: seq<bool>, bits: seq<bool>)
    requires |x| == 24
    ensures LongDivision(Dividend(x, bits)) == Reverse(Run(x, bits))
    decreases |bits|
  {
    hide Step, Dividend, Divided;
    if bits == [] {
      NoBits(x);
    } else {
      DivisionStep(x, bits);
      RunIsRemainder(Step(x, bits[0]), bits[1..]);
    }
  }

  lemma NoBits(x: seq<bool>)
    requires |x| == 24
    ensures Dividend(x, []) == Reverse(x)
  {
    forall j | 0 <= j < 24 ensures Dividend(x, [])[j] == Reverse(x)[j] { DividendBit(x, [], j); }
  }

  /** The number in three bytes, the low one first. */
  function Number(b: seq<byte>): nat
    requires |b| == 3
  {
    var low: int, middle: int, high: int := b[0], b[1], b[2];
    low + 0x100 * middle + 0x10000 * high
  }

  /** The checksum's bytes, the low one first, are the remainder on division by 0x1864CFB of the message's bits followed by
      24 zeros, with 0xB704CE added to the highest coefficients. */
  lemma ChecksumIsRemainder(m: seq<byte>)
    ensures Reverse(ToBits(Number(Checksum(m)), 24)) == LongDivision(Dividend(ToBits(0xB704CE, 24), MessageBits(m)))
  {
    hide ToBits, Run, Register, MessageBits, LongDivision, Dividend, Octets;
    RegisterIsRun(INIT, m);
    RunIsRemainder(INIT, MessageBits(m));
    OctetsNumber(Register(INIT, m));
  }

  lemma {:induction false} ToFromBits(s: seq<bool>, high: nat)
    ensures ToBits(FromBits(s) + Pow(2, |s|) * high, |s|) == s
  {
    if s != [] {
      ToFromBits(s[1..], high);
      var n := FromBits(s) + Pow(2, |s|) * high;
      var p := Pow(2, |s| - 1);
      assert Pow(2, |s|) * high == 2 * (p * high);
      assert n / 2 == FromBits(s[1..]) + p * high && (n % 2 == 1) == s[0];
    }
  }

  lemma {:induction false} FromBitsConcat(s: seq<bool>, t: seq<bool>)
    ensures FromBits(s + t) == FromBits(s) + Pow(2, |s|) * FromBits(t)
  {
    if s == [] {
      assert s + t == t;
    } else {
      FromBitsConcat(s[1..], t);
      assert (s + t)[1..] == s[1..] + t;
      var p := Pow(2, |s| - 1);
      assert Pow(2, |s|) * FromBits(t) == 2 * (p * FromBits(t));
    }
  }

  lemma OctetsNumber(x: seq<bool>)
    requires |x| == 24
    ensures ToBits(Number(Octets(x)), 24) == x
  {
    hide FromBits, ToBits, Pow;
    var a, b, c := x[..8], x[8..16], x[16..];
    assert x == a + (b + c);
    FromBitsConcat(a, b + c);
    FromBitsConcat(b, c);
    ToFromBits(x, 0);
    Power24();
    assert Pow(2, 8) == 0x100 by { Power8(); }
    assert 0x100 * (FromBits(b) + 0x100 * FromBits(c)) == 0x100 * FromBits(b) + 0x10000 * FromBits(c);
  }

  lemma Power8()
    ensures Pow(2, 8) == 0x100
  {
    assert Pow(2, 4) == 16 by { assert Pow(2, 2) == 4 && Pow(2, 3) == 8; }
    hide Pow;
    PowAdd(2, 4, 4);
  }
}
