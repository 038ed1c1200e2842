/** Base58: a byte string is read as a number, and leading zeros are carried over one by one. */
module Base58 {
  import opened Wrappers
  import opened Bytes
  import opened Modular
  import opened Sequences

  const DECIMAL := "123456789"
  const UPPER_A := "ABCDEFGH"
  const UPPER_J := "JKLMN"
  const UPPER_P := "PQRSTUVWXYZ"
  const LOWER_A := "abcdefghijk"
  const LOWER_M := "mnopqrstuvwxyz"
  const FIRST: string := DECIMAL + UPPER_A + UPPER_J
  const SECOND: string := UPPER_P + LOWER_A + LOWER_M
  const ALPHABET: string := FIRST + SECOND

  datatype Decoded = Raised | NoResult | Result(bytes: seq<byte>)

  // ----- positional numbers -----

  /** The number written by the digits, most significant first. */
  function Value(s: seq<int>, base: nat): int {
    if s == [] then 0 else Value(s[..|s| - 1], base) * base + s[|s| - 1]
  }

  function Digits(n: nat, base: nat): (r: seq<int>)
    requires base >= 2
    ensures |r| >= 1 && IsNumeral(r, base)
  {
    if n < base then [n]
    else
      DivShrinks(n, base);
      Digits(n / base, base) + [n % base]
  }

  lemma DivShrinks(n: int, base: int)
    requires n >= base >= 2
    ensures 0 <= n / base < n && n == n / base * base + n % base
  {
    var q := n / base;
    assert n == q * base + n % base;
    QuotientShrinks(q, base, n % base, n);
  }

  lemma QuotientShrinks(q: int, base: int, r: int, n: int)
    requires base >= 2 && 0 <= r < base <= n && n == q * base + r
    ensures 0 <= q < n
  {
    assert q <= 0 ==> q * base <= 0;
    assert q >= 0 ==> q * base >= q * 2;
  }

  function Zeros(k: nat): (r: seq<int>)
    ensures |r| == k && forall i | 0 <= i < k :: r[i] == 0
  {
    Repeat(0, k)
  }

  ghost predicate IsNumeral(s: seq<int>, base: nat) {
    forall i | 0 <= i < |s| :: 0 <= s[i] < base
  }

  /** From one base to another: the number's digits, behind as many zeros as the input starts with. */
  function Rebase(s: seq<int>, from: nat, to: nat): (r: seq<int>)
    requires to >= 2 && Value(s, from) >= 0
  {
    Zeros(Leading(s, 0)) + Digits(Value(s, from), to)
  }

  lemma {:induction false} ValueDigits(n: nat, base: nat)
    requires base >= 2
    ensures Value(Digits(n, base), base) == n
    ensures n > 0 ==> Digits(n, base)[0] != 0
  {
    if n >= base {
      DivShrinks(n, base);
      ValueDigits(n / base, base);
      var s := Digits(n / base, base);
      assert (s + [n % base])[..|s|] == s;
    } else {
      assert [n][..0] == [];
    }
  }

  lemma {:induction false} ValueNonNegative(s: seq<int>, base: nat)
    requires IsNumeral(s, base)
    ensures Value(s, base) >= 0
    ensures s != [] && s[0] != 0 ==> Value(s, base) > 0
  {
    if s != [] {
      ValueNonNegative(s[..|s| - 1], base);
    }
  }

  lemma {:induction false} DigitsValue(s: seq<int>, base: nat)
    requires base >= 2 && IsNumeral(s, base) && s != [] && s[0] != 0
    ensures Value(s, base) > 0 && Digits(Value(s, base), base) == s
  {
    ValueNonNegative(s, base);
    var t, d := s[..|s| - 1], s[|s| - 1];
    assert s == t + [d];
    var v := Value(t, base);
    if t == [] {
      assert s == [d];
    } else {
      DigitsValue(t, base);
      DivByBase(v, d, base);
    }
  }

  lemma DivByBase(v: int, d: int, base: int)
    requires base >= 2 && 0 <= d < base
    ensures (v * base + d) / base == v && (v * base + d) % base == d
    ensures v > 0 ==> v * base + d >= base
  {
    var n := v * base + d;
    var k := n / base - v;
    assert k >= 1 ==> base * k >= base;
    assert k <= -1 ==> base * k <= base * -1;
    assert n == base * (n / base) + n % base;
    assert base * k == d - n % base;
  }

  lemma {:induction false} ValueZeros(k: nat, s: seq<int>, base: nat)
    ensures Value(Zeros(k) + s, base) == Value(s, base)
  {
    var z := Zeros(k);
    if s != [] {
      ValueZeros(k, s[..|s| - 1], base);
      assert (z + s)[..|z + s| - 1] == z + s[..|s| - 1];
    } else if k > 0 {
      ValueZeros(k - 1, [], base);
      assert z + s == z && z[..k - 1] == Zeros(k - 1) + [];
    }
  }

  lemma {:induction false} LeadingZerosOf(k: nat, s: seq<int>)
    requires s != [] && s[0] != 0
    ensures Leading(Zeros(k) + s, 0) == k
  {
    var t := Zeros(k) + s;
    assert t[k] == s[0];
  }

  lemma ZerosPrefix(s: seq<int>)
    ensures var k := Leading(s, 0); s == Zeros(k) + s[k..]
  {
  }

  ghost predicate HasNonZero(s: seq<int>) {
    exists i | 0 <= i < |s| :: s[i] != 0
  }

  lemma {:induction false} LeadingZerosAll(k: nat)
    ensures Leading(Zeros(k), 0) == k
  {
  }

  /** An all-zero input comes back two digits longer. */
  lemma RebaseZeros(k: nat, from: nat, to: nat)
    requires from >= 2 && to >= 2
    ensures Value(Zeros(k), from) == 0 && Rebase(Zeros(k), from, to) == Zeros(k + 1)
  {
    assert Zeros(k) + [] == Zeros(k);
    ValueZeros(k, [], from);
    LeadingZerosAll(k);
    assert Zeros(k) + [0] == Zeros(k + 1);
  }

  /** A nonzero input keeps its zeros and its number, and comes back unchanged. */
  lemma RebaseNonZero(k: nat, w: seq<int>, from: nat, to: nat)
    requires from >= 2 && to >= 2 && IsNumeral(w, from) && w != [] && w[0] != 0
    ensures var s := Zeros(k) + w;
            Value(s, from) > 0 && Rebase(s, from, to) == Zeros(k) + Digits(Value(s, from), to) &&
            Value(Rebase(s, from, to), to) == Value(s, from) &&
            Rebase(Rebase(s, from, to), to, from) == s
  {
    hide Digits, Value, Leading, Zeros;
    var s := Zeros(k) + w;
    ValueZeros(k, w, from);
    DigitsValue(w, from);
    LeadingZerosOf(k, w);
    var n := Value(w, from);
    var t := Digits(n, to);
    ValueDigits(n, to);
    ValueZeros(k, t, to);
    LeadingZerosOf(k, t);
  }

  /** Converting there and back gives the input again exactly when the input is not all zeros. */
  lemma RebaseRoundTrip(s: seq<int>, from: nat, to: nat)
    requires from >= 2 && to >= 2 && IsNumeral(s, from)
    ensures Value(s, from) >= 0 && Value(Rebase(s, from, to), to) == Value(s, from)
    ensures Rebase(Rebase(s, from, to), to, from) == if HasNonZero(s) then s else Zeros(|s| + 2)
    ensures Rebase(Rebase(s, from, to), to, from) == s <==> HasNonZero(s)
  {
    hide Digits, Value, Rebase;
    var k := Leading(s, 0);
    ZerosPrefix(s);
    if k == |s| {
      assert s == Zeros(k);
      RebaseZeros(k, from, to);
      RebaseZeros(k + 1, to, from);
    } else {
      assert s[k] != 0;
      RebaseNonZero(k, s[k..], from, to);
    }
  }

  // ----- the alphabet -----

  function CharOf(d: int): char
    requires 0 <= d < 58
  {
    ALPHABET[d]
  }

  /** The position of the character in the alphabet, -1 if it is not there. */
  function DigitOf(c: char): (d: int)
    ensures -1 <= d < 58
    ensures d >= 0 ==> CharOf(d) == c
    ensures d == -1 ==> c !in ALPHABET
  {
    Find(ALPHABET, c, 0)
  }

  function Find(s: string, c: char, from: nat): (d: int)
    requires from <= |s|
    ensures d == -1 || from <= d < |s|
    ensures d >= 0 ==> s[d] == c
    ensures d == -1 ==> forall i | from <= i < |s| :: s[i] != c
    decreases |s| - from
  {
    if from == |s| then -1 else if s[from] == c then from else Find(s, c, from + 1)
  }

  lemma FirstRuns(i: int)
    requires 0 <= i < 22
    ensures ALPHABET[i] as int ==
            if i < 9 then '1' as int + i
            else if i < 17 then 'A' as int + (i - 9)
            else 'J' as int + (i - 17)
  {
    assert ALPHABET[i] == FIRST[i];
    if i < 9 {
      assert FIRST[i] == DECIMAL[i];
    } else if i < 17 {
      assert FIRST[i] == UPPER_A[i - 9];
    } else {
      assert FIRST[i] == UPPER_J[i - 17];
    }
  }

  lemma SecondRuns(i: int)
    requires 22 <= i < 58
    ensures ALPHABET[i] as int ==
            if i < 33 then 'P' as int + (i - 22)
            else if i < 44 then 'a' as int + (i - 33)
            else 'm' as int + (i - 44)
  {
    assert ALPHABET[i] == SECOND[i - 22];
    if i < 33 {
      assert SECOND[i - 22] == UPPER_P[i - 22];
    } else if i < 44 {
      assert SECOND[i - 22] == LOWER_A[i - 33];
    } else {
      assert SECOND[i - 22] == LOWER_M[i - 44];
    }
  }

  /** The alphabet in runs of consecutive characters. */
  lemma Runs(i: int)
    requires 0 <= i < 58
    ensures ALPHABET[i] as int ==
            if i < 9 then '1' as int + i
            else if i < 17 then 'A' as int + (i - 9)
            else if i < 22 then 'J' as int + (i - 17)
            else if i < 33 then 'P' as int + (i - 22)
            else if i < 44 then 'a' as int + (i - 33)
            else 'm' as int + (i - 44)
  {
    if i < 22 { FirstRuns(i); } else { SecondRuns(i); }
  }

  lemma AlphabetDistinct(i: int, j: int)
    requires 0 <= i < 58 && 0 <= j < 58 && ALPHABET[i] == ALPHABET[j]
    ensures i == j
  {
    Runs(i);
    Runs(j);
  }

  /** Larger digits have larger characters. */
  lemma AlphabetAscends(i: int, j: int)
    requires 0 <= i < j < 58
    ensures CharOf(i) < CharOf(j)
  {
    Runs(i);
    Runs(j);
  }

  predicate IsAlphanumeric(c: char) {
    '0' <= c <= '9' || 'A' <= c <= 'Z' || 'a' <= c <= 'z'
  }

  /** The alphabet is the digits and letters without 0, O, I and l. */
  lemma AlphabetIs(c: char)
    ensures c in ALPHABET <==> IsAlphanumeric(c) && c != '0' && c != 'O' && c != 'I' && c != 'l'
  {
    hide IsAlphanumeric;
    if IsAlphanumeric(c) && c != '0' && c != 'O' && c != 'I' && c != 'l' { InAlphabet(c); }
    if c in ALPHABET {
      var k :| 0 <= k < 58 && ALPHABET[k] == c;
      FromAlphabet(k);
    }
  }

  lemma InAlphabet(c: char)
    requires IsAlphanumeric(c) && c != '0' && c != 'O' && c != 'I' && c != 'l'
    ensures c in ALPHABET
  {
    hide PlaceOf, IsAlphanumeric;
    var k := PlaceOf(c);
    Runs(k);
    PlaceIs(c);
    Member(ALPHABET, k, c);
  }

  lemma PlaceIs(c: char)
    requires IsAlphanumeric(c) && c != '0' && c != 'O' && c != 'I' && c != 'l'
    ensures var k := PlaceOf(c);
            c as int == if k < 9 then '1' as int + k
                        else if k < 17 then 'A' as int + (k - 9)
                        else if k < 22 then 'J' as int + (k - 17)
                        else if k < 33 then 'P' as int + (k - 22)
                        else if k < 44 then 'a' as int + (k - 33)
                        else 'm' as int + (k - 44)
  {
  }

  lemma Member(s: string, k: int, c: char)
    requires 0 <= k < |s| && s[k] as int == c as int
    ensures c in s
  {
  }

  lemma FromAlphabet(k: int)
    requires 0 <= k < 58
    ensures var c := ALPHABET[k]; IsAlphanumeric(c) && c != '0' && c != 'O' && c != 'I' && c != 'l'
  {
    Runs(k);
  }

  /** Where a character of the alphabet stands. */
  function PlaceOf(c: char): (k: int)
    requires IsAlphanumeric(c) && c != '0' && c != 'O' && c != 'I' && c != 'l'
    ensures 0 <= k < 58
  {
    var n := c as int;
    if c <= '9' then n - '1' as int
    else if c <= 'H' then n - 'A' as int + 9
    else if c <= 'N' then n - 'J' as int + 17
    else if c <= 'Z' then n - 'P' as int + 22
    else if c <= 'k' then n - 'a' as int + 33
    else n - 'm' as int + 44
  }

  function CharsOf(s: seq<int>): (r: string)
    requires IsNumeral(s, 58)
    ensures |r| == |s| && forall i | 0 <= i < |s| :: r[i] == CharOf(s[i])
  {
    seq(|s|, i requires 0 <= i < |s| => CharOf(s[i]))
  }

  function DigitsOf(s: string): (r: seq<int>)
    ensures |r| == |s| && forall i | 0 <= i < |s| :: r[i] == DigitOf(s[i])
  {
    seq(|s|, i requires 0 <= i < |s| => DigitOf(s[i]))
  }

  lemma DigitsOfChars(s: seq<int>)
    requires IsNumeral(s, 58)
    ensures DigitsOf(CharsOf(s)) == s
  {
    forall i | 0 <= i < |s|
      ensures DigitOf(CharOf(s[i])) == s[i]
    {
      AlphabetDistinct(DigitOf(CharOf(s[i])), s[i]);
    }
  }

  // ----- the two operations -----

  function Encode(v: seq<byte>): string {
    ValueNonNegative(v, 256);
    CharsOf(Rebase(v, 256, 58))
  }

  function ToBytes(s: seq<int>): (r: seq<byte>)
    requires IsNumeral(s, 256)
    ensures r == s
  {
    seq(|s|, i requires 0 <= i < |s| => s[i] as byte)
  }

  function Decode(v: string, length: Option<nat>): Decoded {
    var digits := DigitsOf(v);
    if Value(digits, 58) < 0 then Raised
    else
      var r := Rebase(digits, 58, 256);
      if length.Some? && |r| != length.value then NoResult else Result(ToBytes(r))
  }

  /** Decoding an encoding gives the bytes back exactly when they are not all zero; in every case the number
      they stand for survives. */
  lemma EncodeDecode(v: seq<byte>)
    ensures Decode(Encode(v), None) == Result(v) <==> HasNonZero(v)
    ensures Decode(Encode(v), None).Result? && Value(Decode(Encode(v), None).bytes, 256) == Value(v, 256)
    ensures !HasNonZero(v) ==> Decode(Encode(v), None).bytes == Zeros(|v| + 2)
  {
    hide Rebase, DigitsOf, CharsOf, Value;
    ValueNonNegative(v, 256);
    var r := Rebase(v, 256, 58);
    RebaseNumeral(v, 256, 58);
    DigitsOfChars(r);
    RebaseRoundTrip(v, 256, 58);
    RebaseNumeral(r, 58, 256);
    RebaseRoundTrip(r, 58, 256);
  }

  /** With a length asked for, decoding gives what it gives without, or no result where the length is another. */
  lemma DecodeLength(v: string, n: nat)
    ensures var free := Decode(v, None);
            Decode(v, Some(n)) == if free.Result? && |free.bytes| != n then NoResult else free
  {
    hide Rebase, DigitsOf, Value;
  }

  lemma RebaseNumeral(s: seq<int>, from: nat, to: nat)
    requires to >= 2 && Value(s, from) >= 0
    ensures IsNumeral(Rebase(s, from, to), to)
  {
  }

  /** Encoding a decoded string of alphabet characters gives the string back exactly when it is not all '1's. */
  lemma DecodeEncode(s: string)
    requires forall i | 0 <= i < |s| :: s[i] in ALPHABET
    ensures Decode(s, None).Result?
    ensures Encode(Decode(s, None).bytes) == s <==> exists i | 0 <= i < |s| :: s[i] != '1'
  {
    hide Rebase, CharsOf, Value, DigitsOf;
    var d := DigitsOf(s);
    assert IsNumeral(d, 58);
    assert CharsOf(d) == s;
    RebaseRoundTrip(d, 58, 256);
    RebaseNumeral(d, 58, 256);
    var v := Rebase(d, 58, 256);
    ValueNonNegative(v, 256);
    RebaseNumeral(v, 256, 58);
    var e := Rebase(v, 256, 58);
    DigitsOfChars(e);
    DigitsOfChars(d);
    forall i | 0 <= i < |s|
      ensures d[i] != 0 <==> s[i] != '1'
    {
      Runs(d[i]);
    }
  }

  // ----- the loops -----

  lemma {:induction false} ValuePrepend(d: int, s: seq<int>, base: nat)
    ensures Value([d] + s, base) == Pow(base, |s|) * d + Value(s, base)
  {
    if s == [] {
      assert [d][..0] == [];
    } else {
      var t, e := s[..|s| - 1], s[|s| - 1];
      ValuePrepend(d, t, base);
      assert ([d] + s)[..|s|] == [d] + t;
      assert (Pow(base, |t|) * d + Value(t, base)) * base == Pow(base, |s|) * d + Value(t, base) * base;
    }
  }

  method ReadNumber(s: seq<int>, base: nat) returns (n: int)
    ensures n == Value(s, base)
  {
    n := 0;
    var power := 1;
    for i := 0 to |s|
      invariant power == Pow(base, i) && n == Value(s[|s| - i..], base)
    {
      var j := |s| - i - 1;
      ValuePrepend(s[j], s[j + 1..], base);
      assert [s[j]] + s[j + 1..] == s[j..];
      n, power := n + power * s[j], base * power;
    }
    assert s[0..] == s;
  }

  method WriteNumber(n: nat, base: nat) returns (r: seq<int>)
    requires base >= 2
    ensures r == Digits(n, base)
  {
    var rest := n;
    r := [];
    while rest >= base
      invariant rest >= 0 && Digits(rest, base) + r == Digits(n, base)
    {
      DivShrinks(rest, base);
      var div, mod := rest / base, rest % base;
      assert Digits(div, base) + ([mod] + r) == (Digits(div, base) + [mod]) + r;
      r, rest := [mod] + r, div;
    }
    r := [rest] + r;
  }

  method CountLeadingZeros(s: seq<int>) returns (k: nat)
    ensures k == Leading(s, 0)
  {
    k := 0;
    while k < |s| && s[k] == 0
      invariant k <= Leading(s, 0)
    {
      k := k + 1;
    }
  }

  method B58Encode(v: seq<byte>) returns (r: string)
    ensures r == Encode(v)
  {
    ValueNonNegative(v, 256);
    var n := ReadNumber(v, 256);
    var result := WriteNumber(n, 58);
    var nPad := CountLeadingZeros(v);
    r := CharsOf(Zeros(nPad) + result);
  }

  method B58Decode(v: string, length: Option<nat>) returns (r: Decoded)
    ensures r == Decode(v, length)
  {
    var digits := DigitsOf(v);
    var n := ReadNumber(digits, 58);
    if n < 0 { return Raised; }
    var result := WriteNumber(n, 256);
    var nPad := CountLeadingZeros(digits);
    result := Zeros(nPad) + result;
    if length.Some? && |result| != length.value { return NoResult; }
    return Result(ToBytes(result));
  }
}
