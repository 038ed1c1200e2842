/** Base64 as the text armour uses it: the standard encoder, and a decoder that ignores foreign characters. */
module Base64 {
  import opened Wrappers
  import opened Bytes

  predicate IsLetter(c: char) {
    'A' <= c <= 'Z' || 'a' <= c <= 'z' || '0' <= c <= '9' || c == '+' || c == '/'
  }

  function Letter(v: int): (c: char)
    requires 0 <= v < 64
    ensures IsLetter(c) && Sextet(c) == v
  {
    if v < 26 then (v + 'A' as int) as char
    else if v < 52 then (v - 26 + 'a' as int) as char
    else if v < 62 then (v - 52 + '0' as int) as char
    else if v == 62 then '+' else '/'
  }

  function Sextet(c: char): (v: int)
    requires IsLetter(c)
    ensures 0 <= v < 64
  {
    if 'A' <= c <= 'Z' then c as int - 'A' as int
    else if 'a' <= c <= 'z' then c as int - 'a' as int + 26
    else if '0' <= c <= '9' then c as int - '0' as int + 52
    else if c == '+' then 62 else 63
  }

  /** The letters of three bytes. */
  function Group(a: byte, b: byte, c: byte): (s: string)
    ensures |s| == 4 && forall i | 0 <= i < 4 :: IsLetter(s[i])
  {
    [Letter(a / 4), Letter(a % 4 * 16 + b / 16), Letter(b % 16 * 4 + c / 64), Letter(c % 64)]
  }

  /** Three bytes to four letters; one or two bytes at the end are padded. */
  function Encode(b: seq<byte>): (s: string)
    ensures |s| == (|b| + 2) / 3 * 4
    decreases |b|
  {
    if |b| == 0 then ""
    else if |b| == 1 then [Letter(b[0] / 4), Letter(b[0] % 4 * 16), '=', '=']
    else if |b| == 2 then [Letter(b[0] / 4), Letter(b[0] % 4 * 16 + b[1] / 16), Letter(b[1] % 16 * 4), '=']
    else Group(b[0], b[1], b[2]) + Encode(b[3..])
  }

  predicate IsSymbol(c: char) { IsLetter(c) || c == '=' }

  /** The next letter or padding character of s is a padding character. */
  predicate PadNext(s: string) {
    s != "" && (s[0] == '=' || (!IsSymbol(s[0]) && PadNext(s[1..])))
  }

  ghost predicate AreSextets(q: seq<int>) {
    |q| < 4 && forall i | 0 <= i < |q| :: 0 <= q[i] < 64
  }

  /** Decodes s after the sextets q of an unfinished group; None is the "incorrect padding" error. */
  function DecodeFrom(s: string, q: seq<int>): Option<seq<byte>>
    requires AreSextets(q)
    decreases |s|
  {
    if s == "" then if q == [] then Some([]) else None
    else if s[0] == '=' then
      if |q| == 3 then Some([q[0] * 4 + q[1] / 16, q[1] % 16 * 16 + q[2] / 4])
      else if |q| == 2 && PadNext(s[1..]) then Some([q[0] * 4 + q[1] / 16])
      else DecodeFrom(s[1..], q)
    else if !IsLetter(s[0]) then DecodeFrom(s[1..], q)
    else if |q| < 3 then DecodeFrom(s[1..], q + [Sextet(s[0])])
    else
      var v := Sextet(s[0]);
      var rest :- DecodeFrom(s[1..], []);
      Some([q[0] * 4 + q[1] / 16, q[1] % 16 * 16 + q[2] / 4, q[2] % 4 * 64 + v] + rest)
  }

  function Decode(s: string): Option<seq<byte>> {
    DecodeFrom(s, [])
  }

  // ----- round trip -----

  lemma DecodeLetter(c: char, t: string, q: seq<int>)
    requires AreSextets(q) && IsLetter(c) && |q| < 3
    ensures DecodeFrom([c] + t, q) == DecodeFrom(t, q + [Sextet(c)])
  {
    assert ([c] + t)[1..] == t;
  }

  lemma DecodeFourth(c: char, t: string, q: seq<int>)
    requires AreSextets(q) && IsLetter(c) && |q| == 3
    ensures var rest := DecodeFrom(t, []);
            DecodeFrom([c] + t, q) ==
            if rest.None? then None
            else Some([q[0] * 4 + q[1] / 16, q[1] % 16 * 16 + q[2] / 4, q[2] % 4 * 64 + Sextet(c)] + rest.value)
  {
    hide Sextet;
    assert ([c] + t)[1..] == t;
  }

  lemma DecodeTwo(x: char, y: char, t: string)
    requires IsLetter(x) && IsLetter(y)
    ensures DecodeFrom([x, y] + t, []) == DecodeFrom(t, [Sextet(x), Sextet(y)])
  {
    hide DecodeFrom, Sextet, IsLetter;
    DecodeLetter(x, [y] + t, []);
    DecodeLetter(y, t, [Sextet(x)]);
    assert [x] + ([y] + t) == [x, y] + t && [] + [Sextet(x)] == [Sextet(x)];
    assert [Sextet(x)] + [Sextet(y)] == [Sextet(x), Sextet(y)];
  }

  lemma DecodeThree(x: char, y: char, z: char, t: string)
    requires IsLetter(x) && IsLetter(y) && IsLetter(z)
    ensures DecodeFrom([x, y, z] + t, []) == DecodeFrom(t, [Sextet(x), Sextet(y), Sextet(z)])
  {
    hide DecodeFrom, Sextet, IsLetter;
    DecodeTwo(x, y, [z] + t);
    DecodeLetter(z, t, [Sextet(x), Sextet(y)]);
    assert [x, y] + ([z] + t) == [x, y, z] + t;
    assert [Sextet(x), Sextet(y)] + [Sextet(z)] == [Sextet(x), Sextet(y), Sextet(z)];
  }

  /** Three bytes, as four letters in front of t. */
  lemma DecodeGroup(a: byte, b: byte, c: byte, t: string)
    ensures var rest := DecodeFrom(t, []);
            DecodeFrom(Group(a, b, c) + t, []) == if rest.None? then None else Some([a, b, c] + rest.value)
  {
    hide DecodeFrom, Letter, Sextet, IsLetter;
    var p, q, r, v := a / 4, a % 4 * 16 + b / 16, b % 16 * 4 + c / 64, c % 64;
    var x, y, z, w := Letter(p), Letter(q), Letter(r), Letter(v);
    DecodeThree(x, y, z, [w] + t);
    DecodeFourth(w, t, [p, q, r]);
    assert [x, y, z] + ([w] + t) == [x, y, z, w] + t;
    Sextets(a, b, c);
  }

  lemma Sextets(a: byte, b: byte, c: byte)
    ensures var p, q, r, v := a / 4, a % 4 * 16 + b / 16, b % 16 * 4 + c / 64, c % 64;
            p * 4 + q / 16 == a && q % 16 * 16 + r / 4 == b && r % 4 * 64 + v == c
  {
  }

  lemma DecodePadded1(a: byte)
    ensures DecodeFrom([Letter(a / 4), Letter(a % 4 * 16), '=', '='], []) == Some([a])
  {
    var x, y := Letter(a / 4), Letter(a % 4 * 16);
    DecodeTwo(x, y, "==");
    assert [x, y] + "==" == [x, y, '=', '='];
    assert PadNext("==" [1..]);
  }

  lemma DecodePadded2(a: byte, b: byte)
    ensures DecodeFrom([Letter(a / 4), Letter(a % 4 * 16 + b / 16), Letter(b % 16 * 4), '='], []) == Some([a, b])
  {
    var x, y, z := Letter(a / 4), Letter(a % 4 * 16 + b / 16), Letter(b % 16 * 4);
    DecodeThree(x, y, z, "=");
    assert [x, y, z] + "=" == [x, y, z, '='];
  }

  /** Decoding an encoding gives the bytes back. */
  lemma {:induction false} EncodeDecode(b: seq<byte>)
    ensures Decode(Encode(b)) == Some(b)
    decreases |b|
  {
    hide DecodeFrom, Letter, Sextet, IsLetter;
    if |b| == 0 {
      DecodeEmpty();
    } else if |b| == 1 {
      DecodePadded1(b[0]);
      assert b == [b[0]];
    } else if |b| == 2 {
      DecodePadded2(b[0], b[1]);
      assert b == [b[0], b[1]];
    } else {
      EncodeDecode(b[3..]);
      DecodeGroup(b[0], b[1], b[2], Encode(b[3..]));
      assert b == [b[0], b[1], b[2]] + b[3..];
    }
  }

  lemma DecodeEmpty()
    ensures DecodeFrom("", []) == Some([])
  {
  }

  /** An encoding is made of letters and padding, and padding never starts a group of four. */
  lemma {:induction false} EncodeShape(b: seq<byte>, i: nat)
    requires i < |Encode(b)|
    ensures IsSymbol(Encode(b)[i]) && (Encode(b)[i] == '=' ==> i % 4 >= 2)
    decreases |b|
  {
    hide Encode, Letter, IsLetter, Sextet;
    EncodeStep(b);
    if |b| >= 3 {
      if i < 4 {
        GroupShape(Group(b[0], b[1], b[2]), i);
      } else {
        EncodeShape(b[3..], i - 4);
      }
    } else {
      ShortShape(b, i);
    }
  }

  lemma EncodeStep(b: seq<byte>)
    ensures |b| >= 3 ==> Encode(b) == Group(b[0], b[1], b[2]) + Encode(b[3..])
  {
    hide Letter;
  }

  lemma GroupShape(g: string, i: nat)
    requires i < |g| && IsLetter(g[i])
    ensures IsSymbol(g[i]) && g[i] != '='
  {
  }

  lemma ShortShape(b: seq<byte>, i: nat)
    requires |b| < 3 && i < |Encode(b)|
    ensures IsSymbol(Encode(b)[i]) && (Encode(b)[i] == '=' ==> i % 4 >= 2)
  {
    hide Letter;
  }

  // ----- the standard alphabet and groups -----

  const UPPER := "ABCDEFGHIJKLMNOPQRSTUVWXYZ"
  const LOWER := "abcdefghijklmnopqrstuvwxyz"
  const DECIMAL := "0123456789"

  /** The letters are those of table 1 of RFC 4648. */
  lemma LetterTable(v: int)
    requires 0 <= v < 64
    ensures |UPPER| == |LOWER| == 26 && |DECIMAL| == 10
    ensures Letter(v) == if v < 26 then UPPER[v] else if v < 52 then LOWER[v - 26] else if v < 62 then DECIMAL[v - 52]
                         else if v == 62 then '+' else '/'
  {
    if v < 26 { UpperAt(v); } else if v < 52 { LowerAt(v - 26); } else if v < 62 { DecimalAt(v - 52); }
  }

  lemma UpperAt(k: nat)
    requires k < 26
    ensures UPPER[k] as int == 'A' as int + k
  {
  }

  lemma LowerAt(k: nat)
    requires k < 26
    ensures LOWER[k] as int == 'a' as int + k
  {
  }

  lemma DecimalAt(k: nat)
    requires k < 10
    ensures DECIMAL[k] as int == '0' as int + k
  {
  }

  /** Four letters are the base-64 digits of the number that three bytes are in base 256. One or two bytes at the end are
      written as if zeros followed, with padding for the letters that stand for nothing else. */
  lemma GroupNumber(a: byte, b: byte, c: byte)
    ensures var s := Encode([a, b, c]);
            && |s| == 4 && (forall i | 0 <= i < 4 :: IsLetter(s[i]))
            && ((Sextet(s[0]) * 64 + Sextet(s[1])) * 64 + Sextet(s[2])) * 64 + Sextet(s[3]) == (a as int * 256 + b) * 256 + c
    ensures Encode([a]) == Encode([a, 0, 0])[..2] + "==" && Encode([a, b]) == Encode([a, b, 0])[..3] + "="
  {
    hide Letter, Sextet, IsLetter, Encode;
    OneGroup(a, b, c);
    OneGroup(a, 0, 0);
    OneGroup(a, b, 0);
    GroupDigits(a, b, c);
    ShortGroups(a, b);
  }

  lemma GroupDigits(a: int, b: int, c: int)
    requires 0 <= a < 256 && 0 <= b < 256 && 0 <= c < 256
    ensures ((a / 4 * 64 + (a % 4 * 16 + b / 16)) * 64 + (b % 16 * 4 + c / 64)) * 64 + c % 64 == (a * 256 + b) * 256 + c
  {
  }

  lemma ShortGroups(a: byte, b: byte)
    ensures Encode([a]) == Group(a, 0, 0)[..2] + "==" && Encode([a, b]) == Group(a, b, 0)[..3] + "="
  {
    hide Letter, Sextet, IsLetter;
  }

  lemma OneGroup(a: byte, b: byte, c: byte)
    ensures Encode([a, b, c]) == Group(a, b, c)
  {
    hide Letter, Sextet, IsLetter;
    assert [a, b, c][3..] == [] && Encode([]) == "";
  }

  // ----- foreign characters -----

  /** The letters and padding characters of s. */
  function Symbols(s: string): string {
    if s == "" then "" else Kept(s[0]) + Symbols(s[1..])
  }

  function Kept(c: char): string {
    if IsSymbol(c) then [c] else ""
  }

  lemma {:induction false} PadNextSymbols(s: string)
    ensures PadNext(s) == PadNext(Symbols(s))
  {
    if s != "" {
      PadNextSymbols(s[1..]);
      if IsSymbol(s[0]) {
        assert Symbols(s)[0] == s[0] && Symbols(s)[1..] == Symbols(s[1..]);
      } else {
        assert Symbols(s) == Symbols(s[1..]);
      }
    }
  }

  /** The decoder depends on the letters and padding only. */
  lemma {:induction false} DecodeSymbols(s: string, q: seq<int>)
    requires AreSextets(q)
    ensures DecodeFrom(s, q) == DecodeFrom(Symbols(s), q)
    decreases |s|
  {
    if s != "" {
      var t := s[1..];
      PadNextSymbols(t);
      DecodeSymbols(t, q);
      DecodeSymbols(t, []);
      if IsLetter(s[0]) && |q| < 3 { DecodeSymbols(t, q + [Sextet(s[0])]); }
      if IsSymbol(s[0]) {
        assert Symbols(s)[0] == s[0] && Symbols(s)[1..] == Symbols(t);
      } else {
        assert Symbols(s) == Symbols(t);
      }
    }
  }

  lemma {:induction false} SymbolsConcat(s: string, t: string)
    ensures Symbols(s + t) == Symbols(s) + Symbols(t)
    decreases |s|
  {
    hide Kept;
    if s == "" {
      assert s + t == t;
    } else {
      assert (s + t)[1..] == s[1..] + t;
      SymbolsConcat(s[1..], t);
    }
  }

  lemma {:induction false} SymbolsOfSymbols(s: string)
    requires forall i | 0 <= i < |s| :: IsSymbol(s[i])
    ensures Symbols(s) == s
  {
    if s != "" {
      SymbolsOfSymbols(s[1..]);
    }
  }

  /** An encoding followed by one foreign character still decodes. */
  lemma EncodeDecodeTail(b: seq<byte>, c: char)
    requires !IsSymbol(c)
    ensures Decode(Encode(b) + [c]) == Some(b)
  {
    var s := Encode(b);
    forall i | 0 <= i < |s| ensures IsSymbol(s[i]) { EncodeShape(b, i); }
    SymbolsConcat(s, [c]);
    SymbolsOfSymbols(s);
    assert [c][1..] == "" && Symbols([c]) == "" + Symbols("");
    assert Symbols(s + [c]) == s;
    DecodeSymbols(s + [c], []);
    DecodeSymbols(s, []);
    EncodeDecode(b);
  }
}
