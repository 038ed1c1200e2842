/** Signed messages: a 65-byte signature names its recovery case, and the verifier answers with an address. */
module MessageSigning {
  import opened Wrappers
  import opened Modular
  import opened InverseMod
  import opened Curve
  import opened AbelianGroup
  import opened CurveGroup
  import opened ScalarMul
  import opened Ecdsa
  import opened Base58
  import opened Bytes

  /** The hash functions, left uninterpreted: RIPEMD160(SHA256(.)), and the first four bytes of the double SHA256. */
  datatype Hashes = Hashes(hash160: seq<byte> -> seq<byte>, checksum: seq<byte> -> seq<byte>)

  ghost predicate ValidHashes(h: Hashes) {
    (forall s :: |h.hash160(s)| == 20) && (forall s :: |h.checksum(s)| == 4)
  }

  /** x as a fixed number of bytes, most significant first. */
  function BigEndian(x: nat, length: nat): (r: seq<byte>)
    ensures |r| == length
  {
    if length == 0 then [] else BigEndian(x / 256, length - 1) + [x % 256]
  }

  function Address(h: Hashes, key: seq<byte>, version: byte): string {
    var payload := [version] + h.hash160(key);
    Encode(payload + h.checksum(payload))
  }

  /** The public key's constructor checks. */
  predicate KeyAccepted(c: Curve, G: Point, Q: Point)
    requires c.p > 0
  {
    G.Affine? && G.order != 0 && Mul(c, Q, G.order) == Some(Infinity) &&
    Q.Affine? && 0 <= Q.x < G.order && 0 <= Q.y < G.order
  }

  function Serialize(x: nat, y: nat, compressed: bool): seq<byte> {
    if compressed then [if y % 2 == 1 then 3 else 2] + BigEndian(x, 32)
    else [4] + BigEndian(x, 32) + BigEndian(y, 32)
  }

  /** The address that a signature of the hash speaks for; None when the program raises. */
  function VerifyMessage(c: Curve, G: Point, h: Hashes, sig: seq<byte>, hash: int, version: int): Option<string>
    requires c.p > 0
  {
    if |sig| != 65 || sig[0] < 27 || sig[0] >= 35 || version < 0 || version >= 256 then None
    else
      var compressed := sig[0] >= 31;
      var recid := if compressed then sig[0] - 31 else sig[0] - 27;
      var Q :- Recover(c, G, recid, Signature(Value(sig[1..33], 256), Value(sig[33..65], 256)), hash);
      if KeyAccepted(c, G, Q) then Some(Address(h, Serialize(Q.x, Q.y, compressed), version)) else None
  }

  datatype Signed = Signed(sig: Signature, address: string, compressed: bool)

  /** Signs and checks the signature; a 33-byte secret asks for a compressed key. */
  function SignMessage(c: Curve, G: Point, h: Hashes, secret: seq<byte>, hash: int, randomK: int): Option<Signed>
    requires c.p > 0
  {
    if |secret| != 32 && |secret| != 33 then None
    else
      var compressed := |secret| == 33;
      var d := Value(secret[..32], 256);
      var Q :- Mul(c, G, d);
      if !KeyAccepted(c, G, Q) then None
      else
        var sig :- Sign(c, G, d, hash, randomK);
        var ok :- Verify(c, G, Q, hash, sig);
        if !ok then None else Some(Signed(sig, Address(h, Serialize(Q.x, Q.y, compressed), 0), compressed))
  }

  /** The signature bytes for the i-th recovery case. */
  function SignatureBytes(s: Signed, i: nat): seq<byte>
    requires i < 4 && s.sig.r >= 0 && s.sig.s >= 0
  {
    [27 + i + if s.compressed then 4 else 0] + BigEndian(s.sig.r, 32) + BigEndian(s.sig.s, 32)
  }

  function NetworkVersion(address: string): int {
    match Decode(address, None)
    case Result(b) => Value(b, 256) / Pow(256, 24)
    case _ => -1
  }

  /** The first recovery case from i on under which the signature speaks for its own address. */
  function FirstCase(c: Curve, G: Point, h: Hashes, s: Signed, hash: int, i: nat): Option<seq<byte>>
    requires c.p > 0
    decreases 4 - i
  {
    if i >= 4 || s.sig.r < 0 || s.sig.s < 0 then None
    else if VerifyMessage(c, G, h, SignatureBytes(s, i), hash, NetworkVersion(s.address)) == Some(s.address)
    then Some(SignatureBytes(s, i))
    else FirstCase(c, G, h, s, hash, i + 1)
  }

  method SignMessageBitcoin(c: Curve, G: Point, h: Hashes, secret: seq<byte>, hash: int, randomK: int)
    returns (r: Option<(string, seq<byte>)>)
    requires c.p > 0
    ensures var s := SignMessage(c, G, h, secret, hash, randomK);
            r.Some? <==> s.Some? && FirstCase(c, G, h, s.value, hash, 0).Some?
    ensures r.Some? ==> var s := SignMessage(c, G, h, secret, hash, randomK).value;
                        r.value == (s.address, FirstCase(c, G, h, s, hash, 0).value)
    ensures r.Some? ==> VerifyMessage(c, G, h, r.value.1, hash, NetworkVersion(r.value.0)) == Some(r.value.0)
  {
    hide VerifyMessage, SignMessage, SignatureBytes, NetworkVersion;
    var s := SignMessage(c, G, h, secret, hash, randomK);
    if s.None? || s.value.sig.r < 0 || s.value.sig.s < 0 { return None; }
    for i := 0 to 4
      invariant FirstCase(c, G, h, s.value, hash, 0) == FirstCase(c, G, h, s.value, hash, i)
    {
      var bytes := SignatureBytes(s.value, i);
      if VerifyMessage(c, G, h, bytes, hash, NetworkVersion(s.value.address)) == Some(s.value.address) {
        return Some((s.value.address, bytes));
      }
    }
    return None;
  }

  // ----- an unreduced, negative y never leaves a multiplication -----

  ghost predicate NonNegative(P: Point) {
    P.Affine? ==> P.y >= 0
  }

  lemma AddNonNegative(c: Curve, P: Point, Q: Point)
    requires c.p > 0 && NonNegative(P) && (P.Infinity? ==> NonNegative(Q)) && Add(c, P, Q).Some?
    ensures NonNegative(Add(c, P, Q).value)
  {
  }

  lemma DoubleNonNegative(c: Curve, P: Point)
    requires c.p > 0 && Double(c, P).Some?
    ensures NonNegative(Double(c, P).value)
  {
  }

  lemma CollectedBound(e: nat, i: nat)
    requires i > 1 && i % 2 == 0
    ensures Collected(e, i / 2) <= e + 1
  {
    assert 2 * (i / 2) == i;
    QuotientBound(e, i, 3 * e / i, e / i);
  }

  lemma QuotientBound(e: int, i: int, q: int, r: int)
    requires e >= 0 && i >= 2 && i * q <= 3 * e && e < i * r + i
    ensures q - r <= e + 1
  {
    assert q - r >= e + 2 ==> i * (q - r) >= i * (e + 2);
    assert i * (q - r) == i * q - i * r && i * (e + 2) == i * e + 2 * i && i * e >= 2 * e;
  }

  lemma PassNonNegative(c: Curve, P: Point, n: nat, e: nat, i: nat, R: Point)
    requires IsPrime(n) && Setting(c, P, n) && P.Affine? && P.y >= 0 && e < n && i > 1 && i % 2 == 0
    requires Collected(e, i) >= 1 && IsMultiple(c, P, Collected(e, i), Some(R))
    ensures Collected(e, i / 2) >= 1
    ensures var next := PassResult(c, P, e, i, R);
            IsMultiple(c, P, Collected(e, i / 2), next) && NonNegative(next.value)
  {
    hide Double, Add, Plus, Norm, Multiple, Valid, IsPrime, Collected, Associative, Times;
    var k := Collected(e, i);
    CollectedStep(e, i);
    CollectedBound(e, i);
    MultipleDoubles(c, P, n, k, R);
    DoubleNonNegative(c, R);
    var D := Double(c, R).value;
    MultipleAdds(c, P, 2 * k, D);
    var up, down := (3 * e / i) % 2 == 1, (e / i) % 2 == 1;
    if up && !down {
      AddNonNegative(c, D, P);
    } else if !up && down {
      SubtractNonNegative(c, P, n, k, D);
    }
  }

  /** Taking P off an even multiple of it that is at most n + 1. */
  lemma SubtractNonNegative(c: Curve, P: Point, n: nat, k: nat, D: Point)
    requires IsPrime(n) && Setting(c, P, n) && P.Affine? && 0 < 2 * k <= n + 1
    requires IsMultiple(c, P, 2 * k, Some(D)) && NonNegative(D) && Add(c, D, Negate(P)).Some?
    ensures NonNegative(Add(c, D, Negate(P)).value)
  {
    hide Double, Add, Plus, IsPrime, Associative, Times;
    if D.Infinity? {
      ExactOrder(c, P, n, 2 * k);
      OddPrime(n);
      NotMultipleOf(2 * k, n);
    }
    AddNonNegative(c, D, Negate(P));
  }

  lemma OddPrime(n: int)
    requires IsPrime(n) && n % 2 == 1
    ensures n >= 3
  {
  }

  lemma {:induction false} MulLoopNonNegative(c: Curve, P: Point, n: nat, e: nat, i: nat, R: Point)
    requires IsPrime(n) && Setting(c, P, n) && P.Affine? && P.y >= 0 && e < n && IsPowerOfTwo(i)
    requires Collected(e, i) >= 1 && IsMultiple(c, P, Collected(e, i), Some(R)) && NonNegative(R)
    ensures var r := MulLoop(c, P, Negate(P), e, i, R); r.Some? ==> NonNegative(r.value)
    decreases i
  {
    if i > 1 {
      PassUnfolds(c, P, e, i, R);
      PassNonNegative(c, P, n, e, i, R);
      hide Double, Add, MulLoop, PassResult;
      MulLoopNonNegative(c, P, n, e, i / 2, PassResult(c, P, e, i, R).value);
    }
  }

  lemma NotMultipleOf(m: nat, n: nat)
    requires n >= 3 && n % 2 == 1 && m % 2 == 0 && 0 < m <= n + 1
    ensures m % n != 0
  {
    if m < n { ModSmall(m, n); } else { ModUnique(m, 1, m - n, n); }
  }

  lemma KeyMulNonNegative(c: Curve, G: Point, k: nat, Q: Point, e: nat)
    requires Domain(c, G) && IsKey(c, G, k, Q) && NonNegative(Q) && (e < G.order || (Q.Affine? && Q.order != 0))
    ensures Mul(c, Q, e).Some? && NonNegative(Mul(c, Q, e).value)
  {
    hide MulPositive, IsKey, Setting, Multiple;
    KeyMul(c, G, k, Q, e);
    KeySetting(c, G, k, Q);
    KeyOrder(c, G, k, Q);
    var j := Multiplier(Q, e);
    if Q.Affine? && j > 0 { MulPositiveNonNegative(c, Q, G.order, j); }
  }

  lemma KeyOrder(c: Curve, G: Point, k: nat, Q: Point)
    requires Domain(c, G) && IsKey(c, G, k, Q)
    ensures G.order >= 2 && (Q.Affine? ==> Q.order == 0 || Q.order == G.order)
  {
    hide Setting, Multiple;
  }

  lemma MulPositiveNonNegative(c: Curve, P: Point, n: nat, k: nat)
    requires IsPrime(n) && Setting(c, P, n) && P.Affine? && P.y >= 0 && 0 < k < n
    ensures MulPositive(c, P, k).Some? ==> NonNegative(MulPositive(c, P, k).value)
  {
    hide MulLoop, LeftmostBit, Multiple, Collected, IsPrime;
    NegateMakes(c, P);
    CollectedEnds(k);
    MultipleOne(c, P);
    MulLoopNonNegative(c, P, n, k, LeftmostBit(3 * k) / 2, P);
  }

  // ----- bytes and addresses -----

  lemma {:induction false} ValueBigEndian(x: nat, length: nat)
    requires x < Pow(256, length)
    ensures Value(BigEndian(x, length), 256) == x
  {
    if length > 0 {
      assert x / 256 < Pow(256, length - 1);
      ValueBigEndian(x / 256, length - 1);
      var s := BigEndian(x / 256, length - 1);
      assert (s + [x % 256])[..|s|] == s;
    }
  }

  lemma {:induction false} ValueBound(s: seq<byte>)
    ensures 0 <= Value(s, 256) < Pow(256, |s|)
  {
    if s != [] { ValueBound(s[..|s| - 1]); }
  }

  /** The version number read back from an address is the one it was made with. */
  lemma VersionOfAddress(h: Hashes, key: seq<byte>, version: byte)
    requires ValidHashes(h)
    ensures NetworkVersion(Address(h, key, version)) == version
  {
    hide Encode, Decode, Value, Pow;
    var payload := [version] + h.hash160(key);
    var tail := h.hash160(key) + h.checksum(payload);
    assert payload + h.checksum(payload) == [version] + tail;
    EncodeDecode(payload + h.checksum(payload));
    ValuePrepend(version, tail, 256);
    ValueBound(tail);
    var m := Pow(256, 24);
    ModUnique(m * version + Value(tail, 256), version, Value(tail, 256), m);
  }

  // ----- the recovered address -----

  /** Two nonnegative keys with the same count are the same coordinates, and the constructor treats them alike. */
  lemma SameKey(c: Curve, G: Point, k: nat, P: Point, Q: Point)
    requires Domain(c, G) && IsKey(c, G, k, P) && IsKey(c, G, k, Q) && NonNegative(Q) && KeyAccepted(c, G, P)
    ensures KeyAccepted(c, G, Q) && Q.x == P.x && Q.y == P.y
  {
    hide Add, Double, Plus, Mul;
    ModSmall(P.y, c.p);
    assert Norm(c, P) == Norm(c, Q);
    ModSmall(Q.y, c.p);
    KeySetting(c, G, k, Q);
    MulIsMultiple(c, Q, G.order, G.order);
    CurveIsGroup(c);
    NormReduced(c, Q);
  }

  /** Recovery gives its point in reduced form. */
  lemma RecoverNonNegative(c: Curve, G: Point, k: nat, R: Point, sig: Signature, hash: int, i: nat)
    requires Domain(c, G) && IsKey(c, G, k, R) && R.Affine? && R.y >= 0 && R.order == G.order && G.y >= 0
    requires 0 <= sig.s && i < G.order
    ensures var A, B := Mul(c, R, sig.s), Mul(c, G, (-hash) % G.order);
            A.Some? && B.Some? && var C := Add(c, A.value, B.value);
            C.Some? && (Mul(c, C.value, i).Some? ==> NonNegative(Mul(c, C.value, i).value))
  {
    hide Add, Double, Plus, Mul;
    var m := (-hash) % G.order;
    GeneratorIsKey(c, G);
    KeyMul(c, G, k, R, sig.s);
    KeyMul(c, G, 1, G, m);
    KeyMulNonNegative(c, G, k, R, sig.s);
    KeyMulNonNegative(c, G, 1, G, m);
    var A, B := Mul(c, R, sig.s).value, Mul(c, G, m).value;
    KeyAdd(c, G, sig.s * k, A, m, B);
    AddNonNegative(c, A, B);
    KeyMulNonNegative(c, G, sig.s * k + m, Add(c, A, B).value, i);
  }

  lemma RecoverReduced(c: Curve, G: Point, secret: nat, hash: int, randomK: int, recid: nat)
    requires Domain(c, G) && G.y >= 0 && c.p % 4 == 3
    requires Sign(c, G, secret, hash, randomK).Some? && RightCase(c, G, randomK, recid)
    requires Sign(c, G, secret, hash, randomK).value.r < G.order
    ensures var Q := Recover(c, G, recid, Sign(c, G, secret, hash, randomK).value, hash);
            Q.Some? && IsKey(c, G, secret, Q.value) && NonNegative(Q.value)
  {
    hide Add, Double, Plus, Mul, Pow, Sign, LiftY;
    var n, sig := G.order, Sign(c, G, secret, hash, randomK).value;
    var k, R := RecoverLifts(c, G, secret, hash, randomK, recid);
    ModSmall(sig.r, n);
    RecoverFindsKey(c, G, secret, hash, randomK, recid);
    PrimeInverse(sig.r, n);
    RecoverNonNegative(c, G, k, R, sig, hash, ModInverse(sig.r, n).value);
  }

  /** The bytes of a signature read back as its two numbers. */
  lemma SignatureBytesRead(s: Signed, i: nat)
    requires i < 4 && 0 <= s.sig.r < Pow(256, 32) && 0 <= s.sig.s < Pow(256, 32)
    ensures var b := SignatureBytes(s, i);
            |b| == 65 && Value(b[1..33], 256) == s.sig.r && Value(b[33..65], 256) == s.sig.s
  {
    hide Value, BigEndian, Pow;
    var b := SignatureBytes(s, i);
    assert b[1..33] == BigEndian(s.sig.r, 32) && b[33..65] == BigEndian(s.sig.s, 32);
    ValueBigEndian(s.sig.r, 32);
    ValueBigEndian(s.sig.s, 32);
  }

  lemma {:induction false} FirstCaseFinds(c: Curve, G: Point, h: Hashes, s: Signed, hash: int, i: nat, j: nat)
    requires c.p > 0 && s.sig.r >= 0 && s.sig.s >= 0 && i <= j < 4
    requires VerifyMessage(c, G, h, SignatureBytes(s, j), hash, NetworkVersion(s.address)) == Some(s.address)
    ensures FirstCase(c, G, h, s, hash, i).Some?
    decreases j - i
  {
    hide VerifyMessage;
    if i < j { FirstCaseFinds(c, G, h, s, hash, i + 1, j); }
  }

  /** The verifier on the bytes of a signature, in terms of the key it recovers. */
  lemma VerifyMessageReads(c: Curve, G: Point, h: Hashes, s: Signed, i: nat, hash: int, Q: Point)
    requires c.p > 0 && i < 4 && 0 <= s.sig.r < Pow(256, 32) && 0 <= s.sig.s < Pow(256, 32)
    requires Recover(c, G, i, s.sig, hash) == Some(Q) && KeyAccepted(c, G, Q)
    ensures VerifyMessage(c, G, h, SignatureBytes(s, i), hash, 0) == Some(Address(h, Serialize(Q.x, Q.y, s.compressed), 0))
  {
    hide Recover, Mul, Value, BigEndian, Pow, Address, Serialize;
    SignatureBytesRead(s, i);
  }

  /** What the signer's own checks establish. */
  lemma SignMessageFacts(c: Curve, G: Point, h: Hashes, secret: seq<byte>, hash: int, randomK: int)
    returns (d: nat, Q: Point)
    requires Domain(c, G) && SignMessage(c, G, h, secret, hash, randomK).Some?
    ensures var s := SignMessage(c, G, h, secret, hash, randomK).value;
            KeyAccepted(c, G, Q) && IsKey(c, G, d, Q) && s.address == Address(h, Serialize(Q.x, Q.y, s.compressed), 0) &&
            Sign(c, G, d, hash, randomK) == Some(s.sig) && s.sig.r < G.order
  {
    hide Add, Double, Plus, Mul, Sign, Verify, Value, Address, Serialize, KeyAccepted;
    ValueNonNegative(secret[..32], 256);
    d := Value(secret[..32], 256);
    GeneratorIsKey(c, G);
    KeyMul(c, G, 1, G, d);
    Q := Mul(c, G, d).value;
    SignedVerifies(c, G, d, Q, hash, randomK);
  }

  /** The signer's own checks pass only for a key and a signature that recovery reproduces. */
  lemma RightCaseVerifies(c: Curve, G: Point, h: Hashes, secret: seq<byte>, hash: int, randomK: int, recid: nat)
    requires Domain(c, G) && G.y >= 0 && c.p % 4 == 3 && ValidHashes(h)
    requires c.p <= Pow(256, 32) && G.order <= Pow(256, 32) && RightCase(c, G, randomK, recid)
    requires SignMessage(c, G, h, secret, hash, randomK).Some?
    ensures var s := SignMessage(c, G, h, secret, hash, randomK).value;
            s.sig.r >= 0 && s.sig.s >= 0 && NetworkVersion(s.address) == 0 &&
            VerifyMessage(c, G, h, SignatureBytes(s, recid), hash, 0) == Some(s.address)
  {
    assert recid < 2;
    hide Add, Double, Plus, Mul, Sign, LiftY, Address, Pow, Recover, SignMessage, VerifyMessage, SignatureBytes,
         Serialize, NetworkVersion, IsKey, RightCase;
    var s := SignMessage(c, G, h, secret, hash, randomK).value;
    var d, Q := SignMessageFacts(c, G, h, secret, hash, randomK);
    var k, R := RecoverLifts(c, G, d, hash, randomK, recid);
    RecoverReduced(c, G, d, hash, randomK, recid);
    var Q' := Recover(c, G, recid, s.sig, hash).value;
    SameKey(c, G, d, Q, Q');
    VerifyMessageReads(c, G, h, s, recid, hash, Q');
    VersionOfAddress(h, Serialize(Q.x, Q.y, s.compressed), 0);
  }

  /** Whenever signing and its self-check succeed, some recovery case speaks for the signer's address, so the
      message signer never ends in its "unable to construct recoverable key" error. */
  lemma SigningSucceeds(c: Curve, G: Point, h: Hashes, secret: seq<byte>, hash: int, randomK: int)
    requires Domain(c, G) && G.y >= 0 && c.p % 4 == 3 && ValidHashes(h)
    requires c.p <= Pow(256, 32) && G.order <= Pow(256, 32)
    requires SignMessage(c, G, h, secret, hash, randomK).Some?
    ensures FirstCase(c, G, h, SignMessage(c, G, h, secret, hash, randomK).value, hash, 0).Some?
  {
    hide Add, Double, Plus, Mul, Sign, VerifyMessage, Value, Address, Pow, Verify, KeyAccepted, NetworkVersion,
         SignatureBytes, Serialize, FirstCase, SignMessage, RightCase;
    var s := SignMessage(c, G, h, secret, hash, randomK).value;
    var recid := SomeRightCase(c, G, h, secret, hash, randomK);
    RightCaseVerifies(c, G, h, secret, hash, randomK, recid);
    FirstCaseFinds(c, G, h, s, hash, 0, recid);
  }

  lemma SomeRightCase(c: Curve, G: Point, h: Hashes, secret: seq<byte>, hash: int, randomK: int) returns (recid: nat)
    requires Domain(c, G) && SignMessage(c, G, h, secret, hash, randomK).Some?
    ensures recid < 2 && RightCase(c, G, randomK, recid)
  {
    hide Add, Double, Plus, Mul, Sign, Value, Address, Verify, KeyAccepted, Serialize, Setting, IsPrime;
    var d := Value(secret[..32], 256);
    ValueNonNegative(secret[..32], 256);
    var k, R := SignFacts(c, G, d, hash, randomK);
    recid := Norm(c, R).y % 2;
  }

  /** The signer's address carries version number 0. */
  lemma SignerVersion(c: Curve, G: Point, h: Hashes, secret: seq<byte>, hash: int, randomK: int)
    requires Domain(c, G) && ValidHashes(h) && SignMessage(c, G, h, secret, hash, randomK).Some?
    ensures NetworkVersion(SignMessage(c, G, h, secret, hash, randomK).value.address) == 0
  {
    hide SignMessage, Address, NetworkVersion, Serialize, KeyAccepted, IsKey, Sign, ValidHashes;
    var s := SignMessage(c, G, h, secret, hash, randomK).value;
    var d, Q := SignMessageFacts(c, G, h, secret, hash, randomK);
    KeyCoordinates(c, G, Q);
    VersionOfAddress(h, Serialize(Q.x, Q.y, s.compressed), 0);
  }

  lemma KeyCoordinates(c: Curve, G: Point, Q: Point)
    requires c.p > 0 && KeyAccepted(c, G, Q)
    ensures Q.Affine? && Q.x >= 0 && Q.y >= 0
  {
    hide Mul;
  }
}
