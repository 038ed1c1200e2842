/** Exactly when a message is signed and an address is answered, in terms of the secret, the ephemeral number and the hash;
    and what the bytes of a key and of an address stand for. */
module MessageAcceptance {
  import opened Wrappers
  import opened Modular
  import opened Curve
  import opened AbelianGroup
  import opened CurveGroup
  import opened ScalarMul
  import opened Ecdsa
  import opened Acceptance
  import opened Base58
  import opened Bytes
  import opened MessageSigning

  // ----- keys of a secret -----

  /** The key of the secret d has coordinates that the constructor lets through. */
  ghost predicate KeyInRange(c: Curve, G: Point, d: nat)
    requires Domain(c, G)
  {
    var P := Multiple(c, G, d);
    P.Affine? && P.x < G.order && P.y < G.order
  }

  /** The address of the secret d. */
  ghost function AddressOf(c: Curve, G: Point, h: Hashes, d: nat, compressed: bool, version: byte): string
    requires Domain(c, G) && KeyInRange(c, G, d)
  {
    var P := Multiple(c, G, d);
    Address(h, Serialize(P.x, P.y, compressed), version)
  }

  /** A key with nonnegative y is the reduced point itself. */
  lemma KeyIsPoint(c: Curve, G: Point, d: nat, Q: Point)
    requires Domain(c, G) && IsKey(c, G, d, Q) && NonNegative(Q)
    ensures var P := Multiple(c, G, d); Q.Affine? == P.Affine? && (Q.Affine? ==> Q.x == P.x && Q.y == P.y && Q.x >= 0)
  {
    hide Multiple, Associative;
    if Q.Affine? { ModSmall(Q.y, c.p); }
  }

  /** The constructor accepts such a key exactly when its coordinates are in range. */
  lemma AcceptedExactly(c: Curve, G: Point, d: nat, Q: Point)
    requires Domain(c, G) && IsKey(c, G, d, Q) && NonNegative(Q)
    ensures KeyAccepted(c, G, Q) <==> KeyInRange(c, G, d)
    ensures KeyInRange(c, G, d) ==>
              Q.Affine? && Q.x >= 0 && Q.y >= 0 && Q.x == Multiple(c, G, d).x && Q.y == Multiple(c, G, d).y
  {
    hide Domain, IsKey, Multiple, Mul;
    DomainOrder(c, G);
    KeyIsPoint(c, G, d, Q);
    KeyCancels(c, G, d, Q);
  }

  lemma KeyCancels(c: Curve, G: Point, d: nat, Q: Point)
    requires Domain(c, G) && IsKey(c, G, d, Q)
    ensures Mul(c, Q, G.order) == Some(Infinity)
  {
    hide Add, Double, Plus, Mul, Associative;
    KeySetting(c, G, d, Q);
    MulIsMultiple(c, Q, G.order, G.order);
  }

  // ----- signing a message -----

  /** The secret's first 32 bytes are the number d. */
  ghost predicate IsSecret(secret: seq<byte>, d: nat) {
    |secret| >= 32 && d < Pow(256, 32) && secret[..32] == BigEndian(d, 32)
  }

  /** Every secret of at least 32 bytes stands for one number. */
  lemma SecretNumber(secret: seq<byte>, d: nat)
    requires |secret| >= 32
    ensures IsSecret(secret, d) <==> d == Value(secret[..32], 256)
  {
    hide Pow, Value, BigEndian;
    ValueBound(secret[..32]);
    BigEndianValue(secret[..32]);
    if IsSecret(secret, d) { ValueBigEndian(d, 32); }
  }

  lemma {:induction false} BigEndianValue(s: seq<byte>)
    ensures Value(s, 256) >= 0 && BigEndian(Value(s, 256), |s|) == s
  {
    if s != [] {
      var front, last := s[..|s| - 1], s[|s| - 1];
      BigEndianValue(front);
      DivByBase(Value(front, 256), last, 256);
      assert s == front + [last];
    }
  }

  /** The key that signing works with. */
  lemma SigningKey(c: Curve, G: Point, d: nat) returns (Q: Point)
    requires Domain(c, G) && G.y >= 0
    ensures Mul(c, G, d) == Some(Q) && IsKey(c, G, d, Q) && NonNegative(Q)
  {
    hide Domain, IsKey, Mul;
    DomainOrder(c, G);
    GeneratorIsKey(c, G);
    KeyMul(c, G, 1, G, d);
    KeyMulNonNegative(c, G, 1, G, d);
    Q := Mul(c, G, d).value;
  }

  /** The ephemeral number's point has an x in range, and s would not be zero. */
  ghost predicate Usable(c: Curve, G: Point, d: nat, hash: int, randomK: int)
    requires Domain(c, G)
  {
    var R := Multiple(c, G, randomK % G.order);
    R.Affine? && 0 < R.x < G.order && !Cong(hash + d * R.x, 0, G.order)
  }

  /** What the signer does with the number of its secret and the key. */
  lemma SignMessageSteps(c: Curve, G: Point, h: Hashes, secret: seq<byte>, d: nat, Q: Point, hash: int, randomK: int)
    requires c.p > 0 && (|secret| == 32 || |secret| == 33) && Value(secret[..32], 256) == d && Mul(c, G, d) == Some(Q)
    ensures var s := Sign(c, G, d, hash, randomK);
            SignMessage(c, G, h, secret, hash, randomK) ==
            if KeyAccepted(c, G, Q) && s.Some? && Verify(c, G, Q, hash, s.value) == Some(true)
            then Some(Signed(s.value, Address(h, Serialize(Q.x, Q.y, |secret| == 33), 0), |secret| == 33))
            else None
  {
    hide Mul, Sign, Verify, Address, Serialize, Value;
  }

  lemma BadLength(c: Curve, G: Point, h: Hashes, secret: seq<byte>, hash: int, randomK: int)
    requires c.p > 0
    ensures |secret| != 32 && |secret| != 33 ==> SignMessage(c, G, h, secret, hash, randomK).None?
  {
    hide Mul, Sign, Verify, Address, Serialize, Value, KeyAccepted;
  }

  /** The signature passes the signer's own check exactly when the ephemeral number is usable. */
  lemma SignatureChecked(c: Curve, G: Point, d: nat, Q: Point, hash: int, randomK: int)
    requires Domain(c, G) && IsKey(c, G, d, Q)
    ensures var s := Sign(c, G, d, hash, randomK);
            s.Some? && Verify(c, G, Q, hash, s.value) == Some(true) <==> Usable(c, G, d, hash, randomK)
    ensures var s := Sign(c, G, d, hash, randomK);
            s.Some? && Verify(c, G, Q, hash, s.value) == Some(true) ==>
            PairInRange(G, s.value) && SignedWith(c, G, d, hash, s.value, randomK % G.order)
  {
    hide Domain, IsKey, Multiple, Sign, Verify, Cong;
    DomainOrder(c, G);
    SignExact(c, G, d, hash, randomK);
    var R := Multiple(c, G, randomK % G.order);
    if Sign(c, G, d, hash, randomK).Some? {
      SignedVerifies(c, G, d, Q, hash, randomK);
      if R.x < G.order { ModSmall(R.x, G.order); }
    }
  }

  /** The signer's result belongs to the secret: its address is that of the secret's key, and its signature satisfies the
      equation with the secret and the ephemeral number. */
  ghost predicate IsSignedBy(c: Curve, G: Point, h: Hashes, d: nat, compressed: bool, hash: int, randomK: int, s: Signed)
    requires Domain(c, G)
  {
    && KeyInRange(c, G, d) && s.compressed == compressed && s.address == AddressOf(c, G, h, d, compressed, 0)
    && PairInRange(G, s.sig) && SignedWith(c, G, d, hash, s.sig, randomK % G.order)
  }

  /** Signing a message succeeds exactly for secrets of 32 or 33 bytes whose key is in range, with a usable ephemeral number.
      Then its result belongs to the secret, the key being compressed for 33 bytes. */
  lemma SignMessageExact(c: Curve, G: Point, h: Hashes, secret: seq<byte>, d: nat, hash: int, randomK: int)
    requires Domain(c, G) && G.y >= 0 && (|secret| >= 32 ==> IsSecret(secret, d))
    ensures SignMessage(c, G, h, secret, hash, randomK).Some? <==>
              (|secret| == 32 || |secret| == 33) && KeyInRange(c, G, d) && Usable(c, G, d, hash, randomK)
    ensures SignMessage(c, G, h, secret, hash, randomK).Some? ==>
              IsSignedBy(c, G, h, d, |secret| == 33, hash, randomK, SignMessage(c, G, h, secret, hash, randomK).value)
  {
    hide Domain, IsKey, Multiple, Mul, Sign, Verify, KeyAccepted, KeyInRange, Address, Serialize, Cong, Pow, BigEndian, Value,
         SignedWith, PairInRange, IsSignedBy, SignMessage, Usable;
    DomainOrder(c, G);
    BadLength(c, G, h, secret, hash, randomK);
    if |secret| == 32 || |secret| == 33 {
      ValueBigEndian(d, 32);
      var Q := SigningKey(c, G, d);
      AcceptedExactly(c, G, d, Q);
      SignatureChecked(c, G, d, Q, hash, randomK);
      SignMessageSteps(c, G, h, secret, d, Q, hash, randomK);
      if SignMessage(c, G, h, secret, hash, randomK).Some? {
        ResultBelongs(c, G, h, d, Q, |secret| == 33, hash, randomK, SignMessage(c, G, h, secret, hash, randomK).value);
      }
    }
  }

  lemma ResultBelongs(c: Curve, G: Point, h: Hashes, d: nat, Q: Point, compressed: bool, hash: int, randomK: int, s: Signed)
    requires Domain(c, G) && KeyInRange(c, G, d)
    requires Q.Affine? && Q.x >= 0 && Q.y >= 0 && Q.x == Multiple(c, G, d).x && Q.y == Multiple(c, G, d).y
    requires s.address == Address(h, Serialize(Q.x, Q.y, compressed), 0) && s.compressed == compressed
    requires PairInRange(G, s.sig) && SignedWith(c, G, d, hash, s.sig, randomK % G.order)
    ensures IsSignedBy(c, G, h, d, compressed, hash, randomK, s)
  {
    hide Multiple, Address, Serialize, SignedWith;
  }

  // ----- verifying a message -----

  /** The two numbers in the signature bytes. */
  function PairOf(b: seq<byte>): Signature
    requires |b| == 65
  {
    Signature(Value(b[1..33], 256), Value(b[33..65], 256))
  }

  /** The k copies of the generator are the case's point, and k satisfies the equation with d. */
  ghost predicate RecoversWith(c: Curve, G: Point, recid: nat, sig: Signature, hash: int, d: nat, k: nat)
    requires Domain(c, G)
  {
    && 0 < k < G.order && IsLift(c, CaseX(c, G, recid, sig.r), recid, Multiple(c, G, k))
    && Cong(sig.s * k, hash + d * sig.r, G.order)
  }

  /** d is a secret that the signature can be attributed to under the case. */
  ghost predicate Recovers(c: Curve, G: Point, recid: nat, sig: Signature, hash: int, d: nat)
    requires Domain(c, G)
  {
    d < G.order && sig.r % G.order != 0 && exists k: nat :: RecoversWith(c, G, recid, sig, hash, d, k)
  }

  lemma RecoveredWith(c: Curve, G: Point, recid: nat, sig: Signature, hash: int, d: nat, k: nat)
    requires Domain(c, G) && Cyclic(c, G) && c.p % 4 == 3 && G.y >= 0
    requires sig.r % G.order != 0 && RecoversWith(c, G, recid, sig, hash, d, k)
    ensures var Q := Recover(c, G, recid, sig, hash);
            Q.Some? && IsKey(c, G, d, Q.value) && NonNegative(Q.value)
  {
    hide Domain, Cyclic, IsKey, Multiple, Recover, CaseX, Mul, Add, Cong, IsPrime, ContainsPoint;
    DomainOrder(c, G);
    DomainPrime(c, G);
    var n, R := G.order, Multiple(c, G, k);
    var e, i := RecoverFrom(c, G, recid, sig, hash, k, R);
    RecoverNonNegative(c, G, k, R.(order := n), Signature(sig.r, sig.s % n), hash, i);
    SecretUnique(n, sig.r, hash, sig.s * k, e, d);
    KeyCong(c, G, e, Recover(c, G, recid, sig, hash).value, d);
  }

  /** Recovery gives the key of such a secret, reduced. */
  lemma RecoveredKey(c: Curve, G: Point, recid: nat, sig: Signature, hash: int, d: nat)
    requires Domain(c, G) && Cyclic(c, G) && c.p % 4 == 3 && G.y >= 0 && Recovers(c, G, recid, sig, hash, d)
    ensures var Q := Recover(c, G, recid, sig, hash);
            Q.Some? && IsKey(c, G, d, Q.value) && NonNegative(Q.value)
  {
    hide Domain, Cyclic, IsKey, Recover, RecoversWith;
    var k: nat :| RecoversWith(c, G, recid, sig, hash, d, k);
    RecoveredWith(c, G, recid, sig, hash, d, k);
  }

  /** Whatever recovery gives is the key of such a secret. */
  lemma SomeSecretRecovers(c: Curve, G: Point, recid: nat, sig: Signature, hash: int) returns (d: nat)
    requires Domain(c, G) && Cyclic(c, G) && c.p % 4 == 3 && Recover(c, G, recid, sig, hash).Some?
    ensures Recovers(c, G, recid, sig, hash, d)
  {
    hide Domain, Cyclic, IsKey, Multiple, Recover, CaseX, Cong, IsLift;
    DomainOrder(c, G);
    RecoverExact(c, G, recid, sig, hash);
    var x := CaseX(c, G, recid, sig.r);
    var R :| IsLift(c, x, recid, R);
    var k := LiftCount(c, G, x, recid, R);
    d := RecoverGives(c, G, recid, sig, hash, k, R);
    assert RecoversWith(c, G, recid, sig, hash, d, k);
  }

  predicate WellFormed(b: seq<byte>, version: int) {
    |b| == 65 && 27 <= b[0] < 35 && 0 <= version < 256
  }

  /** The verifier on well-formed bytes, in terms of the key it recovers. */
  lemma VerifyMessageSteps(c: Curve, G: Point, h: Hashes, b: seq<byte>, hash: int, version: int)
    requires c.p > 0
    ensures !WellFormed(b, version) ==> VerifyMessage(c, G, h, b, hash, version).None?
    ensures WellFormed(b, version) ==>
              var Q := Recover(c, G, (b[0] - 27) % 4, PairOf(b), hash);
              VerifyMessage(c, G, h, b, hash, version) ==
              if Q.Some? && KeyAccepted(c, G, Q.value)
              then Some(Address(h, Serialize(Q.value.x, Q.value.y, b[0] >= 31), version)) else None
  {
    hide Recover, Mul, Value, Address, Serialize;
  }

  /** The verifier answers with the address of the secret that the signature can be attributed to, and raises when there
      is none, or its key is out of range, or the bytes are malformed. */
  lemma VerifyMessageExact(c: Curve, G: Point, h: Hashes, b: seq<byte>, hash: int, version: int)
    requires Domain(c, G) && Cyclic(c, G) && c.p % 4 == 3 && G.y >= 0
    ensures VerifyMessage(c, G, h, b, hash, version).Some? <==>
              WellFormed(b, version) &&
              exists d: nat :: Recovers(c, G, (b[0] - 27) % 4, PairOf(b), hash, d) && KeyInRange(c, G, d)
    ensures WellFormed(b, version) ==>
              forall d: nat :: Recovers(c, G, (b[0] - 27) % 4, PairOf(b), hash, d) && KeyInRange(c, G, d) ==>
                VerifyMessage(c, G, h, b, hash, version) == Some(AddressOf(c, G, h, d, b[0] >= 31, version))
  {
    hide Domain, Cyclic, VerifyMessage, Recover, Recovers, KeyAccepted, KeyInRange, Address, Serialize, IsKey, Multiple, Value;
    DomainOrder(c, G);
    VerifyMessageSteps(c, G, h, b, hash, version);
    if WellFormed(b, version) {
      var recid, sig := (b[0] - 27) % 4, PairOf(b);
      var Q := Recover(c, G, recid, sig, hash);
      forall d: nat | Recovers(c, G, recid, sig, hash, d)
        ensures Q.Some? && (KeyAccepted(c, G, Q.value) <==> KeyInRange(c, G, d))
        ensures KeyInRange(c, G, d) ==>
                  VerifyMessage(c, G, h, b, hash, version) == Some(AddressOf(c, G, h, d, b[0] >= 31, version))
      {
        RecoveredKey(c, G, recid, sig, hash, d);
        AcceptedExactly(c, G, d, Q.value);
      }
      if Q.Some? { var d := SomeSecretRecovers(c, G, recid, sig, hash); }
    }
  }

  // ----- the answer against plain verification -----

  /** The key of the secret a signature is attributed to accepts it exactly when the case's x is r modulo the order. */
  lemma AttributionVerifies(c: Curve, G: Point, recid: nat, sig: Signature, hash: int, d: nat, Q: Point)
    requires Domain(c, G) && Recovers(c, G, recid, sig, hash, d) && IsKey(c, G, d, Q) && PairInRange(G, sig)
    ensures Verify(c, G, Q, hash, sig) == Some(CaseX(c, G, recid, sig.r) % G.order == sig.r)
  {
    hide Domain, IsKey, Verify, Multiple, CaseX, Cong, SignedWith, ContainsPoint;
    DomainOrder(c, G);
    var k: nat :| RecoversWith(c, G, recid, sig, hash, d, k);
    OnlySolution(c, G, d, hash, sig, k);
    VerifyExact(c, G, d, Q, hash, sig);
    var v := Verify(c, G, Q, hash, sig);
    if v.value { assert v == Some(true); } else { assert v == Some(false); }
  }

  /** Counts of the generator only matter modulo the order. */
  lemma SameSecret(c: Curve, G: Point, d: nat)
    requires Domain(c, G)
    ensures Multiple(c, G, d % G.order) == Multiple(c, G, d)
  {
    hide Add, Double, Plus;
    CurveIsGroup(c);
    NormReduced(c, G);
    TimesMod(GroupOf(c), d, G.order, Norm(c, G));
  }

  /** A signature that the secret's key accepts can be attributed to the secret under some case. */
  lemma AcceptedRecovers(c: Curve, G: Point, d: nat, Q: Point, hash: int, sig: Signature) returns (recid: nat)
    requires Domain(c, G) && IsKey(c, G, d, Q) && Verify(c, G, Q, hash, sig) == Some(true)
    ensures PairInRange(G, sig) && recid / 2 <= (c.p - 1) / G.order && Recovers(c, G, recid, sig, hash, d % G.order)
  {
    hide Domain, IsKey, Verify, Multiple, CaseX, Cong, ContainsPoint;
    DomainOrder(c, G);
    VerifyExact(c, G, d, Q, hash, sig);
    var n := G.order;
    var k: nat :| SignedWith(c, G, d, hash, sig, k);
    recid := CaseOf(c, G, Multiple(c, G, k), sig.r);
    ModSmall(sig.r, n);
    EquationMod(n, sig.s * k, hash, d, sig.r);
    assert RecoversWith(c, G, recid, sig, hash, d % n, k);
  }

  lemma EquationMod(n: int, t: int, hash: int, d: int, r: int)
    requires n > 0 && Cong(t, hash + d * r, n)
    ensures Cong(t, hash + (d % n) * r, n)
  {
    hide Cong;
    CongMod(d, n);
    CongRefl(r, n);
    CongMul(d, d % n, r, r, n);
    CongRefl(hash, n);
    CongAdd(hash, hash, d * r, (d % n) * r, n);
    CongTrans(t, hash + d * r, hash + (d % n) * r, n);
  }

  /** Every signature that the secret's key accepts has bytes for which the verifier answers with the secret's address. */
  lemma AcceptedIsAnswered(c: Curve, G: Point, h: Hashes, d: nat, Q: Point, hash: int, s: Signed, version: byte)
    returns (i: nat)
    requires Domain(c, G) && Cyclic(c, G) && c.p % 4 == 3 && G.y >= 0 && c.p <= 2 * G.order && G.order <= Pow(256, 32)
    requires IsKey(c, G, d, Q) && KeyInRange(c, G, d) && Verify(c, G, Q, hash, s.sig) == Some(true)
    ensures i < 4 && s.sig.r >= 0 && s.sig.s >= 0
    ensures VerifyMessage(c, G, h, SignatureBytes(s, i), hash, version) ==
            Some(AddressOf(c, G, h, d, s.compressed, version))
  {
    hide Domain, Cyclic, IsKey, Verify, VerifyMessage, Multiple, Recovers, Pow, Address, Serialize, SignatureBytes, WellFormed,
         PairOf;
    DomainOrder(c, G);
    i := AcceptedRecovers(c, G, d, Q, hash, s.sig);
    FewCases(c.p, G.order, i);
    SameSecret(c, G, d);
    BytesShape(s, i, version);
    VerifyMessageExact(c, G, h, SignatureBytes(s, i), hash, version);
    assert KeyInRange(c, G, d % G.order);
  }

  /** The bytes of a signature are well-formed, and name its case and its two numbers. */
  lemma BytesShape(s: Signed, i: nat, version: byte)
    requires i < 4 && 0 <= s.sig.r < Pow(256, 32) && 0 <= s.sig.s < Pow(256, 32)
    ensures var b := SignatureBytes(s, i);
            WellFormed(b, version) && (b[0] - 27) % 4 == i && (b[0] >= 31 <==> s.compressed) && PairOf(b) == s.sig
  {
    hide Value, BigEndian, Pow;
    SignatureBytesRead(s, i);
  }

  lemma FewCases(p: int, n: int, i: nat)
    requires 0 < p <= 2 * n && n > 0 && i / 2 <= (p - 1) / n
    ensures i < 4
  {
    if p - 1 < n { ModUnique(p - 1, 0, p - 1, n); } else { ModUnique(p - 1, 1, p - 1 - n, n); }
  }

  // ----- the bytes of keys and addresses -----

  /** A key read from its bytes as section 2.3.4 of SEC 1 version 2.0 says: 4 before both coordinates, or 2 for an even y
      and 3 for an odd one before x alone. */
  function ReadKey(c: Curve, b: seq<byte>): Option<(int, int)>
    requires c.p > 0
  {
    if |b| == 65 && b[0] == 4 then Some((Value(b[1..33], 256), Value(b[33..65], 256)))
    else if |b| == 33 && (b[0] == 2 || b[0] == 3) then
      var x := Value(b[1..33], 256);
      Some((x, LiftY(c, x, b[0])))
    else None
  }

  /** Both forms of a secret's key are read back as its coordinates. */
  lemma SerializeReads(c: Curve, G: Point, d: nat, compressed: bool)
    requires Domain(c, G) && c.p % 4 == 3 && KeyInRange(c, G, d) && G.order <= Pow(256, 32)
    ensures var P := Multiple(c, G, d); ReadKey(c, Serialize(P.x, P.y, compressed)) == Some((P.x, P.y))
    ensures var P := Multiple(c, G, d); |Serialize(P.x, P.y, compressed)| == if compressed then 33 else 65
  {
    hide Domain, Multiple, LiftY, Value, BigEndian, Pow, ContainsPoint;
    DomainOrder(c, G);
    var P := Multiple(c, G, d);
    var b := Serialize(P.x, P.y, compressed);
    ValueBigEndian(P.x, 32);
    ValueBigEndian(P.y, 32);
    assert b[1..33] == BigEndian(P.x, 32);
    if compressed {
      CountIsKey(c, G, d);
      KeyNotTwoTorsion(c, G, d, P);
      ModSmall(P.y, c.p);
      LiftFits(c, P, b[0]);
    } else {
      assert b[33..65] == BigEndian(P.y, 32);
    }
  }

  lemma LiftFits(c: Curve, P: Point, prefix: int)
    requires IsPrime(c.p) && c.p % 4 == 3 && Reduced(c, P) && P.Affine? && P.y != 0 && prefix == 2 + P.y % 2
    ensures LiftY(c, P.x, prefix) == P.y
  {
    hide LiftY, IsPrime, ContainsPoint;
    LiftYFindsPoint(c, P, prefix);
  }

  lemma CountIsKey(c: Curve, G: Point, d: nat)
    requires Domain(c, G)
    ensures IsKey(c, G, d, Multiple(c, G, d))
  {
    hide Multiple;
    ReducedNorm(c, Multiple(c, G, d));
  }

  /** An address is read back as the version byte, the key's hash and the checksum of both, unless all of them are zero. */
  lemma AddressReads(h: Hashes, key: seq<byte>, version: byte)
    ensures var payload := [version] + h.hash160(key);
            Decode(Address(h, key, version), None) == Result(payload + h.checksum(payload)) <==>
            HasNonZero(payload + h.checksum(payload))
  {
    hide Encode, Decode, HasNonZero;
    var payload := [version] + h.hash160(key);
    EncodeDecode(payload + h.checksum(payload));
  }

  /** The key's hash read out of an address, from its 25 bytes; None when there are not as many. */
  function HashOfAddress(address: string): Option<seq<byte>> {
    DecodeLength(address, 25);
    match Decode(address, Some(25))
    case Result(b) => Some(b[1..21])
    case _ => None
  }

  /** It is the hash the address was made of, unless the bytes are all zero, when there is no result. */
  lemma HashReads(h: Hashes, key: seq<byte>, version: byte)
    requires ValidHashes(h)
    ensures var payload := [version] + h.hash160(key);
            HashOfAddress(Address(h, key, version)) ==
            if HasNonZero(payload + h.checksum(payload)) then Some(h.hash160(key)) else None
  {
    hide Encode, Decode, HasNonZero;
    var payload := [version] + h.hash160(key);
    var bytes := payload + h.checksum(payload);
    EncodeDecode(bytes);
    DecodeLength(Encode(bytes), 25);
    assert |bytes| == 25 && bytes[1..21] == h.hash160(key);
  }
}
