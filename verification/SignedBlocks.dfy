/** Signed blocks from the signer's key to the verifier's answer: the message is formatted, signed and armoured, and the
    block is read and verified. */
module SignedBlocks {
  import opened Wrappers
  import opened Bytes
  import opened Modular
  import opened Crc24
  import opened Text
  import opened FormatText
  import opened Armour
  import opened ArmourProofs
  import opened ArmourMarkers
  import opened Points = Curve
  import opened Ecdsa
  import opened MessageSigning
  import opened MessageAcceptance

  /** What the signer has: the curve and generator, the hash functions, and the number a text is hashed to for signing. */
  datatype Scheme = Scheme(c: Points.Curve, G: Point, h: Hashes, digest: string -> int)

  ghost predicate SoundScheme(z: Scheme) {
    && Domain(z.c, z.G) && z.G.y >= 0 && z.c.p % 4 == 3 && ValidHashes(z.h)
    && z.c.p <= Pow(256, 32) && z.G.order <= Pow(256, 32)
  }

  /** The signer's own result for the displayed form of a message. */
  function SignedText(z: Scheme, secret: seq<byte>, msg: string, randomK: int): Option<Signed>
    requires z.c.p > 0
  {
    SignMessage(z.c, z.G, z.h, secret, z.digest(Format(msg, false)), randomK)
  }

  /** The 65 signature bytes for the displayed form of a message; None when signing raises. */
  function SignatureOf(z: Scheme, secret: seq<byte>, msg: string, randomK: int): Option<seq<byte>>
    requires z.c.p > 0
  {
    var s :- SignedText(z, secret, msg, randomK);
    FirstCase(z.c, z.G, z.h, s, z.digest(Format(msg, false)), 0)
  }

  function ClearsignedBlock(z: Scheme, secret: seq<byte>, msg: string, randomK: int): Option<string>
    requires z.c.p > 0
  {
    var sig :- SignatureOf(z, secret, msg, randomK);
    Some(Clearsigned(sig, msg))
  }

  function Base64Block(z: Scheme, secret: seq<byte>, msg: string, randomK: int): Option<string>
    requires z.c.p > 0 && IsByteString(Format(msg, false))
  {
    var sig :- SignatureOf(z, secret, msg, randomK);
    Some(Base64Signed(sig, msg))
  }

  /** The address a block speaks for, its text formatted anew as the second signature version asks; None where reading or
      verifying raises. */
  function VerifyBlock(z: Scheme, block: string): Option<string>
    requires z.c.p > 0
  {
    var read :- ReadSigBlock(block);
    var sig :- Base64.Decode(read.0);
    VerifyMessage(z.c, z.G, z.h, sig, z.digest(Format(read.1, true)), 0)
  }

  /** The case found is one that verifies. */
  lemma {:induction false} FirstCaseVerifies(c: Points.Curve, G: Point, h: Hashes, s: Signed, hash: int, i: nat)
    requires c.p > 0 && FirstCase(c, G, h, s, hash, i).Some?
    ensures var b := FirstCase(c, G, h, s, hash, i).value;
            |b| == 65 && VerifyMessage(c, G, h, b, hash, NetworkVersion(s.address)) == Some(s.address)
    decreases 4 - i
  {
    hide VerifyMessage, NetworkVersion, BigEndian;
    if VerifyMessage(c, G, h, SignatureBytes(s, i), hash, NetworkVersion(s.address)) != Some(s.address) {
      FirstCaseVerifies(c, G, h, s, hash, i + 1);
    }
  }

  /** It is the first one that does. */
  lemma {:induction false} FirstCaseLeast(c: Points.Curve, G: Point, h: Hashes, s: Signed, hash: int, i: nat) returns (k: nat)
    requires c.p > 0 && FirstCase(c, G, h, s, hash, i).Some?
    ensures i <= k < 4 && s.sig.r >= 0 && s.sig.s >= 0 && FirstCase(c, G, h, s, hash, i).value == SignatureBytes(s, k)
    ensures forall j: nat | i <= j < k ::
              VerifyMessage(c, G, h, SignatureBytes(s, j), hash, NetworkVersion(s.address)) != Some(s.address)
    decreases 4 - i
  {
    hide VerifyMessage, NetworkVersion, SignatureBytes;
    if VerifyMessage(c, G, h, SignatureBytes(s, i), hash, NetworkVersion(s.address)) == Some(s.address) {
      k := i;
    } else {
      k := FirstCaseLeast(c, G, h, s, hash, i + 1);
    }
  }

  lemma SoundPositive(z: Scheme)
    requires SoundScheme(z)
    ensures z.c.p > 0
  {
    hide Pow;
  }

  /** What the signer makes is verified to the signer's address. */
  lemma SignatureVerifies(z: Scheme, secret: seq<byte>, msg: string, randomK: int)
    requires SoundScheme(z) && SignedText(z, secret, msg, randomK).Some?
    ensures SignatureOf(z, secret, msg, randomK).Some?
    ensures var sig := SignatureOf(z, secret, msg, randomK).value;
            |sig| == 65 && VerifyMessage(z.c, z.G, z.h, sig, z.digest(Format(msg, false)), 0) ==
                           Some(SignedText(z, secret, msg, randomK).value.address)
  {
    SoundPositive(z);
    hide SignMessage, FirstCase, VerifyMessage, Format, Pow, Domain, NetworkVersion, ValidHashes;
    var hash := z.digest(Format(msg, false));
    var s := SignedText(z, secret, msg, randomK).value;
    SigningSucceeds(z.c, z.G, z.h, secret, hash, randomK);
    FirstCaseVerifies(z.c, z.G, z.h, s, hash, 0);
    SignerVersion(z.c, z.G, z.h, secret, hash, randomK);
  }

  /** The secret can sign the displayed form of the message with the ephemeral number. */
  ghost predicate CanSign(z: Scheme, secret: seq<byte>, d: nat, msg: string, randomK: int)
    requires SoundScheme(z)
  {
    && (|secret| == 32 || |secret| == 33) && KeyInRange(z.c, z.G, d)
    && Usable(z.c, z.G, d, z.digest(Format(msg, false)), randomK)
  }

  /** Signing succeeds exactly then, and the signature verifies to the secret's address. */
  lemma SignerVerifies(z: Scheme, secret: seq<byte>, d: nat, msg: string, randomK: int)
    requires SoundScheme(z) && (|secret| >= 32 ==> IsSecret(secret, d))
    ensures z.c.p > 0 && (SignatureOf(z, secret, msg, randomK).Some? <==> CanSign(z, secret, d, msg, randomK))
    ensures CanSign(z, secret, d, msg, randomK) ==>
              var sig := SignatureOf(z, secret, msg, randomK).value;
              |sig| == 65 && VerifyMessage(z.c, z.G, z.h, sig, z.digest(Format(msg, false)), 0) ==
                             Some(AddressOf(z.c, z.G, z.h, d, |secret| == 33, 0))
  {
    hide Format, SignMessage, FirstCase, VerifyMessage, Domain, Pow, KeyInRange, Usable, AddressOf, IsSecret;
    SoundPositive(z);
    SignMessageExact(z.c, z.G, z.h, secret, d, z.digest(Format(msg, false)), randomK);
    if CanSign(z, secret, d, msg, randomK) { SignatureVerifies(z, secret, msg, randomK); }
  }

  /** For every message without a begin marker, the clearsigned block verifies to the secret's address; there is a block
      exactly when the secret can sign. */
  lemma ClearsignedVerifies(z: Scheme, secret: seq<byte>, d: nat, msg: string, randomK: int)
    requires SoundScheme(z) && (|secret| >= 32 ==> IsSecret(secret, d))
    ensures z.c.p > 0 && (ClearsignedBlock(z, secret, msg, randomK).Some? <==> CanSign(z, secret, d, msg, randomK))
    ensures CanSign(z, secret, d, msg, randomK) && !Occurs(Format(msg, false), BEGIN) ==>
              VerifyBlock(z, ClearsignedBlock(z, secret, msg, randomK).value) ==
              Some(AddressOf(z.c, z.G, z.h, d, |secret| == 33, 0))
  {
    hide SoundScheme, SignedText, SignatureOf, VerifyMessage, Format, Occurs, ReadSigBlock, Clearsigned, Base64.Encode,
         Base64.Decode, IsSecret, KeyInRange, Usable, AddressOf;
    SoundPositive(z);
    SignerVerifies(z, secret, d, msg, randomK);
    if CanSign(z, secret, d, msg, randomK) && !Occurs(Format(msg, false), BEGIN) {
      var sig := SignatureOf(z, secret, msg, randomK).value;
      ClearsignedBlockReads(sig, msg);
      Base64.EncodeDecode(sig);
    }
  }

  /** The same for the base64 block, for every message of bytes. */
  lemma Base64Verifies(z: Scheme, secret: seq<byte>, d: nat, msg: string, randomK: int)
    requires SoundScheme(z) && (|secret| >= 32 ==> IsSecret(secret, d)) && IsByteString(Format(msg, false))
    ensures z.c.p > 0 && (Base64Block(z, secret, msg, randomK).Some? <==> CanSign(z, secret, d, msg, randomK))
    ensures CanSign(z, secret, d, msg, randomK) ==>
              VerifyBlock(z, Base64Block(z, secret, msg, randomK).value) ==
              Some(AddressOf(z.c, z.G, z.h, d, |secret| == 33, 0))
  {
    hide SoundScheme, SignedText, SignatureOf, VerifyMessage, Format, ReadSigBlock, Base64Signed, Base64.Encode, Base64.Decode,
         IsSecret, KeyInRange, Usable, AddressOf;
    SoundPositive(z);
    SignerVerifies(z, secret, d, msg, randomK);
    if CanSign(z, secret, d, msg, randomK) {
      var sig := SignatureOf(z, secret, msg, randomK).value;
      Base64BlockReads(sig, msg);
      FormatStable(msg, false);
      Base64.EncodeDecode(sig);
    }
  }

  /** For a base64 block of any signature and text, the text is verified in its formatted form: blanks that others left at the
      ends of its lines do not matter. */
  lemma ForeignBlockVerifies(z: Scheme, sig: seq<byte>, text: string)
    requires z.c.p > 0 && |sig| == 65 && IsByteString(text)
    ensures VerifyBlock(z, AsciiArmour(sig + Ord(text), BASE64, true)) ==
            VerifyMessage(z.c, z.G, z.h, sig, z.digest(Format(text, true)), 0)
  {
    hide VerifyMessage, Format, ReadSigBlock, ArmourWith, Base64.Encode, Base64.Decode, Checksum;
    var block := sig + Ord(text);
    Base64ArmourReads(block, Checksum(block));
    assert block[..65] == sig && block[65..] == Ord(text);
    ChrOrd(text);
    Base64.EncodeDecode(sig);
  }

  /** With a begin marker in the message, the answer does not depend on who signed it. */
  lemma SignerIgnored(z: Scheme, secret: seq<byte>, secret': seq<byte>, msg: string, randomK: int, randomK': int)
    requires SoundScheme(z) && Occurs(Format(msg, false), BEGIN)
    requires SignedText(z, secret, msg, randomK).Some? && SignedText(z, secret', msg, randomK').Some?
    ensures ClearsignedBlock(z, secret, msg, randomK).Some? && ClearsignedBlock(z, secret', msg, randomK').Some?
    ensures VerifyBlock(z, ClearsignedBlock(z, secret, msg, randomK).value) ==
            VerifyBlock(z, ClearsignedBlock(z, secret', msg, randomK').value)
  {
    hide SoundScheme, SignedText, SignatureOf, VerifyMessage, Format, Occurs, ReadSigBlock, Clearsigned;
    SoundPositive(z);
    SignatureVerifies(z, secret, msg, randomK);
    SignatureVerifies(z, secret', msg, randomK');
    SignatureIgnored(SignatureOf(z, secret, msg, randomK).value, SignatureOf(z, secret', msg, randomK').value, msg);
  }
}
