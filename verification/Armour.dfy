/** The ASCII armour of signed messages: the two printers, and the reader. */
module Armour {
  import opened Wrappers
  import opened Bytes
  import opened Base64
  import opened Crc24
  import opened Text
  import opened FormatText

  const DASHES: string := "-----"
  const BEGIN: string := "-----BEGIN "
  const END: string := "-----END "
  const RNRN: string := "\r\n\r\n"
  const CLEARSIGN: string := "BITCOIN SIGNED MESSAGE"
  const SIGNATURE: string := "BITCOIN SIGNATURE"
  const BASE64: string := "BITCOIN MESSAGE"
  const COMMENT_TEXT: string := "Comment: Signed by"
  const COMMENT_PROGRAM: string := " Bitcoin Armory v"
  const COMMENT_VERSION: string := "0.93.3"
  const COMMENT: string := COMMENT_TEXT + COMMENT_PROGRAM + COMMENT_VERSION

  /** t in pieces of n characters, the last one possibly shorter. */
  function Chunks(t: string, n: nat): (r: seq<string>)
    requires n > 0
    ensures t != "" ==> r != []
    decreases |t|
  {
    if t == "" then [] else if |t| <= n then [t] else [t[..n]] + Chunks(t[n..], n)
  }

  /** The armour of a block of bytes with a given checksum line. */
  function ArmourWith(block: seq<byte>, sum: seq<byte>, name: string, addComment: bool): string {
    BEGIN + name + DASHES + RN + (if addComment then COMMENT else "") + RNRN +
    Join(RN, Chunks(Base64.Encode(block), 64)) + RN + "=" + Base64.Encode(sum) + RN + END + name + DASHES
  }

  function AsciiArmour(block: seq<byte>, name: string, addComment: bool): string {
    ArmourWith(block, Checksum(block), name, addComment)
  }

  function ClearsignedWith(signature: seq<byte>, sum: seq<byte>, msg: string): string {
    BEGIN + CLEARSIGN + DASHES + RN + COMMENT + RNRN + Format(msg, false) + RN + ArmourWith(signature, sum, SIGNATURE, false)
  }

  /** The clearsigned block of a message and its signature. */
  function Clearsigned(signature: seq<byte>, msg: string): string {
    ClearsignedWith(signature, Checksum(signature), msg)
  }

  /** The base64 block of a message and its signature. */
  function Base64Signed(signature: seq<byte>, msg: string): string
    requires IsByteString(Format(msg, false))
  {
    AsciiArmour(signature + Ord(Format(msg, false)), BASE64, true)
  }

  /** An element of a list, None where indexing raises. */
  function At(parts: seq<string>, i: nat): Option<string> {
    if i < |parts| then Some(parts[i]) else None
  }

  /** The signature in base64 and the message; None when the program raises. */
  function ReadBase64(r: string): Option<(string, string)> {
    var inner :- At(Split(r, BEGIN), 1);
    var body :- At(Split(Split(inner, END)[0], DASHES), 1);
    var pieces := Split(Strip(body), "\n=");
    if |pieces| != 2 then None
    else
      var crc := Strip(pieces[1]);
      var encoded :- At(Split(pieces[0], RNRN), 1);
      var decoded :- Base64.Decode(Join("", Split(encoded, RN)));
      var sum :- Base64.Decode(crc);
      if sum != Checksum(decoded) then None
      else
        var n := if |decoded| < 65 then |decoded| else 65;
        Some((Base64.Encode(decoded[..n]), Chr(decoded[n..])))
  }

  /** The message of a clearsigned block: what stands between the first blank line and the next line of dashes. */
  function ReadText(r: string): Option<string> {
    var after :- At(Split(r, BEGIN + CLEARSIGN + DASHES), 1);
    Some(TextAfter(after))
  }

  function TextAfter(after: string): string {
    Split(Join(RNRN, Split(after, RNRN)[1..]), RN + DASHES)[0]
  }

  /** The signature in base64 of an armour whose checksum is right. */
  function ReadArmour(armour: string): Option<string> {
    var body :- At(Split(armour, DASHES), 1);
    var pieces := Split(Split(body, SIGNATURE)[0], "\n=");
    if |pieces| != 2 then None
    else
      var signature := Join("", Split(Join("", Split(pieces[0], "\n")), "\r"));
      var sum :- Base64.Decode(Strip(pieces[1]));
      var bytes :- Base64.Decode(signature);
      if sum != Checksum(bytes) then None else Some(signature)
  }

  function ReadClearsigned(r: string): Option<(string, string)> {
    var text :- ReadText(r);
    var armour :- At(Split(r, BEGIN), 2);
    var signature :- ReadArmour(armour);
    Some((signature, text))
  }

  function ReadSigBlock(text: string): Option<(string, string)> {
    var r := Format(text, true);
    var inner :- At(Split(r, BEGIN), 1);
    var name := Split(inner, DASHES)[0];
    if name == BASE64 then ReadBase64(r)
    else if name == CLEARSIGN then ReadClearsigned(r)
    else None
  }
}
