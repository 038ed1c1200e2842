/** Clearsigned messages whose own text has a begin marker in it: what the reader makes of them. */
module ArmourMarkers {
  import opened Wrappers
  import opened Bytes
  import opened Crc24
  import opened Text
  import opened FormatText
  import opened Armour
  import opened ArmourProofs

  const HEADER: string := BEGIN + CLEARSIGN + DASHES

  // ----- the text -----

  /** The text the reader finds in the middle part of a block: all of it, unless it repeats the header. */
  ghost function TextIn(f: string): string {
    var k := Find(Middle(f), HEADER);
    if k == -1 then f else TextAfter(Middle(f)[..k])
  }

  lemma HeaderLetters()
    ensures HEADER != "" && '\r' !in HEADER && HEADER[0] == '-'
  {
    ClearsignPlain();
    MarkerLetters();
    assert '\r' !in CLEARSIGN && '\r' !in DASHES;
  }

  lemma MiddleEnds(f: string, t: string)
    ensures var x := RN + COMMENT + RNRN + f;
            && Middle(f) == x + ['\r'] + "\n" && Middle(f) + BEGIN + t == x + ['\r'] + ("\n" + (BEGIN + t))
  {
  }

  /** The header is nowhere in a block but in front, and where the middle part repeats it. */
  lemma HeaderInside(f: string, body: string, k: nat)
    requires IsBody(SIGNATURE, body)
    ensures OccursAt(Middle(f) + BEGIN + Tail(SIGNATURE, body), HEADER, k) <==> OccursAt(Middle(f), HEADER, k)
  {
    hide OccursAt, Middle, Tail, IsBody;
    var t, x := Tail(SIGNATURE, body), RN + COMMENT + RNRN + f;
    var s, rest := Middle(f) + BEGIN + t, "\n" + (BEGIN + t);
    HeaderLetters();
    MiddleEnds(f, t);
    if OccursAt(s, HEADER, k) {
      NoStraddle(x, '\r', rest, HEADER, k);
      if OccursAt(x, HEADER, k) {
        OccursAtFits(x, HEADER, k);
        OccursInPrefix(x, ['\r'] + "\n", HEADER, k);
        assert x + (['\r'] + "\n") == Middle(f);
      } else {
        NoHeaderAfter(body, k - |x| - 1);
      }
    }
    if OccursAt(Middle(f), HEADER, k) {
      OccursAtFits(Middle(f), HEADER, k);
      OccursInPrefix(Middle(f), BEGIN + t, HEADER, k);
      assert Middle(f) + (BEGIN + t) == s;
    }
  }

  lemma OccursAtFits(s: string, sep: string, k: nat)
    requires OccursAt(s, sep, k)
    ensures k + |sep| <= |s|
  {
  }

  lemma NoHeaderAfter(body: string, j: nat)
    requires IsBody(SIGNATURE, body)
    ensures !OccursAt("\n" + (BEGIN + Tail(SIGNATURE, body)), HEADER, j)
  {
    hide OccursAt, Tail, IsBody;
    var b := BEGIN + Tail(SIGNATURE, body);
    HeaderLetters();
    if OccursAt("\n" + b, HEADER, j) {
      StartsWith("\n" + b, HEADER, j, 0);
      SuffixOccurs("\n", b, HEADER, j - 1);
      if j == 1 {
        OtherHeader(body);
      } else {
        HeaderIsBegin(b, j - 1);
        BeginsOnlyAtStart(body, j - 1);
      }
      assert false;
    }
  }

  /** Whatever the message, the text read depends on the message alone. */
  lemma TextReads(signature: seq<byte>, msg: string)
    requires signature != []
    ensures ReadText(Clearsigned(signature, msg)) == Some(TextIn(Format(msg, false)))
  {
    hide Split, Find, OccursAt, ClearsignedWith, Checksum, Body, Tail, IsBody, Middle, Format, TextAfter;
    var f, body := Format(msg, false), Body("", signature, Checksum(signature));
    var t := Tail(SIGNATURE, body);
    var after := Middle(f) + BEGIN + t;
    SignaturePlain();
    BodyIsBody("", signature, Checksum(signature), SIGNATURE);
    ClearsignedInParts(signature, Checksum(signature), msg);
    BlockRegrouped(f, t);
    SplitAt("", HEADER, after);
    SplitHead(after, HEADER);
    forall k: nat ensures OccursAt(after, HEADER, k) <==> OccursAt(Middle(f), HEADER, k) { HeaderInside(f, body, k); }
    SameFind(after, Middle(f), HEADER);
    var k := Find(after, HEADER);
    if k == -1 {
      WholeText(msg, t);
    } else {
      OccursAtFits(Middle(f), HEADER, k);
      assert after[..k] == Middle(f)[..k];
    }
  }

  lemma WholeText(msg: string, t: string)
    ensures var f := Format(msg, false); TextAfter(Middle(f) + BEGIN + t) == f
  {
    hide Split, Join, Middle, Format;
    var f := Format(msg, false);
    BlockRegrouped(f, t);
    AfterBlankLine(f, BEGIN + t);
    MessageEnds(msg, "BEGIN " + t);
  }

  // ----- the signature -----

  /** The text behind the first marker in f, up to the next one or to the end of its line. */
  ghost function MarkedPiece(f: string): string
    requires Occurs(f, BEGIN)
  {
    var v := f[Find(f, BEGIN) + |BEGIN|..];
    Split(v + RN + BEGIN, BEGIN)[0]
  }

  lemma EarlyOccurrence(u: string, v: string, w: string, i: nat)
    requires i < |u| && OccursAt(u + BEGIN + w, BEGIN, i)
    ensures OccursAt(u + BEGIN + v, BEGIN, i)
  {
    assert (u + BEGIN + w)[i..i + 11] == (u + BEGIN)[i..i + 11] == (u + BEGIN + v)[i..i + 11];
  }

  /** The header and the message up to its first marker. */
  lemma SplitBeforeMarker(u: string, v: string, w: string)
    requires forall k: nat | k < |u| :: !OccursAt(u + BEGIN + v, BEGIN, k)
    ensures var front := CLEARSIGN + DASHES + (RN + COMMENT + RNRN + u);
            Split(front + BEGIN + w, BEGIN) == [front] + Split(w, BEGIN) && Split(front, DASHES)[0] == CLEARSIGN
  {
    hide Split, OccursAt;
    var m := RN + COMMENT + RNRN + u;
    var front := CLEARSIGN + DASHES + m;
    ClearsignPlain();
    forall k: nat | k < |front| ensures !OccursAt(front + BEGIN + w, BEGIN, k) { NoneBeforeMarker(u, v, w, k); }
    SplitAt(front, BEGIN, w);
    SplitDashes(CLEARSIGN, m);
  }

  lemma NoneBeforeMarker(u: string, v: string, w: string, k: nat)
    requires forall k: nat | k < |u| :: !OccursAt(u + BEGIN + v, BEGIN, k)
    requires k < |CLEARSIGN + DASHES + (RN + COMMENT + RNRN + u)|
    ensures !OccursAt(CLEARSIGN + DASHES + (RN + COMMENT + RNRN + u) + BEGIN + w, BEGIN, k)
  {
    hide OccursAt;
    var a, b := RN + COMMENT + "\r\n\r", u + BEGIN + w;
    var s := CLEARSIGN + DASHES + (RN + COMMENT + RNRN + u) + BEGIN + w;
    FrontParts(u, w);
    MarkerLetters();
    ClearsignPlain();
    if OccursAt(s, BEGIN, k) {
      Markers();
      MarkerAt(CLEARSIGN, a + ['\n'] + b, "BEGIN ", k);
      NotIn(a, BEGIN, 0);
      var j := k - |CLEARSIGN| - 5;
      NoStraddle(a, '\n', b, BEGIN, j);
      EarlyOccurrence(u, v, w, j - |a| - 1);
      assert false;
    }
  }

  lemma FrontParts(u: string, w: string)
    ensures var a, m := RN + COMMENT + "\r\n\r", RN + COMMENT + RNRN + u;
            && CLEARSIGN + DASHES + m + BEGIN + w == CLEARSIGN + DASHES + (a + ['\n'] + (u + BEGIN + w))
            && |m| == |a| + 1 + |u| && '-' !in a && (a + ['\n'])[0] == '\r'
  {
    CommentPlain();
  }

  lemma RegroupMarker(u: string, v: string, t: string)
    ensures CLEARSIGN + DASHES + Middle(u + BEGIN + v) + BEGIN + t ==
            CLEARSIGN + DASHES + (RN + COMMENT + RNRN + u) + BEGIN + (v + RN + BEGIN + t)
  {
    var c := CLEARSIGN + DASHES;
    assert c + Middle(u + BEGIN + v) == c + (RN + COMMENT + RNRN + u) + BEGIN + (v + RN);
  }

  lemma MarkedParts(f: string) returns (u: string, v: string)
    requires Occurs(f, BEGIN)
    ensures f == u + BEGIN + v && forall k: nat | k < |u| :: !OccursAt(u + BEGIN + v, BEGIN, k)
    ensures MarkedPiece(f) == Split(v + RN + BEGIN, BEGIN)[0]
  {
    hide Split, Find;
    var k := Find(f, BEGIN);
    u, v := f[..k], f[k + |BEGIN|..];
    assert f == u + BEGIN + v;
  }

  /** The pieces of such a block: its header with the message up to the marker, then the message's own piece. */
  lemma MarkedBlock(signature: seq<byte>, msg: string)
    requires Occurs(Format(msg, false), BEGIN)
    ensures var parts := Split(Clearsigned(signature, msg), BEGIN);
            |parts| >= 3 && Split(parts[1], DASHES)[0] == CLEARSIGN && parts[2] == MarkedPiece(Format(msg, false))
  {
    hide Split, ClearsignedWith, Checksum, Body, Tail, Middle, Format, Occurs, OccursAt, MarkedPiece;
    var f, t := Format(msg, false), Tail(SIGNATURE, Body("", signature, Checksum(signature)));
    var u, v := MarkedParts(f);
    var front, w := CLEARSIGN + DASHES + (RN + COMMENT + RNRN + u), v + RN + BEGIN + t;
    ClearsignedInParts(signature, Checksum(signature), msg);
    RegroupMarker(u, v, t);
    var s := front + BEGIN + w;
    SplitAt("", BEGIN, s);
    assert "" + BEGIN + s == BEGIN + s;
    SplitBeforeMarker(u, v, w);
    FirstPiece(v + RN, BEGIN, t);
  }

  /** What the reader returns for a message with a marker in it: a function of the message, not of the signature. */
  ghost function MarkedResult(f: string): Option<(string, string)>
    requires Occurs(f, BEGIN)
  {
    var signature :- ReadArmour(MarkedPiece(f));
    Some((signature, TextIn(f)))
  }

  lemma MarkedBlockReads(signature: seq<byte>, msg: string)
    requires signature != [] && Occurs(Format(msg, false), BEGIN)
    ensures ReadSigBlock(Clearsigned(signature, msg)) == MarkedResult(Format(msg, false))
  {
    hide Split, ClearsignedWith, Checksum, Format, Occurs, MarkedPiece, ReadArmour, ReadText, TextIn;
    NamesDiffer();
    ClearsignedLines(signature, Checksum(signature), msg);
    MarkedBlock(signature, msg);
    TextReads(signature, msg);
  }

  /** With a marker in the message, all signatures are read alike. */
  lemma SignatureIgnored(s1: seq<byte>, s2: seq<byte>, msg: string)
    requires s1 != [] && s2 != [] && Occurs(Format(msg, false), BEGIN)
    ensures ReadSigBlock(Clearsigned(s1, msg)) == ReadSigBlock(Clearsigned(s2, msg))
  {
    hide ReadSigBlock, Clearsigned, Format, Occurs, MarkedResult;
    MarkedBlockReads(s1, msg);
    MarkedBlockReads(s2, msg);
  }

  // ----- what counts as an armour -----

  /** What stands between the first dashes and the next, up to the signature's name. */
  function BodyOf(armour: string): Option<string> {
    var body :- At(Split(armour, DASHES), 1);
    Some(Split(body, SIGNATURE)[0])
  }

  /** The text is the base64 form of b, one checksum mark at the start of a line, and the base64 form of b's checksum. */
  ghost predicate Encodes(t: string, e: string, k: string, b: seq<byte>) {
    && t == e + "\n=" + k && !Occurs(e, "\n=") && !Occurs(k, "\n=")
    && Base64.Decode(e) == Some(b) && Base64.Decode(k) == Some(Checksum(b))
  }

  /** The armour holds the bytes b with their checksum. */
  ghost predicate HoldsBytes(armour: string, b: seq<byte>) {
    BodyOf(armour).Some? && exists e, k :: Encodes(BodyOf(armour).value, e, k, b)
  }

  /** Cutting at the checksum mark gives two pieces exactly when there is one mark. */
  lemma OneMark(t: string, e: string, k: string)
    ensures Split(t, "\n=") == [e, k] <==> t == e + "\n=" + k && !Occurs(e, "\n=") && !Occurs(k, "\n=")
  {
    hide Split, Occurs, Find;
    var sep := "\n=";
    if t == e + sep + k && !Occurs(e, sep) && !Occurs(k, sep) {
      forall i: nat | i < |e| ensures !OccursAt(e + sep + k, sep, i) { NoEarlyMark(e, k, i); }
      SplitAt(e, sep, k);
      SplitNone(k, sep);
    }
    if Split(t, sep) == [e, k] {
      SplitStep(t, sep);
      var i := Find(t, sep);
      MarkFound(t, sep, e);
      assert Split(t[i + 2..], sep) == [k] by { assert ([e] + Split(t[i + 2..], sep))[1..] == Split(t[i + 2..], sep); }
      LastPiece(t[i + 2..], sep, k);
    }
  }

  lemma NoEarlyMark(e: string, k: string, i: nat)
    requires !Occurs(e, "\n=") && i < |e|
    ensures !OccursAt(e + "\n=" + k, "\n=", i)
  {
    var s := e + "\n=" + k;
    if OccursAt(s, "\n=", i) {
      StartsWith(s, "\n=", i, 1);
      if i + 1 < |e| {
        assert s[i..i + 2] == e[i..i + 2];
        assert OccursAt(e, "\n=", i);
      }
      assert false;
    }
  }

  lemma MarkFound(t: string, sep: string, e: string)
    requires sep != "" && |Split(t, sep)| >= 2 && Split(t, sep)[0] == e
    ensures var i := Find(t, sep); 0 <= i && i + |sep| <= |t| && e == t[..i] && t == e + sep + t[i + |sep|..] && !Occurs(e, sep)
  {
    hide Split, Find;
    SplitStep(t, sep);
    var i := Find(t, sep);
    assert t == t[..i] + t[i..i + |sep|] + t[i + |sep|..];
    assert e + t[i..] == t;
    forall j: nat ensures !OccursAt(e, sep, j) {
      if OccursAt(e, sep, j) { OccursInPrefix(e, t[i..], sep, j); }
    }
  }

  lemma LastPiece(t: string, sep: string, k: string)
    requires sep != "" && Split(t, sep) == [k]
    ensures t == k && !Occurs(k, sep)
  {
    hide Split, Find;
    SplitStep(t, sep);
    assert Find(t, sep) == -1;
  }

  // Line ends and blanks do not matter to the decoder.

  lemma {:induction false} SymbolsWithout(s: string, c: char)
    requires !Base64.IsSymbol(c)
    ensures Base64.Symbols(Without(s, c)) == Base64.Symbols(s)
  {
    if s != "" {
      SymbolsWithout(s[1..], c);
      var w := Without(s[1..], c);
      if s[0] == c { assert "" + w == w; } else { assert ([s[0]] + w)[1..] == w; }
    }
  }

  lemma {:induction false} SymbolsStripLeft(s: string)
    ensures Base64.Symbols(StripLeft(s)) == Base64.Symbols(s)
  {
    if s != "" && IsSpace(s[0]) { SymbolsStripLeft(s[1..]); }
  }

  lemma {:induction false} SymbolsStripRight(s: string)
    ensures Base64.Symbols(StripRight(s)) == Base64.Symbols(s)
  {
    if s != "" && IsSpace(s[|s| - 1]) {
      var front, last := s[..|s| - 1], s[|s| - 1];
      SymbolsStripRight(front);
      assert s == front + [last];
      Base64.SymbolsConcat(front, [last]);
      assert Base64.Symbols([last]) == "" by { assert [last][1..] == ""; }
    }
  }

  lemma DecodeUnfolded(e: string, k: string)
    ensures Base64.Decode(Without(Without(e, '\n'), '\r')) == Base64.Decode(e) && Base64.Decode(Strip(k)) == Base64.Decode(k)
  {
    hide Without, StripLeft, StripRight, Base64.Symbols;
    SymbolsWithout(e, '\n');
    SymbolsWithout(Without(e, '\n'), '\r');
    Base64.DecodeSymbols(e, []);
    Base64.DecodeSymbols(Without(Without(e, '\n'), '\r'), []);
    SymbolsStripLeft(k);
    SymbolsStripRight(StripLeft(k));
    Base64.DecodeSymbols(k, []);
    Base64.DecodeSymbols(Strip(k), []);
  }

  /** The reader accepts an armour exactly when it holds bytes with their checksum. */
  lemma ReadArmourExact(armour: string)
    ensures ReadArmour(armour).Some? <==> exists b :: HoldsBytes(armour, b)
    ensures ReadArmour(armour).Some? ==>
              exists b :: HoldsBytes(armour, b) && Base64.Decode(ReadArmour(armour).value) == Some(b)
  {
    hide Split, Strip, Join, Checksum, Base64.Decode, Occurs, Without;
    if BodyOf(armour).Some? {
      var t := BodyOf(armour).value;
      var pieces := Split(t, "\n=");
      forall e, k, b | Encodes(t, e, k, b) ensures pieces == [e, k] && ReadArmour(armour).Some? {
        OneMark(t, e, k);
        PiecesRead(armour, e, k);
      }
      if |pieces| == 2 {
        var e, k := pieces[0], pieces[1];
        assert pieces == [e, k];
        OneMark(t, e, k);
        PiecesRead(armour, e, k);
        if ReadArmour(armour).Some? {
          var b := Base64.Decode(e).value;
          assert Encodes(t, e, k, b);
          assert HoldsBytes(armour, b);
        }
      }
    }
  }

  lemma PiecesRead(armour: string, e: string, k: string)
    requires BodyOf(armour).Some? && Split(BodyOf(armour).value, "\n=") == [e, k]
    ensures var b, sum := Base64.Decode(e), Base64.Decode(k);
            ReadArmour(armour) ==
            if b.Some? && sum.Some? && sum.value == Checksum(b.value) then Some(Without(Without(e, '\n'), '\r')) else None
    ensures Base64.Decode(Without(Without(e, '\n'), '\r')) == Base64.Decode(e)
  {
    hide Split, Strip, Join, Checksum, Base64.Decode, Without;
    JoinSplitWithout(e, '\n');
    JoinSplitWithout(Without(e, '\n'), '\r');
    DecodeUnfolded(e, k);
  }

  /** Reading such a block raises exactly when the message's own piece holds no bytes with their checksum. */
  lemma MarkerInMessageRaises(signature: seq<byte>, msg: string)
    requires signature != [] && Occurs(Format(msg, false), BEGIN)
    ensures ReadSigBlock(Clearsigned(signature, msg)).None? <==> !exists b :: HoldsBytes(MarkedPiece(Format(msg, false)), b)
    ensures !Occurs(MarkedPiece(Format(msg, false)), DASHES) ==> ReadSigBlock(Clearsigned(signature, msg)).None?
  {
    hide Split, ReadSigBlock, Clearsigned, Format, Occurs, MarkedPiece, ReadArmour, HoldsBytes;
    MarkedBlockReads(signature, msg);
    var piece := MarkedPiece(Format(msg, false));
    ReadArmourExact(piece);
    if !Occurs(piece, DASHES) { NoDashesNoArmour(piece); }
  }

  lemma NoDashesNoArmour(piece: string)
    requires !Occurs(piece, DASHES)
    ensures ReadArmour(piece).None?
  {
    hide Split, Occurs;
    SplitNone(piece, DASHES);
  }

  // ----- exactly which messages can be read back -----

  ghost predicate ReadsBack(signature: seq<byte>, msg: string) {
    ReadSigBlock(Clearsigned(signature, msg)) == Some((Base64.Encode(signature), Format(msg, false)))
  }

  /** The block of every 65-byte signature reads back exactly when the displayed text has no begin marker. */
  lemma ClearsignedReadable(msg: string)
    ensures (forall s: seq<byte> | |s| == 65 :: ReadsBack(s, msg)) <==> !Occurs(Format(msg, false), BEGIN)
  {
    hide ReadSigBlock, Clearsigned, Format, Occurs, Base64.Encode;
    if Occurs(Format(msg, false), BEGIN) {
      var s1: seq<byte>, s2: seq<byte> := seq(65, _ => 0), seq(65, _ => 1);
      SignatureIgnored(s1, s2, msg);
      assert s1[0] != s2[0];
      Base64.EncodeDecode(s1);
      Base64.EncodeDecode(s2);
      assert !(ReadsBack(s1, msg) && ReadsBack(s2, msg));
    } else {
      forall s: seq<byte> | |s| == 65 ensures ReadsBack(s, msg) { ClearsignedBlockReads(s, msg); }
    }
  }

  // ----- one such message -----

  function QuotedLines(): seq<string> {
    ["X" + BEGIN + DASHES, "", ""] + Lines([0]) + ["=" + Base64.Encode(Checksum([0]))]
  }

  /** A message that quotes the armour of the one-byte signature 0 behind a marker. */
  function Quoting(): string {
    Join(RN, QuotedLines())
  }

  lemma QuotedLinesClean()
    ensures Clean(QuotedLines()) && forall i | 0 <= i < |QuotedLines()| :: QuotedLines()[i] == "" || QuotedLines()[i][0] != '-'
  {
    hide Lines, Checksum, Base64.Encode, Trim;
    var l, q, h := Lines([0]), "=" + Base64.Encode(Checksum([0])), "X" + BEGIN + DASHES;
    LinesOf([0]);
    PlainClean(l);
    ChecksumLineClean(Checksum([0]));
    BlankClean();
    QuotedHead();
    HeadClean(h, "");
    CleanConcat([h, "", ""], l);
    LastClean([h, "", ""] + l, q);
    forall i | 0 <= i < |QuotedLines()| ensures QuotedLines()[i] == "" || QuotedLines()[i][0] != '-' {
      if 3 <= i < 3 + |l| { assert QuotedLines()[i] == l[i - 3] && Plain(l[i - 3]); }
    }
  }

  lemma LastClean(lines: seq<string>, q: string)
    requires Clean(lines) && '\n' !in q && Trim(q) == q
    ensures Clean(lines + [q])
  {
  }

  lemma QuotedHead()
    ensures var h := "X" + BEGIN + DASHES; '\n' !in h && Trim(h) == h && h[0] == 'X'
  {
    var h := "X" + BEGIN + DASHES;
    assert h[|h| - 1] == '-';
  }

  lemma QuotingParts()
    ensures Quoting() + RN == "X" + BEGIN + (DASHES + Body("", [0], Checksum([0])))
  {
    hide Lines, Checksum, Base64.Encode, Join;
    var l, q, h := Lines([0]), "=" + Base64.Encode(Checksum([0])), "X" + BEGIN + DASHES;
    LinesOf([0]);
    JoinConcat(RN, [h, "", ""] + l, [q]);
    JoinConcat(RN, [h, "", ""], l);
    JoinThree(h, "", "");
    JoinOne(RN, q);
    QuotingRegrouped(h, Join(RN, l), q);
    assert h == "X" + BEGIN + DASHES;
    BodyRegrouped("X" + BEGIN, Join(RN, l), Base64.Encode(Checksum([0])));
  }

  lemma QuotingRegrouped(h: string, e: string, q: string)
    ensures h + RN + ("" + RN + "") + RN + e + RN + q + RN == h + (RN + RNRN + e + RN + q + RN)
  {
  }

  lemma BodyRegrouped(h: string, e: string, k: string)
    ensures h + DASHES + (RN + RNRN + e + RN + ("=" + k) + RN) == h + (DASHES + (RN + "" + RNRN + e + RN + "=" + k + RN))
  {
  }

  /** Its marker is at place 1, and the piece behind it is the quoted armour. */
  lemma QuotingPiece()
    ensures Occurs(Quoting(), BEGIN) && MarkedPiece(Quoting()) == DASHES + Body("", [0], Checksum([0]))
  {
    hide Split, Body, Quoting;
    var f, x := Quoting(), DASHES + Body("", [0], Checksum([0]));
    QuotingParts();
    Markers();
    BodyIsBody("", [0], Checksum([0]), "");
    QuotingTail(f, x);
    FirstAtOne(f);
    ArmourHasNoBegin(Body("", [0], Checksum([0])));
    SplitAt(x, BEGIN, "");
    assert x + BEGIN + "" == x + BEGIN;
  }

  lemma QuotingTail(f: string, x: string)
    requires f + RN == "X" + BEGIN + x && |x| >= 2
    ensures |f| >= 12 && f[..12] == "X" + BEGIN && f[12..] + RN == x
  {
    Markers();
    var s := f + RN;
    assert s[..12] == f[..12] && s[12..] == f[12..] + RN;
  }

  lemma FirstAtOne(f: string)
    requires |f| >= 12 && f[..12] == "X" + BEGIN
    ensures Occurs(f, BEGIN) && Find(f, BEGIN) == 1
  {
    hide Find;
    Markers();
    assert f[1..12] == BEGIN;
    assert OccursAt(f, BEGIN, 1);
    assert f[0] == 'X' && !OccursAt(f, BEGIN, 0) by { if OccursAt(f, BEGIN, 0) { StartsWith(f, BEGIN, 0, 0); } }
  }

  lemma ArmourHasNoBegin(body: string)
    requires IsBody("", body)
    ensures forall k: nat | k < |DASHES + body| :: !OccursAt(DASHES + body + BEGIN + "", BEGIN, k)
  {
    Markers();
    var s := DASHES + body + BEGIN + "";
    assert s == "" + DASHES + (body + BEGIN);
    forall k: nat | k < |DASHES + body| ensures !OccursAt(s, BEGIN, k) {
      if OccursAt(s, BEGIN, k) {
        MarkerAt("", body + BEGIN, "BEGIN ", k);
        StartsWith(body + BEGIN, BEGIN, k - 5, 0);
        assert false;
      }
    }
  }

  /** Every signature of this message is read as the quoted one. */
  lemma OtherSignatureRead(signature: seq<byte>)
    requires signature != []
    ensures var r := ReadSigBlock(Clearsigned(signature, Quoting()));
            r.Some? && r.value.0 == Base64.Encode([0]) && (signature != [0] ==> r.value.0 != Base64.Encode(signature))
  {
    hide Split, ClearsignedWith, Checksum, Format, Quoting, ReadSigBlock, Body, Base64.Encode, ReadArmour, MarkedPiece, TextIn;
    assert Format(Quoting(), false) == Quoting() by { QuotingFixed(); }
    QuotingPiece();
    MarkedBlockReads(signature, Quoting());
    BodyIsBody("", [0], Checksum([0]), "");
    TailAtDashes("", Body("", [0], Checksum([0])));
    assert "" + DASHES + Body("", [0], Checksum([0])) == DASHES + Body("", [0], Checksum([0]));
    ArmourReads([0], Checksum([0]), DASHES + Body("", [0], Checksum([0])));
    Base64.EncodeDecode([0]);
    Base64.EncodeDecode(signature);
  }

  lemma QuotingFixed()
    ensures Format(Quoting(), false) == Quoting()
  {
    hide Format, QuotedLines, Clean;
    QuotedLinesClean();
    assert QuotedLines() != [] by { QuotedLinesSome(); }
    CleanFormats(QuotedLines(), false);
  }

  lemma QuotedLinesSome()
    ensures QuotedLines() != []
  {
  }
}
