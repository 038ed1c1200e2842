/** Reading an armoured block gives back what was printed into it. */
module ArmourProofs {
  import opened Wrappers
  import opened Bytes
  import opened Base64
  import opened Crc24
  import opened Text
  import opened FormatText
  import opened Armour

  // ----- where dashes can start a marker -----

  /** A marker of five dashes and w, in a text whose first dashes are those between a and b. */
  lemma MarkerAt(a: string, b: string, w: string, k: nat)
    requires '-' !in a && (b == "" || b[0] != '-') && OccursAt(a + DASHES + b, DASHES + w, k)
    ensures (k == |a| && w <= b) || (k >= |a| + 5 && OccursAt(b, DASHES + w, k - |a| - 5))
  {
    hide OccursAt;
    var s, m, n := a + DASHES + b, DASHES + w, |a| + 5;
    FiveDashes(a, b, w);
    StartsWith(s, m, k, 0);
    if k == |a| {
      assert s == a + (DASHES + b);
      SuffixOccurs(a, DASHES + b, m, 0);
      PrefixAfterDashes(b, w);
    } else if k < n {
      StartsWith(s, m, k, n - k);
      assert false;
    } else {
      SuffixOccurs(a + DASHES, b, m, k - n);
    }
  }

  lemma FiveDashes(a: string, b: string, w: string)
    ensures var s, m, n := a + DASHES + b, DASHES + w, |a| + 5;
            && |m| >= 5 && |s| == n + |b| && (forall i | 0 <= i < |a| :: s[i] == a[i])
            && (b != "" ==> s[n] == b[0]) && forall i | 0 <= i < 5 :: m[i] == '-'
  {
    assert forall i | 0 <= i < 5 :: DASHES[i] == '-';
  }

  lemma PrefixAfterDashes(b: string, w: string)
    requires OccursAt(DASHES + b, DASHES + w, 0)
    ensures w <= b
  {
    var m := DASHES + w;
    assert w == m[5..] == (DASHES + b)[..|m|][5..] == b[..|w|];
  }

  lemma Markers()
    ensures BEGIN == DASHES + "BEGIN " && |BEGIN| == 11
    ensures END == DASHES + "END " && |END| == 9
    ensures DASHES == DASHES + "" && RNRN == RN + RN && |RNRN| == 4
  {
  }

  lemma CommentPlain()
    ensures '-' !in COMMENT && '\n' !in COMMENT && '\r' !in COMMENT
    ensures |COMMENT| == 41 && COMMENT[0] == 'C' && COMMENT[40] == '3'
  {
    CommentText();
    CommentProgram();
    CommentVersion();
  }

  lemma CommentText()
    ensures '-' !in COMMENT_TEXT && '\n' !in COMMENT_TEXT && '\r' !in COMMENT_TEXT
    ensures |COMMENT_TEXT| == 18 && COMMENT_TEXT[0] == 'C'
  {
  }

  lemma CommentProgram()
    ensures '-' !in COMMENT_PROGRAM && '\n' !in COMMENT_PROGRAM && '\r' !in COMMENT_PROGRAM && |COMMENT_PROGRAM| == 17
  {
  }

  lemma CommentVersion()
    ensures '-' !in COMMENT_VERSION && '\n' !in COMMENT_VERSION && '\r' !in COMMENT_VERSION
    ensures |COMMENT_VERSION| == 6 && COMMENT_VERSION[5] == '3'
  {
  }

  lemma ClearsignPlain()
    ensures '-' !in CLEARSIGN && '\n' !in CLEARSIGN && |CLEARSIGN| == 22 && CLEARSIGN[12] == 'E'
  {
  }

  lemma SignaturePlain()
    ensures '-' !in SIGNATURE && '\n' !in SIGNATURE && |SIGNATURE| == 17 && SIGNATURE[12] == 'A' && SIGNATURE[7] == ' '
  {
  }

  lemma Base64NamePlain()
    ensures '-' !in BASE64 && '\n' !in BASE64
  {
  }

  /** The end of a block: the name, its dashes, a dashless body and the closing marker. */
  function Tail(name: string, body: string): string {
    name + DASHES + (body + DASHES + ("END " + name + DASHES))
  }

  lemma TailHasNoBegin(name: string, body: string, prefix: string)
    requires '-' !in name && '-' !in prefix && '-' !in body && body != "" && body[0] == '\r'
    ensures !Occurs(prefix + Tail(name, body), BEGIN)
  {
    hide Occurs;
    var w, last := "BEGIN ", "END " + name + DASHES;
    var rest := body + DASHES + last;
    assert BEGIN == DASHES + w by { Markers(); }
    assert !Occurs("", DASHES + w) by { NothingOccurs(DASHES + w); }
    NoMarker("END " + name, "", w);
    assert last == ("END " + name) + DASHES + "";
    NoMarker(body, last, w);
    NoMarker(prefix + name, rest, w);
    assert prefix + Tail(name, body) == (prefix + name) + DASHES + rest;
  }

  lemma NothingOccurs(m: string)
    requires m != ""
    ensures !Occurs("", m)
  {
  }

  /** Dashes between a dashless text and one without the marker start none when the next character is not w's. */
  lemma NoMarker(a: string, b: string, w: string)
    requires '-' !in a && w != "" && (b == "" || (b[0] != '-' && b[0] != w[0])) && !Occurs(b, DASHES + w)
    ensures !Occurs(a + DASHES + b, DASHES + w)
  {
    hide OccursAt;
    forall k: nat ensures !OccursAt(a + DASHES + b, DASHES + w, k) {
      if OccursAt(a + DASHES + b, DASHES + w, k) {
        MarkerAt(a, b, w, k);
        assert false;
      }
    }
  }

  ghost predicate IsBody(name: string, body: string) {
    '-' !in name && '-' !in body && body != "" && body[0] == '\r'
  }

  lemma TailAtBegin(name: string, body: string)
    requires IsBody(name, body)
    ensures Split(Tail(name, body), BEGIN) == [Tail(name, body)]
  {
    hide Split, Tail;
    var t := Tail(name, body);
    TailHasNoBegin(name, body, "");
    assert "" + t == t;
    SplitNone(t, BEGIN);
  }

  /** Cutting a block at its dashes leaves its name and its body. */
  lemma TailAtDashes(name: string, body: string)
    requires IsBody(name, body)
    ensures Split(Tail(name, body), DASHES)[0] == name
    ensures |Split(Tail(name, body), DASHES)| >= 2 && Split(Tail(name, body), DASHES)[1] == body
    ensures Split(name + DASHES + body, DASHES) == [name, body]
  {
    hide Split;
    var last := "END " + name + DASHES;
    SplitDashes(name, body + DASHES + last);
    SplitDashes(body, last);
    SplitDashes(name, body);
    NotIn(body, DASHES, 0);
    SplitNone(body, DASHES);
  }

  lemma TailAtEnd(name: string, body: string)
    requires IsBody(name, body)
    ensures Split(Tail(name, body), END)[0] == name + DASHES + body
  {
    hide Split;
    Markers();
    var last := "END " + name + DASHES;
    var rest := body + DASHES + last;
    var front, back := name + DASHES + body, name + DASHES;
    var t := Tail(name, body);
    assert t == front + END + back;
    forall k: nat | k < |front| ensures !OccursAt(front + END + back, END, k) {
      if OccursAt(front + END + back, END, k) {
        MarkerAt(name, rest, "END ", k);
        assert rest[0] == '\r';
        MarkerAt(body, last, "END ", k - |name| - 5);
        assert false;
      }
    }
    SplitAt(front, END, back);
  }

  lemma SplitDashes(a: string, b: string)
    requires '-' !in a
    ensures Split(a + DASHES + b, DASHES) == [a] + Split(b, DASHES)
  {
    forall k: nat | k < |a| ensures !OccursAt(a + DASHES + b, DASHES, k) {
      if OccursAt(a + DASHES + b, DASHES, k) { StartsWith(a + DASHES + b, DASHES, k, 0); }
    }
    SplitAt(a, DASHES, b);
  }

  // ----- lines -----

  function Head(l: string): char {
    if l == "" then '\r' else l[0]
  }

  /** What follows a line end inside joined lines is the beginning of a line. */
  lemma {:induction false} AfterNewline(lines: seq<string>, t: string, c: char, k: nat)
    requires lines != [] && NewlineFree(lines) && forall i | 1 <= i < |lines| :: Head(lines[i]) != c
    requires k < |Join(RN, lines)| && Join(RN, lines)[k] == '\n'
    ensures (Join(RN, lines) + "\r" + t)[k + 1] != c
    decreases |lines|
  {
    if |lines| == 1 {
      assert false;
    } else {
      var a, rest := lines[0], lines[1..];
      var b := Join(RN, rest);
      assert Join(RN, lines) == a + RN + b;
      assert k >= |a| + 1;
      if k == |a| + 1 {
        JoinHead(rest, t);
        assert (a + RN + b + "\r" + t)[k + 1] == (b + "\r" + t)[0];
        assert rest[0] == lines[1];
      } else {
        AfterNewline(rest, t, c, k - |a| - 2);
        assert (a + RN + b + "\r" + t)[k + 1] == (b + "\r" + t)[k - |a| - 1];
      }
    }
  }

  lemma JoinHead(lines: seq<string>, t: string)
    requires lines != []
    ensures (Join(RN, lines) + "\r" + t)[0] == Head(lines[0])
  {
  }

  /** Joined lines none of which starts with '=', then a line that does. */
  lemma SplitChecksum(lines: seq<string>, last: string)
    requires lines != [] && NewlineFree(lines) && forall i | 1 <= i < |lines| :: Head(lines[i]) != '='
    requires !Occurs(last, "\n=")
    ensures Split(Join(RN, lines) + "\r" + "\n=" + last, "\n=") == [Join(RN, lines) + "\r", last]
  {
    hide Split, Join;
    var a := Join(RN, lines) + "\r";
    forall k: nat | k < |a| ensures !OccursAt(a + "\n=" + last, "\n=", k) {
      NoEarlierChecksum(lines, last, k);
    }
    SplitAt(a, "\n=", last);
    SplitNone(last, "\n=");
  }

  lemma NoEarlierChecksum(lines: seq<string>, last: string, k: nat)
    requires lines != [] && NewlineFree(lines) && forall i | 1 <= i < |lines| :: Head(lines[i]) != '='
    requires k <= |Join(RN, lines)|
    ensures !OccursAt(Join(RN, lines) + "\r" + "\n=" + last, "\n=", k)
  {
    hide Join;
    var j := Join(RN, lines);
    var s := j + "\r" + "\n=" + last;
    if OccursAt(s, "\n=", k) {
      StartsWith(s, "\n=", k, 0);
      StartsWith(s, "\n=", k, 1);
      assert s == j + "\r" + ("\n=" + last);
      if k < |j| {
        AfterNewline(lines, "\n=" + last, '=', k);
      }
    }
  }

  // ----- the base64 lines -----

  /** Characters that are neither blank nor dash. */
  ghost predicate Plain(s: string) {
    forall i | 0 <= i < |s| :: IsSymbol(s[i])
  }

  lemma {:induction false} ChunksOf(t: string, offset: nat)
    requires Plain(t) && offset % 64 == 0 && forall i | 0 <= i < |t| && t[i] == '=' :: (offset + i) % 4 >= 2
    ensures Join("", Chunks(t, 64)) == t
    ensures forall i | 0 <= i < |Chunks(t, 64)| ::
              var l := Chunks(t, 64)[i]; l != "" && Plain(l) && l[0] != '='
    decreases |t|
  {
    if |t| > 64 {
      ChunksOf(t[64..], offset + 64);
      var first, rest := t[..64], Chunks(t[64..], 64);
      JoinCons("", first, rest);
      assert first + "" + t[64..] == t;
      assert first[0] == t[0];
    } else if t != "" {
      assert Join("", [t]) == t;
    }
  }

  /** All lines but the last have 64 characters. */
  lemma {:induction false} ChunkLengths(t: string, i: nat)
    requires i < |Chunks(t, 64)|
    ensures if i < |Chunks(t, 64)| - 1 then |Chunks(t, 64)[i]| == 64 else 0 < |Chunks(t, 64)[i]| <= 64
    decreases |t|
  {
    if |t| > 64 && i > 0 { ChunkLengths(t[64..], i - 1); }
  }

  lemma EncodePlain(b: seq<byte>)
    ensures Plain(Base64.Encode(b)) && forall i | 0 <= i < |Base64.Encode(b)| && Base64.Encode(b)[i] == '=' :: i % 4 >= 2
  {
    forall i | 0 <= i < |Base64.Encode(b)|
      ensures IsSymbol(Base64.Encode(b)[i]) && (Base64.Encode(b)[i] == '=' ==> i % 4 >= 2)
    {
      EncodeShape(b, i);
    }
  }

  /** The base64 lines of a block. */
  function Lines(block: seq<byte>): seq<string> {
    Chunks(Base64.Encode(block), 64)
  }

  ghost predicate PlainLines(lines: seq<string>) {
    forall i | 0 <= i < |lines| :: lines[i] != "" && Plain(lines[i]) && lines[i][0] != '='
  }

  lemma LinesOf(block: seq<byte>)
    requires block != []
    ensures Lines(block) != [] && PlainLines(Lines(block)) && Join("", Lines(block)) == Base64.Encode(block)
  {
    EncodePlain(block);
    ChunksOf(Base64.Encode(block), 0);
  }

  lemma PlainClean(lines: seq<string>)
    requires PlainLines(lines)
    ensures Clean(lines)
  {
    forall i | 0 <= i < |lines| ensures '\n' !in lines[i] && Trim(lines[i]) == lines[i] {
      var l := lines[i];
      assert l != "" && Plain(l);
      assert IsSymbol(l[|l| - 1]);
      TrimTrimmed(l);
    }
  }

  // ----- an armoured block in parts -----

  /** What stands between the name's dashes and the closing marker. */
  function Body(comment: string, block: seq<byte>, sum: seq<byte>): string {
    RN + comment + RNRN + Join(RN, Lines(block)) + RN + "=" + Base64.Encode(sum) + RN
  }

  lemma ArmourInParts(block: seq<byte>, sum: seq<byte>, name: string, addComment: bool)
    ensures ArmourWith(block, sum, name, addComment) == BEGIN + Tail(name, Body(if addComment then COMMENT else "", block, sum))
  {
    hide Join, Lines, Checksum, Base64.Encode;
    Markers();
    var comment := if addComment then COMMENT else "";
    var e, k := Join(RN, Chunks(Base64.Encode(block), 64)), Base64.Encode(sum);
    assert Lines(block) == Chunks(Base64.Encode(block), 64) by { LinesDefinition(block); }
    Regroup(name, comment, e, k);
  }

  lemma LinesDefinition(block: seq<byte>)
    ensures Lines(block) == Chunks(Base64.Encode(block), 64)
  {
  }

  lemma Regroup(name: string, c: string, e: string, k: string)
    ensures BEGIN + name + DASHES + RN + c + RNRN + e + RN + "=" + k + RN + (DASHES + "END ") + name + DASHES ==
            BEGIN + (name + DASHES + ((RN + c + RNRN + e + RN + "=" + k + RN) + DASHES + ("END " + name + DASHES)))
  {
    var front := BEGIN + name + DASHES;
    var body := RN + c + RNRN + e + RN + "=" + k + RN;
    assert front + RN + c + RNRN + e + RN + "=" + k + RN == front + body;
    assert front + body + (DASHES + "END ") + name + DASHES == front + (body + DASHES + ("END " + name + DASHES));
  }

  lemma ChecksumPlain(sum: seq<byte>)
    requires |sum| == 3
    ensures var k := Base64.Encode(sum); |k| == 4 && Plain(k)
  {
    EncodePlain(sum);
  }

  lemma {:induction false} JoinNoDash(lines: seq<string>)
    requires PlainLines(lines)
    ensures '-' !in Join(RN, lines) && ' ' !in Join(RN, lines)
  {
    if |lines| > 1 {
      JoinNoDash(lines[1..]);
      assert '-' !in lines[0] && ' ' !in lines[0];
    } else if |lines| == 1 {
      assert '-' !in lines[0] && ' ' !in lines[0];
    }
  }

  lemma BodyIsBody(comment: string, block: seq<byte>, sum: seq<byte>, name: string)
    requires block != [] && |sum| == 3 && '-' !in comment && '-' !in name
    ensures IsBody(name, Body(comment, block, sum))
  {
    hide Join, Lines, Checksum, Base64.Encode;
    LinesOf(block);
    JoinNoDash(Lines(block));
    ChecksumPlain(sum);
    var e, k := Join(RN, Lines(block)), Base64.Encode(sum);
    assert '-' !in k;
    var s := Body(comment, block, sum);
    assert s[0] == '\r';
    assert '-' !in RN && '-' !in RNRN && '-' !in "=";
    assert '-' !in RN + comment + RNRN + e;
  }

  // ----- the base64 block -----

  lemma BodySplits(block: seq<byte>, sum: seq<byte>)
    requires block != [] && |sum| == 3
    ensures var lines, k := [COMMENT, ""] + Lines(block), Base64.Encode(sum);
            Split(Strip(Body(COMMENT, block, sum)), "\n=") == [Join(RN, lines) + "\r", k]
  {
    hide Split, Strip, Lines, Checksum, Base64.Encode, Join;
    CommentPlain();
    LinesOf(block);
    ChecksumPlain(sum);
    var l, k := Lines(block), Base64.Encode(sum);
    var lines := [COMMENT, ""] + l;
    var e := Join(RN, l);
    var x := COMMENT + RNRN + e + RN + "=" + k;
    assert Body(COMMENT, block, sum) == RN + x + RN by { CutBody(COMMENT, e, k); }
    assert x[0] == 'C' && x[|x| - 1] == k[3] && IsSymbol(k[3]);
    StripAround(RN, x, RN);
    PlainClean(l);
    forall i | 1 <= i < |lines| ensures Head(lines[i]) != '=' {
      if i >= 2 { assert lines[i] == l[i - 2]; }
    }
    assert NewlineFree(lines) by {
      forall i | 0 <= i < |lines| ensures '\n' !in lines[i] {
        if i >= 2 { assert lines[i] == l[i - 2]; }
      }
    }
    NotIn(k, "\n=", 0);
    SplitChecksum(lines, k);
    HeadLines(COMMENT, l);
    assert x == Join(RN, lines) + "\r" + "\n=" + k by { CutLines(COMMENT, e, k); }
  }

  lemma CutBody(c: string, e: string, k: string)
    ensures RN + c + RNRN + e + RN + "=" + k + RN == RN + (c + RNRN + e + RN + "=" + k) + RN
  {
  }

  lemma CutLines(c: string, e: string, k: string)
    ensures c + RNRN + e + RN + "=" + k == (c + RNRN + e) + "\r" + "\n=" + k
  {
  }

  lemma HeadLines(c: string, l: seq<string>)
    requires l != []
    ensures Join(RN, [c, ""] + l) == c + RNRN + Join(RN, l)
  {
    JoinConcat(RN, [c, ""], l);
    assert Join(RN, [c, ""]) == c + RN + "";
    assert c + RN + "" + RN == c + RNRN;
  }

  /** The text after the comment's blank line, up to its last carriage return. */
  lemma EncodedPart(block: seq<byte>)
    requires block != []
    ensures var p := Join(RN, [COMMENT, ""] + Lines(block)) + "\r";
            |Split(p, RNRN)| >= 2 && Split(p, RNRN)[1] == Join(RN, Lines(block)) + "\r"
  {
    hide Split, Lines, Join;
    Markers();
    CommentPlain();
    LinesOf(block);
    var l := Lines(block);
    var e := Join(RN, l);
    HeadLines(COMMENT, l);
    var s := COMMENT + RNRN + (e + "\r");
    assert COMMENT + RNRN + e + "\r" == s;
    forall k: nat | k < |COMMENT| ensures !OccursAt(s, RNRN, k) {
      if OccursAt(s, RNRN, k) { StartsWith(s, RNRN, k, 0); }
    }
    SplitAt(COMMENT, RNRN, e + "\r");
    PlainClean(l);
    forall k: nat ensures !OccursAt(e + "\r", RNRN, k) { NoBlankLine(l, k); }
    SplitNone(e + "\r", RNRN);
  }

  lemma NoBlankLine(lines: seq<string>, k: nat)
    requires lines != [] && PlainLines(lines) && Clean(lines)
    ensures !OccursAt(Join(RN, lines) + "\r", RNRN, k)
  {
    hide Join;
    var e := Join(RN, lines);
    var s := e + "\r";
    if OccursAt(s, RNRN, k) {
      StartsWith(s, RNRN, k, 1);
      StartsWith(s, RNRN, k, 2);
      assert e + "\r" + "" == s;
      forall i | 1 <= i < |lines| ensures Head(lines[i]) != '\r' { assert IsSymbol(lines[i][0]); }
      AfterNewline(lines, "", '\r', k + 1);
    }
  }

  /** Taking the line ends out of the base64 lines leaves the encoding and the last carriage return. */
  lemma LinesRejoin(block: seq<byte>)
    requires block != []
    ensures Join("", Split(Join(RN, Lines(block)) + "\r", RN)) == Base64.Encode(block) + "\r"
  {
    hide Split, Lines, Base64.Encode;
    LinesOf(block);
    var l := Lines(block);
    PlainClean(l);
    var l' := l[|l| - 1 := l[|l| - 1] + "\r"];
    JoinLast(RN, l, "\r");
    JoinLast("", l, "\r");
    SplitLines(l');
  }

  lemma {:induction false} JoinLast(sep: string, lines: seq<string>, t: string)
    requires lines != []
    ensures Join(sep, lines[|lines| - 1 := lines[|lines| - 1] + t]) == Join(sep, lines) + t
    decreases |lines|
  {
    hide Join;
    var n := |lines| - 1;
    var a, rest, last := lines[0], lines[1..], lines[n] + t;
    if n == 0 {
      assert lines == [a] && lines[n := last] == [last];
      JoinOne(sep, a);
      JoinOne(sep, last);
    } else {
      var rest' := rest[n - 1 := last];
      assert lines == [a] + rest && lines[n := last] == [a] + rest';
      JoinLast(sep, rest, t);
      JoinCons(sep, a, rest);
      JoinCons(sep, a, rest');
      assert a + sep + (Join(sep, rest) + t) == a + sep + Join(sep, rest) + t;
    }
  }

  lemma StripPlain(s: string)
    requires s != "" && Plain(s)
    ensures Strip(s) == s && Strip(s + RN) == s
  {
    assert IsSymbol(s[0]) && IsSymbol(s[|s| - 1]);
    StripAround("", s, "");
    StripAround("", s, RN);
    assert "" + s + "" == s && "" + s + RN == s + RN;
  }

  lemma BeginFirst(t: string)
    requires Split(t, BEGIN) == [t]
    ensures Split(BEGIN + t, BEGIN) == ["", t]
  {
    hide Split;
    SplitAt("", BEGIN, t);
    assert "" + BEGIN + t == BEGIN + t;
  }

  lemma ReadsBase64(block: seq<byte>, sum: seq<byte>)
    requires block != [] && |sum| == 3
    ensures var n := if |block| < 65 then |block| else 65;
            ReadBase64(ArmourWith(block, sum, BASE64, true)) ==
            if sum == Checksum(block) then Some((Base64.Encode(block[..n]), Chr(block[n..]))) else None
  {
    hide Split, Strip, Join, Lines, Checksum, Base64.Encode, Base64.Decode, ArmourWith, Body, Tail, IsBody;
    var body := Body(COMMENT, block, sum);
    ArmourInParts(block, sum, BASE64, true);
    Base64NamePlain();
    CommentPlain();
    BodyIsBody(COMMENT, block, sum, BASE64);
    TailAtBegin(BASE64, body);
    BeginFirst(Tail(BASE64, body));
    TailAtEnd(BASE64, body);
    TailAtDashes(BASE64, body);
    BodySplits(block, sum);
    EncodedPart(block);
    LinesRejoin(block);
    EncodeDecodeTail(block, '\r');
    ChecksumPlain(sum);
    StripPlain(Base64.Encode(sum));
    Base64.EncodeDecode(sum);
  }

  // ----- blocks are made of clean lines -----

  function ArmourLines(block: seq<byte>, sum: seq<byte>, name: string, comment: string): seq<string> {
    [BEGIN + name + DASHES, comment, ""] + Lines(block) + ["=" + Base64.Encode(sum), END + name + DASHES]
  }

  lemma ArmourIsLines(block: seq<byte>, sum: seq<byte>, name: string, addComment: bool)
    requires block != []
    ensures ArmourWith(block, sum, name, addComment) == Join(RN, ArmourLines(block, sum, name, if addComment then COMMENT else ""))
  {
    hide Lines, Checksum, Base64.Encode;
    LinesOf(block);
    LinesDefinition(block);
    var comment := if addComment then COMMENT else "";
    var h, f := BEGIN + name + DASHES, END + name + DASHES;
    var l, q := Lines(block), "=" + Base64.Encode(sum);
    JoinThree(h, comment, "");
    JoinTwo(q, f);
    hide Join;
    JoinConcat(RN, [h, comment, ""] + l, [q, f]);
    JoinConcat(RN, [h, comment, ""], l);
    RegroupLines(h, comment, Join(RN, l), Base64.Encode(sum), name);
  }

  lemma JoinTwo(a: string, b: string)
    ensures Join(RN, [a, b]) == a + RN + b
  {
    assert [a, b][1..] == [b];
  }

  lemma JoinThree(a: string, b: string, c: string)
    ensures Join(RN, [a, b, c]) == a + RN + (b + RN + c)
  {
    assert [a, b, c][1..] == [b, c];
    JoinTwo(b, c);
  }

  lemma RegroupLines(h: string, c: string, e: string, k: string, name: string)
    ensures (h + RN + (c + RN + "")) + RN + e + RN + (("=" + k) + RN + (END + name + DASHES)) ==
            h + RN + c + RNRN + e + RN + "=" + k + RN + END + name + DASHES
  {
    Markers();
    assert h + RN + (c + RN + "") + RN == h + RN + c + RNRN;
    assert ("=" + k) + RN + (END + name + DASHES) == "=" + k + RN + END + name + DASHES;
    var front := h + RN + c + RNRN + e + RN;
    assert front + ("=" + k + RN + END + name + DASHES) == front + "=" + k + RN + END + name + DASHES;
  }

  lemma MarkerClean(name: string)
    requires '\n' !in name
    ensures '\n' !in BEGIN + name + DASHES && Trim(BEGIN + name + DASHES) == BEGIN + name + DASHES
    ensures '\n' !in END + name + DASHES && Trim(END + name + DASHES) == END + name + DASHES
  {
    var h, f := BEGIN + name + DASHES, END + name + DASHES;
    assert '\n' !in BEGIN && '\n' !in END && '\n' !in DASHES;
    assert h[|h| - 1] == '-' && f[|f| - 1] == '-';
    TrimTrimmed(h);
    TrimTrimmed(f);
  }

  lemma ArmourLinesClean(block: seq<byte>, sum: seq<byte>, name: string, comment: string)
    requires block != [] && |sum| == 3 && '\n' !in name && '\n' !in comment && Trim(comment) == comment
    ensures Clean(ArmourLines(block, sum, name, comment))
  {
    hide Lines, Checksum, Base64.Encode, Trim, Clean;
    MarkerClean(name);
    LinesOf(block);
    var l, q := Lines(block), "=" + Base64.Encode(sum);
    var first, last := BEGIN + name + DASHES, END + name + DASHES;
    PlainClean(l);
    ChecksumLineClean(sum);
    BlankClean();
    HeadClean(first, comment);
    TailClean(q, last);
    CleanConcat([first, comment, ""], l);
    CleanConcat([first, comment, ""] + l, [q, last]);
  }

  lemma TailClean(q: string, last: string)
    requires '\n' !in q && Trim(q) == q && '\n' !in last && Trim(last) == last
    ensures Clean([q, last])
  {
    hide Trim;
  }

  lemma BlankClean()
    ensures Trim("") == ""
  {
  }

  lemma ChecksumLineClean(sum: seq<byte>)
    requires |sum| == 3
    ensures var q := "=" + Base64.Encode(sum); '\n' !in q && Trim(q) == q
  {
    hide Checksum, Base64.Encode;
    ChecksumPlain(sum);
    var k := Base64.Encode(sum);
    var q := "=" + k;
    assert q[|q| - 1] == k[3] && IsSymbol(k[3]);
    TrimTrimmed(q);
  }

  lemma CleanConcat(a: seq<string>, b: seq<string>)
    requires Clean(a) && Clean(b)
    ensures Clean(a + b)
  {
  }

  lemma CommentClean()
    ensures '\n' !in COMMENT && Trim(COMMENT) == COMMENT
  {
    CommentPlain();
    TrimTrimmed(COMMENT);
  }

  lemma ChrOrd(s: string)
    requires IsByteString(s)
    ensures Chr(Ord(s)) == s
  {
  }

  /** A base64 armour is read exactly when its checksum line is that of its bytes, and then the first 65 bytes are the
      signature. */
  lemma Base64ArmourReads(block: seq<byte>, sum: seq<byte>)
    requires block != [] && |sum| == 3
    ensures var n := if |block| < 65 then |block| else 65;
            ReadSigBlock(ArmourWith(block, sum, BASE64, true)) ==
            if sum == Checksum(block) then Some((Base64.Encode(block[..n]), Chr(block[n..]))) else None
  {
    hide Split, Strip, Join, Lines, Checksum, Base64.Encode, Base64.Decode, ArmourWith, Body, Tail, IsBody, ReadBase64,
         Format, ArmourLines, Clean;
    Base64NamePlain();
    CommentClean();
    ArmourIsLines(block, sum, BASE64, true);
    ArmourLinesClean(block, sum, BASE64, COMMENT);
    LinesNonEmpty(block, sum, BASE64, COMMENT);
    CleanIsFixed(ArmourLines(block, sum, BASE64, COMMENT));
    CommentPlain();
    var body := Body(COMMENT, block, sum);
    ArmourInParts(block, sum, BASE64, true);
    BodyIsBody(COMMENT, block, sum, BASE64);
    TailAtBegin(BASE64, body);
    BeginFirst(Tail(BASE64, body));
    TailAtDashes(BASE64, body);
    ReadsBase64(block, sum);
  }

  /** A block of any other name is refused. */
  lemma OtherNameRaises(block: seq<byte>, sum: seq<byte>, name: string, addComment: bool)
    requires block != [] && |sum| == 3 && '-' !in name && '\n' !in name && name != BASE64 && name != CLEARSIGN
    ensures ReadSigBlock(ArmourWith(block, sum, name, addComment)).None?
  {
    hide Split, Strip, Join, Lines, Base64.Encode, ArmourWith, Body, Tail, IsBody, ReadBase64, ReadClearsigned, Format,
         ArmourLines, Clean;
    var comment := if addComment then COMMENT else "";
    CommentClean();
    BlankClean();
    ArmourIsLines(block, sum, name, addComment);
    ArmourLinesClean(block, sum, name, comment);
    LinesNonEmpty(block, sum, name, comment);
    CleanIsFixed(ArmourLines(block, sum, name, comment));
    CommentPlain();
    var body := Body(comment, block, sum);
    ArmourInParts(block, sum, name, addComment);
    BodyIsBody(comment, block, sum, name);
    TailAtBegin(name, body);
    BeginFirst(Tail(name, body));
    TailAtDashes(name, body);
  }

  /** For every 65-byte signature and every message, reading the base64 block gives back that signature, in base64,
      and the message as it was signed. */
  lemma Base64BlockReads(signature: seq<byte>, msg: string)
    requires |signature| == 65 && IsByteString(Format(msg, false))
    ensures ReadSigBlock(Base64Signed(signature, msg)) == Some((Base64.Encode(signature), Format(msg, false)))
  {
    hide ReadSigBlock, Checksum, Base64.Encode, ArmourWith, Format;
    var block := signature + Ord(Format(msg, false));
    Base64ArmourReads(block, Checksum(block));
    assert block[..65] == signature && block[65..] == Ord(Format(msg, false));
    ChrOrd(Format(msg, false));
  }

  lemma LinesNonEmpty(block: seq<byte>, sum: seq<byte>, name: string, comment: string)
    ensures ArmourLines(block, sum, name, comment) != []
  {
  }

  // ----- the clearsigned block -----

  /** The block from its name on, in front of the signature's armour. */
  function Middle(f: string): string {
    RN + COMMENT + RNRN + f + RN
  }

  lemma ClearsignedInParts(signature: seq<byte>, sum: seq<byte>, msg: string)
    ensures ClearsignedWith(signature, sum, msg) ==
            BEGIN + (CLEARSIGN + DASHES + Middle(Format(msg, false)) + BEGIN + Tail(SIGNATURE, Body("", signature, sum)))
  {
    hide ArmourWith, Tail, Body, Format;
    ArmourInParts(signature, sum, SIGNATURE, false);
    var f, t := Format(msg, false), Tail(SIGNATURE, Body("", signature, sum));
    RegroupMiddle(f, BEGIN + t);
    assert CLEARSIGN + DASHES + Middle(f) + (BEGIN + t) == CLEARSIGN + DASHES + Middle(f) + BEGIN + t;
  }

  lemma RegroupMiddle(f: string, u: string)
    ensures BEGIN + CLEARSIGN + DASHES + RN + COMMENT + RNRN + f + RN + u ==
            BEGIN + (CLEARSIGN + DASHES + Middle(f) + u)
  {
    RegroupFive(BEGIN + CLEARSIGN + DASHES, RN, COMMENT, RNRN, f, u);
    RegroupFront(BEGIN, CLEARSIGN, DASHES, Middle(f), u);
  }

  lemma RegroupFive(a: string, n: string, c: string, b: string, f: string, u: string)
    ensures a + n + c + b + f + n + u == a + (n + c + b + f + n) + u
  {
  }

  lemma RegroupFront(a: string, b: string, c: string, m: string, u: string)
    ensures a + b + c + m + u == a + (b + c + m + u)
  {
  }

  /** No signature marker starts in the middle part before its end. */
  lemma MiddleHasNoBegin(f: string, t: string, k: nat)
    requires !Occurs(f, BEGIN) && OccursAt(Middle(f) + BEGIN + t, BEGIN, k)
    ensures k >= |Middle(f)|
  {
    hide OccursAt, Middle;
    var a := RN + COMMENT + "\r\n\r";
    var b, c := f + RN + BEGIN + t, "\n" + BEGIN + t;
    MiddleParts(f, t);
    MarkerLetters();
    NotIn(a, BEGIN, 0);
    NoStraddle(a, '\n', b, BEGIN, k);
    var k' := k - |a| - 1;
    NoStraddle(f, '\r', c, BEGIN, k');
    if k' == |f| + 1 { StartsWith(c, BEGIN, 0, 0); }
  }

  lemma MarkerLetters()
    ensures '\n' !in BEGIN && '\r' !in BEGIN && |BEGIN| > 0 && BEGIN[0] == '-'
  {
  }

  lemma MiddleParts(f: string, t: string)
    ensures var a, b, c := RN + COMMENT + "\r\n\r", f + RN + BEGIN + t, "\n" + BEGIN + t;
            && Middle(f) + BEGIN + t == a + ['\n'] + b && b == f + ['\r'] + c
            && |Middle(f)| == |a| + 1 + |f| + 2 && '-' !in a
  {
    CommentPlain();
  }

  /** Cutting a clearsigned block at the begin markers gives the middle part and the armour. */
  lemma ClearsignedAtBegin(f: string, t: string)
    requires !Occurs(f, BEGIN) && Split(t, BEGIN) == [t]
    ensures Split(BEGIN + (CLEARSIGN + DASHES + Middle(f) + BEGIN + t), BEGIN) == ["", CLEARSIGN + DASHES + Middle(f), t]
    ensures Split(CLEARSIGN + DASHES + Middle(f), DASHES)[0] == CLEARSIGN
  {
    hide Split, Middle;
    ClearsignPlain();
    var inner := CLEARSIGN + DASHES + Middle(f);
    var s := inner + BEGIN + t;
    SplitAt("", BEGIN, s);
    assert "" + BEGIN + s == BEGIN + s;
    forall k: nat | k < |inner| ensures !OccursAt(s, BEGIN, k) { InnerHasNoBegin(f, t, k); }
    SplitAt(inner, BEGIN, t);
    SplitDashes(CLEARSIGN, Middle(f));
    assert [""] + ([inner] + [t]) == ["", inner, t];
  }

  lemma InnerHasNoBegin(f: string, t: string, k: nat)
    requires !Occurs(f, BEGIN) && k < |CLEARSIGN + DASHES + Middle(f)|
    ensures !OccursAt(CLEARSIGN + DASHES + Middle(f) + BEGIN + t, BEGIN, k)
  {
    Markers();
    ClearsignPlain();
    var s := CLEARSIGN + DASHES + Middle(f) + BEGIN + t;
    var b := Middle(f) + BEGIN + t;
    assert s == CLEARSIGN + DASHES + b && b[0] == '\r';
    if OccursAt(s, BEGIN, k) {
      MarkerAt(CLEARSIGN, b, "BEGIN ", k);
      MiddleHasNoBegin(f, t, k - |CLEARSIGN| - 5);
    }
  }

  /** The clearsign header occurs once. */
  lemma HeaderOnce(f: string, body: string)
    requires !Occurs(f, BEGIN) && IsBody(SIGNATURE, body)
    ensures var m := BEGIN + CLEARSIGN + DASHES;
            !Occurs(Middle(f) + BEGIN + Tail(SIGNATURE, body), m)
  {
    hide Middle, Tail, IsBody;
    var m, t := BEGIN + CLEARSIGN + DASHES, Tail(SIGNATURE, body);
    var s := Middle(f) + BEGIN + t;
    forall k: nat ensures !OccursAt(s, m, k) {
      if OccursAt(s, m, k) {
        HeaderIsBegin(s, k);
        MiddleHasNoBegin(f, t, k);
        var j := k - |Middle(f)|;
        assert s == Middle(f) + (BEGIN + t);
        SuffixOccurs(Middle(f), BEGIN + t, m, j);
        SuffixOccurs(Middle(f), BEGIN + t, BEGIN, j);
        if j == 0 { OtherHeader(body); } else { BeginsOnlyAtStart(body, j); }
        assert false;
      }
    }
  }

  lemma HeaderIsBegin(s: string, k: nat)
    requires OccursAt(s, BEGIN + CLEARSIGN + DASHES, k)
    ensures OccursAt(s, BEGIN, k)
  {
    var m := BEGIN + CLEARSIGN + DASHES;
    assert s[k..k + |BEGIN|] == s[k..k + |m|][..|BEGIN|] == m[..|BEGIN|] == BEGIN;
  }

  lemma SuffixOccurs(a: string, b: string, sep: string, j: nat)
    requires OccursAt(a + b, sep, |a| + j)
    ensures OccursAt(b, sep, j)
  {
    assert (a + b)[|a| + j..|a| + j + |sep|] == b[j..j + |sep|];
  }

  lemma OtherHeader(body: string)
    ensures !OccursAt(BEGIN + Tail(SIGNATURE, body), BEGIN + CLEARSIGN + DASHES, 0)
  {
    Markers();
    ClearsignPlain();
    SignaturePlain();
    var s, m := BEGIN + Tail(SIGNATURE, body), BEGIN + CLEARSIGN + DASHES;
    assert s[23] == SIGNATURE[12] && m[23] == CLEARSIGN[12];
  }

  lemma BeginsOnlyAtStart(body: string, j: nat)
    requires IsBody(SIGNATURE, body) && j > 0
    ensures !OccursAt(BEGIN + Tail(SIGNATURE, body), BEGIN, j)
  {
    Markers();
    var t := Tail(SIGNATURE, body);
    var u := "BEGIN " + t;
    TailHasNoBegin(SIGNATURE, body, "BEGIN ");
    if OccursAt(BEGIN + t, BEGIN, j) {
      assert BEGIN + t == "" + DASHES + u && u[0] == 'B';
      MarkerAt("", u, "BEGIN ", j);
    }
  }

  /** After the header, the text behind the first blank line starts with the message. */
  lemma AfterBlankLine(f: string, u: string)
    ensures var s := Middle(f) + u;
            Join(RNRN, Split(s, RNRN)[1..]) == f + RN + u
  {
    hide Split, Join, OccursAt;
    var a, b := RN + COMMENT, f + RN + u;
    assert Middle(f) + u == a + RNRN + b;
    forall k: nat | k < |a| ensures !OccursAt(a + RNRN + b, RNRN, k) { NoBlankBefore(b, k); }
    SplitAt(a, RNRN, b);
    assert ([a] + Split(b, RNRN))[1..] == Split(b, RNRN);
    JoinSplit(b, RNRN);
  }

  lemma NoBlankBefore(b: string, k: nat)
    requires k < |RN + COMMENT|
    ensures !OccursAt(RN + COMMENT + RNRN + b, RNRN, k)
  {
    hide OccursAt;
    CommentPlain();
    Markers();
    var s := RN + COMMENT + RNRN + b;
    assert s[2] == COMMENT[0] && (k >= 2 ==> s[k] == COMMENT[k - 2]);
    if OccursAt(s, RNRN, k) {
      StartsWith(s, RNRN, k, 0);
      StartsWith(s, RNRN, k, 2);
      assert false;
    }
  }

  /** In displayed lines a dash after a line end is followed by a space. */
  lemma {:induction false} NewlineDash(lines: seq<string>, k: nat)
    requires lines != [] && NewlineFree(lines)
    requires forall i | 0 <= i < |lines| :: lines[i] != "" && lines[i][0] == '-' ==> |lines[i]| >= 2 && lines[i][1] == ' '
    requires k + 1 < |Join(RN, lines)| && Join(RN, lines)[k] == '\n' && Join(RN, lines)[k + 1] == '-'
    ensures k + 2 < |Join(RN, lines)| && Join(RN, lines)[k + 2] == ' '
    decreases |lines|
  {
    if |lines| == 1 {
      assert false;
    } else {
      var a, rest := lines[0], lines[1..];
      var b := Join(RN, rest);
      var s := a + RN + b;
      assert Join(RN, lines) == s;
      assert k >= |a| + 1;
      if k == |a| + 1 {
        assert s[k + 1] == b[0];
        JoinHead(rest, "");
        assert (b + "\r" + "")[0] == b[0];
        assert rest[0] == lines[1] && b[0] == rest[0][0] && b[1] == rest[0][1];
        assert s[k + 2] == b[1];
      } else {
        assert s[k] == b[k - |a| - 2] && s[k + 1] == b[k - |a| - 1];
        NewlineDash(rest, k - |a| - 2);
        assert s[k + 2] == b[k - |a|];
      }
    }
  }

  /** The displayed text ends at the first line of dashes. */
  lemma MessageEnds(msg: string, u: string)
    ensures var f := Format(msg, false); Split(f + RN + (DASHES + u), RN + DASHES)[0] == f
  {
    hide Split;
    var f, m := Format(msg, false), RN + DASHES;
    var s := f + m + u;
    assert f + RN + (DASHES + u) == s;
    forall k: nat | k < |f| ensures !OccursAt(s, m, k) {
      if OccursAt(s, m, k) {
        StartsWith(s, m, k, 1);
        StartsWith(s, m, k, 2);
        StartsWith(s, m, k, 3);
        DisplayedDashes(msg, k + 1);
      }
    }
    SplitAt(f, m, u);
  }

  lemma DisplayedDashes(msg: string, k: nat)
    requires var f := Format(msg, false); k + 1 < |f| && f[k] == '\n' && f[k + 1] == '-'
    ensures var f := Format(msg, false); k + 2 < |f| && f[k + 2] == ' '
  {
    var lines := FormattedLines(msg, false);
    FormattedClean(msg, false);
    forall i | 0 <= i < |lines| ensures lines[i] != "" && lines[i][0] == '-' ==> |lines[i]| >= 2 && lines[i][1] == ' ' {
      DisplayedDash(msg, i);
    }
    hide Split, Join;
    NewlineDash(lines, k);
  }

  /** The signature's body, cut at the checksum line. */
  lemma SignatureBodySplits(block: seq<byte>, sum: seq<byte>)
    requires block != [] && |sum| == 3
    ensures var body, k := Body("", block, sum), Base64.Encode(sum);
            Split(body, SIGNATURE) == [body] &&
            Split(body, "\n=") == [Join(RN, ["", "", ""] + Lines(block)) + "\r", k + RN]
  {
    hide Split, Lines, Checksum, Base64.Encode, Join;
    SignaturePlain();
    LinesOf(block);
    ChecksumPlain(sum);
    var l, k := Lines(block), Base64.Encode(sum);
    var e, body := Join(RN, l), Body("", block, sum);
    JoinNoDash(l);
    assert ' ' !in k && ' ' !in RN && ' ' !in RNRN && ' ' !in "=";
    assert ' ' !in RN + "" + RNRN + e && ' ' !in body;
    NotIn(body, SIGNATURE, 7);
    SplitNone(body, SIGNATURE);
    PlainClean(l);
    var lines := ["", "", ""] + l;
    forall i | 0 <= i < |lines| ensures '\n' !in lines[i] && (i >= 1 ==> Head(lines[i]) != '=') {
      if i >= 3 { assert lines[i] == l[i - 3]; }
    }
    NoChecksumAfter(k);
    SplitChecksum(lines, k + RN);
    BlankLines(l);
    assert body == Join(RN, lines) + "\r" + "\n=" + (k + RN) by { CutSignature(e, k); }
  }

  lemma NoChecksumAfter(k: string)
    requires Plain(k)
    ensures !Occurs(k + RN, "\n=")
  {
    forall i: nat ensures !OccursAt(k + RN, "\n=", i) {
      if OccursAt(k + RN, "\n=", i) {
        StartsWith(k + RN, "\n=", i, 0);
        assert false;
      }
    }
  }

  lemma BlankLines(l: seq<string>)
    requires l != []
    ensures Join(RN, ["", "", ""] + l) == RN + RNRN + Join(RN, l)
  {
    JoinConcat(RN, ["", "", ""], l);
    JoinThree("", "", "");
  }

  lemma CutSignature(e: string, k: string)
    ensures RN + "" + RNRN + e + RN + "=" + k + RN == (RN + RNRN + e) + "\r" + "\n=" + (k + RN)
  {
  }

  // ----- taking characters out -----

  function Without(s: string, c: char): string {
    if s == "" then "" else (if s[0] == c then "" else [s[0]]) + Without(s[1..], c)
  }

  lemma {:induction false} WithoutConcat(s: string, t: string, c: char)
    ensures Without(s + t, c) == Without(s, c) + Without(t, c)
    decreases |s|
  {
    if s == "" {
      assert s + t == t;
    } else {
      assert (s + t)[1..] == s[1..] + t;
      WithoutConcat(s[1..], t, c);
    }
  }

  lemma {:induction false} WithoutAbsent(s: string, c: char)
    requires c !in s
    ensures Without(s, c) == s
  {
    if s != "" { WithoutAbsent(s[1..], c); }
  }

  lemma FindChar(s: string, c: char)
    ensures var k := Find(s, [c]);
            if k == -1 then c !in s else k < |s| && s[k] == c && c !in s[..k]
  {
    var k := Find(s, [c]);
    hide Find;
    if k != -1 { StartsWith(s, [c], k, 0); }
    forall i: nat | i < |s| && (k == -1 || i < k) ensures s[i] != c {
      assert s[i..i + 1] == [s[i]];
      assert !OccursAt(s, [c], i);
    }
  }

  lemma WithoutAt(a: string, c: char, b: string)
    requires c !in a
    ensures Without(a + [c] + b, c) == a + Without(b, c)
  {
    assert Without([c], c) == "" by { assert [c][1..] == ""; }
    hide Without;
    WithoutConcat(a + [c], b, c);
    WithoutConcat(a, [c], c);
    WithoutAbsent(a, c);
    assert a + "" == a;
  }

  /** Splitting at a character and joining with nothing takes the character out. */
  lemma {:induction false} JoinSplitWithout(s: string, c: char)
    ensures Join("", Split(s, [c])) == Without(s, c)
    decreases |s|
  {
    hide Find, Without, Join, Split;
    var k := Find(s, [c]);
    FindChar(s, c);
    SplitChar(s, c);
    if k == -1 {
      WithoutAbsent(s, c);
      JoinOne("", s);
    } else {
      var a, b := s[..k], s[k + 1..];
      JoinSplitWithout(b, c);
      JoinCons("", a, Split(b, [c]));
      assert s == a + [c] + b;
      WithoutAt(a, c, b);
      assert a + "" + Without(b, c) == a + Without(b, c);
    }
  }

  lemma SplitChar(s: string, c: char)
    ensures var k := Find(s, [c]);
            Split(s, [c]) == if k == -1 then [s] else [s[..k]] + Split(s[k + 1..], [c])
  {
    hide Find, Split;
    SplitStep(s, [c]);
  }

  lemma WithoutLine(a: string, b: string)
    requires '\n' !in a && '\r' !in a
    ensures Without(Without(a + RN + b, '\n'), '\r') == a + Without(Without(b, '\n'), '\r')
  {
    assert a + RN + b == (a + "\r") + ['\n'] + b;
    WithoutAt(a + "\r", '\n', b);
    assert (a + "\r") + Without(b, '\n') == a + ['\r'] + Without(b, '\n');
    WithoutAt(a, '\r', Without(b, '\n'));
  }

  lemma {:induction false} UnfoldLines(lines: seq<string>)
    requires lines != [] && forall i | 0 <= i < |lines| :: '\n' !in lines[i] && '\r' !in lines[i]
    ensures Without(Without(Join(RN, lines), '\n'), '\r') == Join("", lines)
    decreases |lines|
  {
    hide Without;
    var a := lines[0];
    if |lines| > 1 {
      UnfoldLines(lines[1..]);
      WithoutLine(a, Join(RN, lines[1..]));
      assert a + "" + Join("", lines[1..]) == a + Join("", lines[1..]);
    } else {
      WithoutAbsent(a, '\n');
      WithoutAbsent(a, '\r');
    }
  }

  /** Taking the line ends out of the signature's lines leaves the base64 signature. */
  lemma SignatureRejoins(block: seq<byte>)
    requires block != []
    ensures var p := Join(RN, ["", "", ""] + Lines(block)) + "\r";
            Join("", Split(Join("", Split(p, "\n")), "\r")) == Base64.Encode(block)
  {
    hide Split, Join, Lines, Base64.Encode, Without;
    LinesOf(block);
    var l := Lines(block);
    PlainClean(l);
    var lines := ["", "", ""] + l;
    forall i | 0 <= i < |lines| ensures '\n' !in lines[i] && '\r' !in lines[i] {
      if i >= 3 { assert lines[i] == l[i - 3] && Plain(l[i - 3]); }
    }
    UnfoldLines(lines);
    JoinConcat("", ["", "", ""], l);
    JoinBlank();
    assert Join("", lines) == Base64.Encode(block);
    WithoutLineEnds(Join(RN, lines));
  }

  lemma JoinBlank()
    ensures Join("", ["", "", ""]) == ""
  {
    assert ["", "", ""][1..] == ["", ""] && ["", ""][1..] == [""];
  }

  /** Joining the pieces between line ends takes the line ends out. */
  lemma WithoutLineEnds(j: string)
    ensures Join("", Split(Join("", Split(j + "\r", "\n")), "\r")) == Without(Without(j, '\n'), '\r')
  {
    assert Without("\r", '\r') == "" by { assert "\r"[1..] == ""; }
    hide Split, Join, Without;
    JoinSplitWithout(j + "\r", '\n');
    WithoutConcat(j, "\r", '\n');
    WithoutAbsent("\r", '\n');
    var w := Without(j, '\n');
    JoinSplitWithout(w + "\r", '\r');
    WithoutConcat(w, "\r", '\r');
  }

  // ----- the clearsigned round trip -----

  /** The lines of a clearsigned block. */
  function BlockLines(signature: seq<byte>, sum: seq<byte>, msg: string): seq<string> {
    [BEGIN + CLEARSIGN + DASHES, COMMENT, ""] + FormattedLines(msg, false) + ArmourLines(signature, sum, SIGNATURE, "")
  }

  lemma BlockIsLines(signature: seq<byte>, sum: seq<byte>, msg: string)
    requires signature != []
    ensures ClearsignedWith(signature, sum, msg) == Join(RN, BlockLines(signature, sum, msg))
  {
    hide Split, Lines, Base64.Encode, ArmourWith, ArmourLines;
    var h, f := BEGIN + CLEARSIGN + DASHES, FormattedLines(msg, false);
    var head, armour := [h, COMMENT, ""], ArmourLines(signature, sum, SIGNATURE, "");
    LinesNonEmpty(signature, sum, SIGNATURE, "");
    JoinThree(h, COMMENT, "");
    hide Join;
    JoinConcat(RN, head + f, armour);
    JoinConcat(RN, head, f);
    ArmourIsLines(signature, sum, SIGNATURE, false);
    var t, a := Join(RN, f), Join(RN, armour);
    assert (h + RN + (COMMENT + RN + "")) + RN + t + RN + a == ClearsignedWith(signature, sum, msg) by {
      assert h + RN + (COMMENT + RN + "") + RN == h + RN + COMMENT + RNRN;
    }
  }

  lemma ClearsignedLines(signature: seq<byte>, sum: seq<byte>, msg: string)
    requires signature != [] && |sum| == 3
    ensures Format(ClearsignedWith(signature, sum, msg), true) == ClearsignedWith(signature, sum, msg)
  {
    hide Split, Lines, Base64.Encode, ArmourWith, ArmourLines, Clean, Trim, ClearsignedWith, Format, FormattedLines;
    var h, f := BEGIN + CLEARSIGN + DASHES, FormattedLines(msg, false);
    ClearsignPlain();
    SignaturePlain();
    CommentClean();
    BlankClean();
    FormattedClean(msg, false);
    ArmourLinesClean(signature, sum, SIGNATURE, "");
    HeadClean(h, COMMENT) by { MarkerClean(CLEARSIGN); }
    CleanConcat([h, COMMENT, ""], f);
    CleanConcat([h, COMMENT, ""] + f, ArmourLines(signature, sum, SIGNATURE, ""));
    BlockIsLines(signature, sum, msg);
    CleanIsFixed(BlockLines(signature, sum, msg));
  }

  lemma HeadClean(h: string, c: string)
    requires '\n' !in h && Trim(h) == h && '\n' !in c && Trim(c) == c
    ensures Clean([h, c, ""])
  {
  }

  /** The reader on a clearsigned block in parts. */
  lemma ReadsClearsigned(signature: seq<byte>, sum: seq<byte>, msg: string)
    requires signature != [] && |sum| == 3 && !Occurs(Format(msg, false), BEGIN)
    ensures ReadClearsigned(ClearsignedWith(signature, sum, msg)) ==
            if sum == Checksum(signature) then Some((Base64.Encode(signature), Format(msg, false))) else None
  {
    hide Split, ClearsignedWith, Body, Tail, IsBody, Middle, Format, ReadArmour, TextAfter, Checksum, Base64.Encode, Occurs;
    var f, body := Format(msg, false), Body("", signature, sum);
    var t := Tail(SIGNATURE, body);
    SignaturePlain();
    ClearsignedInParts(signature, sum, msg);
    BodyIsBody("", signature, sum, SIGNATURE);
    TailAtBegin(SIGNATURE, body);
    TailAtDashes(SIGNATURE, body);
    ClearsignedAtBegin(f, t);
    MessagePart(f, msg, body);
    ArmourReads(signature, sum, t);
  }

  /** An armour whose body holds a signature is read as that signature, if the checksum is its own. */
  lemma ArmourReads(signature: seq<byte>, sum: seq<byte>, armour: string)
    requires signature != [] && |sum| == 3
    requires |Split(armour, DASHES)| >= 2 && Split(armour, DASHES)[1] == Body("", signature, sum)
    ensures ReadArmour(armour) == if sum == Checksum(signature) then Some(Base64.Encode(signature)) else None
  {
    hide Split, Strip, Join, Lines, Checksum, Base64.Encode, Base64.Decode, Body;
    SignatureBodySplits(signature, sum);
    SignatureRejoins(signature);
    ChecksumPlain(sum);
    StripPlain(Base64.Encode(sum));
    Base64.EncodeDecode(sum);
    Base64.EncodeDecode(signature);
  }

  lemma MessagePart(f: string, msg: string, body: string)
    requires f == Format(msg, false) && !Occurs(f, BEGIN) && IsBody(SIGNATURE, body)
    ensures var r := BEGIN + (CLEARSIGN + DASHES + Middle(f) + BEGIN + Tail(SIGNATURE, body));
            var parts := Split(r, BEGIN + CLEARSIGN + DASHES);
            |parts| >= 2 && TextAfter(parts[1]) == f
  {
    hide Split, Join, Tail, IsBody, Middle, Format;
    var m, t := BEGIN + CLEARSIGN + DASHES, Tail(SIGNATURE, body);
    var after := Middle(f) + BEGIN + t;
    BlockRegrouped(f, t);
    SplitAt("", m, after);
    HeaderOnce(f, body);
    SplitNone(after, m);
    AfterBlankLine(f, BEGIN + t);
    MessageEnds(msg, "BEGIN " + t);
  }

  lemma BlockRegrouped(f: string, t: string)
    ensures var m, after := BEGIN + CLEARSIGN + DASHES, Middle(f) + BEGIN + t;
            && "" + m + after == BEGIN + (CLEARSIGN + DASHES + Middle(f) + BEGIN + t)
            && m != "" && after == Middle(f) + (BEGIN + t)
            && f + RN + (BEGIN + t) == f + RN + (DASHES + ("BEGIN " + t))
  {
    hide Middle;
    Markers();
  }

  /** A clearsigned block without a begin marker in its text is read exactly when its checksum line is that of the
      signature. */
  lemma ClearsignedArmourReads(signature: seq<byte>, sum: seq<byte>, msg: string)
    requires signature != [] && |sum| == 3 && !Occurs(Format(msg, false), BEGIN)
    ensures ReadSigBlock(ClearsignedWith(signature, sum, msg)) ==
            if sum == Checksum(signature) then Some((Base64.Encode(signature), Format(msg, false))) else None
  {
    hide Split, Strip, Join, Lines, Checksum, Base64.Encode, Base64.Decode, ClearsignedWith, Body, Tail, IsBody, Middle, Format,
         ReadClearsigned;
    var f, body := Format(msg, false), Body("", signature, sum);
    SignaturePlain();
    NamesDiffer();
    ClearsignedLines(signature, sum, msg);
    ClearsignedInParts(signature, sum, msg);
    BodyIsBody("", signature, sum, SIGNATURE);
    TailAtBegin(SIGNATURE, body);
    ClearsignedAtBegin(f, Tail(SIGNATURE, body));
    ReadsClearsigned(signature, sum, msg);
  }

  /** For every message whose displayed text has no begin marker in it, reading the clearsigned block gives back the
      base64 signature and exactly the displayed text; and that is the text which verification formats it to. */
  lemma ClearsignedBlockReads(signature: seq<byte>, msg: string)
    requires signature != [] && !Occurs(Format(msg, false), BEGIN)
    ensures ReadSigBlock(Clearsigned(signature, msg)) == Some((Base64.Encode(signature), Format(msg, false)))
    ensures Format(Format(msg, false), true) == Format(msg, false)
  {
    hide ReadSigBlock, Checksum, Base64.Encode, ClearsignedWith, Format, Occurs;
    ClearsignedArmourReads(signature, Checksum(signature), msg);
    FormatStable(msg, false);
  }

  /** Printed blocks whose bytes were changed within 24 consecutive bits, checksum and all else kept, are refused. */
  lemma ChangedBlockRaises(block: seq<byte>, changed: seq<byte>, start: nat, width: nat, msg: string)
    requires block != [] && |changed| == |block| && changed != block && width <= 24 && start + width <= 8 * |block|
    requires forall i | 0 <= i < 8 * |block| && !(start <= i < start + width) ::
               MessageBits(block)[i] == MessageBits(changed)[i]
    ensures ReadSigBlock(ArmourWith(changed, Checksum(block), BASE64, true)).None?
    ensures !Occurs(Format(msg, false), BEGIN) ==> ReadSigBlock(ClearsignedWith(changed, Checksum(block), msg)).None?
  {
    hide ReadSigBlock, Checksum, Base64.Encode, ClearsignedWith, ArmourWith, Format, Occurs, MessageBits;
    BurstDetected(block, changed, start, width);
    Base64ArmourReads(changed, Checksum(block));
    if !Occurs(Format(msg, false), BEGIN) { ClearsignedArmourReads(changed, Checksum(block), msg); }
  }

  lemma NamesDiffer()
    ensures CLEARSIGN != BASE64
  {
    assert |BASE64| == 15 && |CLEARSIGN| == 22;
  }

  // ----- the printed lines -----

  /** The two block formats line by line. */
  lemma PrintedLines(signature: seq<byte>, msg: string)
    requires signature != []
    ensures Clearsigned(signature, msg) ==
            Join(RN, ["-----BEGIN BITCOIN SIGNED MESSAGE-----", "Comment: Signed by Bitcoin Armory v0.93.3", ""] +
                     FormattedLines(msg, false) +
                     (["-----BEGIN BITCOIN SIGNATURE-----", "", ""] + Lines(signature) +
                      ["=" + Base64.Encode(Checksum(signature)), "-----END BITCOIN SIGNATURE-----"]))
    ensures AsciiArmour(signature, BASE64, true) ==
            Join(RN, ["-----BEGIN BITCOIN MESSAGE-----", "Comment: Signed by Bitcoin Armory v0.93.3", ""] + Lines(signature) +
                     ["=" + Base64.Encode(Checksum(signature)), "-----END BITCOIN MESSAGE-----"])
  {
    hide Join, Lines, Base64.Encode, Checksum, FormattedLines, ClearsignedWith, ArmourWith;
    BeginClearsign();
    BeginSignature();
    EndSignature();
    BeginBase64();
    EndBase64();
    CommentIs();
    BlockIsLines(signature, Checksum(signature), msg);
    ArmourIsLines(signature, Checksum(signature), BASE64, true);
  }

  lemma BeginClearsign()
    ensures BEGIN + CLEARSIGN + DASHES == "-----BEGIN BITCOIN SIGNED MESSAGE-----"
  {
  }

  lemma BeginSignature()
    ensures BEGIN + SIGNATURE + DASHES == "-----BEGIN BITCOIN SIGNATURE-----"
  {
  }

  lemma EndSignature()
    ensures END + SIGNATURE + DASHES == "-----END BITCOIN SIGNATURE-----"
  {
  }

  lemma BeginBase64()
    ensures BEGIN + BASE64 + DASHES == "-----BEGIN BITCOIN MESSAGE-----"
  {
  }

  lemma EndBase64()
    ensures END + BASE64 + DASHES == "-----END BITCOIN MESSAGE-----"
  {
  }

  lemma CommentIs()
    ensures COMMENT == "Comment: Signed by Bitcoin Armory v0.93.3"
  {
  }
}
