/** Cleartext formatting: trailing blanks go, lines end in RN, and for display a leading dash is escaped. */
module FormatText {
  import opened Text

  predicate IsTrailing(c: char) { c == ' ' || c == '\r' || c == '\t' }

  /** The line without its trailing blanks and carriage returns. */
  function Trim(l: string): (r: string)
    ensures r <= l && (r == "" || !IsTrailing(r[|r| - 1]))
  {
    if l != "" && IsTrailing(l[|l| - 1]) then Trim(l[..|l| - 1]) else l
  }

  function FormatLine(l: string, sigctx: bool): string {
    var s := Trim(l);
    if !sigctx && s != "" && s[0] == '-' then "- " + s else s
  }

  function FormatLines(lines: seq<string>, sigctx: bool): (r: seq<string>)
    ensures |r| == |lines| && forall i | 0 <= i < |lines| :: r[i] == FormatLine(lines[i], sigctx)
  {
    seq(|lines|, i requires 0 <= i < |lines| => FormatLine(lines[i], sigctx))
  }

  /** What is signed (sigctx), or what is displayed. */
  function Format(t: string, sigctx: bool): string {
    Join(RN, FormatLines(Split(t, "\n"), sigctx))
  }

  /** Every line followed by RN. */
  function Terminated(lines: seq<string>): string {
    if lines == [] then "" else Terminated(lines[..|lines| - 1]) + lines[|lines| - 1] + RN
  }

  lemma {:induction false} TerminatedJoin(lines: seq<string>)
    requires lines != []
    ensures Terminated(lines) == Join(RN, lines) + RN
    decreases |lines|
  {
    var init, last := lines[..|lines| - 1], lines[|lines| - 1];
    assert lines == init + [last];
    if init != [] {
      TerminatedJoin(init);
      JoinConcat(RN, init, [last]);
    } else {
      assert Terminated(init) == "" && "" + last == last;
    }
  }

  /** One line: trailing blanks off, a carriage return on, and a leading dash escaped for display. */
  method FormatOne(line: string, sigctx: bool) returns (l: string)
    ensures l == FormatLine(line, sigctx) + "\r"
  {
    l := line;
    while |l| > 0 && IsTrailing(l[|l| - 1])
      invariant Trim(l) == Trim(line)
      decreases |l|
    {
      l := l[..|l| - 1];
    }
    if |l| == 0 || l[|l| - 1] != '\r' { l := l + "\r"; }
    if !sigctx {
      if |l| > 0 && l[0] == '-' { l := "- " + l; }
    }
  }

  method FormatTextLoop(t: string, sigctx: bool) returns (r: string)
    ensures r == Format(t, sigctx)
  {
    hide Split, Join, FormatLine, FormatLines, Terminated;
    var te := Split(t, "\n");
    ghost var done := FormatLines(te, sigctx);
    r := "";
    TerminatedNone(done);
    for i := 0 to |te|
      invariant r == Terminated(done[..i])
    {
      var l := FormatOne(te[i], sigctx);
      TerminatedStep(done, i);
      r := r + (l + "\n");
    }
    assert done[..|te|] == done;
    TerminatedJoin(done);
    r := r[..|r| - 2];
  }

  lemma TerminatedNone(lines: seq<string>)
    ensures Terminated(lines[..0]) == ""
  {
  }

  lemma TerminatedStep(lines: seq<string>, i: nat)
    requires i < |lines|
    ensures Terminated(lines[..i + 1]) == Terminated(lines[..i]) + (lines[i] + "\r" + "\n")
  {
    assert lines[..i + 1][..i] == lines[..i];
  }

  // ----- formatting is stable -----

  /** Lines without newlines or trailing blanks. */
  ghost predicate Clean(lines: seq<string>) {
    NewlineFree(lines) && forall i | 0 <= i < |lines| :: Trim(lines[i]) == lines[i]
  }

  lemma {:induction false} PiecesNewlineFree(t: string)
    ensures NewlineFree(Split(t, "\n"))
    decreases |t|
  {
    var k := Find(t, "\n");
    if k == -1 {
      forall i | 0 <= i < |t| ensures t[i] != '\n' {
        assert t[i..i + 1] == [t[i]];
        assert !OccursAt(t, "\n", i);
      }
    } else {
      PiecesNewlineFree(t[k + 1..]);
      forall i | 0 <= i < k ensures t[i] != '\n' {
        assert t[i..i + 1] == [t[i]];
        assert !OccursAt(t, "\n", i);
      }
    }
  }

  lemma TrimTrimmed(s: string)
    requires s == "" || !IsTrailing(s[|s| - 1])
    ensures Trim(s) == s && Trim(s + "\r") == s
  {
    assert (s + "\r")[..|s|] == s;
  }

  lemma FormatLineClean(l: string, sigctx: bool)
    requires '\n' !in l
    ensures '\n' !in FormatLine(l, sigctx) && Trim(FormatLine(l, sigctx)) == FormatLine(l, sigctx)
  {
    var s := Trim(l);
    assert forall c <- s :: c in l;
    TrimTrimmed(s);
    if s != "" {
      assert ("- " + s)[|s| + 1] == s[|s| - 1];
      TrimTrimmed("- " + s);
    }
  }

  /** The lines of a formatted text, without the line ends. */
  function FormattedLines(t: string, sigctx: bool): (r: seq<string>)
    ensures r != []
  {
    FormatLines(Split(t, "\n"), sigctx)
  }

  lemma FormattedClean(t: string, sigctx: bool)
    ensures Clean(FormattedLines(t, sigctx))
  {
    PiecesNewlineFree(t);
    var pieces := Split(t, "\n");
    hide Split;
    forall i | 0 <= i < |pieces|
      ensures '\n' !in FormatLine(pieces[i], sigctx) && Trim(FormatLine(pieces[i], sigctx)) == FormatLine(pieces[i], sigctx)
    {
      FormatLineClean(pieces[i], sigctx);
    }
  }

  /** Text put together from clean lines is its own signed form, and where no line starts with a dash also what is
      displayed. */
  lemma CleanFormats(lines: seq<string>, sigctx: bool)
    requires lines != [] && Clean(lines)
    requires sigctx || forall i | 0 <= i < |lines| :: lines[i] == "" || lines[i][0] != '-'
    ensures Format(Join(RN, lines), sigctx) == Join(RN, lines)
  {
    hide Split, Join, FormatLine, FormatLines, Trim, LinePieces;
    SplitAtNewlines(lines);
    var pieces := Split(Join(RN, lines), "\n");
    PiecesAre(pieces, lines);
    PiecesFormat(pieces, lines, sigctx);
  }

  lemma PiecesAre(pieces: seq<string>, lines: seq<string>)
    requires LinePieces(pieces, lines)
    ensures |pieces| == |lines| && forall i | 0 <= i < |lines| :: pieces[i] == lines[i] || pieces[i] == lines[i] + "\r"
  {
  }

  lemma PiecesFormat(pieces: seq<string>, lines: seq<string>, sigctx: bool)
    requires |pieces| == |lines| && Clean(lines)
    requires sigctx || forall i | 0 <= i < |lines| :: lines[i] == "" || lines[i][0] != '-'
    requires forall i | 0 <= i < |lines| :: pieces[i] == lines[i] || pieces[i] == lines[i] + "\r"
    ensures FormatLines(pieces, sigctx) == lines
  {
    hide FormatLine, FormatLines, Trim;
    forall i | 0 <= i < |lines| ensures FormatLines(pieces, sigctx)[i] == lines[i] { PieceFormats(lines[i], sigctx); }
  }

  lemma PieceFormats(l: string, sigctx: bool)
    requires Trim(l) == l && (sigctx || l == "" || l[0] != '-')
    ensures FormatLine(l, sigctx) == l && FormatLine(l + "\r", sigctx) == l
  {
    TrimTrimmed(l);
  }

  lemma CleanIsFixed(lines: seq<string>)
    requires lines != [] && Clean(lines)
    ensures Format(Join(RN, lines), true) == Join(RN, lines)
  {
    CleanFormats(lines, true);
  }

  /** Formatting for signing fixes every formatted text, displayed or signed. */
  lemma FormatStable(t: string, sigctx: bool)
    ensures Format(Format(t, sigctx), true) == Format(t, sigctx)
  {
    FormattedClean(t, sigctx);
    CleanIsFixed(FormattedLines(t, sigctx));
  }

  /** In displayed text only "- " follows a line end or the beginning where a dash does. */
  lemma DisplayedDash(t: string, i: nat)
    requires i < |FormattedLines(t, false)|
    ensures var l := FormattedLines(t, false)[i]; |l| >= 1 && l[0] == '-' ==> |l| >= 2 && l[1] == ' '
  {
  }

  /** Trailing blanks, tabs and carriage returns are taken off a line, all of them and nothing else. */
  lemma {:induction false} TrimTakes(l: string) returns (tail: string)
    ensures l == Trim(l) + tail && forall c <- tail :: c == ' ' || c == '\t' || c == '\r'
    ensures Trim(l) == "" || var c := Trim(l)[|Trim(l)| - 1]; c != ' ' && c != '\t' && c != '\r'
  {
    if l != "" && IsTrailing(l[|l| - 1]) {
      var front := l[..|l| - 1];
      var rest := TrimTakes(front);
      tail := rest + [l[|l| - 1]];
      assert l == front + [l[|l| - 1]];
    } else {
      tail := "";
    }
  }

  /** A formatted text has the lines of the original without those characters at their ends, each with RN behind it but
      the last. For display, and only then, "- " is put before a dash at the beginning of a line. */
  lemma FormattedLine(t: string, sigctx: bool, i: nat) returns (text: string, tail: string)
    requires i < |Split(t, "\n")|
    ensures |FormattedLines(t, sigctx)| == |Split(t, "\n")| && Format(t, sigctx) == Join(RN, FormattedLines(t, sigctx))
    ensures Split(t, "\n")[i] == text + tail && forall c <- tail :: c == ' ' || c == '\t' || c == '\r'
    ensures text == "" || var c := text[|text| - 1]; c != ' ' && c != '\t' && c != '\r'
    ensures FormattedLines(t, sigctx)[i] == if !sigctx && "-" <= text then "- " + text else text
  {
    hide Split, Join, Trim;
    var l := Split(t, "\n")[i];
    tail := TrimTakes(l);
    text := Trim(l);
  }
}
