/** Quoting an argument list into one command line, and the C runtime's rules for reading it back. */
module CommandLine {
  import opened Sequences

  predicate IsBlank(c: char) { c == ' ' || c == '\t' }

  // ----- the reader -----

  function Backslashes(s: string): (n: nat)
    ensures n <= |s| && (forall i | 0 <= i < n :: s[i] == '\\') && (n < |s| ==> s[n] != '\\')
  {
    if s != [] && s[0] == '\\' then 1 + Backslashes(s[1..]) else 0
  }

  /** Reads one argument: its text, and what follows the blank that ended it. A quotation mark after 2n
      backslashes stands for n backslashes and opens or closes a quoted stretch; after 2n+1 it stands for n
      backslashes and a quotation mark. Other backslashes stand for themselves, and blanks inside a quoted
      stretch do not end the argument. */
  function ReadArgument(s: string, quoted: bool, read: string): (string, string)
    decreases |s|
  {
    if s == [] then (read, [])
    else
      var n := Backslashes(s);
      if n < |s| && s[n] == '"' then
        if n % 2 == 1 then ReadArgument(s[n + 1..], quoted, read + Repeat('\\', n / 2) + "\"")
        else ReadArgument(s[n + 1..], !quoted, read + Repeat('\\', n / 2))
      else if n > 0 then ReadArgument(s[n..], quoted, read + Repeat('\\', n))
      else if !quoted && IsBlank(s[0]) then (read, s[1..])
      else ReadArgument(s[1..], quoted, read + [s[0]])
  }

  lemma {:induction false} ReadArgumentShrinks(s: string, quoted: bool, read: string)
    ensures |ReadArgument(s, quoted, read).1| <= |s|
    ensures s != [] ==> |ReadArgument(s, quoted, read).1| < |s|
    decreases |s|
  {
    if s != [] {
      var n := Backslashes(s);
      if n < |s| && s[n] == '"' {
        if n % 2 == 1 {
          ReadArgumentShrinks(s[n + 1..], quoted, read + Repeat('\\', n / 2) + "\"");
        } else {
          ReadArgumentShrinks(s[n + 1..], !quoted, read + Repeat('\\', n / 2));
        }
      } else if n > 0 {
        ReadArgumentShrinks(s[n..], quoted, read + Repeat('\\', n));
      } else if !(!quoted && IsBlank(s[0])) {
        ReadArgumentShrinks(s[1..], quoted, read + [s[0]]);
      }
    }
  }

  /** The arguments on a command line, which blanks separate. */
  function ReadCommandLine(s: string): seq<string>
    decreases |s|
  {
    if s == [] then []
    else if IsBlank(s[0]) then ReadCommandLine(s[1..])
    else
      ReadArgumentShrinks(s, false, "");
      var (arg, rest) := ReadArgument(s, false, "");
      [arg] + ReadCommandLine(rest)
  }

  // ----- the writer -----

  predicate NeedsQuotes(arg: string) {
    ' ' in arg || '\t' in arg || arg == []
  }

  /** The rest of an argument after n pending backslashes; they are doubled before a quotation mark, and at the
      end of an argument that gets a closing one. */
  function Escaped(arg: string, n: nat, closing: bool): string
    decreases |arg|
  {
    if arg == [] then Repeat('\\', if closing then 2 * n else n)
    else if arg[0] == '\\' then Escaped(arg[1..], n + 1, closing)
    else if arg[0] == '"' then Repeat('\\', 2 * n) + "\\\"" + Escaped(arg[1..], 0, closing)
    else Repeat('\\', n) + [arg[0]] + Escaped(arg[1..], 0, closing)
  }

  function Quoted(arg: string): string {
    if NeedsQuotes(arg) then "\"" + Escaped(arg, 0, true) + "\"" else Escaped(arg, 0, false)
  }

  function CommandLine(args: seq<string>): string {
    if args == [] then ""
    else if |args| == 1 then Quoted(args[0])
    else CommandLine(args[..|args| - 1]) + " " + Quoted(args[|args| - 1])
  }

  /** Appends the characters of an argument, then its pending backslashes and its closing quotation mark. */
  method AppendArgument(start: string, arg: string, needquote: bool) returns (result: string)
    ensures result == start + Escaped(arg, 0, needquote) + if needquote then "\"" else ""
  {
    result := start;
    var bsBuf := "";
    for i := 0 to |arg|
      invariant bsBuf == Repeat('\\', |bsBuf|)
      invariant result + Escaped(arg[i..], |bsBuf|, needquote) == start + Escaped(arg, 0, needquote)
    {
      var c, n := arg[i], |bsBuf|;
      hide Repeat;
      assert arg[i..][1..] == arg[i + 1..];
      ghost var rest := Escaped(arg[i + 1..], 0, needquote);
      if c == '\\' {
        bsBuf := bsBuf + [c];
        assert bsBuf == Repeat('\\', |bsBuf|);
      } else if c == '"' {
        Regroup(result, Repeat('\\', 2 * n), "\\\"", rest);
        result := result + Repeat('\\', 2 * n) + "\\\"";
        bsBuf := "";
      } else {
        Regroup(result, bsBuf, [c], rest);
        result := result + bsBuf + [c];
        bsBuf := "";
      }
    }
    assert arg[|arg|..] == [];
    result := result + bsBuf;
    if needquote {
      assert Repeat('\\', 2 * |bsBuf|) == bsBuf + bsBuf;
      result := result + bsBuf + "\"";
    }
  }

  lemma Regroup(a: string, b: string, c: string, d: string)
    ensures a + (b + c + d) == a + b + c + d
  {
  }

  method List2Cmdline(args: seq<string>) returns (result: string)
    ensures result == CommandLine(args)
  {
    hide Escaped, Quoted, CommandLine, NeedsQuotes;
    result := "";
    CommandLineEmpty(args[..0]);
    for k := 0 to |args|
      invariant result == CommandLine(args[..k])
    {
      CommandLineEmpty(args[..k]);
      CommandLineStep(args, k);
      var arg := args[k];
      if result != "" { result := result + " "; }
      QuotedParts(result, arg);
      var needquote := NeedsQuotes(arg);
      if needquote { result := result + "\""; }
      result := AppendArgument(result, arg, needquote);
      assert result == CommandLine(args[..k + 1]);
    }
    assert args[..|args|] == args;
  }

  lemma CommandLineStep(args: seq<string>, k: nat)
    requires k < |args|
    ensures CommandLine(args[..k + 1]) ==
            if k == 0 then "" + Quoted(args[k]) else CommandLine(args[..k]) + " " + Quoted(args[k])
  {
    hide Quoted;
    assert args[..k + 1][..k] == args[..k];
  }

  lemma QuotedParts(start: string, arg: string)
    ensures start + Quoted(arg) ==
            if NeedsQuotes(arg) then start + "\"" + Escaped(arg, 0, true) + "\"" else start + Escaped(arg, 0, false) + ""
  {
    hide Escaped;
  }

  lemma {:induction false} EscapedNonEmpty(arg: string, n: nat, closing: bool)
    requires arg != [] || n > 0
    ensures Escaped(arg, n, closing) != []
    decreases |arg|
  {
    if arg != [] && arg[0] == '\\' { EscapedNonEmpty(arg[1..], n + 1, closing); }
  }

  lemma QuotedNonEmpty(arg: string)
    ensures Quoted(arg) != []
  {
    if arg != [] { EscapedNonEmpty(arg, 0, false); }
  }

  lemma CommandLineEmpty(args: seq<string>)
    ensures CommandLine(args) == "" <==> args == []
  {
    if args != [] { QuotedNonEmpty(args[|args| - 1]); }
  }

  // ----- which arguments are changed -----

  /** Escaping keeps a text without quotation marks, but for the backslashes doubled at its end. */
  lemma {:induction false} EscapedPlain(arg: string, n: nat)
    requires '"' !in arg
    ensures Escaped(arg, n, false) == Repeat('\\', n) + arg
    decreases |arg|
  {
    if arg != [] {
      var rest := arg[1..];
      if arg[0] == '\\' {
        EscapedPlain(rest, n + 1);
        assert Repeat('\\', n + 1) == Repeat('\\', n) + [arg[0]];
      } else {
        EscapedPlain(rest, 0);
      }
      assert arg == [arg[0]] + rest;
    }
  }

  /** Every quotation mark gets a backslash. */
  lemma {:induction false} EscapedLonger(arg: string, n: nat)
    ensures |Escaped(arg, n, false)| >= n + |arg| + (if '"' in arg then 1 else 0)
    decreases |arg|
  {
    if arg != [] { EscapedLonger(arg[1..], if arg[0] == '\\' then n + 1 else 0); }
  }

  lemma {:induction false} EscapedFirst(arg: string, n: nat)
    requires arg != [] || n > 0
    ensures Escaped(arg, n, false) != [] && Escaped(arg, n, false)[0] != '"'
    decreases |arg|
  {
    if arg != [] && arg[0] == '\\' { EscapedFirst(arg[1..], n + 1); }
  }

  /** An argument is put in quotation marks exactly when it is empty or has a space or a tab in it, and is written as it is
      exactly when it is not empty and has neither of them nor a quotation mark. */
  lemma QuotedExactly(arg: string)
    ensures Quoted(arg) != "" && (Quoted(arg)[0] == '"' <==> arg == "" || ' ' in arg || '\t' in arg)
    ensures Quoted(arg) == arg <==> arg != "" && ' ' !in arg && '\t' !in arg && '"' !in arg
  {
    hide Escaped;
    if NeedsQuotes(arg) {
      QuotedLonger(arg);
    } else {
      EscapedFirst(arg, 0);
      EscapedLonger(arg, 0);
      if '"' !in arg {
        EscapedPlain(arg, 0);
        assert Repeat('\\', 0) + arg == arg;
      }
    }
  }

  lemma {:induction false} ClosedLonger(arg: string, n: nat)
    ensures |Escaped(arg, n, true)| >= n + |arg|
    decreases |arg|
  {
    if arg != [] { ClosedLonger(arg[1..], if arg[0] == '\\' then n + 1 else 0); }
  }

  lemma QuotedLonger(arg: string)
    requires NeedsQuotes(arg)
    ensures |Quoted(arg)| >= |arg| + 2
  {
    hide Escaped;
    ClosedLonger(arg, 0);
  }

  // ----- reading back what was written -----

  lemma {:induction false} BackslashesOf(n: nat, t: string)
    requires t == [] || t[0] != '\\'
    ensures Backslashes(Repeat('\\', n) + t) == n
  {
    var s := Repeat('\\', n) + t;
    assert t != [] ==> s[n] == t[0];
  }

  /** n backslashes and a character that is neither a backslash nor a quotation mark. */
  lemma ReadLiteral(n: nat, c: char, t: string, quoted: bool, read: string)
    requires c != '\\' && c != '"' && (IsBlank(c) ==> quoted)
    ensures ReadArgument(Repeat('\\', n) + [c] + t, quoted, read) == ReadArgument(t, quoted, read + Repeat('\\', n) + [c])
  {
    var s := Repeat('\\', n) + [c] + t;
    assert s == Repeat('\\', n) + ([c] + t);
    BackslashesOf(n, [c] + t);
    BackslashesOf(0, [c] + t);
    assert Repeat('\\', 0) + ([c] + t) == [c] + t;
    assert s[n..] == [c] + t && ([c] + t)[1..] == t;
    if n == 0 { assert read + Repeat('\\', 0) == read; }
  }

  /** 2n backslashes before an escaped quotation mark. */
  lemma ReadEscapedQuote(n: nat, t: string, quoted: bool, read: string)
    ensures ReadArgument(Repeat('\\', 2 * n) + "\\\"" + t, quoted, read) ==
            ReadArgument(t, quoted, read + Repeat('\\', n) + "\"")
  {
    hide Backslashes, Repeat;
    QuoteText(n, t);
    BackslashesOf(2 * n + 1, "\"" + t);
    assert (2 * n + 1) / 2 == n && (2 * n + 1) % 2 == 1;
  }

  lemma QuoteText(n: nat, t: string)
    ensures var s := Repeat('\\', 2 * n) + "\\\"" + t;
            s == Repeat('\\', 2 * n + 1) + ("\"" + t) && s[2 * n + 1] == '"' && s[2 * n + 2..] == t
  {
  }

  /** 2n backslashes before a quotation mark that opens or closes. */
  lemma ReadQuote(n: nat, t: string, quoted: bool, read: string)
    ensures ReadArgument(Repeat('\\', 2 * n) + "\"" + t, quoted, read) ==
            ReadArgument(t, !quoted, read + Repeat('\\', n))
  {
    var s := Repeat('\\', 2 * n) + "\"" + t;
    assert s == Repeat('\\', 2 * n) + ("\"" + t);
    BackslashesOf(2 * n, "\"" + t);
    assert s[2 * n + 1..] == t;
  }

  /** An unquoted argument ends at a blank or at the end of the line. */
  lemma ReadEnd(n: nat, t: string, read: string)
    requires t == [] || t[0] == ' '
    ensures ReadArgument(Repeat('\\', n) + t, false, read) == (read + Repeat('\\', n), if t == [] then [] else t[1..])
  {
    var s := Repeat('\\', n) + t;
    BackslashesOf(n, t);
    BackslashesOf(0, t);
    assert Repeat('\\', 0) + t == t && s[n..] == t;
    if n == 0 { assert read + Repeat('\\', 0) == read; }
  }

  /** What follows the characters of an argument: its closing quotation mark, and the rest of the line. */
  function After(closing: bool, t: string): string {
    if closing then "\"" + t else t
  }

  lemma {:induction false} ReadEscaped(arg: string, n: nat, closing: bool, t: string, read: string)
    requires !closing ==> (forall c <- arg :: !IsBlank(c)) && (t == [] || t[0] == ' ')
    ensures ReadArgument(Escaped(arg, n, closing) + After(closing, t), closing, read) ==
            if closing then ReadArgument(t, false, read + Repeat('\\', n) + arg)
            else (read + Repeat('\\', n) + arg, if t == [] then [] else t[1..])
    decreases |arg|
  {
    hide ReadArgument, Backslashes, Repeat, Escaped;
    if arg == [] {
      ReadEscapedEnd(n, closing, t, read);
      assert read + Repeat('\\', n) + arg == read + Repeat('\\', n);
    } else {
      var c, rest := arg[0], arg[1..];
      EscapedStep(arg, n, closing, After(closing, t));
      if c == '\\' {
        ReadEscaped(rest, n + 1, closing, t, read);
        Together(read, n, arg);
      } else {
        var more, read' := Escaped(rest, 0, closing) + After(closing, t), read + Repeat('\\', n) + [c];
        if c == '"' {
          ReadEscapedQuote(n, more, closing, read);
        } else {
          ReadLiteral(n, c, more, closing, read);
        }
        ReadEscaped(rest, 0, closing, t, read');
        Together(read, n, arg);
      }
    }
  }

  lemma EscapedStep(arg: string, n: nat, closing: bool, tail: string)
    requires arg != []
    ensures var c, more := arg[0], Escaped(arg[1..], 0, closing) + tail;
            Escaped(arg, n, closing) + tail ==
            if c == '\\' then Escaped(arg[1..], n + 1, closing) + tail
            else if c == '"' then Repeat('\\', 2 * n) + "\\\"" + more
            else Repeat('\\', n) + [c] + more
  {
    hide Repeat;
  }

  lemma ReadEscapedEnd(n: nat, closing: bool, t: string, read: string)
    requires !closing ==> t == [] || t[0] == ' '
    ensures ReadArgument(Escaped("", n, closing) + After(closing, t), closing, read) ==
            if closing then ReadArgument(t, false, read + Repeat('\\', n))
            else (read + Repeat('\\', n), if t == [] then [] else t[1..])
  {
    hide ReadArgument, Repeat;
    if closing {
      ReadQuote(n, t, true, read);
      assert Repeat('\\', 2 * n) + ("\"" + t) == Repeat('\\', 2 * n) + "\"" + t;
    } else {
      ReadEnd(n, t, read);
    }
  }

  lemma Together(read: string, n: nat, arg: string)
    requires arg != []
    ensures arg[0] == '\\' ==> read + Repeat('\\', n + 1) + arg[1..] == read + Repeat('\\', n) + arg
    ensures read + Repeat('\\', n) + [arg[0]] + Repeat('\\', 0) + arg[1..] == read + Repeat('\\', n) + arg
  {
  }

  /** One quoted argument, followed by nothing or by a space, is read back as itself. */
  lemma ReadQuoted(arg: string, t: string)
    requires t == [] || t[0] == ' '
    ensures ReadArgument(Quoted(arg) + t, false, "") == (arg, if t == [] then [] else t[1..])
  {
    hide ReadArgument, Escaped, Repeat, Quoted, NeedsQuotes, After;
    NoBackslashes(arg, t);
    QuotedForms(arg, t);
    if NeedsQuotes(arg) {
      ReadQuote(0, Escaped(arg, 0, true) + After(true, t), false, "");
      ReadEscaped(arg, 0, true, t, "");
      ReadEnd(0, t, arg);
    } else {
      ReadEscaped(arg, 0, false, t, "");
    }
  }

  lemma QuotedForms(arg: string, t: string)
    ensures NeedsQuotes(arg) ==> Quoted(arg) + t == Repeat('\\', 0) + "\"" + (Escaped(arg, 0, true) + After(true, t))
    ensures !NeedsQuotes(arg) ==> Quoted(arg) + t == Escaped(arg, 0, false) + After(false, t) && forall c <- arg :: !IsBlank(c)
  {
    hide Escaped, Repeat;
    NoBackslashes(arg, t);
    Around("\"", Escaped(arg, 0, true), t);
    if !NeedsQuotes(arg) { PlainCharacters(arg); }
  }

  lemma Around(q: string, e: string, t: string)
    ensures (q + e + q) + t == "" + q + (e + (q + t))
  {
  }

  lemma PlainCharacters(arg: string)
    requires !NeedsQuotes(arg)
    ensures forall c <- arg :: !IsBlank(c)
  {
  }

  lemma NoBackslashes(arg: string, t: string)
    ensures Repeat('\\', 0) == "" && "" + Repeat('\\', 0) + arg == arg && arg + Repeat('\\', 0) == arg
    ensures Repeat('\\', 0) + t == t
  {
  }

  /** The first character of a written argument is never a blank. */
  lemma {:induction false} EscapedStart(arg: string, n: nat)
    requires (forall c <- arg :: !IsBlank(c)) && (arg != [] || n > 0)
    ensures Escaped(arg, n, false) != [] && !IsBlank(Escaped(arg, n, false)[0])
    decreases |arg|
  {
    if arg != [] && arg[0] == '\\' {
      EscapedStart(arg[1..], n + 1);
    }
  }

  lemma QuotedStart(arg: string)
    ensures Quoted(arg) != [] && !IsBlank(Quoted(arg)[0])
  {
    if !NeedsQuotes(arg) { EscapedStart(arg, 0); }
  }

  /** The command line of a nonempty list, from its first argument. */
  function Joined(args: seq<string>): string {
    if args == [] then ""
    else Quoted(args[0]) + if |args| == 1 then "" else " " + Joined(args[1..])
  }

  lemma {:induction false} JoinedIsCommandLine(args: seq<string>)
    ensures CommandLine(args) == Joined(args)
    decreases |args|
  {
    hide Quoted;
    if |args| > 1 {
      var init, last := args[..|args| - 1], args[|args| - 1];
      JoinedIsCommandLine(init);
      JoinedSnoc(init, last);
      assert init + [last] == args;
    }
  }

  lemma {:induction false} JoinedSnoc(args: seq<string>, last: string)
    requires args != []
    ensures Joined(args + [last]) == Joined(args) + " " + Quoted(last)
    decreases |args|
  {
    hide Quoted;
    assert (args + [last])[1..] == args[1..] + [last];
    if |args| == 1 {
      assert Joined([last]) == Quoted(last);
      assert (args + [last])[1..] == [last];
    } else {
      JoinedSnoc(args[1..], last);
    }
  }

  lemma {:induction false} ReadJoined(args: seq<string>)
    ensures ReadCommandLine(Joined(args)) == args
    decreases |args|
  {
    hide Quoted, ReadArgument;
    if args != [] {
      var t := if |args| == 1 then "" else " " + Joined(args[1..]);
      QuotedStart(args[0]);
      ReadQuoted(args[0], t);
      var s := Quoted(args[0]) + t;
      assert s == Joined(args) && s[0] == Quoted(args[0])[0];
      assert args == [args[0]] + args[1..];
      if |args| > 1 {
        assert t[1..] == Joined(args[1..]);
      }
      ReadJoined(args[1..]);
    }
  }

  /** The C runtime reads back exactly the arguments, for every list of strings. */
  lemma CommandLineRoundTrip(args: seq<string>)
    ensures ReadCommandLine(CommandLine(args)) == args
  {
    JoinedIsCommandLine(args);
    ReadJoined(args);
  }
}
