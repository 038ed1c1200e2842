/** String operations of the text armour: searching, splitting and joining. */
module Text {

  ghost predicate OccursAt(s: string, sep: string, k: nat) {
    k + |sep| <= |s| && s[k..k + |sep|] == sep
  }

  ghost predicate Occurs(s: string, sep: string) {
    exists k: nat :: OccursAt(s, sep, k)
  }

  /** The first place at or after i where sep occurs in s, or -1. */
  function FindFrom(s: string, sep: string, i: nat): (r: int)
    requires i <= |s|
    ensures r == -1 || (i <= r && OccursAt(s, sep, r))
    ensures forall k: nat | i <= k && (r == -1 || k < r) :: !OccursAt(s, sep, k)
    decreases |s| - i
  {
    if i + |sep| > |s| then -1
    else if s[i..i + |sep|] == sep then i
    else if i == |s| then -1
    else FindFrom(s, sep, i + 1)
  }

  function Find(s: string, sep: string): (r: int)
    ensures r == -1 || (0 <= r && OccursAt(s, sep, r))
    ensures forall k: nat | r == -1 || k < r :: !OccursAt(s, sep, k)
  {
    FindFrom(s, sep, 0)
  }

  /** The pieces of s between the occurrences of sep, found from the left. */
  function Split(s: string, sep: string): (r: seq<string>)
    requires sep != ""
    ensures |r| >= 1
    decreases |s|
  {
    var k := Find(s, sep);
    if k == -1 then [s] else [s[..k]] + Split(s[k + |sep|..], sep)
  }

  function Join(sep: string, parts: seq<string>): string {
    if parts == [] then ""
    else if |parts| == 1 then parts[0]
    else parts[0] + sep + Join(sep, parts[1..])
  }

  lemma SplitNone(s: string, sep: string)
    requires sep != "" && !Occurs(s, sep)
    ensures Split(s, sep) == [s]
  {
  }

  /** The first piece ends where sep occurs first. */
  lemma SplitAt(a: string, sep: string, b: string)
    requires sep != "" && forall k: nat | k < |a| :: !OccursAt(a + sep + b, sep, k)
    ensures Find(a + sep + b, sep) == |a|
    ensures Split(a + sep + b, sep) == [a] + Split(b, sep)
  {
    var s := a + sep + b;
    assert s[|a|..|a| + |sep|] == sep;
    assert OccursAt(s, sep, |a|);
    assert s[..|a|] == a && s[|a| + |sep|..] == b;
  }

  lemma OccursInPrefix(p: string, t: string, sep: string, k: nat)
    requires k + |sep| <= |p|
    ensures OccursAt(p + t, sep, k) <==> OccursAt(p, sep, k)
  {
    assert (p + t)[k..k + |sep|] == p[k..k + |sep|];
  }

  /** The first piece is what comes before the first occurrence. */
  lemma SplitHead(s: string, sep: string)
    requires sep != ""
    ensures var k := Find(s, sep); Split(s, sep)[0] == if k == -1 then s else s[..k]
  {
  }

  /** Two texts with the same places of sep have the same first one. */
  lemma SameFind(s: string, t: string, sep: string)
    requires forall k: nat :: OccursAt(s, sep, k) <==> OccursAt(t, sep, k)
    ensures Find(s, sep) == Find(t, sep)
  {
    hide OccursAt, Find;
    var i, j := Find(s, sep), Find(t, sep);
    assert i != -1 ==> OccursAt(t, sep, i);
    assert j != -1 ==> OccursAt(s, sep, j);
  }

  /** What follows an occurrence of sep does not change the first piece. */
  lemma FirstPiece(a: string, sep: string, t: string)
    requires sep != ""
    ensures Split(a + sep + t, sep)[0] == Split(a + sep, sep)[0]
  {
    hide Split, OccursAt, Find;
    var p := a + sep;
    var k := Find(p, sep);
    OccursAtEnd(a, sep);
    assert 0 <= k <= |a|;
    forall j: nat | j <= k ensures OccursAt(p + t, sep, j) <==> OccursAt(p, sep, j) { OccursInPrefix(p, t, sep, j); }
    assert Find(p + t, sep) == k;
    SplitHead(p, sep);
    SplitHead(p + t, sep);
    assert (p + t)[..k] == p[..k];
  }

  lemma OccursAtEnd(a: string, sep: string)
    ensures OccursAt(a + sep, sep, |a|)
  {
    assert (a + sep)[|a|..|a| + |sep|] == sep;
  }

  lemma {:induction false} JoinSplit(s: string, sep: string)
    requires sep != ""
    ensures Join(sep, Split(s, sep)) == s
    decreases |s|
  {
    hide Find, Split, Join;
    var k := Find(s, sep);
    SplitStep(s, sep);
    if k == -1 {
      JoinOne(sep, s);
    } else {
      var rest := s[k + |sep|..];
      JoinSplit(rest, sep);
      JoinCons(sep, s[..k], Split(rest, sep));
      assert s == s[..k] + sep + rest;
    }
  }

  lemma SplitStep(s: string, sep: string)
    requires sep != ""
    ensures var k := Find(s, sep);
            Split(s, sep) == if k == -1 then [s] else [s[..k]] + Split(s[k + |sep|..], sep)
  {
    hide Find;
  }

  lemma JoinCons(sep: string, a: string, parts: seq<string>)
    requires parts != []
    ensures Join(sep, [a] + parts) == a + sep + Join(sep, parts)
  {
    assert ([a] + parts)[1..] == parts;
  }

  /** A separator cannot straddle a character it does not contain. */
  lemma NoStraddle(a: string, c: char, b: string, sep: string, k: nat)
    requires c !in sep && OccursAt(a + [c] + b, sep, k)
    ensures OccursAt(a, sep, k) || (k > |a| && OccursAt(b, sep, k - |a| - 1))
  {
    var s := a + [c] + b;
    if k + |sep| <= |a| {
      assert s[k..k + |sep|] == a[k..k + |sep|];
    } else if k > |a| {
      assert s[k..k + |sep|] == b[k - |a| - 1..k - |a| - 1 + |sep|];
    } else {
      StartsWith(s, sep, k, |a| - k);
      assert false;
    }
  }

  /** A separator cannot start at a character other than its first. */
  lemma StartsWith(s: string, sep: string, k: nat, i: nat)
    requires OccursAt(s, sep, k) && i < |sep|
    ensures k + i < |s| && s[k + i] == sep[i]
  {
    assert s[k..k + |sep|][i] == s[k + i];
  }

  lemma NotIn(s: string, sep: string, i: nat)
    requires i < |sep| && sep[i] !in s
    ensures !Occurs(s, sep)
  {
    if k: nat :| OccursAt(s, sep, k) {
      StartsWith(s, sep, k, i);
    }
  }

  // ----- lines -----

  const RN: string := "\r\n"

  ghost predicate NewlineFree(lines: seq<string>) {
    forall i | 0 <= i < |lines| :: '\n' !in lines[i]
  }

  /** Splitting joined lines at RN gives the lines back. */
  lemma {:induction false} SplitLines(lines: seq<string>)
    requires lines != [] && NewlineFree(lines)
    ensures Split(Join(RN, lines), RN) == lines
    decreases |lines|
  {
    var a := lines[0];
    if |lines| == 1 {
      NotIn(a, RN, 1);
      SplitNone(a, RN);
      assert lines == [a];
    } else {
      var b := Join(RN, lines[1..]);
      var s := a + RN + b;
      forall k: nat | k < |a|
        ensures !OccursAt(s, RN, k)
      {
        if OccursAt(s, RN, k) {
          StartsWith(s, RN, k, 1);
        }
      }
      SplitAt(a, RN, b);
      SplitLines(lines[1..]);
      assert lines == [a] + lines[1..];
    }
  }

  /** Splitting joined lines at bare newlines leaves each line but the last its carriage return. */
  lemma {:induction false} SplitAtNewlines(lines: seq<string>)
    requires lines != [] && NewlineFree(lines)
    ensures LinePieces(Split(Join(RN, lines), "\n"), lines)
    decreases |lines|
  {
    hide Split, Join;
    var a, rest := lines[0], lines[1..];
    if |lines| == 1 {
      assert lines == [a];
      JoinOne(RN, a);
      NotIn(a, "\n", 0);
      SplitNone(a, "\n");
    } else {
      assert lines == [a] + rest;
      JoinCons(RN, a, rest);
      SplitNewline(a + "\r", Join(RN, rest));
      assert a + "\r" + "\n" + Join(RN, rest) == a + RN + Join(RN, rest);
      SplitAtNewlines(rest);
      OnePieceMore(a, Split(Join(RN, rest), "\n"), rest);
    }
  }

  ghost predicate LinePieces(parts: seq<string>, lines: seq<string>) {
    |parts| == |lines| > 0 && parts[|lines| - 1] == lines[|lines| - 1] &&
    forall i | 0 <= i < |lines| - 1 :: parts[i] == lines[i] + "\r"
  }

  lemma OnePieceMore(a: string, parts: seq<string>, lines: seq<string>)
    requires LinePieces(parts, lines)
    ensures LinePieces([a + "\r"] + parts, [a] + lines)
  {
    var p, l := [a + "\r"] + parts, [a] + lines;
    forall i | 0 <= i < |l| - 1 ensures p[i] == l[i] + "\r" {
      if i > 0 { assert p[i] == parts[i - 1] && l[i] == lines[i - 1]; }
    }
  }

  lemma JoinOne(sep: string, s: string)
    ensures Join(sep, [s]) == s
  {
  }

  lemma SplitNewline(a: string, b: string)
    requires '\n' !in a
    ensures Split(a + "\n" + b, "\n") == [a] + Split(b, "\n")
  {
    forall k: nat | k < |a|
      ensures !OccursAt(a + "\n" + b, "\n", k)
    {
      if OccursAt(a + "\n" + b, "\n", k) { StartsWith(a + "\n" + b, "\n", k, 0); }
    }
    SplitAt(a, "\n", b);
  }

  lemma {:induction false} JoinConcat(sep: string, a: seq<string>, b: seq<string>)
    requires a != [] && b != []
    ensures Join(sep, a + b) == Join(sep, a) + sep + Join(sep, b)
    decreases |a|
  {
    assert (a + b)[1..] == a[1..] + b;
    if |a| == 1 {
      assert (a + b)[1..] == b;
    } else {
      JoinConcat(sep, a[1..], b);
      assert Join(sep, a + b) == a[0] + sep + (Join(sep, a[1..]) + sep + Join(sep, b));
    }
  }

  // ----- stripping -----

  predicate IsSpace(c: char) {
    c == ' ' || c == '\t' || c == '\n' || c == '\r' || c == 11 as char || c == 12 as char
  }

  function StripLeft(s: string): string {
    if s != "" && IsSpace(s[0]) then StripLeft(s[1..]) else s
  }

  function StripRight(s: string): string {
    if s != "" && IsSpace(s[|s| - 1]) then StripRight(s[..|s| - 1]) else s
  }

  function Strip(s: string): string {
    StripRight(StripLeft(s))
  }

  lemma {:induction false} StripAround(a: string, s: string, b: string)
    requires s != "" && !IsSpace(s[0]) && !IsSpace(s[|s| - 1])
    requires (forall c <- a :: IsSpace(c)) && (forall c <- b :: IsSpace(c))
    ensures Strip(a + s + b) == s
    decreases |a| + |b|
  {
    if a != "" {
      assert (a + s + b)[1..] == a[1..] + s + b;
      StripAround(a[1..], s, b);
    } else if b != "" {
      var t := a + s + b;
      assert t == s + b && t[0] == s[0] && StripLeft(t) == t;
      assert t[..|t| - 1] == a + s + b[..|b| - 1];
      assert (a + s + b[..|b| - 1])[0] == s[0];
      StripAround(a, s, b[..|b| - 1]);
    } else {
      assert a + s + b == s;
    }
  }
}
