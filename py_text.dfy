/**
 * The parts of Python's `str` that the extraction pipeline relies on:
 * `s.strip()` being empty, `s.splitlines()`, `"\n".join(lines)` and
 * `"".join(parts)` (the effect of repeated `+=`).
 */
module PyText {

  /**
   * Python's `str.isspace` for one character: the set `str.strip()` removes by
   * default. Every line boundary is whitespace; no printable ASCII character is.
   */
  predicate IsSpace(c: char)
    ensures IsLineBreak(c) ==> IsSpace(c)
    ensures '!' <= c <= '~' ==> !IsSpace(c)
  {
    || ('\t' <= c <= '\r')
    || ('\U{1C}' <= c <= '\U{1F}')
    || c == ' '
    || c == '\U{85}'
    || c == '\U{A0}'
    || c == '\U{1680}'
    || ('\U{2000}' <= c <= '\U{200A}')
    || c == '\U{2028}'
    || c == '\U{2029}'
    || c == '\U{202F}'
    || c == '\U{205F}'
    || c == '\U{3000}'
  }

  /**
   * `not s.strip()`: the string holds nothing but whitespace. The empty string
   * is blank, and a blank string holds no printable ASCII character.
   */
  predicate IsBlank(s: string)
    ensures s == "" ==> IsBlank(s)
    ensures IsBlank(s) ==> forall i | 0 <= i < |s| :: !('!' <= s[i] <= '~')
  {
    forall i | 0 <= i < |s| :: IsSpace(s[i])
  }

  /** `not (s + t).strip()` exactly when both parts strip to nothing. */
  lemma BlankAppend(s: string, t: string)
    ensures IsBlank(s + t) <==> IsBlank(s) && IsBlank(t)
  {
    if IsBlank(s + t) {
      forall i | 0 <= i < |s| ensures IsSpace(s[i]) {
        assert s[i] == (s + t)[i];
      }
      forall i | 0 <= i < |t| ensures IsSpace(t[i]) {
        assert t[i] == (s + t)[|s| + i];
      }
    }
  }

  /** The characters at which `str.splitlines()` ends a line ("\r\n" counts as one boundary). */
  predicate IsLineBreak(c: char) {
    || c == '\n'
    || c == '\r'
    || c == '\U{0B}'
    || c == '\U{0C}'
    || ('\U{1C}' <= c <= '\U{1E}')
    || c == '\U{85}'
    || c == '\U{2028}'
    || c == '\U{2029}'
  }

  predicate HasNoBreak(s: string) {
    forall i | 0 <= i < |s| :: !IsLineBreak(s[i])
  }

  /**
   * `"".join(parts)`, the effect of `text += part` over the parts in order: it
   * starts with the first part.
   */
  function Concat(parts: seq<string>): (r: string)
    ensures parts != [] ==> |parts[0]| <= |r| && r[..|parts[0]|] == parts[0]
  {
    if parts == [] then ""
    else
      var init := parts[..|parts| - 1];
      var prefix := Concat(init);
      assert init != [] ==> init[0] == parts[0];
      prefix + parts[|parts| - 1]
  }

  /** The accumulated text is blank exactly when every part is. */
  lemma {:induction false} ConcatBlank(parts: seq<string>)
    ensures IsBlank(Concat(parts)) <==> forall i | 0 <= i < |parts| :: IsBlank(parts[i])
  {
    if parts != [] {
      var init := parts[..|parts| - 1];
      ConcatBlank(init);
      BlankAppend(Concat(init), parts[|parts| - 1]);
      assert forall i | 0 <= i < |init| :: init[i] == parts[i];
    }
  }

  lemma {:induction false} ConcatAppend(a: seq<string>, b: seq<string>)
    ensures Concat(a + b) == Concat(a) + Concat(b)
    decreases |b|
  {
    if b == [] {
      assert a + b == a;
    } else {
      var b', last := b[..|b| - 1], b[|b| - 1];
      assert (a + b)[..|a + b| - 1] == a + b';
      assert (a + b)[|a + b| - 1] == last;
      assert Concat(b) == Concat(b') + last;
      assert Concat(a + b) == Concat(a + b') + last;
      ConcatAppend(a, b');
    }
  }

  /** The index of the first line boundary in `s`, or `|s|` when there is none. */
  function LineEnd(s: string): (k: nat)
    ensures k <= |s|
    ensures HasNoBreak(s[..k])
    ensures k < |s| ==> IsLineBreak(s[k])
  {
    if s == [] || IsLineBreak(s[0]) then 0
    else
      var k' := LineEnd(s[1..]);
      assert s[..1 + k'] == [s[0]] + s[1..][..k'];
      1 + k'
  }

  /** The number of characters of the boundary that starts at `s[k]`. */
  function BreakWidth(s: string, k: nat): nat
    requires k < |s|
  {
    if s[k] == '\r' && k + 1 < |s| && s[k + 1] == '\n' then 2 else 1
  }

  /**
   * `s.splitlines()`: the lines of `s` without their boundaries; a boundary at
   * the very end does not start a further, empty line.
   */
  function SplitLines(s: string): (lines: seq<string>)
    ensures s == "" <==> lines == []
    ensures s != "" ==> lines[0] == s[..LineEnd(s)]
    ensures |lines| <= |s|
    ensures forall i | 0 <= i < |lines| :: HasNoBreak(lines[i])
    decreases |s|
  {
    if s == [] then []
    else
      var k := LineEnd(s);
      var next := if k == |s| then k else k + BreakWidth(s, k);
      [s[..k]] + SplitLines(s[next..])
  }

  /** `"\n".join(lines)`: it starts with the first line (and ends with the last, `JoinLinesEnd`). */
  function JoinLines(lines: seq<string>): (r: string)
    ensures lines != [] ==> |lines[0]| <= |r| && r[..|lines[0]|] == lines[0]
  {
    if |lines| == 0 then ""
    else if |lines| == 1 then lines[0]
    else lines[0] + "\n" + JoinLines(lines[1..])
  }

  /** `"\n".join(lines)` ends with the last character of the last line when that line is not empty. */
  lemma {:induction false} JoinLinesEnd(lines: seq<string>)
    requires lines != [] && lines[|lines| - 1] != ""
    ensures var s := JoinLines(lines);
      s != "" && s[|s| - 1] == lines[|lines| - 1][|lines[|lines| - 1]| - 1]
  {
    if |lines| > 1 {
      JoinLinesEnd(lines[1..]);
    }
  }

  /**
   * Splitting undoes joining: lines free of boundaries, the last one not
   * empty, come back unchanged from `"\n".join(lines).splitlines()`.
   */
  lemma {:induction false} SplitJoin(lines: seq<string>)
    requires lines != [] && lines[|lines| - 1] != ""
    requires forall i | 0 <= i < |lines| :: HasNoBreak(lines[i])
    ensures SplitLines(JoinLines(lines)) == lines
  {
    if |lines| == 1 {
      SplitOneLine(lines[0]);
    } else {
      var tail := lines[1..];
      assert lines == [lines[0]] + tail;
      assert forall i | 0 <= i < |tail| :: tail[i] == lines[i + 1];
      SplitJoin(tail);
      SplitJoinStep(lines[0], tail);
    }
  }

  /** The inductive step of `SplitJoin`: one more line in front, joined by "\n". */
  lemma SplitJoinStep(line: string, lines: seq<string>)
    requires lines != [] && HasNoBreak(line)
    requires SplitLines(JoinLines(lines)) == lines
    ensures SplitLines(JoinLines([line] + lines)) == [line] + lines
  {
    JoinLinesCons(line, lines);
    SplitAtBoundary(line, "\n", JoinLines(lines));
  }

  /** A non-empty line free of boundaries splits into itself. */
  lemma SplitOneLine(l: string)
    requires l != "" && HasNoBreak(l)
    ensures SplitLines(l) == [l]
  {
    var k := LineEnd(l);
    assert k == |l|;
    SplitUnbroken(l);
  }

  /** Text whose only line boundary is "\n". */
  predicate OnlyNewlineBreaks(s: string) {
    forall i | 0 <= i < |s| :: IsLineBreak(s[i]) ==> s[i] == '\n'
  }

  /**
   * Joining undoes splitting for text whose only boundary is "\n": the lines
   * joined by "\n" give the text back, short of a final "\n".
   */
  lemma {:induction false} JoinSplit(s: string)
    requires OnlyNewlineBreaks(s)
    ensures JoinLines(SplitLines(s)) + TrailingNewline(s) == s
    decreases |s|
  {
    if s != [] {
      var k := LineEnd(s);
      if k == |s| {
        SplitUnbroken(s);
      } else {
        var line, rest := s[..k], s[k + 1..];
        SplitAtNewline(s, k);
        OnlyNewlineBreaksSuffix(s, k + 1);
        JoinSplit(rest);
        JoinStep(line, rest, SplitLines(rest));
        calc {
          JoinLines(SplitLines(s)) + TrailingNewline(s);
          JoinLines([line] + SplitLines(rest)) + TrailingNewline(line + "\n" + rest);
          line + "\n" + rest;
        }
      }
    }
  }

  lemma OnlyNewlineBreaksSuffix(s: string, j: nat)
    requires OnlyNewlineBreaks(s) && j <= |s|
    ensures OnlyNewlineBreaks(s[j..])
  {
    forall i | 0 <= i < |s| - j ensures IsLineBreak(s[j..][i]) ==> s[j..][i] == '\n' {
      assert s[j..][i] == s[j + i];
    }
  }

  /** The inductive step of `JoinSplit`: one more line in front, ended by "\n". */
  lemma JoinStep(line: string, rest: string, lines: seq<string>)
    requires lines == [] <==> rest == []
    requires JoinLines(lines) + TrailingNewline(rest) == rest
    ensures JoinLines([line] + lines) + TrailingNewline(line + "\n" + rest) == line + "\n" + rest
  {
    var s := line + "\n" + rest;
    if rest == [] {
      assert [line] + lines == [line];
      assert s[|s| - 1] == '\n';
    } else {
      JoinLinesCons(line, lines);
      assert s[|s| - 1] == rest[|rest| - 1];
    }
  }

  lemma SplitUnbroken(s: string)
    requires s != [] && LineEnd(s) == |s|
    ensures SplitLines(s) == [s] && TrailingNewline(s) == ""
  {
    assert s[..|s|] == s && s[|s|..] == [];
    assert !IsLineBreak(s[..|s|][|s| - 1]);
  }

  lemma JoinLinesCons(line: string, lines: seq<string>)
    requires lines != []
    ensures JoinLines([line] + lines) == line + "\n" + JoinLines(lines)
  {
    assert ([line] + lines)[1..] == lines;
  }

  /** One step of `JoinSplit`: the first boundary is a "\n" one character wide. */
  lemma SplitAtNewline(s: string, k: nat)
    requires OnlyNewlineBreaks(s)
    requires s != [] && k == LineEnd(s) && k < |s|
    ensures s[k] == '\n' && s == s[..k] + "\n" + s[k + 1..]
    ensures SplitLines(s) == [s[..k]] + SplitLines(s[k + 1..])
    ensures s[k + 1..] == [] ==> TrailingNewline(s) == "\n"
  {
    NewlineAt(s, k);
    SplitAtBoundary(s[..k], "\n", s[k + 1..]);
  }

  /** In text whose only boundary is "\n", a boundary at `k` is a "\n" that splits the text in two. */
  lemma NewlineAt(s: string, k: nat)
    requires OnlyNewlineBreaks(s)
    requires k < |s| && IsLineBreak(s[k])
    ensures s[k] == '\n' && s == s[..k] + "\n" + s[k + 1..]
    ensures IsBoundary("\n", s[k + 1..])
  {
  }

  /**
   * `b` is one line boundary as `str.splitlines()` reads it in front of `rest`:
   * "\r\n", or a single boundary character other than a "\r" that `rest`
   * continues with "\n".
   */
  predicate IsBoundary(b: string, rest: string) {
    || b == "\r\n"
    || (|b| == 1 && IsLineBreak(b[0]) && !(b[0] == '\r' && rest != [] && rest[0] == '\n'))
  }

  /** `(line + b + rest).splitlines()` is `line` followed by the lines of `rest`. */
  lemma SplitAtBoundary(line: string, b: string, rest: string)
    requires HasNoBreak(line) && IsBoundary(b, rest)
    ensures SplitLines(line + b + rest) == [line] + SplitLines(rest)
  {
    var s := line + b + rest;
    var k := LineEnd(s);
    assert s[|line|] == b[0] && IsLineBreak(b[0]);
    assert forall i | 0 <= i < |line| :: s[i] == line[i];
    assert k == |line|;
    assert s[..k] == line;
    if b == "\r\n" {
      assert BreakWidth(s, k) == 2;
    } else {
      assert BreakWidth(s, k) == 1;
    }
    assert s[k + |b|..] == rest;
  }

  function TrailingNewline(s: string): string {
    if s != [] && s[|s| - 1] == '\n' then "\n" else ""
  }

  predicate NoCarriageReturn(s: string) {
    forall i | 0 <= i < |s| :: s[i] != '\r'
  }

  /** A "\r" is a line boundary, so text without boundaries has none. */
  lemma BreakFreeHasNoCarriageReturn(s: string)
    requires HasNoBreak(s)
    ensures NoCarriageReturn(s)
  {
    forall i | 0 <= i < |s| ensures s[i] != '\r' {
      assert !IsLineBreak(s[i]);
    }
  }

  lemma NoCarriageReturnAppend(s: string, t: string)
    ensures NoCarriageReturn(s + t) <==> NoCarriageReturn(s) && NoCarriageReturn(t)
  {
    if NoCarriageReturn(s + t) {
      forall i | 0 <= i < |s| ensures s[i] != '\r' {
        assert s[i] == (s + t)[i];
      }
      forall i | 0 <= i < |t| ensures t[i] != '\r' {
        assert t[i] == (s + t)[|s| + i];
      }
    }
  }

  /** Lines without "\r" joined by "\n" hold no "\r". */
  lemma {:induction false} JoinLinesHasNoCarriageReturn(lines: seq<string>)
    requires forall i | 0 <= i < |lines| :: NoCarriageReturn(lines[i])
    ensures NoCarriageReturn(JoinLines(lines))
  {
    if |lines| > 1 {
      var tail := lines[1..];
      assert forall i | 0 <= i < |tail| :: tail[i] == lines[i + 1];
      JoinLinesHasNoCarriageReturn(tail);
      NoCarriageReturnAppend(lines[0], "\n");
      NoCarriageReturnAppend(lines[0] + "\n", JoinLines(tail));
    }
  }

  /**
   * `open(path, 'r').read()` of a file holding `s`: Python's universal newlines
   * turn each "\r\n" and each lone "\r" into "\n". The result holds no "\r"
   * and is never longer than `s`.
   */
  function ReadText(s: string): (r: string)
    ensures NoCarriageReturn(r)
    ensures |r| <= |s|
  {
    if s == [] then []
    else if s[0] == '\r' then
      var rest := if |s| > 1 && s[1] == '\n' then s[2..] else s[1..];
      var r := ReadText(rest);
      NoCarriageReturnAppend("\n", r);
      "\n" + r
    else
      var r := ReadText(s[1..]);
      NoCarriageReturnAppend([s[0]], r);
      [s[0]] + r
  }

  /** A text-mode read gives the written text back exactly when it holds no "\r". */
  lemma {:induction false} ReadTextUnchanged(s: string)
    ensures ReadText(s) == s <==> NoCarriageReturn(s)
  {
    if s != [] && NoCarriageReturn(s) {
      var t := s[1..];
      assert forall i | 0 <= i < |t| :: t[i] == s[i + 1];
      ReadTextUnchanged(t);
      assert s == [s[0]] + t;
    }
  }

  /** Text without "\r" in front of `t` reads as itself, followed by the read of `t`. */
  lemma {:induction false} ReadTextPrefix(a: string, t: string)
    requires NoCarriageReturn(a)
    ensures ReadText(a + t) == a + ReadText(t)
    decreases |a|
  {
    if a == [] {
      assert a + t == t;
    } else {
      var a' := a[1..];
      assert forall i | 0 <= i < |a'| :: a'[i] == a[i + 1];
      assert (a + t)[0] == a[0] != '\r' && (a + t)[1..] == a' + t;
      ReadTextPrefix(a', t);
      assert a == [a[0]] + a';
    }
  }

  /**
   * One step of the read: text without "\r", then "\r\n" or a "\r" that `rest`
   * does not continue with "\n", reads as that text and one "\n", followed by
   * the read of `rest`.
   */
  lemma ReadTextAtCarriageReturn(a: string, b: string, rest: string)
    requires NoCarriageReturn(a)
    requires b == "\r\n" || (b == "\r" && (rest == [] || rest[0] != '\n'))
    ensures ReadText(a + b + rest) == a + "\n" + ReadText(rest)
  {
    assert a + b + rest == a + (b + rest);
    ReadTextPrefix(a, b + rest);
    var t := b + rest;
    if b == "\r\n" {
      assert t[0] == '\r' && t[1] == '\n' && t[2..] == rest;
    } else {
      assert t[0] == '\r' && t[1..] == rest;
    }
  }

  /** "\r\n" and a lone "\r" both read as one "\n". */
  lemma CarriageReturnsReadAsNewlines()
    ensures ReadText("a\r\nb\rc") == "a\nb\nc"
  {
    assert "a\r\nb\rc"[1..] == "\r\nb\rc";
    assert "\r\nb\rc"[2..] == "b\rc";
    assert "b\rc"[1..] == "\rc";
    assert "\rc"[1..] == "c";
    assert "c"[1..] == "";
  }
}
