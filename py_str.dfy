/** The few Python `str` built-ins the bootstrapping script relies on, written out
    so that their edge cases are explicit: `strip()`, `startswith()`,
    `split(sep, 1)` and `splitlines()`. `Option` stands for `str | None`. */
module PyStr {

  datatype Option<+T> = None | Some(value: T)

  /** Python truthiness of an optional string: `None` and `""` are both false. */
  predicate Truthy(o: Option<string>) {
    o.Some? && o.value != ""
  }

  /** `str.isspace()` for one character: the code points Python strips by default. */
  predicate IsSpace(c: char) {
    var n := c as int;
    (0x09 <= n <= 0x0D) || (0x1C <= n <= 0x20) || n == 0x85 || n == 0xA0 || n == 0x1680
    || (0x2000 <= n <= 0x200A) || n == 0x2028 || n == 0x2029 || n == 0x202F || n == 0x205F
    || n == 0x3000
  }

  /** The leading-whitespace removal half of `strip()`. */
  function TrimStart(s: string): (r: string)
    ensures |r| <= |s| && r == s[|s| - |r|..]
    ensures forall k :: 0 <= k < |s| - |r| ==> IsSpace(s[k])
    ensures r == [] || !IsSpace(r[0])
  {
    if |s| > 0 && IsSpace(s[0]) then TrimStart(s[1..]) else s
  }

  /** The trailing-whitespace removal half of `strip()`. */
  function TrimEnd(s: string): (r: string)
    ensures |r| <= |s| && r == s[..|r|]
    ensures forall k :: |r| <= k < |s| ==> IsSpace(s[k])
    ensures r == [] || !IsSpace(r[|r| - 1])
  {
    if |s| > 0 && IsSpace(s[|s| - 1]) then TrimEnd(s[..|s| - 1]) else s
  }

  /** `r` sits at offset `i` of `s` and only whitespace surrounds it there. */
  predicate SlicedFrom(s: string, i: nat, r: string) {
    && i + |r| <= |s|
    && r == s[i..i + |r|]
    && (forall k :: 0 <= k < i ==> IsSpace(s[k]))
    && (forall k :: i + |r| <= k < |s| ==> IsSpace(s[k]))
  }

  /** `s.strip()`: the result is a slice of `s` that neither starts nor ends with
      whitespace, and everything cut off on either side is whitespace. */
  function Strip(s: string): (r: string)
    ensures r == [] || (!IsSpace(r[0]) && !IsSpace(r[|r| - 1]))
    ensures exists i: nat :: SlicedFrom(s, i, r)
  {
    var t := TrimStart(s);
    var r := TrimEnd(t);
    assert r == s[|s| - |t|..][..|r|];
    assert SlicedFrom(s, |s| - |t|, r);
    r
  }

  /** A string with no surrounding whitespace is left alone by `strip()`. */
  lemma StripKeepsTrimmed(s: string)
    requires s == [] || (!IsSpace(s[0]) && !IsSpace(s[|s| - 1]))
    ensures Strip(s) == s
  {
    var t := TrimStart(s);
    assert t == s by {
      if s != [] {
        assert !IsSpace(s[0]);
      }
    }
    assert TrimEnd(t) == t by {
      if t != [] {
        assert !IsSpace(t[|t| - 1]);
      }
    }
  }

  /** `strip()` is idempotent. */
  lemma StripIdempotent(s: string)
    ensures Strip(Strip(s)) == Strip(s)
  {
    StripKeepsTrimmed(Strip(s));
  }

  /** `strip()` removes exactly the whitespace in front of an already trimmed text. */
  lemma {:induction false} StripLeadingSpaces(pad: string, s: string)
    requires forall k :: 0 <= k < |pad| ==> IsSpace(pad[k])
    requires s == [] || (!IsSpace(s[0]) && !IsSpace(s[|s| - 1]))
    ensures Strip(pad + s) == s
  {
    if pad == [] {
      assert pad + s == s;
      StripKeepsTrimmed(s);
    } else {
      assert (pad + s)[1..] == pad[1..] + s;
      StripLeadingSpaces(pad[1..], s);
    }
  }

  /** `s.startswith(prefix)`. */
  predicate StartsWith(s: string, prefix: string) {
    |prefix| <= |s| && s[..|prefix|] == prefix
  }

  /** The position of the first `c` in `s`, or `|s|` when there is none. */
  function IndexOf(s: string, c: char): (i: nat)
    ensures i <= |s|
    ensures i < |s| ==> s[i] == c
    ensures forall k :: 0 <= k < i ==> s[k] != c
  {
    if s == [] then 0 else if s[0] == c then 0 else 1 + IndexOf(s[1..], c)
  }

  /** `s.split(sep, 1)`: one part when `sep` does not occur, otherwise the text
      before the first `sep` and everything after it. Joining the parts back
      with `sep` gives `s` again. */
  function SplitOnce(s: string, sep: char): (parts: seq<string>)
    ensures |parts| == 1 || |parts| == 2
    ensures |parts| == 1 <==> sep !in s
    ensures |parts| == 1 ==> parts[0] == s
    ensures |parts| == 2 ==> parts[0] + [sep] + parts[1] == s && sep !in parts[0]
  {
    var i := IndexOf(s, sep);
    if i == |s| then [s]
    else
      assert s == s[..i] + [sep] + s[i + 1..];
      [s[..i], s[i + 1..]]
  }

  /** The characters `str.splitlines()` treats as line boundaries
      (`\r\n` is additionally one boundary of two characters). */
  predicate IsLineBreak(c: char) {
    var n := c as int;
    (0x0A <= n <= 0x0D) || (0x1C <= n <= 0x1E) || n == 0x85 || n == 0x2028 || n == 0x2029
  }

  predicate NoLineBreaks(s: string) {
    forall k :: 0 <= k < |s| ==> !IsLineBreak(s[k])
  }

  /** The position of the first line boundary in `s`, or `|s|` when there is none. */
  function LineBreakIndex(s: string): (i: nat)
    ensures i <= |s|
    ensures i < |s| ==> IsLineBreak(s[i])
    ensures NoLineBreaks(s[..i])
  {
    if s == [] then 0 else if IsLineBreak(s[0]) then 0 else 1 + LineBreakIndex(s[1..])
  }

  /** `s.splitlines()`: the lines of `s` without their boundaries; a final
      boundary does not start an extra empty line. */
  function SplitLines(s: string): (lines: seq<string>)
    ensures forall j :: 0 <= j < |lines| ==> NoLineBreaks(lines[j])
    ensures |lines| <= |s|
    ensures lines == [] <==> s == []
    decreases |s|
  {
    if s == [] then []
    else
      var i := LineBreakIndex(s);
      if i == |s| then [s]
      else
        var width := if s[i] == '\r' && i + 1 < |s| && s[i + 1] == '\n' then 2 else 1;
        [s[..i]] + SplitLines(s[i + width..])
  }

  /** The inverse direction of `splitlines()` for `\n`-terminated text. */
  function JoinLines(lines: seq<string>): (s: string)
    ensures |s| >= |lines|
  {
    if lines == [] then [] else lines[0] + "\n" + JoinLines(lines[1..])
  }

  /** A line without boundaries followed by `\n` splits off as one line. */
  lemma SplitLinesCons(line: string, rest: string)
    requires NoLineBreaks(line)
    ensures SplitLines(line + "\n" + rest) == [line] + SplitLines(rest)
  {
    SplitLinesConsBreak(line, '\n', rest);
  }

  /** A line followed by any single-character boundary splits off as one line;
      a lone `\r` counts alone only when no `\n` follows it. */
  lemma SplitLinesConsBreak(line: string, c: char, rest: string)
    requires NoLineBreaks(line) && IsLineBreak(c)
    requires c == '\r' ==> rest == [] || rest[0] != '\n'
    ensures SplitLines(line + [c] + rest) == [line] + SplitLines(rest)
  {
    var s := line + [c] + rest;
    LineBreakAt(line, [c], rest);
    assert s[|line|] == c;
    assert s[..|line|] == line;
    assert s[|line| + 1..] == rest;
  }

  /** A line followed by `\r\n` splits off as one line: the pair is one boundary. */
  lemma SplitLinesConsCrLf(line: string, rest: string)
    requires NoLineBreaks(line)
    ensures SplitLines(line + "\r\n" + rest) == [line] + SplitLines(rest)
  {
    var s := line + "\r\n" + rest;
    LineBreakAt(line, "\r\n", rest);
    assert s[|line|] == '\r' && s[|line| + 1] == '\n';
    assert s[..|line|] == line;
    assert s[|line| + 2..] == rest;
  }

  /** A last line without a boundary after it is still a line. */
  lemma SplitLinesLastLine(line: string)
    requires NoLineBreaks(line) && line != []
    ensures SplitLines(line) == [line]
  {
    assert LineBreakIndex(line) == |line| by { NoBreakIndex(line); }
  }

  lemma {:induction false} NoBreakIndex(s: string)
    requires NoLineBreaks(s)
    ensures LineBreakIndex(s) == |s|
  {
    if s != [] {
      NoBreakIndex(s[1..]);
    }
  }

  lemma {:induction false} LineBreakAt(line: string, brk: string, rest: string)
    requires NoLineBreaks(line) && brk != [] && IsLineBreak(brk[0])
    ensures LineBreakIndex(line + brk + rest) == |line|
  {
    if line != [] {
      assert (line + brk + rest)[1..] == line[1..] + brk + rest;
      LineBreakAt(line[1..], brk, rest);
    } else {
      assert (line + brk + rest)[0] == brk[0];
    }
  }

  /** Joining lines that hold no boundary and splitting again gives the lines back. */
  lemma {:induction false} SplitJoinLines(lines: seq<string>)
    requires forall j :: 0 <= j < |lines| ==> NoLineBreaks(lines[j])
    ensures SplitLines(JoinLines(lines)) == lines
  {
    if lines != [] {
      SplitLinesCons(lines[0], JoinLines(lines[1..]));
      SplitJoinLines(lines[1..]);
    }
  }

  /** Every line boundary in `s` is a plain `\n`. */
  predicate OnlyNewlineBreaks(s: string) {
    forall c :: c in s && IsLineBreak(c) ==> c == '\n'
  }

  /** Text whose only boundaries are `\n` and that ends in one (or is empty) is
      rebuilt exactly by joining its lines. */
  lemma {:induction false} JoinSplitLines(s: string)
    requires OnlyNewlineBreaks(s)
    requires s == [] || s[|s| - 1] == '\n'
    ensures JoinLines(SplitLines(s)) == s
    decreases |s|
  {
    if s != [] {
      var i := FirstNewline(s);
      var rest := s[i + 1..];
      JoinSplitLines(rest);
      JoinLinesCons(s[..i], SplitLines(rest));
    }
  }

  /** The first line of non-empty `\n`-terminated text ends at its first `\n`. */
  lemma FirstNewline(s: string) returns (i: nat)
    requires OnlyNewlineBreaks(s)
    requires s != [] && s[|s| - 1] == '\n'
    ensures i < |s| && s == s[..i] + "\n" + s[i + 1..]
    ensures SplitLines(s) == [s[..i]] + SplitLines(s[i + 1..])
    ensures OnlyNewlineBreaks(s[i + 1..])
    ensures s[i + 1..] == [] || s[|s| - 1] == '\n'
  {
    i := LineBreakIndex(s);
    assert s[i] in s;
    assert s == s[..i] + [s[i]] + s[i + 1..];
    forall c | c in s[i + 1..] ensures c in s { }
  }

  /** Text whose only boundaries are `\n` and whose last line has no boundary
      after it is rebuilt by joining its lines, up to the final `\n` joining adds. */
  lemma {:induction false} JoinSplitLinesUnterminated(s: string)
    requires OnlyNewlineBreaks(s)
    requires s != [] && s[|s| - 1] != '\n'
    ensures JoinLines(SplitLines(s)) == s + "\n"
    decreases |s|
  {
    if LineBreakIndex(s) == |s| {
      SplitLinesLastLine(s);
      JoinLinesCons(s, []);
    } else {
      var i := NextNewline(s);
      var line, rest := s[..i], s[i + 1..];
      calc {
        JoinLines(SplitLines(s));
        JoinLines([line] + SplitLines(rest));
        { JoinLinesCons(line, SplitLines(rest)); }
        line + "\n" + JoinLines(SplitLines(rest));
        { JoinSplitLinesUnterminated(rest); }
        line + "\n" + (rest + "\n");
        (line + "\n" + rest) + "\n";
        s + "\n";
      }
    }
  }

  /** Unterminated text with a boundary in it ends its first line at a `\n`,
      and what follows is unterminated text again. */
  lemma NextNewline(s: string) returns (i: nat)
    requires OnlyNewlineBreaks(s)
    requires s != [] && s[|s| - 1] != '\n' && LineBreakIndex(s) < |s|
    ensures i + 1 < |s| && s == s[..i] + "\n" + s[i + 1..]
    ensures SplitLines(s) == [s[..i]] + SplitLines(s[i + 1..])
    ensures OnlyNewlineBreaks(s[i + 1..])
    ensures s[i + 1..][|s[i + 1..]| - 1] != '\n'
  {
    i := LineBreakIndex(s);
    assert s[i] in s;
    assert s == s[..i] + [s[i]] + s[i + 1..];
    forall c | c in s[i + 1..] ensures c in s { }
  }

  lemma JoinLinesCons(line: string, lines: seq<string>)
    ensures JoinLines([line] + lines) == line + "\n" + JoinLines(lines)
  {
    assert ([line] + lines)[1..] == lines;
  }
}
