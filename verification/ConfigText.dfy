/**
 The text layer of the boot-configuration editor in src/install.rs: lines with their endings, trimming,
 and the round trips between a text and its lines.
*/
module ConfigText {
  datatype ConfigLine = ConfigLine(body: string, ending: string)

  const LF := "\n"
  const CRLF := "\r\n"

  function Text(line: ConfigLine): string {
    line.body + line.ending
  }

  function Join(lines: seq<ConfigLine>): string {
    if lines == [] then "" else Text(lines[0]) + Join(lines[1..])
  }

  function FirstNewline(s: string): (n: nat)
    ensures n <= |s| && LF[0] !in s[..n] && (n < |s| ==> s[n] == LF[0] && LF[0] in s)
  {
    if s == "" || s[0] == LF[0] then 0
    else
      var n := FirstNewline(s[1..]);
      assert s[..n + 1] == [s[0]] + s[1..][..n];
      n + 1
  }

  /** The line a newline ends, given what stands before the newline. */
  function LineOf(before: string): ConfigLine {
    if before != "" && before[|before| - 1] == '\r' then ConfigLine(before[..|before| - 1], CRLF)
    else ConfigLine(before, LF)
  }

  function Split(s: string): seq<ConfigLine>
    decreases |s|
  {
    if s == "" then []
    else
      var n := FirstNewline(s);
      if n == |s| then [ConfigLine(s, "")] else [LineOf(s[..n])] + Split(s[n + 1..])
  }

  predicate Terminated(line: ConfigLine) {
    line.ending == LF || line.ending == CRLF
  }

  /** No line runs over; only the last may lack an ending, and then it has a body. */
  ghost predicate WellFormed(lines: seq<ConfigLine>) {
    lines == []
    || (&& '\n' !in lines[0].body
        && (Terminated(lines[0]) || (|lines| == 1 && lines[0].ending == "" && lines[0].body != ""))
        && WellFormed(lines[1..]))
  }

  /** How the line reads back: a carriage return before a line feed belongs to the ending. */
  function Normal(line: ConfigLine): ConfigLine {
    if line.ending == LF then LineOf(line.body) else line
  }

  function NormalAll(lines: seq<ConfigLine>): (r: seq<ConfigLine>)
    ensures |r| == |lines| && forall i :: 0 <= i < |r| ==> r[i] == Normal(lines[i])
  {
    seq(|lines|, i requires 0 <= i < |lines| => Normal(lines[i]))
  }

  lemma LineOfFacts(before: string)
    requires '\n' !in before
    ensures Text(LineOf(before)) == before + LF && '\n' !in LineOf(before).body && Terminated(LineOf(before))
    ensures Normal(LineOf(before)) == LineOf(before)
  {
    var line := LineOf(before);
    assert forall c :: c in line.body ==> c in before;
  }

  lemma {:induction false} FirstNewlineAt(s: string, n: nat)
    requires n < |s| && '\n' !in s[..n] && s[n] == '\n'
    ensures FirstNewline(s) == n
  {
    if n > 0 {
      assert s[0] == s[..n][0] && s[1..][..n - 1] == s[..n][1..];
      FirstNewlineAt(s[1..], n - 1);
    }
  }

  lemma NextNewline(input: string, start: nat, newline: nat)
    requires start <= newline < |input| && '\n' !in input[start..newline] && input[newline] == '\n'
    ensures Split(input[start..]) == [LineOf(input[start..newline])] + Split(input[newline + 1..])
  {
    hide LineOf;
    var rest := input[start..];
    assert rest[..newline - start] == input[start..newline] && rest[newline - start + 1..] == input[newline + 1..];
    FirstNewlineAt(rest, newline - start);
  }

  lemma NoNewline(s: string)
    requires '\n' !in s && s != ""
    ensures Split(s) == [ConfigLine(s, "")]
  {
  }

  /** split_lines_preserving_endings: one pass over the newlines. */
  method SplitLinesPreservingEndings(input: string) returns (lines: seq<ConfigLine>)
    ensures lines == Split(input)
  {
    hide Split, FirstNewline;
    lines := [];
    var start, newline := 0, 0;
    assert input[0..] == input;
    while newline < |input|
      invariant 0 <= start <= newline <= |input|
      invariant '\n' !in input[start..newline]
      invariant lines + Split(input[start..]) == Split(input)
    {
      if input[newline] == '\n' {
        NextNewline(input, start, newline);
        var line := if newline > start && input[newline - 1] == '\r'
        then ConfigLine(input[start..newline - 1], CRLF)
        else ConfigLine(input[start..newline], LF);
        assert line == LineOf(input[start..newline]);
        lines := lines + [line];
        start := newline + 1;
      }
      newline := newline + 1;
    }
    if start < |input| {
      assert input[start..|input|] == input[start..];
      NoNewline(input[start..]);
      lines := lines + [ConfigLine(input[start..], "")];
    } else {
      SplitEmpty(input[start..]);
    }
  }

  lemma SplitEmpty(s: string)
    requires |s| == 0
    ensures Split(s) == []
  {}

  lemma UnendedReadsBack(s: string)
    requires s != "" && FirstNewline(s) == |s|
    ensures Join(Split(s)) == s && WellFormed(Split(s)) && NormalAll(Split(s)) == Split(s)
  {
    assert s[..|s|] == s;
    assert Split(s) == [ConfigLine(s, "")] && Split(s)[1..] == [];
    UnendedText(s);
    assert Text(ConfigLine(s, "")) + "" == s;
  }

  /** Splitting loses nothing. */
  lemma {:induction false} JoinOfSplit(s: string)
    ensures Join(Split(s)) == s && WellFormed(Split(s)) && NormalAll(Split(s)) == Split(s)
    decreases |s|
  {
    hide LineOf, Text, FirstNewline, Terminated, NormalAll;
    if s != "" {
      var n := FirstNewline(s);
      if n == |s| {
        UnendedReadsBack(s);
      } else {
        var rest := s[n + 1..];
        JoinOfSplit(rest);
        LineOfFacts(s[..n]);
        assert Split(s) == [LineOf(s[..n])] + Split(rest);
        assert Split(s)[1..] == Split(rest);
        NormalCons(LineOf(s[..n]), Split(rest));
        assert s == s[..n] + LF + rest;
      }
    } else { assert Split(s) == []; }
  }

  lemma UnendedText(s: string)
    ensures Text(ConfigLine(s, "")) == s
    ensures Normal(ConfigLine(s, "")) == ConfigLine(s, "")
  {}

  lemma NormalCons(line: ConfigLine, lines: seq<ConfigLine>)
    ensures NormalAll([line] + lines) == [Normal(line)] + NormalAll(lines)
  {}

  lemma NormalAppend(a: seq<ConfigLine>, b: seq<ConfigLine>)
    ensures NormalAll(a + b) == NormalAll(a) + NormalAll(b)
  {}

  /** A line feed closes a body into a line that reads back normally. */
  lemma TerminatedReadsBack(line: ConfigLine, rest: string)
    requires Terminated(line) && '\n' !in line.body
    ensures Split(Text(line) + rest) == [Normal(line)] + Split(rest)
  {
    hide LineOf, FirstNewline;
    var s := Text(line) + rest;
    var before := if line.ending == LF then line.body else line.body + "\r";
    var n := |before|;
    assert s == before + LF + rest;
    assert s[..n] == before && s[n] == '\n' && s[n + 1..] == rest;
    FirstNewlineAt(s, n);
    assert LineOf(before) == Normal(line) by { CrLfReadsBack(line.body); }
  }

  lemma CrLfReadsBack(body: string)
    ensures LineOf(body + "\r") == ConfigLine(body, CRLF)
  {
    assert (body + "\r")[..|body|] == body;
  }

  /** Joining well-formed lines and splitting again gives the same lines, up to which side of a line feed
      a carriage return is counted on. */
  lemma {:induction false} SplitOfJoin(lines: seq<ConfigLine>)
    requires WellFormed(lines)
    ensures Split(Join(lines)) == NormalAll(lines)
  {
    hide LineOf, FirstNewline, Text, Normal, Terminated, Split, NormalAll;
    if lines == [] {
      SplitEmpty(Join(lines));
      NormalAppend(lines, lines);
      assert lines + lines == lines;
    } else {
      var line, rest := lines[0], lines[1..];
      SplitOfJoin(rest);
      assert lines == [line] + rest;
      NormalCons(line, rest);
      if Terminated(line) {
        TerminatedReadsBack(line, Join(rest));
      } else {
        UnendedText(line.body);
        assert rest == [] && Join(rest) == "" && Join(lines) == line.body;
        NoNewline(line.body);
      }
    }
  }

  lemma {:induction false} JoinAppend(a: seq<ConfigLine>, b: seq<ConfigLine>)
    ensures Join(a + b) == Join(a) + Join(b)
  {
    hide Text;
    if a == [] {
      assert a + b == b && Join(a) == "";
      assert "" + Join(b) == Join(b);
    } else {
      JoinAppend(a[1..], b);
      assert (a + b)[0] == a[0] && (a + b)[1..] == a[1..] + b;
      assert Join(a + b) == Text(a[0]) + (Join(a[1..]) + Join(b));
      assert Text(a[0]) + (Join(a[1..]) + Join(b)) == Text(a[0]) + Join(a[1..]) + Join(b);
    }
  }

  lemma {:induction false} JoinNormal(lines: seq<ConfigLine>)
    ensures Join(NormalAll(lines)) == Join(lines)
  {
    if lines != [] {
      JoinNormal(lines[1..]);
      assert NormalAll(lines)[1..] == NormalAll(lines[1..]);
      assert Text(Normal(lines[0])) == Text(lines[0]);
    }
  }

  /** All but a last line without ending. */
  lemma {:induction false} WellFormedAppend(a: seq<ConfigLine>, b: seq<ConfigLine>)
    requires WellFormed(a) && WellFormed(b) && (forall i :: 0 <= i < |a| ==> Terminated(a[i]))
    ensures WellFormed(a + b)
  {
    if a == [] {
      assert a + b == b;
    } else {
      WellFormedAppend(a[1..], b);
      assert (a + b)[1..] == a[1..] + b;
    }
  }

  lemma {:induction false} WellFormedParts(lines: seq<ConfigLine>, n: nat)
    requires WellFormed(lines) && n <= |lines|
    ensures WellFormed(lines[n..])
    ensures n < |lines| ==> forall i :: 0 <= i < n ==> Terminated(lines[i])
    ensures WellFormed(lines[..n])
  {
    if n > 0 {
      WellFormedParts(lines[1..], n - 1);
      assert lines[1..][n - 1..] == lines[n..];
      assert lines[..n][1..] == lines[1..][..n - 1];
    }
  }

  // ----- trimming

  predicate Whitespace(c: char) {
    var n := c as int;
    0x09 <= n <= 0x0D || n == 0x20 || n == 0x85 || n == 0xA0 || n == 0x1680 || 0x2000 <= n <= 0x200A
    || n == 0x2028 || n == 0x2029 || n == 0x202F || n == 0x205F || n == 0x3000
  }

  function TrimEnd(s: string): string {
    if s != "" && Whitespace(s[|s| - 1]) then TrimEnd(s[..|s| - 1]) else s
  }

  function TrimStart(s: string): string {
    if s != "" && Whitespace(s[0]) then TrimStart(s[1..]) else s
  }

  function Trim(s: string): string {
    TrimStart(TrimEnd(s))
  }

  lemma {:induction false} TrimStartIs(s: string) returns (before: string)
    ensures s == before + TrimStart(s) && forall i :: 0 <= i < |before| ==> Whitespace(before[i])
    ensures TrimStart(s) != "" ==> !Whitespace(TrimStart(s)[0])
  {
    before := "";
    if s != "" && Whitespace(s[0]) {
      before := TrimStartIs(s[1..]);
      assert s == [s[0]] + (before + TrimStart(s[1..]));
      before := [s[0]] + before;
    }
  }

  lemma {:induction false} TrimEndIs(s: string) returns (after: string)
    ensures s == TrimEnd(s) + after && forall i :: 0 <= i < |after| ==> Whitespace(after[i])
    ensures TrimEnd(s) != "" ==> !Whitespace(TrimEnd(s)[|TrimEnd(s)| - 1])
  {
    after := "";
    if s != "" && Whitespace(s[|s| - 1]) {
      after := TrimEndIs(s[..|s| - 1]);
      assert s == TrimEnd(s[..|s| - 1]) + after + [s[|s| - 1]];
      after := after + [s[|s| - 1]];
    }
  }

  /** Trimming takes white space off both ends, and all of it. */
  lemma TrimIs(s: string) returns (before: string, after: string)
    ensures s == before + Trim(s) + after
    ensures forall i :: 0 <= i < |before + after| ==> Whitespace((before + after)[i])
    ensures Trim(s) != "" ==> !Whitespace(Trim(s)[0]) && !Whitespace(Trim(s)[|Trim(s)| - 1])
  {
    hide Whitespace, TrimStart, TrimEnd;
    after := TrimEndIs(s);
    before := TrimStartIs(TrimEnd(s));
    if Trim(s) != "" {
      assert TrimEnd(s)[|TrimEnd(s)| - 1] == Trim(s)[|Trim(s)| - 1];
    }
  }

  lemma NormalKeepsTrim(line: ConfigLine)
    ensures Trim(Normal(line).body) == Trim(line.body)
  {}

  lemma TrimIsIdentity(s: string)
    requires s != "" && !Whitespace(s[0]) && !Whitespace(s[|s| - 1])
    ensures Trim(s) == s
  {}

  // ----- byte lengths

  function CharBytes(c: char): nat {
    if c as int < 0x80 then 1 else if c as int < 0x800 then 2 else if c as int < 0x10000 then 3 else 4
  }

  /** The length of a text in UTF-8. */
  function ByteLength(s: string): nat {
    if s == "" then 0 else CharBytes(s[0]) + ByteLength(s[1..])
  }

  /** Lengths add up, character by character. */
  lemma {:induction false} ByteLengthAppend(a: string, b: string)
    ensures ByteLength(a + b) == ByteLength(a) + ByteLength(b)
  {
    if a == "" {
      assert a + b == b;
    } else {
      ByteLengthAppend(a[1..], b);
      assert (a + b)[1..] == a[1..] + b;
    }
  }

  /** A text takes as many bytes as it has characters exactly if all of them are ASCII, and never fewer. */
  lemma {:induction false} ByteLengthBounds(s: string)
    ensures |s| <= ByteLength(s) <= 4 * |s|
    ensures ByteLength(s) == |s| <==> forall i :: 0 <= i < |s| ==> s[i] as int < 0x80
  {
    if s != "" {
      ByteLengthBounds(s[1..]);
    }
  }
}
