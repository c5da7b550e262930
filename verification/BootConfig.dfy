/**
 select_hyperpixel_overlay in src/install.rs: choosing a display in the boot configuration. The editor drops
 the declarations it owns and the parameter lines under them, then writes the new selection right after the
 last all-sections header.
*/
module BootConfig {
  import opened Prelude
  import opened ConfigText
  import opened DisplayNames

  predicate Declares(line: ConfigLine) {
    IsDeclaration(Trim(line.body))
  }

  predicate Parameter(line: ConfigLine) {
    IsParameterLine(Trim(line.body))
  }

  predicate Header(line: ConfigLine) {
    Trim(line.body) == ALL_SECTION
  }

  // ----- which lines the editor owns

  /** A declaration, or a supported parameter directly below an owned line: only parameters stand between an owned
      line and a declaration. */
  predicate Owned(lines: seq<ConfigLine>, i: nat)
    requires i < |lines|
    ensures Owned(lines, i) <==>
            exists j :: 0 <= j <= i && Declares(lines[j]) && forall k :: j < k <= i ==> Parameter(lines[k])
    decreases i
  {
    Declares(lines[i]) || (Parameter(lines[i]) && i > 0 && Owned(lines, i - 1))
  }

  function Unowned(lines: seq<ConfigLine>, n: nat): seq<ConfigLine>
    requires n <= |lines|
    decreases n
  {
    if n == 0 then [] else Unowned(lines, n - 1) + (if Owned(lines, n - 1) then [] else [lines[n - 1]])
  }

  /** The lines that stay, given whether the line before the first was owned. */
  function Keep(lines: seq<ConfigLine>, owning: bool): seq<ConfigLine> {
    if lines == [] then []
    else if Declares(lines[0]) || (owning && Parameter(lines[0])) then Keep(lines[1..], true)
    else [lines[0]] + Keep(lines[1..], false)
  }

  function OwningAfter(lines: seq<ConfigLine>, owning: bool): bool {
    if lines == [] then owning
    else OwningAfter(lines[1..], Declares(lines[0]) || (owning && Parameter(lines[0])))
  }

  /** The pass over the lines keeps exactly the unowned ones, in order. */
  lemma {:induction false} KeepIsUnowned(lines: seq<ConfigLine>, n: nat)
    requires n <= |lines|
    ensures Keep(lines, false) == Unowned(lines, n) + Keep(lines[n..], n > 0 && Owned(lines, n - 1))
    decreases n
  {
    hide Declares, Parameter;
    if n == 0 {
      assert lines[0..] == lines;
    } else {
      KeepIsUnowned(lines, n - 1);
      var rest := lines[n - 1..];
      assert rest[0] == lines[n - 1] && rest[1..] == lines[n..];
      assert Unowned(lines, n - 1) + ([lines[n - 1]] + Keep(rest[1..], false))
          == Unowned(lines, n - 1) + [lines[n - 1]] + Keep(rest[1..], false);
    }
  }

  lemma KeptAreTheUnowned(lines: seq<ConfigLine>)
    ensures Keep(lines, false) == Unowned(lines, |lines|)
  {
    KeepIsUnowned(lines, |lines|);
    assert lines[|lines|..] == [];
  }

  method KeepUnowned(original: seq<ConfigLine>) returns (lines: seq<ConfigLine>)
    ensures lines == Keep(original, false)
  {
    hide Declares, Parameter;
    lines := [];
    var removing := false;
    var n := 0;
    assert original[0..] == original;
    while n < |original|
      invariant n <= |original|
      invariant lines + Keep(original[n..], removing) == Keep(original, false)
    {
      var rest := original[n..];
      assert rest[0] == original[n] && rest[1..] == original[n + 1..];
      var line := original[n];
      n := n + 1;
      if Declares(line) {
        removing := true;
        continue;
      }
      if removing && Parameter(line) {
        continue;
      }
      removing := false;
      assert lines + ([line] + Keep(original[n..], false)) == lines + [line] + Keep(original[n..], false);
      lines := lines + [line];
    }
  }

  // ----- where the selection goes

  function LastHeader(lines: seq<ConfigLine>, n: nat): (at: Option<nat>)
    requires n <= |lines|
    ensures at.Some? ==> at.value < n && Header(lines[at.value]) && forall j :: at.value < j < n ==> !Header(lines[j])
    ensures at.None? ==> forall j :: 0 <= j < n ==> !Header(lines[j])
    decreases n
  {
    if n == 0 then None else if Header(lines[n - 1]) then Some(n - 1) else LastHeader(lines, n - 1)
  }

  function Close(line: ConfigLine, ending: string): (r: ConfigLine)
    ensures r.body == line.body && r.ending == if line.ending == "" then ending else line.ending
  {
    if line.ending == "" then line.(ending := ending) else line
  }

  function CloseLast(lines: seq<ConfigLine>, ending: string): (r: seq<ConfigLine>)
    ensures |r| == |lines| && forall i :: 0 <= i < |r| - 1 ==> r[i] == lines[i]
    ensures lines != [] ==> r[|r| - 1] == Close(lines[|lines| - 1], ending)
  {
    if lines == [] then [] else lines[..|lines| - 1] + [Close(lines[|lines| - 1], ending)]
  }

  /** The first ending in use. */
  function Fallback(lines: seq<ConfigLine>): (ending: string)
    ensures (forall i :: 0 <= i < |lines| ==> lines[i].ending == "") ==> ending == LF
    ensures forall i :: 0 <= i < |lines| && lines[i].ending != "" && (forall j :: 0 <= j < i ==> lines[j].ending == "")
              ==> ending == lines[i].ending
  {
    if lines == [] then LF else if lines[0].ending != "" then lines[0].ending else Fallback(lines[1..])
  }

  /** What stands before the inserted lines, the ending they take, and what follows them. */
  datatype Parts = Parts(head: seq<ConfigLine>, ending: string, tail: seq<ConfigLine>)

  function PartsOf(kept: seq<ConfigLine>, fallback: string): (p: Parts)
    ensures |p.head| > 0
  {
    match LastHeader(kept, |kept|)
    case Some(i) =>
      var header := Close(kept[i], fallback);
      Parts(kept[..i] + [header], header.ending, kept[i + 1..])
    case None => Parts(CloseLast(kept, fallback) + [ConfigLine(ALL_SECTION, fallback)], fallback, [])
  }

  function Insertion(inserted: seq<string>, ending: string, closed: bool): (lines: seq<ConfigLine>)
    ensures |lines| == |inserted|
    ensures forall i :: 0 <= i < |lines| ==>
                          lines[i] == ConfigLine(inserted[i], if closed || i + 1 < |inserted| then ending else "")
  {
    seq(|inserted|, i requires 0 <= i < |inserted| =>
        ConfigLine(inserted[i], if closed || i + 1 < |inserted| then ending else ""))
  }

  function Assembled(p: Parts, inserted: seq<string>, finalNewline: bool): seq<ConfigLine> {
    p.head + Insertion(inserted, p.ending, p.tail != [] || finalNewline) + p.tail
  }

  predicate EndsWithNewline(s: string) {
    s != "" && s[|s| - 1] == '\n'
  }

  function PartsOfText(input: string): Parts {
    PartsOf(Keep(Split(input), false), Fallback(Split(input)))
  }

  function Edited(input: string, inserted: seq<string>): string {
    Join(Assembled(PartsOfText(input), inserted, EndsWithNewline(input)))
  }

  function LongLine(lines: seq<ConfigLine>, n: nat): (e: Option<InstallError>)
    requires n <= |lines|
    ensures e.None? <==> forall i :: n <= i < |lines| ==> ByteLength(lines[i].body) <= MAX_BOOT_CONFIG_LINE_BYTES
    ensures e.Some? ==>
              exists i :: && n <= i < |lines| && ByteLength(lines[i].body) > MAX_BOOT_CONFIG_LINE_BYTES
                          && (forall j :: n <= j < i ==> ByteLength(lines[j].body) <= MAX_BOOT_CONFIG_LINE_BYTES)
                          && e.value == BootLineTooLong(i + 1, ByteLength(lines[i].body))
    decreases |lines| - n
  {
    if n == |lines| then None
    else if ByteLength(lines[n].body) > MAX_BOOT_CONFIG_LINE_BYTES then
      Some(BootLineTooLong(n + 1, ByteLength(lines[n].body)))
    else LongLine(lines, n + 1)
  }

  /** select_hyperpixel_overlay as a function: the text it produces. */
  function Select(input: string, selection: DisplaySelection): Result<string, InstallError> {
    match SelectionLines(selection)
    case Err(e) => Err(e)
    case Ok(inserted) =>
      var updated := Edited(input, inserted);
      match LongLine(Split(updated), 0)
      case Some(e) => Err(e)
      case None => Ok(updated)
  }

  // ----- the editor itself

  method FindFallback(lines: seq<ConfigLine>) returns (ending: string)
    ensures ending == Fallback(lines)
  {
    var i := 0;
    assert lines[0..] == lines;
    while i < |lines|
      invariant i <= |lines|
      invariant Fallback(lines[i..]) == Fallback(lines)
    {
      assert lines[i..][1..] == lines[i + 1..];
      if lines[i].ending != "" {
        return lines[i].ending;
      }
      i := i + 1;
    }
    assert lines[i..] == [];
    return LF;
  }

  /** Inserting line by line at a moving position. */
  method InsertAll(original: seq<ConfigLine>, at: nat, inserted: seq<string>, ending: string, closed: bool)
    returns (lines: seq<ConfigLine>)
    requires at <= |original|
    ensures lines == original[..at] + Insertion(inserted, ending, closed) + original[at..]
  {
    lines := original;
    var offset := 0;
    ghost var block := Insertion(inserted, ending, closed);
    assert original == original[..at] + block[..0] + original[at..];
    while offset < |inserted|
      invariant offset <= |inserted|
      invariant lines == original[..at] + block[..offset] + original[at..]
    {
      var line := ConfigLine(inserted[offset], if closed || offset + 1 != |inserted| then ending else "");
      assert lines[..at + offset] == original[..at] + block[..offset] && lines[at + offset..] == original[at..];
      assert block[..offset + 1] == block[..offset] + [line];
      lines := lines[..at + offset] + [line] + lines[at + offset..];
      offset := offset + 1;
    }
    assert block[..offset] == block;
  }

  method Place(kept: seq<ConfigLine>, inserted: seq<string>, fallback: string, finalNewline: bool)
    returns (lines: seq<ConfigLine>)
    ensures lines == Assembled(PartsOf(kept, fallback), inserted, finalNewline)
  {
    hide Header;
    ghost var p := PartsOf(kept, fallback);
    match LastHeader(kept, |kept|) {
      case Some(last) =>
        lines := kept;
        var ending := if lines[last].ending == "" then fallback else lines[last].ending;
        if lines[last].ending == "" {
          lines := lines[last := lines[last].(ending := fallback)];
        }
        assert lines[..last + 1] == p.head && lines[last + 1..] == p.tail;
        lines := InsertAll(lines, last + 1, inserted, ending, last + 1 < |lines| || finalNewline);
      case None =>
        lines := kept;
        if lines != [] && lines[|lines| - 1].ending == "" {
          lines := lines[|lines| - 1 := lines[|lines| - 1].(ending := fallback)];
        }
        assert lines == CloseLast(kept, fallback);
        lines := lines + [ConfigLine(ALL_SECTION, fallback)];
        assert lines[..|lines|] == p.head && lines[|lines|..] == p.tail;
        lines := InsertAll(lines, |lines|, inserted, fallback, finalNewline);
    }
  }

  method ValidateBootConfig(text: string) returns (error: Option<InstallError>)
    ensures error == LongLine(Split(text), 0)
  {
    var lines := SplitLinesPreservingEndings(text);
    var index := 0;
    while index < |lines|
      invariant index <= |lines|
      invariant LongLine(lines, index) == LongLine(lines, 0)
    {
      var bytes := ByteLength(lines[index].body);
      if bytes > MAX_BOOT_CONFIG_LINE_BYTES {
        return Some(BootLineTooLong(index + 1, bytes));
      }
      index := index + 1;
    }
    return None;
  }

  method SelectHyperpixelOverlay(input: string, selection: DisplaySelection)
    returns (result: Result<string, InstallError>, changed: bool)
    ensures result == Select(input, selection)
    ensures changed <==> result.Ok? && result.value != input
  {
    hide Split, Keep, Fallback, PartsOf, Assembled, LongLine, SelectionLines;
    changed := false;
    match SelectionLines(selection) {
      case Err(e) => result := Err(e);
      case Ok(inserted) =>
        var original := SplitLinesPreservingEndings(input);
        var fallback := FindFallback(original);
        var lines := KeepUnowned(original);
        lines := Place(lines, inserted, fallback, input != "" && input[|input| - 1] == '\n');
        var updated := Join(lines);
        var error := ValidateBootConfig(updated);
        match error {
          case Some(e) => result := Err(e);
          case None =>
            result := Ok(updated);
            changed := updated != input;
        }
    }
  }
}
