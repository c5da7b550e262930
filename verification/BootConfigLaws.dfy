/**
 What the boot-configuration editor promises: its output is safe to boot from, reads back as it was written,
 and the last selection wins.
*/
module BootConfigLaws {
  import opened Prelude
  import opened ConfigText
  import opened DisplayNames
  import opened BootConfig

  // ----- how keeping behaves

  ghost predicate NoDeclaration(lines: seq<ConfigLine>) {
    forall i :: 0 <= i < |lines| ==> !Declares(lines[i])
  }

  ghost predicate AllTerminated(lines: seq<ConfigLine>) {
    forall i :: 0 <= i < |lines| ==> Terminated(lines[i])
  }

  lemma KindsExcludeOnLines(line: ConfigLine)
    ensures Declares(line) ==> !Parameter(line) && !Header(line)
    ensures Parameter(line) ==> !Header(line)
  {
    hide IsDeclaration, IsParameterLine, Trim;
    KindsExclude(Trim(line.body));
  }

  lemma NormalKeepsKind(line: ConfigLine)
    ensures Declares(Normal(line)) == Declares(line) && Parameter(Normal(line)) == Parameter(line)
    ensures Header(Normal(line)) == Header(line)
  {
    hide IsDeclaration, IsParameterLine, Trim, Normal;
    NormalKeepsTrim(line);
  }

  lemma {:induction false} KeepNormal(lines: seq<ConfigLine>, owning: bool)
    ensures Keep(NormalAll(lines), owning) == NormalAll(Keep(lines, owning))
  {
    hide Declares, Parameter, Normal;
    if lines != [] {
      NormalKeepsKind(lines[0]);
      assert lines == [lines[0]] + lines[1..];
      NormalCons(lines[0], lines[1..]);
      var owned := Declares(lines[0]) || (owning && Parameter(lines[0]));
      KeepNormal(lines[1..], owned);
      NormalCons(lines[0], Keep(lines[1..], false));
    }
  }

  lemma KeepStep(lines: seq<ConfigLine>, owning: bool)
    requires lines != []
    ensures var owned := Declares(lines[0]) || (owning && Parameter(lines[0]));
            && Keep(lines, owning) == (if owned then Keep(lines[1..], true) else [lines[0]] + Keep(lines[1..], false))
            && OwningAfter(lines, owning) == OwningAfter(lines[1..], owned)
  {
    hide Declares, Parameter;
  }

  lemma {:induction false} KeepAppend(a: seq<ConfigLine>, b: seq<ConfigLine>, owning: bool)
    ensures Keep(a + b, owning) == Keep(a, owning) + Keep(b, OwningAfter(a, owning))
  {
    hide Declares, Parameter;
    if a == [] {
      assert a + b == b && Keep(a, owning) == [] && OwningAfter(a, owning) == owning;
    } else {
      var owned := Declares(a[0]) || (owning && Parameter(a[0]));
      assert (a + b)[0] == a[0] && (a + b)[1..] == a[1..] + b;
      KeepAppend(a[1..], b, owned);
      KeepStep(a, owning);
      KeepStep(a + b, owning);
      hide *;
      Associate([a[0]], Keep(a[1..], false), Keep(b, OwningAfter(a, owning)));
    }
  }

  lemma {:induction false} KeepIsClean(lines: seq<ConfigLine>, owning: bool)
    ensures NoDeclaration(Keep(lines, owning))
  {
    hide Declares, Parameter;
    if lines != [] {
      KeepIsClean(lines[1..], Declares(lines[0]) || (owning && Parameter(lines[0])));
    }
  }

  /** What an owned block above takes away from lines without declarations: the leading parameters. */
  function DropParameters(lines: seq<ConfigLine>): (r: seq<ConfigLine>)
    ensures |r| <= |lines| && r == lines[|lines| - |r|..]
    ensures r == lines <==> lines == [] || !Parameter(lines[0])
  {
    if lines != [] && Parameter(lines[0]) then DropParameters(lines[1..]) else lines
  }

  lemma {:induction false} KeepAllOfClean(lines: seq<ConfigLine>)
    requires NoDeclaration(lines)
    ensures Keep(lines, false) == lines && OwningAfter(lines, false) == false
  {
    hide Declares, Parameter;
    if lines != [] {
      KeepAllOfClean(lines[1..]);
      assert [lines[0]] + lines[1..] == lines;
    }
  }

  lemma {:induction false} KeepOfClean(lines: seq<ConfigLine>)
    requires NoDeclaration(lines)
    ensures Keep(lines, false) == lines && Keep(lines, true) == DropParameters(lines)
    ensures OwningAfter(lines, false) == false
  {
    hide Declares, Parameter;
    KeepAllOfClean(lines);
    if lines != [] {
      KeepAllOfClean(lines[1..]);
      assert [lines[0]] + lines[1..] == lines;
      if Parameter(lines[0]) { KeepOfClean(lines[1..]); }
    }
  }

  lemma {:induction false} KeepOfParameters(lines: seq<ConfigLine>)
    requires forall i :: 0 <= i < |lines| ==> Parameter(lines[i])
    ensures Keep(lines, true) == [] && OwningAfter(lines, true)
  {
    hide Declares, Parameter;
    if lines != [] {
      KeepOfParameters(lines[1..]);
    }
  }

  lemma InsertedKinds(inserted: seq<string>, ending: string, closed: bool)
    requires ReadyLines(inserted)
    ensures var block := Insertion(inserted, ending, closed);
            |block| > 0 && Declares(block[0]) && forall i :: 1 <= i < |block| ==> Parameter(block[i])
  {
    ReadyLinesAreBlock(inserted);
    ReadyLinesAreWritable(inserted);
    hide IsDeclaration, IsParameterLine, Trim, Fields, ReadyLines, Writable;
    forall i | 0 <= i < |inserted| ensures Trim(inserted[i]) == inserted[i] { WritableFacts(inserted[i]); }
  }

  /** The editor owns everything it inserts. */
  lemma KeepOfInsertion(inserted: seq<string>, ending: string, closed: bool)
    requires ReadyLines(inserted)
    ensures Keep(Insertion(inserted, ending, closed), false) == []
    ensures OwningAfter(Insertion(inserted, ending, closed), false)
  {
    hide Declares, Parameter, ReadyLines, Insertion;
    InsertedKinds(inserted, ending, closed);
    var block := Insertion(inserted, ending, closed);
    KeepOfParameters(block[1..]);
  }

  lemma {:induction false} KeepWellFormed(lines: seq<ConfigLine>, owning: bool)
    requires WellFormed(lines)
    ensures WellFormed(Keep(lines, owning))
  {
    hide Declares, Parameter;
    if lines != [] {
      KeepWellFormed(lines[1..], Declares(lines[0]) || (owning && Parameter(lines[0])));
    }
  }

  // ----- the parts

  ghost predicate SoundHead(head: seq<ConfigLine>, ending: string) {
    && |head| > 0
    && WellFormed(head) && AllTerminated(head) && NoDeclaration(head)
    && Header(head[|head| - 1]) && head[|head| - 1].ending == ending
    && (ending == LF || ending == CRLF)
  }

  ghost predicate SoundTail(tail: seq<ConfigLine>) {
    && WellFormed(tail) && NoDeclaration(tail) && NormalAll(tail) == tail
    && forall i :: 0 <= i < |tail| ==> !Header(tail[i])
  }

  /** Everything the editor relies on about the parts it assembles. */
  ghost predicate Sound(p: Parts) {
    SoundHead(p.head, p.ending) && SoundTail(p.tail)
  }

  lemma {:induction false} FallbackIsEnding(lines: seq<ConfigLine>)
    requires WellFormed(lines)
    ensures Fallback(lines) == LF || Fallback(lines) == CRLF
  {
    if lines != [] && lines[0].ending == "" {
      FallbackIsEnding(lines[1..]);
    }
  }

  lemma CloseFacts(line: ConfigLine, ending: string)
    requires line.ending == "" || Terminated(line)
    requires ending == LF || ending == CRLF
    ensures Terminated(Close(line, ending)) && Close(line, ending).body == line.body
    ensures Declares(Close(line, ending)) == Declares(line) && Header(Close(line, ending)) == Header(line)
  {}

  lemma {:induction false} AppendTerminated(lines: seq<ConfigLine>, last: ConfigLine)
    requires WellFormed(lines) && AllTerminated(lines) && Terminated(last) && '\n' !in last.body
    ensures WellFormed(lines + [last]) && AllTerminated(lines + [last])
  {
    hide Terminated;
    if lines == [] {
      assert lines + [last] == [last];
      assert [last][1..] == [];
    } else {
      AppendTerminated(lines[1..], last);
      assert (lines + [last])[1..] == lines[1..] + [last];
    }
  }

  lemma {:induction false} EndingsOf(lines: seq<ConfigLine>, i: nat)
    requires WellFormed(lines) && i < |lines|
    ensures '\n' !in lines[i].body && (Terminated(lines[i]) || (i == |lines| - 1 && lines[i].ending == ""))
  {
    if i > 0 {
      EndingsOf(lines[1..], i - 1);
    }
  }

  lemma ClosedHeadIsSound(kept: seq<ConfigLine>, i: nat, fallback: string)
    requires WellFormed(kept) && NoDeclaration(kept) && i < |kept| && Header(kept[i])
    requires fallback == LF || fallback == CRLF
    ensures SoundHead(kept[..i] + [Close(kept[i], fallback)], Close(kept[i], fallback).ending)
  {
    hide Declares, Header, WellFormed, Terminated, Close;
    var header := Close(kept[i], fallback);
    EndingsOf(kept, i);
    CloseFacts(kept[i], fallback);
    WellFormedParts(kept, i);
    AppendTerminated(kept[..i], header);
    EndingIsOneOf(header);
  }

  lemma TailIsSound(kept: seq<ConfigLine>, i: nat)
    requires WellFormed(kept) && NoDeclaration(kept) && NormalAll(kept) == kept && i <= |kept|
    requires forall j :: i <= j < |kept| ==> !Header(kept[j])
    ensures SoundTail(kept[i..])
  {
    hide Declares, Header, WellFormed, Normal;
    WellFormedParts(kept, i);
    assert forall j :: 0 <= j < |kept| ==> Normal(kept[j]) == NormalAll(kept)[j] == kept[j];
  }

  lemma HeaderPartsAreSound(kept: seq<ConfigLine>, fallback: string)
    requires WellFormed(kept) && NoDeclaration(kept) && NormalAll(kept) == kept
    requires fallback == LF || fallback == CRLF
    requires LastHeader(kept, |kept|).Some?
    ensures Sound(PartsOf(kept, fallback))
  {
    hide Header, WellFormed, NoDeclaration, NormalAll, Close, SoundHead, SoundTail;
    var i := LastHeader(kept, |kept|).value;
    ClosedHeadIsSound(kept, i, fallback);
    TailIsSound(kept, i + 1);
  }

  lemma EndingIsOneOf(line: ConfigLine)
    requires Terminated(line)
    ensures line.ending == LF || line.ending == CRLF
  {}

  lemma TerminatedBy(body: string, ending: string)
    requires ending == LF || ending == CRLF
    ensures Terminated(ConfigLine(body, ending))
  {}

  lemma ClosedIsTerminated(kept: seq<ConfigLine>, fallback: string)
    requires WellFormed(kept) && NoDeclaration(kept)
    requires fallback == LF || fallback == CRLF
    ensures WellFormed(CloseLast(kept, fallback)) && AllTerminated(CloseLast(kept, fallback))
    ensures NoDeclaration(CloseLast(kept, fallback))
  {
    hide Declares, Header, WellFormed, Terminated, Close;
    if kept == [] {
      assert CloseLast(kept, fallback) == kept;
    } else {
      var n := |kept| - 1;
      EndingsOf(kept, n);
      CloseFacts(kept[n], fallback);
      WellFormedParts(kept, n);
      AppendTerminated(kept[..n], Close(kept[n], fallback));
    }
  }

  lemma SectionKind(ending: string)
    ensures Header(ConfigLine(ALL_SECTION, ending)) && !Declares(ConfigLine(ALL_SECTION, ending))
    ensures '\n' !in ALL_SECTION && Normal(ConfigLine(ALL_SECTION, ending)) == ConfigLine(ALL_SECTION, ending)
  {
    hide IsDeclaration, Trim;
    AllSectionLine();
    WritableFacts(ALL_SECTION);
    KindsExcludeOnLines(ConfigLine(ALL_SECTION, ending));
  }

  lemma AppendedPartsAreSound(kept: seq<ConfigLine>, fallback: string)
    requires WellFormed(kept) && NoDeclaration(kept)
    requires fallback == LF || fallback == CRLF
    requires LastHeader(kept, |kept|).None?
    ensures Sound(PartsOf(kept, fallback))
  {
    hide Declares, Header, WellFormed, Terminated, CloseLast;
    var header := ConfigLine(ALL_SECTION, fallback);
    ClosedIsTerminated(kept, fallback);
    SectionKind(fallback);
    TerminatedBy(ALL_SECTION, fallback);
    AppendTerminated(CloseLast(kept, fallback), header);
    EmptyIsWellFormed();
  }

  lemma EmptyIsWellFormed()
    ensures WellFormed([])
  {}

  lemma KeptFacts(input: string)
    ensures var kept := Keep(Split(input), false);
            WellFormed(kept) && NoDeclaration(kept) && NormalAll(kept) == kept
    ensures Fallback(Split(input)) == LF || Fallback(Split(input)) == CRLF
  {
    hide Split, Keep, WellFormed, NoDeclaration, NormalAll, Fallback;
    JoinOfSplit(input);
    KeepWellFormed(Split(input), false);
    KeepIsClean(Split(input), false);
    KeepNormal(Split(input), false);
    FallbackIsEnding(Split(input));
  }

  lemma PartsAreSound(input: string)
    ensures Sound(PartsOfText(input))
  {
    hide Split, Keep, WellFormed, NoDeclaration, NormalAll, Fallback, Sound, PartsOf;
    KeptFacts(input);
    var kept, fallback := Keep(Split(input), false), Fallback(Split(input));
    match LastHeader(kept, |kept|) {
      case Some(_) => HeaderPartsAreSound(kept, fallback);
      case None => AppendedPartsAreSound(kept, fallback);
    }
  }

  // ----- reading the output back

  lemma InsertedLineReadsBack(body: string, ending: string)
    requires Writable(body)
    ensures Normal(ConfigLine(body, ending)) == ConfigLine(body, ending)
  {
    WritableFacts(body);
    hide Trim, ByteLength, Writable;
  }

  /** The block is well formed when it is closed or stands last, and reads back as written. */
  lemma {:induction false} InsertionReadsBack(inserted: seq<string>, ending: string, closed: bool)
    requires forall i :: 0 <= i < |inserted| ==> Writable(inserted[i])
    requires ending == LF || ending == CRLF
    ensures NormalAll(Insertion(inserted, ending, closed)) == Insertion(inserted, ending, closed)
    ensures WellFormed(Insertion(inserted, ending, closed))
    ensures closed ==> AllTerminated(Insertion(inserted, ending, closed))
  {
    hide Trim, ByteLength, Normal;
    var block := Insertion(inserted, ending, closed);
    forall i | 0 <= i < |block| ensures Normal(block[i]) == block[i] {
      InsertedLineReadsBack(inserted[i], block[i].ending);
    }
    if inserted != [] {
      InsertionReadsBack(inserted[1..], ending, closed);
      assert block[1..] == Insertion(inserted[1..], ending, closed);
    }
  }

  lemma ReadyLinesAreWritable(inserted: seq<string>)
    requires ReadyLines(inserted)
    ensures forall i :: 0 <= i < |inserted| ==> Writable(inserted[i])
  {
    hide Writable, IsDeclaration, IsParameterLine, Fields, ReadyLines;
    ReadyLinesAreBlock(inserted);
  }

  function Block(p: Parts, inserted: seq<string>, finalNewline: bool): seq<ConfigLine> {
    Insertion(inserted, p.ending, p.tail != [] || finalNewline)
  }

  lemma AssembledIsWellFormed(p: Parts, inserted: seq<string>, finalNewline: bool)
    requires Sound(p) && ReadyLines(inserted)
    ensures WellFormed(Assembled(p, inserted, finalNewline))
  {
    hide Insertion, WellFormed, NoDeclaration, NormalAll, Header, Terminated, ReadyLines;
    var block := Block(p, inserted, finalNewline);
    ReadyLinesAreWritable(inserted);
    InsertionReadsBack(inserted, p.ending, p.tail != [] || finalNewline);
    if p.tail == [] {
      assert block + p.tail == block;
    } else {
      WellFormedAppend(block, p.tail);
    }
    WellFormedAppend(p.head, block + p.tail);
    assert p.head + (block + p.tail) == Assembled(p, inserted, finalNewline);
  }

  /** The output's lines are the head, the inserted lines exactly as selected, and the tail. */
  lemma OutputReadsBack(input: string, inserted: seq<string>)
    requires ReadyLines(inserted)
    ensures var p := PartsOfText(input);
            && Sound(p)
            && Split(Edited(input, inserted)) == NormalAll(p.head) + Block(p, inserted, EndsWithNewline(input)) + p.tail
  {
    hide Split, PartsOfText, ReadyLines, NormalAll, SoundHead, WellFormed, NoDeclaration, Header, Insertion,
         EndsWithNewline, Join;
    var p, fin := PartsOfText(input), EndsWithNewline(input);
    PartsAreSound(input);
    AssembledIsWellFormed(p, inserted, fin);
    SplitOfJoin(Assembled(p, inserted, fin));
    ReadyLinesAreWritable(inserted);
    InsertionReadsBack(inserted, p.ending, p.tail != [] || fin) by { HeadEnding(p); }
    var block := Block(p, inserted, fin);
    NormalAppend(p.head, block);
    NormalAppend(p.head + block, p.tail);
  }

  lemma HeadEnding(p: Parts)
    requires Sound(p)
    ensures p.ending == LF || p.ending == CRLF
  {}

  /** Editing the output again starts from the same head and what is left of the tail. */
  lemma KeptOfOutput(input: string, inserted: seq<string>)
    requires ReadyLines(inserted)
    ensures var p := PartsOfText(input);
            Keep(Split(Edited(input, inserted)), false) == NormalAll(p.head) + DropParameters(p.tail)
  {
    hide Split, Edited, PartsOfText, ReadyLines, WellFormed, Insertion, Header, EndsWithNewline, Declares, Terminated,
         Keep, OwningAfter, DropParameters, NormalAll;
    var p, fin := PartsOfText(input), EndsWithNewline(input);
    OutputReadsBack(input, inserted);
    var head, block := NormalAll(p.head), Block(p, inserted, fin);
    NormalHeadIsClean(p.head);
    KeepOfClean(head);
    KeepOfInsertion(inserted, p.ending, p.tail != [] || fin);
    KeepOfClean(p.tail);
    KeepAppend(head, block, false);
    OwningAppend(head, block, false);
    KeepAppend(head + block, p.tail, false);
  }

  lemma NormalHeadIsClean(head: seq<ConfigLine>)
    requires NoDeclaration(head)
    ensures NoDeclaration(NormalAll(head))
  {
    hide Declares, Normal;
    forall i | 0 <= i < |head| ensures !Declares(NormalAll(head)[i]) {
      NormalKeepsKind(head[i]);
    }
  }

  lemma {:induction false} OwningAppend(a: seq<ConfigLine>, b: seq<ConfigLine>, owning: bool)
    ensures OwningAfter(a + b, owning) == OwningAfter(b, OwningAfter(a, owning))
  {
    hide Declares, Parameter;
    if a == [] {
      assert a + b == b;
    } else {
      OwningAppend(a[1..], b, Declares(a[0]) || (owning && Parameter(a[0])));
      assert (a + b)[0] == a[0] && (a + b)[1..] == a[1..] + b;
    }
  }

  lemma LastHeaderAt(lines: seq<ConfigLine>, n: nat, i: nat)
    requires i < n <= |lines| && Header(lines[i])
    requires forall j :: i < j < n ==> !Header(lines[j])
    ensures LastHeader(lines, n) == Some(i)
  {
    hide Header;
  }

  lemma LastHeaderBefore(before: seq<ConfigLine>, after: seq<ConfigLine>)
    requires |before| > 0 && Header(before[|before| - 1])
    requires forall i :: 0 <= i < |after| ==> !Header(after[i])
    ensures LastHeader(before + after, |before + after|) == Some(|before| - 1)
  {
    hide Header;
    LastHeaderAt(before + after, |before + after|, |before| - 1);
  }

  lemma SplitAt(before: seq<ConfigLine>, after: seq<ConfigLine>)
    requires |before| > 0
    ensures var lines, i := before + after, |before| - 1;
            lines[i] == before[i] && lines[..i] + [lines[i]] == before && lines[i + 1..] == after
  {}

  /** The parts of the output. */
  lemma PartsOfOutput(input: string, inserted: seq<string>)
    requires ReadyLines(inserted)
    ensures var p, q := PartsOfText(input), PartsOfText(Edited(input, inserted));
            && Sound(p)
            && q.head == NormalAll(p.head) && q.tail == DropParameters(p.tail)
            && q.ending == Normal(p.head[|p.head| - 1]).ending
  {
    hide Split, Edited, ReadyLines, WellFormed, Declares, Header, Keep, DropParameters, NoDeclaration, PartsOfText,
         Normal, LastHeader, Terminated;
    PartsAreSound(input);
    var p := PartsOfText(input);
    var output := Edited(input, inserted);
    var head, tail, i := NormalAll(p.head), DropParameters(p.tail), |p.head| - 1;
    KeptOfOutput(input, inserted);
    NormalKeepsKind(p.head[i]);
    LastHeaderBefore(head, tail);
    NormalIsTerminated(p.head[i]);
    SplitAt(head, tail);
    PartsOfHeader(output, i);
  }

  lemma PartsOfHeader(text: string, i: nat)
    requires LastHeader(Keep(Split(text), false), |Keep(Split(text), false)|) == Some(i)
    requires Terminated(Keep(Split(text), false)[i])
    ensures var kept := Keep(Split(text), false);
            PartsOfText(text) == Parts(kept[..i] + [kept[i]], kept[i].ending, kept[i + 1..])
  {
    hide Split, Keep, Header;
  }

  lemma NormalIsTerminated(line: ConfigLine)
    requires Terminated(line)
    ensures Terminated(Normal(line))
  {}

  // ----- the last selection wins

  function KeptLines(input: string): seq<ConfigLine> {
    Keep(Split(input), false)
  }

  /** The first kept line after the last all-sections header is a supported parameter. */
  predicate ParameterFollowsHeader(input: string) {
    var p := PartsOfText(input);
    p.tail != [] && Parameter(p.tail[0])
  }

  /** The last all-sections header is the unended last line, ends in a bare carriage return, and is about to be
      given a line feed. */
  predicate BareReturnEndsHeader(input: string) {
    match LastHeader(KeptLines(input), |KeptLines(input)|)
    case None => false
    case Some(i) =>
      var header := KeptLines(input)[i];
      && header.ending == "" && header.body != "" && header.body[|header.body| - 1] == '\r'
      && Fallback(Split(input)) == LF
  }

  lemma {:induction false} JoinEndsLike(lines: seq<ConfigLine>)
    requires |lines| > 0 && Text(lines[|lines| - 1]) != ""
    ensures var last := Text(lines[|lines| - 1]);
            Join(lines) != "" && Join(lines)[|Join(lines)| - 1] == last[|last| - 1]
  {
    hide Text;
    if |lines| > 1 {
      JoinEndsLike(lines[1..]);
    }
  }

  lemma {:induction false} UnendedLeavesNoNewline(lines: seq<ConfigLine>, i: nat)
    requires WellFormed(lines) && i < |lines| && lines[i].ending == ""
    ensures !EndsWithNewline(Join(lines))
  {
    hide Join;
    EndingsOf(lines, i);
    UnendedHasBody(lines, i);
    JoinEndsLike(lines);
  }

  lemma {:induction false} UnendedHasBody(lines: seq<ConfigLine>, i: nat)
    requires WellFormed(lines) && i < |lines| && lines[i].ending == ""
    ensures lines[i].body != ""
  {
    if i > 0 {
      UnendedHasBody(lines[1..], i - 1);
    }
  }

  lemma {:induction false} KeptComesFrom(lines: seq<ConfigLine>, owning: bool, i: nat) returns (k: nat)
    requires i < |Keep(lines, owning)|
    ensures k < |lines| && lines[k] == Keep(lines, owning)[i]
  {
    hide Declares, Parameter;
    if Declares(lines[0]) || (owning && Parameter(lines[0])) {
      k := KeptComesFrom(lines[1..], true, i);
      k := k + 1;
    } else if i == 0 {
      k := 0;
    } else {
      k := KeptComesFrom(lines[1..], false, i - 1);
      k := k + 1;
    }
  }

  lemma UnendedKeptLine(input: string, i: nat)
    requires i < |KeptLines(input)| && KeptLines(input)[i].ending == ""
    ensures !EndsWithNewline(input)
  {
    hide Split, Keep, WellFormed, EndsWithNewline;
    var k := KeptComesFrom(Split(input), false, i);
    JoinOfSplit(input);
    UnendedLeavesNoNewline(Split(input), k);
  }

  lemma NormalShift(line: ConfigLine)
    requires Terminated(line)
    ensures var shifted := line.ending == LF && line.body != "" && line.body[|line.body| - 1] == '\r';
            && (Normal(line) != line <==> shifted)
            && Normal(line).ending == (if shifted then CRLF else line.ending)
  {}

  /** The header reads back with another ending in exactly one case. */
  lemma HeaderReadsBack(input: string)
    ensures var p, shift := PartsOfText(input), BareReturnEndsHeader(input);
            && Sound(p)
            && Normal(p.head[|p.head| - 1]).ending == (if shift then CRLF else p.ending)
            && (shift ==> p.tail == [] && p.ending == LF && !EndsWithNewline(input))
  {
    hide Split, Keep, Fallback, Header, WellFormed, NoDeclaration, Normal, Sound, EndsWithNewline;
    PartsAreSound(input);
    KeptFacts(input);
    var kept, fallback, p := KeptLines(input), Fallback(Split(input)), PartsOfText(input);
    LastOfSoundHead(p);
    NormalShift(p.head[|p.head| - 1]);
    match LastHeader(kept, |kept|) {
      case None => SectionKind(fallback);
      case Some(i) =>
        EndingsOf(kept, i);
        assert Normal(kept[i]) == NormalAll(kept)[i] == kept[i];
        if kept[i].ending == "" {
          UnendedKeptLine(input, i);
        } else {
          NormalShift(kept[i]);
        }
    }
  }

  lemma LastOfSoundHead(p: Parts)
    requires Sound(p)
    ensures Terminated(p.head[|p.head| - 1])
  {}

  lemma {:induction false} InsertionLengths(inserted: seq<string>, closed: bool)
    requires |inserted| > 0
    ensures |Join(Insertion(inserted, CRLF, closed))|
            == |Join(Insertion(inserted, LF, closed))| + |inserted| - (if closed then 0 else 1)
  {
    var a, b := Insertion(inserted, CRLF, closed), Insertion(inserted, LF, closed);
    assert |Text(a[0])| == |inserted[0]| + |a[0].ending| && |Text(b[0])| == |inserted[0]| + |b[0].ending|;
    if |inserted| == 1 {
      assert a[1..] == [] && b[1..] == [];
    } else {
      InsertionLengths(inserted[1..], closed);
      assert a[1..] == Insertion(inserted[1..], CRLF, closed) && b[1..] == Insertion(inserted[1..], LF, closed);
    }
  }

  lemma {:induction false} OpenIsNoLonger(inserted: seq<string>, ending: string, closed: bool)
    ensures |Join(Insertion(inserted, ending, closed))| <= |Join(Insertion(inserted, ending, true))|
  {
    var a, b := Insertion(inserted, ending, closed), Insertion(inserted, ending, true);
    if inserted != [] {
      OpenIsNoLonger(inserted[1..], ending, closed);
      assert a[1..] == Insertion(inserted[1..], ending, closed) && b[1..] == Insertion(inserted[1..], ending, true);
      assert |Text(a[0])| <= |Text(b[0])|;
    }
  }

  /** Without a tail the final newline, or its absence, carries over. */
  lemma FinalNewlineCarriesOver(input: string, inserted: seq<string>)
    requires ReadyLines(inserted) && PartsOfText(input).tail == []
    ensures var output := Edited(input, inserted);
            && EndsWithNewline(output) == EndsWithNewline(input)
            && output != "" && (output[|output| - 1] == '\n' <==> input != "" && input[|input| - 1] == '\n')
  {
    hide PartsOfText, Join, Trim, ByteLength, ReadyLines, WellFormed, NoDeclaration, NormalAll, Header, Writable;
    var p, fin := PartsOfText(input), EndsWithNewline(input);
    PartsAreSound(input);
    HeadEnding(p);
    SomeLines(inserted);
    ReadyLinesAreWritable(inserted);
    var lines := Assembled(p, inserted, fin);
    var n := |inserted| - 1;
    WritableFacts(inserted[n]);
    assert lines == p.head + Block(p, inserted, fin) + [];
    assert lines[|lines| - 1] == Block(p, inserted, fin)[n];
    assert inserted[n][|inserted[n]| - 1] in inserted[n];
    JoinEndsLike(lines);
  }

  lemma JoinAssembled(p: Parts, inserted: seq<string>, finalNewline: bool)
    ensures Join(Assembled(p, inserted, finalNewline))
            == Join(p.head) + Join(Block(p, inserted, finalNewline)) + Join(p.tail)
  {
    hide Join, Insertion;
    var block := Block(p, inserted, finalNewline);
    JoinAppend(p.head + block, p.tail);
    JoinAppend(p.head, block);
  }

  lemma {:induction false} DroppingShortens(lines: seq<ConfigLine>)
    requires WellFormed(lines)
    ensures |Join(DropParameters(lines))| <= |Join(lines)|
    ensures lines != [] && Parameter(lines[0]) ==> |Join(DropParameters(lines))| < |Join(lines)|
  {
    hide Parameter;
    if lines != [] && Parameter(lines[0]) {
      DroppingShortens(lines[1..]);
      assert |Text(lines[0])| > 0;
    }
  }

  /** What the second of two edits writes, beside what it would have written alone. */
  lemma BothOutputs(input: string, first: seq<string>, second: seq<string>)
    requires ReadyLines(first) && ReadyLines(second)
    ensures var p, q := PartsOfText(input), PartsOfText(Edited(input, first));
            && Edited(input, second) == Join(p.head) + Join(Block(p, second, EndsWithNewline(input))) + Join(p.tail)
            && Edited(Edited(input, first), second)
            == Join(p.head) + Join(Block(q, second, EndsWithNewline(Edited(input, first))))
                + Join(DropParameters(p.tail))
  {
    hide PartsOfText, Join, Insertion, Sound, EndsWithNewline, Assembled, DropParameters, Normal, Block;
    var p, output := PartsOfText(input), Edited(input, first);
    PartsOfOutput(input, first);
    JoinNormal(p.head);
    JoinAssembled(p, second, EndsWithNewline(input));
    JoinAssembled(PartsOfText(output), second, EndsWithNewline(output));
  }

  lemma ParameterBelowIsLost(input: string, first: seq<string>, second: seq<string>)
    requires ReadyLines(first) && ReadyLines(second)
    ensures ParameterFollowsHeader(input) ==> |Edited(Edited(input, first), second)| < |Edited(input, second)|
  {
    hide PartsOfText, Join, Insertion, Edited, EndsWithNewline, ReadyLines, BareReturnEndsHeader, Parameter, Normal,
         SoundHead, NoDeclaration, NormalAll, WellFormed, DropParameters, Header;
    var p, output := PartsOfText(input), Edited(input, first);
    var q := PartsOfText(output);
    BothOutputs(input, first, second);
    PartsOfOutput(input, first);
    HeaderReadsBack(input);
    DroppingShortens(p.tail);
    OpenIsNoLonger(second, p.ending, q.tail != [] || EndsWithNewline(output));
  }

  lemma CarriageReturnSpreads(input: string, first: seq<string>, second: seq<string>)
    requires ReadyLines(first) && ReadyLines(second) && BareReturnEndsHeader(input)
    ensures |Edited(Edited(input, first), second)| == |Edited(input, second)| + |second| - 1
    ensures |second| == 1 ==> Edited(Edited(input, first), second) == Edited(input, second)
  {
    hide PartsOfText, Join, Insertion, Edited, EndsWithNewline, ReadyLines, BareReturnEndsHeader, Parameter, Normal,
         SoundHead, SoundTail, Header;
    var p, output := PartsOfText(input), Edited(input, first);
    BothOutputs(input, first, second);
    PartsOfOutput(input, first);
    HeaderReadsBack(input);
    FinalNewlineCarriesOver(input, first);
    SomeLines(second);
    InsertionLengths(second, false);
    OneLineHasNoEnding(second);
  }

  lemma OtherwiseSame(input: string, first: seq<string>, second: seq<string>)
    requires ReadyLines(first) && ReadyLines(second)
    requires !ParameterFollowsHeader(input) && !BareReturnEndsHeader(input)
    ensures Edited(Edited(input, first), second) == Edited(input, second)
  {
    hide PartsOfText, Join, Insertion, Edited, EndsWithNewline, ReadyLines, BareReturnEndsHeader, Parameter, Normal,
         SoundHead, SoundTail, Header;
    var p, output := PartsOfText(input), Edited(input, first);
    BothOutputs(input, first, second);
    PartsOfOutput(input, first);
    HeaderReadsBack(input);
    if p.tail == [] { FinalNewlineCarriesOver(input, first); }
  }

  /** Selecting twice is selecting once, unless a parameter line of the user's stands right below the header,
      or the header is an unended last line with a bare carriage return and several lines follow it. */
  lemma LastEditWins(input: string, first: seq<string>, second: seq<string>)
    requires ReadyLines(first) && ReadyLines(second)
    ensures Edited(Edited(input, first), second) == Edited(input, second)
       <==> !ParameterFollowsHeader(input) && (BareReturnEndsHeader(input) ==> |second| == 1)
  {
    hide Edited, ReadyLines, BareReturnEndsHeader, ParameterFollowsHeader;
    if ParameterFollowsHeader(input) {
      ParameterBelowIsLost(input, first, second);
    } else if BareReturnEndsHeader(input) {
      CarriageReturnSpreads(input, first, second);
      SomeLines(second);
    } else {
      OtherwiseSame(input, first, second);
    }
  }

  lemma SomeLines(inserted: seq<string>)
    requires ReadyLines(inserted)
    ensures |inserted| > 0
  {
    hide Writable, IsDeclaration, Fields, ReadyLines;
    ReadyLinesAreBlock(inserted);
  }

  lemma OneLineHasNoEnding(inserted: seq<string>)
    ensures |inserted| == 1 ==> Insertion(inserted, CRLF, false) == Insertion(inserted, LF, false)
  {}

  // ----- the output is safe to boot from

  /** No other line names a display overlay, with or without parameters after a comma. */
  ghost predicate OnlyDeclarationAt(lines: seq<ConfigLine>, at: nat) {
    forall i, name, rest :: 0 <= i < |lines| && i != at ==> !Names(Trim(lines[i].body), name, rest)
  }

  lemma OnlyOneDeclares(lines: seq<ConfigLine>, at: nat)
    requires forall i :: 0 <= i < |lines| && i != at ==> !Declares(lines[i])
    ensures OnlyDeclarationAt(lines, at)
  {
    hide Names, IsDeclaration, Trim;
    forall i, name, rest | 0 <= i < |lines| && i != at ensures !Names(Trim(lines[i].body), name, rest) {
      if Names(Trim(lines[i].body), name, rest) {
        IsDeclarationOf(Trim(lines[i].body), name, rest);
      }
    }
  }

  lemma OthersDeclareNothing(input: string, inserted: seq<string>)
    requires ReadyLines(inserted)
    ensures var lines, at := Split(Edited(input, inserted)), |PartsOfText(input).head|;
            forall i :: 0 <= i < |lines| && i != at ==> !Declares(lines[i])
  {
    hide Split, Edited, PartsOfText, WellFormed, Insertion, Header, EndsWithNewline, Declares, Parameter, Terminated,
         NormalAll, Trim, ReadyLines;
    var p, fin := PartsOfText(input), EndsWithNewline(input);
    var head, block, lines := NormalAll(p.head), Block(p, inserted, fin), Split(Edited(input, inserted));
    OutputReadsBack(input, inserted);
    NormalHeadIsClean(p.head);
    InsertedKinds(inserted, p.ending, p.tail != [] || fin);
    forall i | 0 <= i < |lines| && i != |p.head| ensures !Declares(lines[i]) {
      if |head| < i < |head| + |block| {
        KindsExcludeOnLines(block[i - |head|]);
      }
    }
  }

  /** How the preflight reads a text: its declarations, trimmed, in order. */
  function Declarations(lines: seq<ConfigLine>): seq<string> {
    if lines == [] then []
    else if Declares(lines[0]) then [Trim(lines[0].body)] + Declarations(lines[1..])
    else Declarations(lines[1..])
  }

  function PreflightOf(declarations: seq<string>): Option<InstallError> {
    if |declarations| > 1 then Some(AmbiguousDisplay(|declarations|))
    else if declarations == [] then None
    else if !(OVERLAY_KEY <= declarations[0]) then Some(InvalidOverlayName(declarations[0]))
    else
      var fields := Fields(declarations[0][|OVERLAY_KEY|..]);
      if fields[0] != STOCK_OVERLAY && !Versioned(fields[0]) then Some(InvalidOverlayName(fields[0]))
      else ParameterError(fields[1..], 0)
  }

  /** validate_display_preflight */
  function DisplayPreflight(source: string): Option<InstallError> {
    PreflightOf(Declarations(Split(source)))
  }

  /** An overlay and, after commas, supported parameters without repetition. */
  ghost predicate PlainDeclaration(declaration: string, name: string, parameters: seq<string>) {
    && Overlay(name)
    && (forall i :: 0 <= i < |parameters| ==> Supported(parameters[i]) && parameters[i] !in parameters[..i])
    && declaration == OVERLAY_KEY + Joined([name] + parameters)
  }

  lemma FieldsOfPlain(declaration: string, name: string, parameters: seq<string>)
    requires PlainDeclaration(declaration, name, parameters)
    ensures OVERLAY_KEY <= declaration && Fields(declaration[|OVERLAY_KEY|..]) == [name] + parameters
  {
    hide Supported, Fields, Joined;
    OverlayIsPlain(name);
    var fields := [name] + parameters;
    forall i | 0 <= i < |fields| ensures ',' !in fields[i] {
      if i > 0 { SupportedIsPlain(parameters[i - 1]); }
    }
    FieldsOfJoined(fields);
    AfterKey(OVERLAY_KEY, Joined(fields));
  }

  /** The preflight accepts a text with no display, and one with a single display all of whose parameters are
      supported and distinct; and nothing else. */
  lemma PreflightExactly(source: string)
    ensures var declarations := Declarations(Split(source));
            DisplayPreflight(source) == None <==>
              || declarations == []
              || (&& |declarations| == 1
                  && exists name, parameters :: PlainDeclaration(declarations[0], name, parameters))
  {
    hide Split, Supported, Fields, Joined, Declares;
    var declarations := Declarations(Split(source));
    if |declarations| == 1 {
      var d := declarations[0];
      if OVERLAY_KEY <= d && PreflightOf(declarations) == None {
        var fields := Fields(d[|OVERLAY_KEY|..]);
        FieldsJoinBack(d[|OVERLAY_KEY|..]);
        KeyAndValue(OVERLAY_KEY, d);
        assert fields == [fields[0]] + fields[1..];
        assert PlainDeclaration(d, fields[0], fields[1..]);
      }
      if name, parameters :| PlainDeclaration(d, name, parameters) {
        FieldsOfPlain(d, name, parameters);
        assert ([name] + parameters)[1..] == parameters;
      }
    }
  }

  lemma DeclarationsStep(lines: seq<ConfigLine>)
    requires lines != []
    ensures Declarations(lines)
         == (if Declares(lines[0]) then [Trim(lines[0].body)] else []) + Declarations(lines[1..])
  {
    hide Declares, Trim;
  }

  lemma {:induction false} DeclarationsAppend(a: seq<ConfigLine>, b: seq<ConfigLine>)
    ensures Declarations(a + b) == Declarations(a) + Declarations(b)
  {
    if a == [] {
      assert a + b == b && Declarations(a) == [];
    } else {
      assert (a + b)[0] == a[0] && (a + b)[1..] == a[1..] + b;
      DeclarationsAppend(a[1..], b);
      DeclarationsStep(a);
      DeclarationsStep(a + b);
      hide *;
      Associate(if Declares(a[0]) then [Trim(a[0].body)] else [], Declarations(a[1..]), Declarations(b));
    }
  }

  lemma {:induction false} CleanHasNoDeclarations(lines: seq<ConfigLine>)
    requires NoDeclaration(lines)
    ensures Declarations(lines) == []
  {
    hide Declares, Trim;
    if lines != [] {
      CleanHasNoDeclarations(lines[1..]);
    }
  }

  lemma BlockDeclaresOnce(inserted: seq<string>, ending: string, closed: bool)
    requires ReadyLines(inserted)
    ensures Declarations(Insertion(inserted, ending, closed)) == [inserted[0]]
  {
    var block := Insertion(inserted, ending, closed);
    InsertedKinds(inserted, ending, closed);
    FirstLineIsTrimmed(inserted);
    hide Declares, Parameter, Trim, ReadyLines, Insertion;
    forall i | 0 <= i < |block[1..]| ensures !Declares(block[1..][i]) {
      KindsExcludeOnLines(block[1..][i]);
    }
    CleanHasNoDeclarations(block[1..]);
  }

  lemma FirstLineIsTrimmed(inserted: seq<string>)
    requires ReadyLines(inserted)
    ensures |inserted| > 0 && Trim(inserted[0]) == inserted[0]
  {
    ReadyLinesAreWritable(inserted);
    SomeLines(inserted);
    WritableFacts(inserted[0]);
  }

  /** The only declaration in the output is the one inserted. */
  lemma OutputDeclaresOnce(input: string, inserted: seq<string>)
    requires ReadyLines(inserted)
    ensures Declarations(Split(Edited(input, inserted))) == [inserted[0]]
  {
    hide Split, Edited, PartsOfText, WellFormed, Insertion, Header, EndsWithNewline, Declares, Terminated, NormalAll,
         Trim, ReadyLines, NoDeclaration;
    var p, fin := PartsOfText(input), EndsWithNewline(input);
    var block := Block(p, inserted, fin);
    OutputReadsBack(input, inserted);
    NormalHeadIsClean(p.head);
    CleanHasNoDeclarations(NormalAll(p.head));
    CleanHasNoDeclarations(p.tail);
    BlockDeclaresOnce(inserted, p.ending, p.tail != [] || fin);
    DeclarationsAppend(NormalAll(p.head), block);
    DeclarationsAppend(NormalAll(p.head) + block, p.tail);
  }

  lemma FirstLinePassesPreflight(inserted: seq<string>)
    requires ReadyLines(inserted)
    ensures |inserted| > 0 && PreflightOf([inserted[0]]) == None
  {
    ReadyLinesAreBlock(inserted);
    hide ReadyLines;
    PlainIsOneField(OVERLAY_KEY, inserted[0]);
    hide Versioned, IsParameterLine, Fields, PlainText;
    assert [inserted[0][|OVERLAY_KEY|..]][1..] == [];
  }

  /** And the preflight accepts it. */
  lemma OutputPassesPreflight(input: string, inserted: seq<string>)
    requires ReadyLines(inserted)
    ensures DisplayPreflight(Edited(input, inserted)) == None
  {
    hide Split, Edited, Declarations, PreflightOf, ReadyLines;
    OutputDeclaresOnce(input, inserted);
    FirstLinePassesPreflight(inserted);
  }

  lemma NoHeaderInserted(inserted: seq<string>, ending: string, closed: bool)
    requires ReadyLines(inserted)
    ensures var block := Insertion(inserted, ending, closed);
            forall i :: 0 <= i < |block| ==> !Header(block[i])
  {
    hide Header, Declares, Parameter, ReadyLines, Insertion;
    InsertedKinds(inserted, ending, closed);
    var block := Insertion(inserted, ending, closed);
    forall i | 0 <= i < |block| ensures !Header(block[i]) {
      KindsExcludeOnLines(block[i]);
    }
  }

  /** The inserted lines stand right below the last all-sections header of the output. */
  lemma InsertedBelowLastHeader(input: string, inserted: seq<string>)
    requires ReadyLines(inserted)
    ensures var lines, at := Split(Edited(input, inserted)), |PartsOfText(input).head|;
            && LastHeader(lines, |lines|) == Some(at - 1)
            && at + |inserted| <= |lines|
            && forall i :: 0 <= i < |inserted| ==> lines[at + i].body == inserted[i]
  {
    hide Split, Edited, PartsOfText, WellFormed, Insertion, Header, EndsWithNewline, Terminated, LastHeader,
         ReadyLines, NoDeclaration, Normal;
    var p, fin := PartsOfText(input), EndsWithNewline(input);
    var head, block, lines := NormalAll(p.head), Block(p, inserted, fin), Split(Edited(input, inserted));
    OutputReadsBack(input, inserted);
    NormalKeepsKind(p.head[|head| - 1]);
    NoHeaderInserted(inserted, p.ending, p.tail != [] || fin);
    LastHeaderBefore(head, block + p.tail);
    assert lines == head + (block + p.tail);
  }

  /** The parts hold the kept lines in order, and a header. */
  lemma PartsHoldKept(kept: seq<ConfigLine>, fallback: string)
    ensures var p := PartsOf(kept, fallback);
            var rest := p.head + p.tail;
            && |kept| <= |rest| <= |kept| + 1
            && (forall i :: 0 <= i < |kept| ==> rest[i] == kept[i] || rest[i] == Close(kept[i], fallback))
            && (|rest| == |kept| <==> exists i :: 0 <= i < |kept| && Header(kept[i]))
            && (|rest| > |kept| ==> rest[|kept|] == ConfigLine(ALL_SECTION, fallback))
  {
    hide Header, Close;
  }

  /** Nothing of the user's is lost: without the inserted block, the output's lines are the unowned lines of the
      input in order, at most one of them closed with an ending, and a header if there was none. */
  lemma UnownedLinesSurvive(input: string, inserted: seq<string>)
    requires ReadyLines(inserted)
    ensures var kept, fallback := Unowned(Split(input), |Split(input)|), Fallback(Split(input));
            var lines, at := Split(Edited(input, inserted)), |PartsOfText(input).head|;
            && at + |inserted| <= |lines|
            && var rest := lines[..at] + lines[at + |inserted|..];
               && |kept| <= |rest| <= |kept| + 1
               && (forall i :: 0 <= i < |kept| ==>
                                 Text(rest[i]) == Text(kept[i]) || Text(rest[i]) == Text(Close(kept[i], fallback)))
               && (|rest| == |kept| <==> exists i :: 0 <= i < |kept| && Header(kept[i]))
               && (|rest| > |kept| ==> rest[|kept|] == ConfigLine(ALL_SECTION, fallback))
  {
    hide Split, Edited, Insertion, Header, EndsWithNewline, Text, Close, Keep, PartsOf,
         ReadyLines, Normal, Fallback, Unowned, Sound;
    KeptAreTheUnowned(Split(input));
    var p := PartsOfText(input);
    var kept, fallback := KeptLines(input), Fallback(Split(input));
    OutputReadsBack(input, inserted);
    PartsHoldKept(kept, fallback);
    var lines, at := Split(Edited(input, inserted)), |p.head|;
    assert lines[..at] + lines[at + |inserted|..] == NormalAll(p.head) + p.tail;
    forall i | 0 <= i < |p.head| ensures Text(Normal(p.head[i])) == Text(p.head[i]) { NormalKeepsText(p.head[i]); }
    if at > |kept| { SectionKind(fallback); }
  }

  lemma NormalKeepsText(line: ConfigLine)
    ensures Text(Normal(line)) == Text(line)
  {}

  ghost predicate AllShort(lines: seq<ConfigLine>) {
    forall i :: 0 <= i < |lines| ==> ByteLength(lines[i].body) <= MAX_BOOT_CONFIG_LINE_BYTES
  }

  lemma AllShortAppend(a: seq<ConfigLine>, b: seq<ConfigLine>)
    ensures AllShort(a + b) <==> AllShort(a) && AllShort(b)
  {
    hide ByteLength;
    assert forall i :: 0 <= i < |a| ==> a[i] == (a + b)[i];
    assert forall i :: 0 <= i < |b| ==> b[i] == (a + b)[|a| + i];
  }

  lemma InsertionIsShort(inserted: seq<string>, ending: string, closed: bool)
    requires ReadyLines(inserted)
    ensures AllShort(Insertion(inserted, ending, closed))
  {
    ReadyLinesAreWritable(inserted);
    var block := Insertion(inserted, ending, closed);
    hide ByteLength, Trim, ReadyLines, Writable;
    forall i | 0 <= i < |block| ensures ByteLength(block[i].body) <= MAX_BOOT_CONFIG_LINE_BYTES {
      WritableFacts(inserted[i]);
    }
  }

  /** Only the user's own lines can be too long, so the limit never depends on the selection. */
  lemma LimitIgnoresSelection(input: string, inserted: seq<string>)
    requires ReadyLines(inserted)
    ensures var p := PartsOfText(input);
            AllShort(Split(Edited(input, inserted))) <==> AllShort(NormalAll(p.head)) && AllShort(p.tail)
  {
    hide Split, Edited, PartsOfText, EndsWithNewline, NormalAll, Insertion, AllShort, Sound, ReadyLines;
    var p := PartsOfText(input);
    OutputReadsBack(input, inserted);
    var head, block := NormalAll(p.head), Block(p, inserted, EndsWithNewline(input));
    InsertionIsShort(inserted, p.ending, p.tail != [] || EndsWithNewline(input));
    AllShortAppend(head, block);
    AllShortAppend(head + block, p.tail);
  }

  /** The limit is met, or not, by the second edit as by the edit alone. */
  lemma SecondEditMeetsLimit(input: string, first: seq<string>, second: seq<string>)
    requires ReadyLines(first) && ReadyLines(second) && AllShort(Split(Edited(input, first)))
    ensures AllShort(Split(Edited(input, second)))
  {
    hide Split, Edited, PartsOfText, AllShort, ReadyLines, NormalAll;
    LimitIgnoresSelection(input, first);
    LimitIgnoresSelection(input, second);
  }

  /** Every line of what the edit gives is short enough for the boot loader. */
  ghost predicate Fits(input: string, inserted: seq<string>) {
    forall text :: Edited(input, inserted) == text ==> AllShort(Split(text))
  }

  /** The editor accepts the selection: its lines can be written, and with them every line fits. */
  ghost predicate Accepted(input: string, selection: DisplaySelection) {
    exists inserted :: SelectionLines(selection) == Ok(inserted) && Fits(input, inserted)
  }

  lemma AcceptedExactly(input: string, selection: DisplaySelection)
    ensures Accepted(input, selection) <==> Select(input, selection).Ok?
  {
    hide Edited, SelectionLines, Split, ByteLength;
    if SelectionLines(selection).Ok? {
      var inserted := SelectionLines(selection).value;
      assert Fits(input, inserted) <==> AllShort(Split(Edited(input, inserted)));
    }
  }

  /** An accepted selection is safe: one declaration, accepted by the preflight, on lines the boot loader can
      read, and it differs from every other accepted selection only by what it inserts. */
  lemma SelectionIsSafe(input: string, selection: DisplaySelection)
    requires Accepted(input, selection)
    ensures var result := Select(input, selection);
            && result.Ok?
            && DisplayPreflight(result.value) == None
            && |Declarations(Split(result.value))| == 1
            && AllShort(Split(result.value))
            && forall other :: SelectionLines(other).Ok? ==> Select(input, other).Ok?
  {
    hide Split, Edited, DisplayPreflight, Declarations, ReadyLines, SelectionLines, ByteLength, Accepted;
    AcceptedExactly(input, selection);
    var inserted := SelectionLines(selection).value;
    SelectionIsReady(selection);
    OutputDeclaresOnce(input, inserted);
    OutputPassesPreflight(input, inserted);
    forall other | SelectionLines(other).Ok? ensures Select(input, other).Ok? {
      SelectionIsReady(other);
      SecondEditMeetsLimit(input, inserted, SelectionLines(other).value);
    }
  }

  /** The lines that name the selection stand at the given line, right below the last all-sections header, and no
      other line names a display. */
  ghost predicate StandsAlone(lines: seq<ConfigLine>, at: nat, inserted: seq<string>) {
    && 0 < at && at + |inserted| <= |lines|
    && Trim(lines[at - 1].body) == ALL_SECTION
    && (forall j :: at <= j < |lines| ==> Trim(lines[j].body) != ALL_SECTION)
    && (forall i :: 0 <= i < |inserted| ==> lines[at + i].body == inserted[i])
    && OnlyDeclarationAt(lines, at)
  }

  lemma SelectionStandsAlone(input: string, selection: DisplaySelection)
    requires Accepted(input, selection)
    ensures Select(input, selection).Ok?
    ensures exists at, inserted ::
              Spells(inserted, selection) && StandsAlone(Split(Select(input, selection).value), at, inserted)
  {
    hide Split, Edited, ReadyLines, SelectionLines, ByteLength, Accepted, OnlyDeclarationAt, Spells, PartsOfText, Trim,
         Declares;
    AcceptedExactly(input, selection);
    var inserted := SelectionLines(selection).value;
    SelectionIsReady(selection);
    SelectionIsWritable(selection);
    var lines, at := Split(Edited(input, inserted)), |PartsOfText(input).head|;
    InsertedBelowLastHeader(input, inserted);
    OthersDeclareNothing(input, inserted);
    OnlyOneDeclares(lines, at);
    assert forall j :: at <= j < |lines| ==> !Header(lines[j]);
    assert StandsAlone(lines, at, inserted);
  }

  /** The last selection wins, exactly when the stated conditions hold. */
  lemma LastSelectionWins(input: string, first: DisplaySelection, second: DisplaySelection)
    requires Accepted(input, first) && SelectionLines(second).Ok?
    ensures Select(input, first).Ok?
    ensures Select(Select(input, first).value, second) == Select(input, second)
       <==> && !ParameterFollowsHeader(input)
            && (BareReturnEndsHeader(input) ==> second.Stock? || second.parameters == [])
  {
    hide Accepted, Split, Edited, ReadyLines, SelectionLines, LongLine, ParameterFollowsHeader, BareReturnEndsHeader;
    AcceptedExactly(input, first);
    var a, b := SelectionLines(first).value, SelectionLines(second).value;
    SelectionIsReady(first);
    SelectionIsReady(second);
    SelectionIsWritable(second);
    SelectionIsSafe(input, first);
    LastEditWins(input, a, b);
  }

  /** Selecting the same display again changes nothing, exactly when the stated conditions hold. */
  lemma ReselectionChangesNothing(input: string, selection: DisplaySelection)
    requires Accepted(input, selection)
    ensures Select(input, selection).Ok?
    ensures Select(Select(input, selection).value, selection) == Select(input, selection)
       <==> && !ParameterFollowsHeader(input)
            && (BareReturnEndsHeader(input) ==> selection.Stock? || selection.parameters == [])
  {
    hide Split, Edited, SelectionLines, LongLine, ParameterFollowsHeader, BareReturnEndsHeader, Accepted;
    AcceptedExactly(input, selection);
    LastSelectionWins(input, selection, selection);
  }

  // ----- the two ways a second selection can differ are real

  lemma TwoLinesReadBack(a: ConfigLine, b: ConfigLine)
    requires a.ending == LF && b.ending == LF && Normal(a) == a && Normal(b) == b
    requires '\n' !in a.body && '\n' !in b.body
    ensures Split(Text(a) + Text(b)) == [a, b]
  {
    hide Split, Normal;
    var lines := [a, b];
    assert lines[1..] == [b] && [b][1..] == [];
    assert WellFormed([]) && WellFormed([b]) && WellFormed(lines);
    SplitOfJoin(lines);
    assert Join([]) == "" && Text(b) + "" == Text(b);
    assert Join(lines) == Text(a) + Text(b);
    assert NormalAll(lines) == lines;
  }

  lemma ParameterBelowHeader(text: string, a: ConfigLine, b: ConfigLine)
    requires Split(text) == [a, b] && Header(a) && Parameter(b)
    ensures ParameterFollowsHeader(text)
  {
    hide Split, Header, Parameter, Declares;
    KindsExcludeOnLines(a);
    KindsExcludeOnLines(b);
    KeepOfClean([a, b]);
    LastHeaderAt([a, b], 2, 0);
  }

  /** A user's own parameter directly below the header is taken away by the second selection. */
  lemma ParameterBelowHeaderExample()
    ensures var input := ALL_SECTION + LF + (PARAMETER_KEY + "rotate=90" + LF);
            && ParameterFollowsHeader(input)
            && (forall first, second :: ReadyLines(first) && ReadyLines(second) ==>
                                          Edited(Edited(input, first), second) != Edited(input, second))
  {
    var header, parameter := ConfigLine(ALL_SECTION, LF), ConfigLine(PARAMETER_KEY + "rotate=90", LF);
    hide Split, Trim, IsDeclaration, IsParameterLine, ByteLength, Normal, ParameterFollowsHeader, Edited, ReadyLines;
    SectionKind(LF);
    ParameterLine("rotate=90");
    WritableFacts(parameter.body);
    InsertedLineReadsBack(parameter.body, LF);
    TwoLinesReadBack(header, parameter);
    var input := Text(header) + Text(parameter);
    ParameterBelowHeader(input, header, parameter);
    forall first, second | ReadyLines(first) && ReadyLines(second)
      ensures Edited(Edited(input, first), second) != Edited(input, second) {
      LastEditWins(input, first, second);
    }
  }

  lemma BareReturnTrims()
    ensures Trim(ALL_SECTION + "\r") == ALL_SECTION
  {
    AllSectionLine();
    WritableFacts(ALL_SECTION);
    assert (ALL_SECTION + "\r")[..|ALL_SECTION|] == ALL_SECTION;
  }

  /** A header that is the whole text and ends in a bare carriage return makes the second selection write its
      lines with other endings than it would have alone. */
  lemma BareReturnExample()
    ensures var input := ALL_SECTION + "\r";
            && BareReturnEndsHeader(input) && !ParameterFollowsHeader(input)
            && (forall first, second :: ReadyLines(first) && ReadyLines(second) && |second| > 1 ==>
                                          Edited(Edited(input, first), second) != Edited(input, second))
  {
    var input := ALL_SECTION + "\r";
    var header := ConfigLine(input, "");
    hide Trim, IsDeclaration, IsParameterLine, Edited, ReadyLines, Split, ByteLength, Keep;
    BareReturnTrims();
    AllSectionLine();
    NoNewline(input);
    KindsExcludeOnLines(header);
    KeepAllOfClean([header]);
    assert KeptLines(input) == [header] && Fallback([header]) == Fallback([]) == LF;
    assert header.body[|header.body| - 1] == '\r';
    LastHeaderAt([header], 1, 0);
    forall first, second | ReadyLines(first) && ReadyLines(second) && |second| > 1
      ensures Edited(Edited(input, first), second) != Edited(input, second) {
      LastEditWins(input, first, second);
    }
  }
}
