/**
 What the boot-configuration editor in src/install.rs recognises and writes: overlay names, display
 parameters, and the lines a selection inserts. All the text constants live here; the line editor only uses
 the facts stated as lemmas.
*/
module DisplayNames {
  import opened Prelude
  import opened ConfigText

  const OVERLAY_KEY := "dtoverlay="
  const PARAMETER_KEY := "dtparam="
  const STOCK_OVERLAY := "vc4-kms-dpi-hyperpixel2r"
  const PLANERADAR_PREFIX := "planeradar-hyperpixel2r-"
  const EXTERNAL_PREFIX := "hyperpixel2r-kms-"
  const EXTERNAL_SUFFIX := ".dtbo"
  const ALL_SECTION := "[all]"
  const MAX_BOOT_CONFIG_LINE_BYTES := 98

  datatype DisplaySelection = Stock | Candidate(overlay: string, parameters: seq<string>)

  datatype InstallError =
    | InvalidOverlayName(name: string)
    | InvalidDisplayParameter(parameter: string)
    | DuplicateDisplayParameter(parameter: string)
    | BootLineTooLong(line: nat, bytes: nat)
    | AmbiguousDisplay(count: nat)

  predicate Supported(parameter: string) {
    || parameter == "rotate=0" || parameter == "rotate=90" || parameter == "rotate=180" || parameter == "rotate=270"
    || parameter == "touchscreen-inverted-x" || parameter == "touchscreen-inverted-y"
    || parameter == "touchscreen-swapped-x-y"
  }

  predicate Revision(s: string) {
    |s| == 12 && forall i :: 0 <= i < |s| ==> LowerHexDigit(s[i])
  }

  /** versioned_overlay_revision is some. */
  predicate Versioned(overlay: string) {
    || (PLANERADAR_PREFIX <= overlay && Revision(overlay[|PLANERADAR_PREFIX|..]))
    || (&& EXTERNAL_PREFIX <= overlay
        && |EXTERNAL_PREFIX| + |EXTERNAL_SUFFIX| <= |overlay|
        && overlay[|overlay| - |EXTERNAL_SUFFIX|..] == EXTERNAL_SUFFIX
        && Revision(overlay[|EXTERNAL_PREFIX|..|overlay| - |EXTERNAL_SUFFIX|]))
  }

  function FirstComma(s: string): (n: nat)
    ensures n <= |s| && (n < |s| ==> s[n] == ',')
  {
    if s == "" || s[0] == ',' then 0 else 1 + FirstComma(s[1..])
  }

  /** Splitting at commas. */
  function Fields(s: string): (fields: seq<string>)
    ensures |fields| > 0
    decreases |s|
  {
    var n := FirstComma(s);
    if n == |s| then [s] else [s[..n]] + Fields(s[n + 1..])
  }

  /** The fields with commas between them. */
  function Joined(fields: seq<string>): string {
    if fields == [] then ""
    else if |fields| == 1 then fields[0]
    else fields[0] + "," + Joined(fields[1..])
  }

  lemma {:induction false} NoCommaBefore(s: string)
    ensures ',' !in s[..FirstComma(s)]
  {
    if s != "" && s[0] != ',' {
      NoCommaBefore(s[1..]);
      assert s[..FirstComma(s)] == [s[0]] + s[1..][..FirstComma(s[1..])];
    }
  }

  /** The fields hold no comma, and joined with commas they are the text. */
  lemma {:induction false} FieldsJoinBack(s: string)
    ensures Joined(Fields(s)) == s
    ensures forall i :: 0 <= i < |Fields(s)| ==> ',' !in Fields(s)[i]
    decreases |s|
  {
    hide FirstComma;
    var n := FirstComma(s);
    NoCommaBefore(s);
    if n < |s| {
      FieldsJoinBack(s[n + 1..]);
      assert Fields(s)[1..] == Fields(s[n + 1..]);
      assert s == s[..n] + "," + s[n + 1..];
    } else {
      assert s[..n] == s;
    }
  }

  lemma {:induction false} CommaAt(field: string, rest: string)
    requires ',' !in field
    ensures FirstComma(field + "," + rest) == |field| && FirstComma(field) == |field|
  {
    if field != "" {
      assert field == [field[0]] + field[1..];
      CommaAt(field[1..], rest);
      assert (field + "," + rest)[1..] == field[1..] + "," + rest;
    }
  }

  /** The first field is what stands before the first comma. */
  lemma FirstFieldIs(field: string, rest: string)
    requires ',' !in field
    ensures Fields(field) == [field] && Fields(field + "," + rest) == [field] + Fields(rest)
  {
    CommaAt(field, rest);
    var s := field + "," + rest;
    assert s[..|field|] == field && s[|field| + 1..] == rest;
  }

  /** And there is no other way to take the text apart. */
  lemma {:induction false} FieldsOfJoined(fields: seq<string>)
    requires fields != [] && forall i :: 0 <= i < |fields| ==> ',' !in fields[i]
    ensures Fields(Joined(fields)) == fields
  {
    hide Fields;
    FirstFieldIs(fields[0], Joined(fields[1..]));
    if |fields| > 1 {
      FieldsOfJoined(fields[1..]);
      assert fields == [fields[0]] + fields[1..];
    } else {
      assert fields == [fields[0]];
    }
  }

  predicate IsDeclaration(trimmed: string) {
    && OVERLAY_KEY <= trimmed
    && var overlay := Fields(trimmed[|OVERLAY_KEY|..])[0];
       overlay == STOCK_OVERLAY || Versioned(overlay)
  }

  predicate IsParameterLine(trimmed: string) {
    PARAMETER_KEY <= trimmed && Supported(trimmed[|PARAMETER_KEY|..])
  }

  /** The first parameter, from the n-th on, that is unknown or repeats an earlier one. */
  function ParameterError(parameters: seq<string>, n: nat): (e: Option<InstallError>)
    requires n <= |parameters|
    ensures e == None <==>
            forall i :: n <= i < |parameters| ==> Supported(parameters[i]) && parameters[i] !in parameters[..i]
    ensures e.Some? ==>
              exists i :: && n <= i < |parameters|
                          && (forall j :: n <= j < i ==> Supported(parameters[j]) && parameters[j] !in parameters[..j])
                          && (if Supported(parameters[i])
                              then && parameters[i] in parameters[..i]
                                   && e.value == DuplicateDisplayParameter(parameters[i])
                              else e.value == InvalidDisplayParameter(parameters[i]))
    decreases |parameters| - n
  {
    if n == |parameters| then None
    else if !Supported(parameters[n]) then Some(InvalidDisplayParameter(parameters[n]))
    else if parameters[n] in parameters[..n] then Some(DuplicateDisplayParameter(parameters[n]))
    else ParameterError(parameters, n + 1)
  }

  /** selection_lines */
  function SelectionLines(selection: DisplaySelection): Result<seq<string>, InstallError> {
    match selection
    case Stock => Ok([OVERLAY_KEY + STOCK_OVERLAY])
    case Candidate(overlay, parameters) =>
      if !Versioned(overlay) then Err(InvalidOverlayName(overlay))
      else match ParameterError(parameters, 0)
        case Some(e) => Err(e)
        case None => Ok([OVERLAY_KEY + overlay] + ParameterLines(parameters))
  }

  function ParameterLines(parameters: seq<string>): (lines: seq<string>)
    ensures |lines| == |parameters|
    ensures forall i :: 0 <= i < |lines| ==> lines[i] == PARAMETER_KEY + parameters[i]
  {
    seq(|parameters|, i requires 0 <= i < |parameters| => PARAMETER_KEY + parameters[i])
  }

  // ----- facts about the texts

  /** Printable ASCII other than a space or a comma. */
  predicate Plain(c: char) {
    '!' <= c <= '~' && c != ','
  }

  predicate PlainText(s: string) {
    forall i :: 0 <= i < |s| ==> Plain(s[i])
  }

  lemma ConstantsArePlain()
    ensures PlainText(OVERLAY_KEY) && PlainText(PARAMETER_KEY) && |OVERLAY_KEY| == 10 && |PARAMETER_KEY| == 8
  {}

  lemma StockIsPlain()
    ensures PlainText(STOCK_OVERLAY) && |STOCK_OVERLAY| == 24
  {}

  lemma PrefixIsPlain()
    ensures PlainText(PLANERADAR_PREFIX) && |PLANERADAR_PREFIX| == 24
  {}

  lemma ExternalIsPlain()
    ensures PlainText(EXTERNAL_PREFIX) && |EXTERNAL_PREFIX| == 17
    ensures PlainText(EXTERNAL_SUFFIX) && |EXTERNAL_SUFFIX| == 5
  {}

  lemma VersionedIsPlain(overlay: string)
    requires Versioned(overlay)
    ensures PlainText(overlay) && 0 < |overlay| <= 40
  {
    PrefixIsPlain();
    ExternalIsPlain();
    if PLANERADAR_PREFIX <= overlay && Revision(overlay[|PLANERADAR_PREFIX|..]) {
      var rest := overlay[|PLANERADAR_PREFIX|..];
      assert forall i :: 0 <= i < |rest| ==> Plain(rest[i]);
      assert overlay == PLANERADAR_PREFIX + rest;
    } else {
      var rest := overlay[|EXTERNAL_PREFIX|..|overlay| - |EXTERNAL_SUFFIX|];
      assert forall i :: 0 <= i < |rest| ==> Plain(rest[i]);
      assert overlay == EXTERNAL_PREFIX + rest + EXTERNAL_SUFFIX;
    }
  }

  lemma RevisionMeans(s: string)
    ensures Revision(s) <==> |s| == 12 && forall i :: 0 <= i < |s| ==> '0' <= s[i] <= '9' || 'a' <= s[i] <= 'f'
  {}

  /** A versioned name is a prefix, twelve lower-case hexadecimal digits and, for one of the two, a suffix. */
  lemma VersionedMeans(overlay: string)
    ensures Versioned(overlay) <==>
            exists revision :: && Revision(revision)
                               && (|| overlay == "planeradar-hyperpixel2r-" + revision
                                   || overlay == "hyperpixel2r-kms-" + revision + ".dtbo")
  {
    PrefixIsPlain();
    ExternalIsPlain();
    if PLANERADAR_PREFIX <= overlay {
      assert overlay == PLANERADAR_PREFIX + overlay[|PLANERADAR_PREFIX|..];
    }
    if EXTERNAL_PREFIX <= overlay && |EXTERNAL_PREFIX| + |EXTERNAL_SUFFIX| <= |overlay| {
      assert overlay == EXTERNAL_PREFIX + overlay[|EXTERNAL_PREFIX|..|overlay| - |EXTERNAL_SUFFIX|]
                        + overlay[|overlay| - |EXTERNAL_SUFFIX|..];
    }
    forall revision | Revision(revision)
      ensures Versioned(PLANERADAR_PREFIX + revision) && Versioned(EXTERNAL_PREFIX + revision + EXTERNAL_SUFFIX)
    {
      var external := EXTERNAL_PREFIX + revision + EXTERNAL_SUFFIX;
      assert (PLANERADAR_PREFIX + revision)[|PLANERADAR_PREFIX|..] == revision;
      assert external[|EXTERNAL_PREFIX|..|external| - |EXTERNAL_SUFFIX|] == revision;
      assert external == EXTERNAL_PREFIX + (revision + EXTERNAL_SUFFIX);
    }
  }

  predicate Overlay(name: string) {
    name == STOCK_OVERLAY || Versioned(name)
  }

  lemma OverlayIsPlain(name: string)
    requires Overlay(name)
    ensures PlainText(name) && 0 < |name| <= 40 && ',' !in name
  {
    StockIsPlain();
    if name != STOCK_OVERLAY { VersionedIsPlain(name); }
  }

  lemma AfterKey(key: string, value: string)
    ensures key <= key + value && (key + value)[|key|..] == value
  {}

  lemma KeyAndValue(key: string, text: string)
    requires key <= text
    ensures key + text[|key|..] == text
  {}

  lemma WithRest(key: string, name: string, rest: string)
    ensures key + name + "," + rest == key + (name + "," + rest)
  {}

  /** A declaration is the key and the name of a display overlay, then nothing or a comma and anything. */
  ghost predicate Names(trimmed: string, name: string, rest: string) {
    && Overlay(name)
    && (trimmed == OVERLAY_KEY + name || trimmed == OVERLAY_KEY + name + "," + rest)
  }

  lemma DeclarationIs(trimmed: string)
    requires IsDeclaration(trimmed)
    ensures exists name, rest :: Names(trimmed, name, rest)
  {
    var s := trimmed[|OVERLAY_KEY|..];
    KeyAndValue(OVERLAY_KEY, trimmed);
    var fields := Fields(s);
    assert Overlay(fields[0]);
    var rest := Joined(fields[1..]);
    FieldsJoinBack(s);
    assert s == fields[0] || s == fields[0] + "," + rest;
    hide *;
    WithRest(OVERLAY_KEY, fields[0], rest);
    NamesIs(trimmed, fields[0], rest);
  }

  lemma NamesIs(trimmed: string, name: string, rest: string)
    requires Overlay(name)
    requires trimmed == OVERLAY_KEY + name || trimmed == OVERLAY_KEY + name + "," + rest
    ensures Names(trimmed, name, rest)
  {
    hide Overlay;
  }

  lemma IsDeclarationOf(trimmed: string, name: string, rest: string)
    requires Names(trimmed, name, rest)
    ensures IsDeclaration(trimmed)
  {
    OverlayIsPlain(name);
    FirstFieldIs(name, rest);
    AfterKey(OVERLAY_KEY, name);
    AfterKey(OVERLAY_KEY, name + "," + rest);
    WithRest(OVERLAY_KEY, name, rest);
    FirstFieldDecides(trimmed, name);
  }

  lemma FirstFieldDecides(trimmed: string, name: string)
    requires OVERLAY_KEY <= trimmed && Overlay(name) && Fields(trimmed[|OVERLAY_KEY|..])[0] == name
    ensures IsDeclaration(trimmed)
  {
    hide Fields, Versioned;
  }

  lemma SupportedIsPlain(parameter: string)
    requires Supported(parameter)
    ensures PlainText(parameter) && 0 < |parameter| <= 40
  {}

  lemma KeysDiffer(t: string)
    ensures OVERLAY_KEY <= t ==> !(PARAMETER_KEY <= t) && t != ALL_SECTION
    ensures PARAMETER_KEY <= t ==> t != ALL_SECTION
  {
    assert OVERLAY_KEY[0] == 'd' && OVERLAY_KEY[2] == 'o' && PARAMETER_KEY[0] == 'd' && PARAMETER_KEY[2] == 'p';
    assert ALL_SECTION[0] == '[';
    assert OVERLAY_KEY <= t ==> t[0] == 'd' && t[2] == 'o';
    assert PARAMETER_KEY <= t ==> t[0] == 'd' && t[2] == 'p';
  }

  /** A line is at most one of: a declaration, a display parameter, the all-sections header. */
  lemma KindsExclude(t: string)
    ensures IsDeclaration(t) ==> !IsParameterLine(t) && t != ALL_SECTION
    ensures IsParameterLine(t) ==> t != ALL_SECTION
  {
    hide Versioned, Supported, Fields;
    KeysDiffer(t);
  }

  lemma {:induction false} PlainLength(s: string)
    requires PlainText(s)
    ensures ByteLength(s) == |s| && FirstComma(s) == |s|
  {
    if s != "" {
      assert PlainText(s[1..]);
      PlainLength(s[1..]);
    }
  }

  lemma PlainBounds(s: string)
    requires PlainText(s) && s != ""
    ensures Trim(s) == s && '\n' !in s && s[|s| - 1] != '\r'
  {
    TrimIsIdentity(s);
  }

  lemma PlainAppend(a: string, b: string)
    requires PlainText(a) && PlainText(b)
    ensures PlainText(a + b) && |a + b| == |a| + |b| && a <= a + b && (a + b)[|a|..] == b
  {}

  /** A line the editor can write: short and plain. */
  predicate Writable(body: string) {
    PlainText(body) && 0 < |body| <= MAX_BOOT_CONFIG_LINE_BYTES
  }

  /** Such a line reads back unchanged and fits the boot loader. */
  lemma WritableFacts(body: string)
    requires Writable(body)
    ensures body != "" && '\n' !in body && body[|body| - 1] != '\r'
    ensures Trim(body) == body && ByteLength(body) <= MAX_BOOT_CONFIG_LINE_BYTES
  {
    PlainBounds(body);
    PlainLength(body);
  }

  lemma PlainIsOneField(key: string, line: string)
    requires key <= line && PlainText(line)
    ensures Fields(line[|key|..]) == [line[|key|..]]
  {
    PlainLength(line[|key|..]);
  }

  lemma KeyedLine(key: string, value: string)
    requires PlainText(key) && PlainText(value) && value != "" && |key| + |value| <= 98
    ensures Writable(key + value) && key <= key + value && (key + value)[|key|..] == value && Fields(value) == [value]
  {
    PlainAppend(key, value);
    PlainLength(value);
  }

  lemma DeclarationLine(overlay: string)
    requires overlay == STOCK_OVERLAY || Versioned(overlay)
    ensures Writable(OVERLAY_KEY + overlay) && IsDeclaration(OVERLAY_KEY + overlay)
    ensures Fields((OVERLAY_KEY + overlay)[|OVERLAY_KEY|..]) == [overlay]
  {
    hide Versioned, Writable, Fields, PlainText;
    ConstantsArePlain();
    StockIsPlain();
    if overlay != STOCK_OVERLAY { VersionedIsPlain(overlay); }
    KeyedLine(OVERLAY_KEY, overlay);
  }

  lemma ParameterLine(parameter: string)
    requires Supported(parameter)
    ensures Writable(PARAMETER_KEY + parameter) && IsParameterLine(PARAMETER_KEY + parameter)
  {
    hide Supported, Writable, Fields, PlainText;
    ConstantsArePlain();
    SupportedIsPlain(parameter);
    KeyedLine(PARAMETER_KEY, parameter);
  }

  lemma AllSectionLine()
    ensures Writable(ALL_SECTION)
  {}

  /** A selection is refused exactly for an unversioned overlay or an unknown or repeated parameter; otherwise
      it is one declaration followed by its parameters in order. */
  lemma SelectionIsWritable(selection: DisplaySelection)
    ensures SelectionLines(selection).Err? <==>
            && selection.Candidate?
            && (|| !Versioned(selection.overlay)
                || exists i :: 0 <= i < |selection.parameters|
                               && (!Supported(selection.parameters[i])
                                  || selection.parameters[i] in selection.parameters[..i]))
    ensures SelectionLines(selection).Ok? ==> DisplayBlock(SelectionLines(selection).value)
    ensures SelectionLines(selection).Ok? ==>
              |SelectionLines(selection).value| == 1 + (if selection.Stock? then 0 else |selection.parameters|)
    ensures SelectionLines(selection).Ok? ==> Spells(SelectionLines(selection).value, selection)
  {
    hide Versioned, Supported, Writable, IsDeclaration, IsParameterLine, Fields;
    match selection {
      case Stock => DeclarationLine(STOCK_OVERLAY);
      case Candidate(overlay, parameters) =>
        if Versioned(overlay) && ParameterError(parameters, 0) == None {
          DeclarationLine(overlay);
          var lines := ParameterLines(parameters);
          forall i | 0 <= i < |lines| ensures Writable(lines[i]) && IsParameterLine(lines[i]) {
            ParameterLine(parameters[i]);
          }
        }
    }
  }

  /** The lines that name the selection: the overlay, then its parameters in order. */
  ghost predicate Spells(lines: seq<string>, selection: DisplaySelection) {
    match selection
    case Stock => lines == [OVERLAY_KEY + STOCK_OVERLAY]
    case Candidate(overlay, parameters) =>
      && |lines| == 1 + |parameters| && lines[0] == OVERLAY_KEY + overlay
      && forall i :: 0 <= i < |parameters| ==> lines[1 + i] == PARAMETER_KEY + parameters[i]
  }

  /** One declaration and its parameters, each a line the editor can write. */
  ghost predicate DisplayBlock(inserted: seq<string>) {
    && |inserted| > 0
    && Writable(inserted[0]) && IsDeclaration(inserted[0])
    && forall i :: 1 <= i < |inserted| ==> Writable(inserted[i]) && IsParameterLine(inserted[i])
  }

  /** The lines of some selection that is not refused. */
  ghost predicate ReadyLines(inserted: seq<string>) {
    exists selection :: SelectionLines(selection) == Ok(inserted)
  }

  lemma ReadyLinesAreBlock(inserted: seq<string>)
    requires ReadyLines(inserted)
    ensures DisplayBlock(inserted)
  {
    hide SelectionLines, DisplayBlock;
    var selection :| SelectionLines(selection) == Ok(inserted);
    SelectionIsWritable(selection);
  }

  lemma SelectionIsReady(selection: DisplaySelection)
    requires SelectionLines(selection).Ok?
    ensures ReadyLines(SelectionLines(selection).value)
  {
    hide SelectionLines;
    assert SelectionLines(selection) == Ok(SelectionLines(selection).value);
  }
}
