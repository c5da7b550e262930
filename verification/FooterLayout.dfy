/**
 The footer layout of src/render/footer.rs around the search: ordering the items, choosing a number of
 rows, and shortening texts until every row fits.
*/
module FooterLayout {
  import opened Prelude
  import opened Sorting
  import opened FooterSearch

  const MAX_TEXT_GLYPHS := 256
  const FOOTER_PADDING_X := 12.0

  // ----- shortening a text

  predicate Control(c: char) {
    c as int < 0x20 || 0x7F <= c as int < 0xA0
  }

  predicate ControlSpace(c: char) {
    0x09 <= c as int <= 0x0D || c as int == 0x85
  }

  /** The characters drawn for a text. */
  function Displayed(text: string): (r: string)
    ensures |r| <= MAX_TEXT_GLYPHS
  {
    var shown := if |text| <= MAX_TEXT_GLYPHS then text else text[..MAX_TEXT_GLYPHS];
    seq(|shown|, i requires 0 <= i < |shown| =>
          if !Control(shown[i]) then shown[i] else if ControlSpace(shown[i]) then ' ' else '\U{FFFD}')
  }

  function Sanitized(text: string): string {
    var shown := Displayed(text);
    if |text| > MAX_TEXT_GLYPHS then shown[..MAX_TEXT_GLYPHS - 1] + ELLIPSIS else shown
  }

  /** What a text looks like: a line feed or tab as a space, other control characters as the replacement character,
      and after 256 characters an ellipsis in place of the last one. */
  lemma SanitizedIs(text: string, i: nat)
    ensures var shown := Sanitized(text);
            && |shown| == (if |text| <= 256 then |text| else 256)
            && (|text| > 256 ==> shown[255] == '…')
            && (i < |text| && i < (if |text| <= 256 then 256 else 255) ==>
                  var c := text[i] as int;
                  shown[i] == if 9 <= c <= 13 || c == 0x85 then ' '
                              else if c < 32 || 127 <= c < 160 then '\U{FFFD}' else text[i])
  {
    var shown := if |text| <= 256 then text else text[..256];
    if i < |shown| {
      var c := if !Control(shown[i]) then shown[i] else if ControlSpace(shown[i]) then ' ' else '\U{FFFD}';
      assert Displayed(text)[i] == c;
    }
  }

  function StripEllipses(prefix: string): (r: string)
    ensures |r| <= |prefix|
  {
    if prefix != [] && prefix[|prefix| - 1] == ELLIPSIS[0] then StripEllipses(prefix[..|prefix| - 1]) else prefix
  }

  /** The longest prefix that fits with an ellipsis after it. */
  function Shorten(m: Metrics, prefix: string, width: real): (r: string)
    ensures r == "" || m.measure(r) <= width
    decreases |prefix|
  {
    var stripped := StripEllipses(prefix);
    if m.measure(stripped + ELLIPSIS) <= width then stripped + ELLIPSIS
    else if stripped == "" then ""
    else Shorten(m, stripped[..|stripped| - 1], width)
  }

  /** fit_with_ellipsis: a text that fits, or nothing. */
  function FitWithEllipsis(m: Metrics, text: string, width: real): (r: string)
    ensures r == "" || (0.0 < width && m.measure(r) <= width)
  {
    var text' := Sanitized(text);
    if text' == "" || width <= 0.0 then ""
    else if m.measure(text') <= width then text'
    else if m.measure(ELLIPSIS) > width then ""
    else Shorten(m, if |text'| > MAX_TEXT_GLYPHS - 1 then text'[..MAX_TEXT_GLYPHS - 1] else text', width)
  }

  /** Cut after k characters, before its ellipsis, the text does not fit; cuts after an ellipsis do not count. */
  predicate TooLong(m: Metrics, text: string, k: nat, width: real)
    requires 0 < k <= |text|
  {
    text[k - 1] != ELLIPSIS[0] ==> m.measure(text[..k] + ELLIPSIS) > width
  }

  lemma {:induction false} StrippedPrefix(m: Metrics, prefix: string, width: real)
    ensures StripEllipses(prefix) <= prefix
    ensures forall k :: |StripEllipses(prefix)| < k <= |prefix| ==> TooLong(m, prefix, k, width)
  {
    if prefix != [] && prefix[|prefix| - 1] == ELLIPSIS[0] {
      var init := prefix[..|prefix| - 1];
      StrippedPrefix(m, init, width);
      LongerStays(m, init, prefix, |StripEllipses(prefix)|, width);
    }
  }

  lemma LongerStays(m: Metrics, shorter: string, text: string, n: nat, width: real)
    requires shorter <= text && forall k :: n < k <= |shorter| ==> TooLong(m, shorter, k, width)
    ensures forall k :: n < k <= |shorter| ==> TooLong(m, text, k, width)
  {
    forall k | n < k <= |shorter| ensures TooLong(m, text, k, width) {
      assert TooLong(m, shorter, k, width) && shorter[..k] == text[..k];
    }
  }

  /** Shortening stops at the longest prefix, not itself ending in an ellipsis, that fits with one after it. */
  lemma {:induction false} ShortenIsLongest(m: Metrics, prefix: string, width: real) returns (n: nat)
    requires m.measure(ELLIPSIS) <= width
    ensures n <= |prefix| && Shorten(m, prefix, width) == prefix[..n] + ELLIPSIS
            && m.measure(prefix[..n] + ELLIPSIS) <= width
    ensures forall k :: n < k <= |prefix| ==> TooLong(m, prefix, k, width)
    decreases |prefix|
  {
    var stripped := StripEllipses(prefix);
    StrippedPrefix(m, prefix, width);
    assert stripped == prefix[..|stripped|] && "" + ELLIPSIS == ELLIPSIS;
    if m.measure(stripped + ELLIPSIS) <= width {
      n := |stripped|;
    } else {
      var shorter := stripped[..|stripped| - 1];
      n := ShortenIsLongest(m, shorter, width);
      assert shorter[..n] == prefix[..n];
      LongerStays(m, shorter, prefix, n, width);
      assert TooLong(m, prefix, |stripped|, width);
    }
  }

  /** The text unchanged if it fits; otherwise as much of it as fits before an ellipsis; nothing when not even
      the ellipsis does. */
  lemma FitIsLongest(m: Metrics, text: string, width: real) returns (n: nat)
    ensures var shown, fitted := Sanitized(text), FitWithEllipsis(m, text, width);
            var limit := if |shown| < MAX_TEXT_GLYPHS then |shown| else MAX_TEXT_GLYPHS - 1;
            if shown == "" || width <= 0.0 then fitted == ""
            else if m.measure(shown) <= width then fitted == shown
            else if m.measure(ELLIPSIS) > width then fitted == ""
            else
              && n <= limit <= |shown| && fitted == shown[..n] + ELLIPSIS && m.measure(fitted) <= width
              && forall k :: n < k <= limit && shown[k - 1] != '…' ==> m.measure(shown[..k] + "…") > width
  {
    hide Sanitized, Shorten;
    n := 0;
    var shown := Sanitized(text);
    if shown != "" && width > 0.0 && m.measure(shown) > width && m.measure(ELLIPSIS) <= width {
      var prefix := if |shown| > MAX_TEXT_GLYPHS - 1 then shown[..MAX_TEXT_GLYPHS - 1] else shown;
      n := ShortenIsLongest(m, prefix, width);
      assert prefix[..n] == shown[..n];
      LongerStays(m, prefix, shown, n, width);
      forall k | n < k <= |prefix| && shown[k - 1] != '…' ensures m.measure(shown[..k] + "…") > width {
        assert TooLong(m, shown, k, width);
      }
    }
  }

  // ----- shortening a row

  /** Each kind of text that may be shortened occurs at most once. */
  ghost predicate UniqueEllipsizable(items: seq<Item>) {
    forall i, j :: 0 <= i < j < |items| && Ellipsizable(items[i].tone) ==> items[i].tone != items[j].tone
  }

  /** b is a with some ellipsizable texts replaced. */
  ghost predicate Shortened(a: seq<Item>, b: seq<Item>) {
    && |a| == |b|
    && forall i :: 0 <= i < |a| ==> a[i].tone == b[i].tone && (a[i] != b[i] ==> Ellipsizable(a[i].tone))
  }

  function Position(items: seq<Item>, tone: Tone): (r: Option<nat>)
    ensures r.Some? ==> r.value < |items| && items[r.value].tone == tone
    ensures r.None? ==> forall i :: 0 <= i < |items| ==> items[i].tone != tone
  {
    if items == [] then None
    else if items[0].tone == tone then Some(0)
    else
      var rest := Position(items[1..], tone);
      if rest.None? then None else Some(rest.value + 1)
  }

  lemma {:induction false} WidthAfterUpdate(m: Metrics, items: seq<Item>, i: nat, item: Item)
    requires i < |items| && item.tone == items[i].tone
    ensures m.ItemsWidth(items[i := item]) == m.ItemsWidth(items) - m.measure(items[i].text) + m.measure(item.text)
    ensures Ellipsizable(item.tone) ==> m.MinimumItemsWidth(items[i := item]) == m.MinimumItemsWidth(items)
  {
    var init, last := items[..|items| - 1], |items| - 1;
    if i < last {
      WidthAfterUpdate(m, init, i, item);
      assert items[i := item][..last] == init[i := item];
    } else {
      assert items[i := item][..last] == init;
    }
  }

  /** A row whose ellipsizable texts are bare ellipses has its minimum width. */
  lemma {:induction false} BareIsMinimum(m: Metrics, items: seq<Item>)
    requires forall i :: 0 <= i < |items| && Ellipsizable(items[i].tone) ==> items[i].text == ELLIPSIS
    ensures m.ItemsWidth(items) == m.MinimumItemsWidth(items)
  {
    if items != [] { BareIsMinimum(m, items[..|items| - 1]); }
  }

  function Shrunk(m: Metrics, available: real, row: Row, i: nat): Row
    requires i < |row.items|
  {
    var current := m.measure(row.items[i].text);
    var allowed := if available - (row.width - current) > 0.0 then available - (row.width - current) else 0.0;
    var fitted := FitWithEllipsis(m, row.items[i].text, allowed);
    m.MeasuredRow(row.items[i := row.items[i].(text := if fitted == "" then ELLIPSIS else fitted)])
  }

  /** The text is cut to the room that the others leave, as far as must be, and never further than to the ellipsis. */
  lemma ShrunkIsLongest(m: Metrics, available: real, row: Row, i: nat) returns (n: nat)
    requires i < |row.items|
    ensures var text, got := row.items[i].text, Shrunk(m, available, row, i).items[i].text;
            var room, shown := available - (row.width - m.measure(text)), Sanitized(text);
            var limit := if |shown| < 256 then |shown| else 255;
            && Shrunk(m, available, row, i) == m.MeasuredRow(row.items[i := Item(got, row.items[i].tone)])
            && if shown == "" || room <= 0.0 || (m.measure(shown) > room && m.measure(ELLIPSIS) > room) then
                 got == ELLIPSIS
               else if m.measure(shown) <= room then got == shown
               else
                 && n <= limit <= |shown| && got == shown[..n] + ELLIPSIS && m.measure(got) <= room
                 && forall k :: n < k <= limit && shown[k - 1] != '…' ==> m.measure(shown[..k] + "…") > room
  {
    var text := row.items[i].text;
    var room := available - (row.width - m.measure(text));
    var allowed := if room > 0.0 then room else 0.0;
    n := FitIsLongest(m, text, allowed);
    hide Sanitized, FitWithEllipsis, Metrics.MeasuredRow;
  }

  /** Shrinking one text makes the row fit or leaves a bare ellipsis. */
  lemma ShrunkFitsOrIsBare(m: Metrics, available: real, row: Row, i: nat)
    requires i < |row.items| && row == m.MeasuredRow(row.items) && row.width > available
             && Ellipsizable(row.items[i].tone)
    ensures var r := Shrunk(m, available, row, i);
            r == m.MeasuredRow(r.items) && Shortened(row.items, r.items)
            && (r.width <= available || r.items[i].text == ELLIPSIS)
            && m.MinimumRowWidth(r) == m.MinimumRowWidth(row)
            && forall j :: 0 <= j < |row.items| && j != i ==> r.items[j] == row.items[j]
  {
    hide Metrics.Separators, FitWithEllipsis;
    var current := m.measure(row.items[i].text);
    var allowed := if available - (row.width - current) > 0.0 then available - (row.width - current) else 0.0;
    var fitted := FitWithEllipsis(m, row.items[i].text, allowed);
    WidthAfterUpdate(m, row.items, i, row.items[i].(text := if fitted == "" then ELLIPSIS else fitted));
  }

  /** The row with its text of that tone shortened to the room the others leave. */
  function ShrunkTone(m: Metrics, available: real, row: Row, tone: Tone): Row {
    var position := Position(row.items, tone);
    if position.Some? then Shrunk(m, available, row, position.value) else row
  }

  /** The condition's text is shortened first, the status only if that is not enough. */
  function FittedRow(m: Metrics, row: Row, available: real): Option<Row> {
    if row.width <= available then Some(row)
    else
      var once := ShrunkTone(m, available, row, Condition);
      if once.width <= available then Some(once)
      else
        var twice := ShrunkTone(m, available, once, Status);
        if twice.width <= available then Some(twice) else None
  }

  lemma ShrunkToneFacts(m: Metrics, available: real, row: Row, tone: Tone)
    requires row == m.MeasuredRow(row.items) && row.width > available && Ellipsizable(tone)
    ensures var r := ShrunkTone(m, available, row, tone);
            && r == m.MeasuredRow(r.items) && Shortened(row.items, r.items)
            && m.MinimumRowWidth(r) == m.MinimumRowWidth(row)
            && (r.width <= available
                || forall i :: 0 <= i < |r.items| ==>
                                 if Position(row.items, tone) == Some(i) then r.items[i].text == ELLIPSIS
                                 else r.items[i] == row.items[i])
  {
    hide Shrunk;
    var position := Position(row.items, tone);
    if position.Some? { ShrunkFitsOrIsBare(m, available, row, position.value); }
  }

  lemma ShortenedTwice(a: seq<Item>, b: seq<Item>, c: seq<Item>)
    requires Shortened(a, b) && Shortened(b, c)
    ensures Shortened(a, c)
  {}

  /** With both texts bare the row has its minimum width. */
  lemma BareRowIsMinimal(m: Metrics, row: Row, once: Row, twice: Row)
    requires Shortened(row.items, once.items) && Shortened(once.items, twice.items) && UniqueEllipsizable(row.items)
    requires forall i :: 0 <= i < |once.items| && Position(row.items, Condition) == Some(i) ==>
                           once.items[i].text == ELLIPSIS
    requires forall i :: 0 <= i < |twice.items| ==>
                           if Position(once.items, Status) == Some(i) then twice.items[i].text == ELLIPSIS
                           else twice.items[i] == once.items[i]
    ensures m.ItemsWidth(twice.items) == m.MinimumItemsWidth(twice.items)
  {
    forall i | 0 <= i < |twice.items| && Ellipsizable(twice.items[i].tone) ensures twice.items[i].text == ELLIPSIS {
      assert twice.items[i].tone == once.items[i].tone == row.items[i].tone;
    }
    BareIsMinimum(m, twice.items);
  }

  /** A row that could fit is made to fit, and only what may be shortened is. */
  lemma FittedRowFacts(m: Metrics, row: Row, available: real)
    requires row == m.MeasuredRow(row.items)
    ensures var fitted := FittedRow(m, row, available);
            && (fitted.Some? ==> fitted.value == m.MeasuredRow(fitted.value.items) && fitted.value.width <= available
                                 && Shortened(row.items, fitted.value.items))
            && (UniqueEllipsizable(row.items) && m.MinimumRowWidth(row) <= available ==> fitted.Some?)
  {
    hide ShrunkTone, Shortened, UniqueEllipsizable, Metrics.ItemsWidth, Metrics.MinimumItemsWidth, Metrics.Separators,
         Position;
    if row.width > available {
      var once := ShrunkTone(m, available, row, Condition);
      ShrunkToneFacts(m, available, row, Condition);
      if once.width > available {
        var twice := ShrunkTone(m, available, once, Status);
        ShrunkToneFacts(m, available, once, Status);
        ShortenedTwice(row.items, once.items, twice.items);
        if twice.width > available && UniqueEllipsizable(row.items) {
          BareRowIsMinimal(m, row, once, twice);
        }
      }
    } else {
      SameIsShortened(row.items);
    }
  }

  /** A row that fits stays as it is. Otherwise the condition's text is cut, if there is one, and that is all if the
      row then fits. */
  lemma ConditionGoesFirst(m: Metrics, row: Row, available: real)
    ensures row.width <= available ==> FittedRow(m, row, available) == Some(row)
    ensures var condition := Position(row.items, Condition);
            row.width > available && condition.Some? ==>
              var once := Shrunk(m, available, row, condition.value);
              once.width <= available ==> FittedRow(m, row, available) == Some(once)
  {
    hide Shrunk;
  }

  /** The status's text is cut only in a row without a condition, or after the condition's text has become a bare
      ellipsis. */
  lemma StatusGoesLast(m: Metrics, row: Row, available: real)
    requires row == m.MeasuredRow(row.items)
    ensures var fitted, condition, status :=
              FittedRow(m, row, available), Position(row.items, Condition), Position(row.items, Status);
            fitted.Some? && status.Some? && |fitted.value.items| == |row.items|
            && fitted.value.items[status.value] != row.items[status.value] ==>
              if condition.Some? then fitted.value.items[condition.value].text == ELLIPSIS
              else fitted == Some(Shrunk(m, available, row, status.value))
  {
    hide Shrunk, Metrics.MeasuredRow;
    if row.width > available {
      var once := ShrunkTone(m, available, row, Condition);
      ShrunkToneElsewhere(m, available, row, Condition);
      ShrunkToneFacts(m, available, row, Condition);
      if once.width > available {
        ShortenedPosition(row.items, once.items, Status);
        ShortenedTones(row.items, once.items);
        ShrunkToneElsewhere(m, available, once, Status);
      }
    }
  }

  lemma ShortenedTones(a: seq<Item>, b: seq<Item>)
    requires Shortened(a, b)
    ensures |a| == |b| && forall i :: 0 <= i < |a| ==> a[i].tone == b[i].tone
  {}

  lemma {:induction false} ShortenedPosition(a: seq<Item>, b: seq<Item>, tone: Tone)
    requires Shortened(a, b)
    ensures Position(a, tone) == Position(b, tone)
  {
    if a != [] { ShortenedPosition(a[1..], b[1..], tone); }
  }

  lemma ShrunkToneElsewhere(m: Metrics, available: real, row: Row, tone: Tone)
    ensures var r := ShrunkTone(m, available, row, tone);
            && |r.items| == |row.items|
            && forall i :: 0 <= i < |row.items| && row.items[i].tone != tone ==> r.items[i] == row.items[i]
  {}

  lemma SameIsShortened(items: seq<Item>)
    ensures Shortened(items, items)
  {}

  /** fit_row: edits the row in two rounds, stopping as soon as it fits. */
  method FitRow(m: Metrics, row0: Row, available: real) returns (fitted: Option<Row>)
    ensures fitted == FittedRow(m, row0, available)
    ensures row0 == m.MeasuredRow(row0.items) ==>
              && (fitted.Some? ==> fitted.value == m.MeasuredRow(fitted.value.items) && fitted.value.width <= available
                                   && Shortened(row0.items, fitted.value.items))
              && (UniqueEllipsizable(row0.items) && m.MinimumRowWidth(row0) <= available ==> fitted.Some?)
  {
    hide Shrunk, Metrics.MeasuredRow, Shortened, UniqueEllipsizable, Metrics.MinimumRowWidth;
    if row0 == m.MeasuredRow(row0.items) { FittedRowFacts(m, row0, available); }
    var row := row0;
    if row.width <= available {
      return Some(row);
    }
    var condition := Position(row.items, Condition);
    if condition.Some? {
      row := Shrunk(m, available, row, condition.value);
    }
    if row.width <= available {
      return Some(row);
    }
    var status := Position(row.items, Status);
    if status.Some? {
      row := Shrunk(m, available, row, status.value);
    }
    if row.width <= available {
      return Some(row);
    }
    return None;
  }

  // ----- ordering the items

  function ToneOrder(tone: Tone): nat {
    match tone
    case Status => 0
    case Condition => 1
    case Temperature => 2
    case Humidity => 3
    case Time => 4
    case Date => 5
  }

  predicate ByTone(a: Item, b: Item) {
    ToneOrder(a.tone) <= ToneOrder(b.tone)
  }

  /** sort_by_key: a stable sort. */
  function SortByTone(items: seq<Item>): (r: seq<Item>)
    ensures multiset(r) == multiset(items)
  {
    Sort(ByTone, items)
  }

  function HasTone(tone: Tone): Item -> bool {
    (item: Item) => item.tone == tone
  }

  function OfTone(items: seq<Item>, tone: Tone): seq<Item> {
    Filter(HasTone(tone), items)
  }

  /** Status, condition, temperature, humidity, time, date. */
  lemma TonesInOrder(tone: Tone)
    ensures [Status, Condition, Tone.Temperature, Tone.Humidity, Time, Date][ToneOrder(tone)] == tone
  {}

  /** Items come out by tone, and items of one tone keep their order. */
  lemma SortByToneIsStable(items: seq<Item>, tone: Tone)
    ensures Ordered(ByTone, SortByTone(items)) && OfTone(SortByTone(items), tone) == OfTone(items, tone)
  {
    SortIsOrdered(ByTone, items);
    SortIsStable(ByTone, HasTone(tone), items);
  }

  // ----- choosing the rows

  /** How many leading items describe the weather. */
  function EnvironmentCount(items: seq<Item>): (r: nat)
    ensures r <= |items|
    ensures forall i :: 0 <= i < r ==> !items[i].tone.Time? && !items[i].tone.Date?
    ensures r < |items| ==> items[r].tone.Time? || items[r].tone.Date?
  {
    if items == [] || ToneOrder(items[0].tone) > ToneOrder(Humidity) then 0 else 1 + EnvironmentCount(items[1..])
  }

  /** The weather above the clock. */
  function Preferred(m: Metrics, items: seq<Item>): seq<Row> {
    var n := EnvironmentCount(items);
    [m.MeasuredRow(items[..n]), m.MeasuredRow(items[n..])]
  }

  predicate PreferredFits(m: Metrics, items: seq<Item>, available: real) {
    0 < EnvironmentCount(items) < |items|
    && Preferred(m, items)[0].width <= available && Preferred(m, items)[1].width <= available
  }

  /** Of items in order, the first row has those about the weather, the second those about the time. */
  lemma PreferredMeans(m: Metrics, items: seq<Item>, available: real)
    requires Ordered(ByTone, items) && PreferredFits(m, items, available)
    ensures var rows := Preferred(m, items);
            && |rows| == 2 && rows[0].items + rows[1].items == items
            && (forall i :: 0 <= i < 2 ==> rows[i] == m.MeasuredRow(rows[i].items) && rows[i].width <= available)
            && rows[0].items != [] && rows[1].items != []
            && (forall i :: 0 <= i < |rows[0].items| ==> !rows[0].items[i].tone.Time? && !rows[0].items[i].tone.Date?)
            && (forall i :: 0 <= i < |rows[1].items| ==> rows[1].items[i].tone.Time? || rows[1].items[i].tone.Date?)
  {
    var n := EnvironmentCount(items);
    assert items[..n] + items[n..] == items;
    forall i | n <= i < |items| ensures items[i].tone.Time? || items[i].tone.Date? {
      assert i > n ==> ByTone(items[n], items[i]);
    }
  }

  /** There are such rows whenever there is a first item about the time, with one about the weather before it, and
      the two rows fit. */
  lemma PreferredFitsWhen(m: Metrics, items: seq<Item>, available: real, n: nat)
    requires 0 < n < |items| && (items[n].tone.Time? || items[n].tone.Date?)
    requires forall i :: 0 <= i < n ==> !items[i].tone.Time? && !items[i].tone.Date?
    requires m.MeasuredRow(items[..n]).width <= available && m.MeasuredRow(items[n..]).width <= available
    ensures PreferredFits(m, items, available)
  {
    assert EnvironmentCount(items) == n;
  }

  function ItemMinimum(m: Metrics, item: Item): real {
    m.measure(if Ellipsizable(item.tone) then ELLIPSIS else item.text)
  }

  /** Some item is too wide however much it is shortened. */
  ghost predicate TooWide(m: Metrics, items: seq<Item>, available: real) {
    exists i :: 0 <= i < |items| && ItemMinimum(m, items[i]) > available
  }

  function Singles(m: Metrics, items: seq<Item>): (r: seq<Row>)
    ensures |r| == |items| && forall i :: 0 <= i < |items| ==> r[i] == m.MeasuredRow([items[i]])
  {
    seq(|items|, i requires 0 <= i < |items| => m.MeasuredRow([items[i]]))
  }

  lemma {:induction false} SinglesFlatten(m: Metrics, items: seq<Item>)
    ensures Flatten(Singles(m, items)) == items
  {
    if items != [] {
      SinglesFlatten(m, items[1..]);
      assert Singles(m, items)[1..] == Singles(m, items[1..]);
      assert items == [items[0]] + items[1..];
    }
  }

  lemma {:induction false} ItemWithinRow(m: Metrics, items: seq<Item>, i: nat)
    requires m.Valid() && i < |items|
    ensures 0.0 <= ItemMinimum(m, items[i]) <= m.MinimumItemsWidth(items)
  {
    var init := items[..|items| - 1];
    if i < |init| {
      ItemWithinRow(m, init, i);
    } else if init != [] {
      ItemWithinRow(m, init, 0);
    }
  }

  lemma {:induction false} RowOfItem(rows: seq<Row>, i: nat) returns (r: nat, k: nat)
    requires i < |Flatten(rows)|
    ensures r < |rows| && k < |rows[r].items| && rows[r].items[k] == Flatten(rows)[i]
  {
    if i < |rows[0].items| {
      r, k := 0, i;
    } else {
      r, k := RowOfItem(rows[1..], i - |rows[0].items|);
      r := r + 1;
    }
  }

  lemma SingleMinimum(m: Metrics, item: Item)
    ensures m.MinimumRowWidth(m.MeasuredRow([item])) == ItemMinimum(m, item)
  {
    assert [item][..0] == [];
    assert m.MinimumItemsWidth([item]) == m.MinimumItemsWidth([]) + ItemMinimum(m, item);
  }

  /** One item to a row is feasible exactly when no item is too wide by itself. */
  lemma SinglesFeasible(m: Metrics, items: seq<Item>, available: real)
    ensures IsSplit(Singles(m, items), items, |items|, m)
    ensures m.Feasible(Singles(m, items), available) <==> !TooWide(m, items, available)
  {
    SinglesFlatten(m, items);
    forall i | 0 <= i < |items| ensures m.MinimumRowWidth(Singles(m, items)[i]) == ItemMinimum(m, items[i]) {
      SingleMinimum(m, items[i]);
    }
  }

  /** No number of rows helps an item that is too wide by itself. */
  lemma TooWideNeverFits(m: Metrics, items: seq<Item>, available: real, p: seq<Row>, count: nat)
    requires m.Valid() && TooWide(m, items, available) && IsSplit(p, items, count, m)
    ensures !m.Feasible(p, available)
  {
    var i :| 0 <= i < |items| && ItemMinimum(m, items[i]) > available;
    var r, k := RowOfItem(p, i);
    ItemWithinRow(m, p[r].items, k);
    assert m.Separators(|p[r].items|) >= 0.0 by {
      assert m.measure(SEPARATOR) >= 0.0;
    }
    assert m.MinimumRowWidth(p[r]) > available;
  }

  /** How the rows come about before any text is shortened. */
  ghost predicate Chosen(rows: seq<Row>, m: Metrics, items: seq<Item>, available: real) {
    if m.MeasuredRow(items).width <= available then rows == [m.MeasuredRow(items)]
    else if PreferredFits(m, items, available) then rows == Preferred(m, items)
    else
      && |rows| >= 2
      && IsBest(rows, items, |rows|, m, available)
      && forall k, p :: 2 <= k < |rows| && IsSplit(p, items, k, m) ==> !m.Feasible(p, available)
  }

  /** When there is no layout at all. */
  ghost predicate Hopeless(m: Metrics, items: seq<Item>, available: real) {
    && m.MeasuredRow(items).width > available
    && !PreferredFits(m, items, available)
    && (|items| == 1 || TooWide(m, items, available))
  }

  method ChooseRows(m: Metrics, items: seq<Item>, available: real) returns (rows: Option<seq<Row>>)
    requires m.Valid() && items != []
    ensures rows.Some? ==> Chosen(rows.value, m, items, available)
    ensures rows.None? <==> Hopeless(m, items, available)
  {
    var all := m.MeasuredRow(items);
    if all.width <= available {
      return Some([all]);
    }
    if PreferredFits(m, items, available) {
      return Some(Preferred(m, items));
    }
    for count := 2 to |items| + 1
      invariant forall k, p :: 2 <= k < count && IsSplit(p, items, k, m) ==> !m.Feasible(p, available)
    {
      rows := BestOrderedRows(m, items, available, count);
      if rows.Some? {
        if TooWide(m, items, available) { TooWideNeverFits(m, items, available, rows.value, count); }
        return;
      }
    }
    SinglesFeasible(m, items, available);
    return None;
  }

  datatype Layout = Layout(rows: seq<Row>, railWidth: real)

  /** layout_footer: every row fits, every item is there in order, and the only texts touched are those
      that may be shortened. */
  method LayoutFooter(m: Metrics, content: seq<Item>, maximumWidth: real) returns (r: Option<Layout>)
    requires m.Valid()
    ensures var items := SortByTone(content); var available := maximumWidth - 24.0;
            && (r.Some? ==> exists chosen :: Chosen(chosen, m, items, available)
                                             && FittedRows(chosen, r.value.rows, m, available)
                                             && r.value.railWidth == Score(r.value.rows) + 24.0)
            && (r.Some? ==> Shortened(items, Flatten(r.value.rows)))
            && (content == [] || Hopeless(m, items, available) ==> r.None?)
            && (UniqueEllipsizable(items) && content != [] && !Hopeless(m, items, available) ==> r.Some?)
  {
    if content == [] {
      return None;
    }
    var items := SortByTone(content);
    var available := maximumWidth - 2.0 * FOOTER_PADDING_X;
    assert |multiset(items)| == |multiset(content)|;
    var chosen := ChooseRows(m, items, available);
    if chosen.None? {
      return None;
    }
    ChosenIsMeasured(chosen.value, m, items, available);
    if UniqueEllipsizable(items) { ChosenRowsCanFit(chosen.value, m, items, available); }
    var rows := FitRows(m, chosen.value, available);
    if rows.Some? { FittedItems(chosen.value, rows.value, m, available); }
    r := if rows.None? then None else Some(Layout(rows.value, Score(rows.value) + 2.0 * FOOTER_PADDING_X));
  }

  method FitRows(m: Metrics, chosen: seq<Row>, available: real) returns (fitted: Option<seq<Row>>)
    requires forall i :: 0 <= i < |chosen| ==> chosen[i] == m.MeasuredRow(chosen[i].items)
    ensures fitted.Some? ==> FittedRows(chosen, fitted.value, m, available)
    ensures (forall i :: 0 <= i < |chosen| ==> CanFit(chosen[i], m, available)) ==> fitted.Some?
  {
    var rows: seq<Row> := [];
    for i := 0 to |chosen|
      invariant |rows| == i && FittedRows(chosen[..i], rows, m, available)
    {
      var row := FitRow(m, chosen[i], available);
      if row.None? {
        return None;
      }
      rows := rows + [row.value];
    }
    assert chosen[..|chosen|] == chosen;
    fitted := Some(rows);
  }

  /** A row that fits as it is or with its texts shortened. */
  ghost predicate CanFit(row: Row, m: Metrics, available: real) {
    row.width <= available || (UniqueEllipsizable(row.items) && m.MinimumRowWidth(row) <= available)
  }

  /** Each row fits and differs from the chosen one only in shortened texts. */
  ghost predicate FittedRows(chosen: seq<Row>, rows: seq<Row>, m: Metrics, available: real) {
    && |rows| == |chosen|
    && forall i :: 0 <= i < |rows| ==> rows[i] == m.MeasuredRow(rows[i].items) && rows[i].width <= available
                                       && Shortened(chosen[i].items, rows[i].items)
                                       && FittedRow(m, chosen[i], available) == Some(rows[i])
  }

  /** The rows chosen hold all the items, in order. */
  lemma ChosenIsMeasured(rows: seq<Row>, m: Metrics, items: seq<Item>, available: real)
    requires Chosen(rows, m, items, available)
    ensures Flatten(rows) == items
    ensures forall i :: 0 <= i < |rows| ==> rows[i] == m.MeasuredRow(rows[i].items)
  {
    if m.MeasuredRow(items).width <= available {
      assert Flatten(rows[1..]) == [];
    } else if PreferredFits(m, items, available) {
      assert rows[1..][1..] == [];
      assert Flatten(rows[1..]) == rows[1].items + [];
      var n := EnvironmentCount(items);
      assert items[..n] + items[n..] == items;
    }
  }

  /** What the items of the rows laid out are: those of the content by tone, some texts shortened. */
  lemma {:induction false} FittedItems(chosen: seq<Row>, rows: seq<Row>, m: Metrics, available: real)
    requires FittedRows(chosen, rows, m, available)
    ensures Shortened(Flatten(chosen), Flatten(rows))
  {
    if rows != [] {
      FittedRest(chosen, rows, m, available);
      FittedItems(chosen[1..], rows[1..], m, available);
      hide FittedRows, Shortened;
      ShortenedTogether(chosen[0].items, rows[0].items, Flatten(chosen[1..]), Flatten(rows[1..]));
    }
  }

  lemma FittedRest(chosen: seq<Row>, rows: seq<Row>, m: Metrics, available: real)
    requires FittedRows(chosen, rows, m, available) && rows != []
    ensures FittedRows(chosen[1..], rows[1..], m, available) && Shortened(chosen[0].items, rows[0].items)
  {
    hide Shortened, FittedRow, Metrics.MeasuredRow;
  }

  lemma ShortenedTogether(a: seq<Item>, b: seq<Item>, c: seq<Item>, d: seq<Item>)
    requires Shortened(a, b) && Shortened(c, d)
    ensures Shortened(a + c, b + d)
  {}

  lemma {:induction false} RowIsPart(rows: seq<Row>, i: nat) returns (at: nat)
    requires i < |rows|
    ensures at + |rows[i].items| <= |Flatten(rows)| && Flatten(rows)[at..at + |rows[i].items|] == rows[i].items
  {
    if i == 0 {
      at := 0;
    } else {
      at := RowIsPart(rows[1..], i - 1);
      at := at + |rows[0].items|;
    }
  }

  /** The search's bound on minimum widths is what makes every later shortening succeed. */
  lemma ChosenRowsCanFit(rows: seq<Row>, m: Metrics, items: seq<Item>, available: real)
    requires Chosen(rows, m, items, available) && UniqueEllipsizable(items)
    ensures forall i :: 0 <= i < |rows| ==> CanFit(rows[i], m, available)
  {
    forall i | 0 <= i < |rows| && rows[i].width > available ensures CanFit(rows[i], m, available) {
      var at := RowIsPart(rows, i);
      assert forall k :: 0 <= k < |rows[i].items| ==> rows[i].items[k] == items[at..at + |rows[i].items|][k];
    }
  }
}
