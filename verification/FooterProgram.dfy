/**
 The footer the program draws: the content of src/weather.rs handed to the layout of src/render/footer.rs. The
 words for a reading and for a time of day are given functions.
*/
module FooterProgram {
  import opened Prelude
  import opened RuntimeTypes
  import opened Sorting
  import opened FooterSearch
  import opened FooterLayout
  import FrameCache

  datatype Wording = Wording(environment: FrameCache.EnvironmentItem -> string,
                             temporal: FrameCache.TemporalItem -> string)

  function EnvironmentTone(item: FrameCache.EnvironmentItem): Tone {
    match item
    case NoReading => Status
    case StaleReading => Status
    case Condition(_) => Tone.Condition
    case Temperature(_, _) => Tone.Temperature
    case Humidity(_) => Tone.Humidity
  }

  function TemporalTone(item: FrameCache.TemporalItem): Tone {
    match item
    case Time(_, _, _) => Tone.Time
    case Date(_) => Tone.Date
  }

  function EnvironmentPart(w: Wording, items: seq<FrameCache.EnvironmentItem>): (r: seq<Item>)
    ensures |r| == |items|
    ensures forall i :: 0 <= i < |r| ==> r[i] == Item(w.environment(items[i]), EnvironmentTone(items[i]))
  {
    seq(|items|, i requires 0 <= i < |items| => Item(w.environment(items[i]), EnvironmentTone(items[i])))
  }

  function TemporalPart(w: Wording, items: seq<FrameCache.TemporalItem>): (r: seq<Item>)
    ensures |r| == |items|
    ensures forall i :: 0 <= i < |r| ==> r[i] == Item(w.temporal(items[i]), TemporalTone(items[i]))
  {
    seq(|items|, i requires 0 <= i < |items| => Item(w.temporal(items[i]), TemporalTone(items[i])))
  }

  /** The items in the order the layout receives them. */
  function Items(w: Wording, footer: FooterSettings, reading: Option<EnvironmentReading>, now: nat,
                 unix: nat): seq<Item> {
    var content := FrameCache.FooterContentOf(footer, reading, now, unix);
    EnvironmentPart(w, content.environment) + TemporalPart(w, content.temporal)
  }

  /** Each part of the content becomes one item, in its words and its tone; the two notices about a reading share one
      tone. */
  lemma ItemsAre(w: Wording, footer: FooterSettings, reading: Option<EnvironmentReading>, now: nat, unix: nat, i: nat)
    ensures var content := FrameCache.FooterContentOf(footer, reading, now, unix);
            var items, n := Items(w, footer, reading, now, unix), |content.environment|;
            && |items| == n + |content.temporal|
            && (i < n ==>
                  && items[i].text == w.environment(content.environment[i])
                  && items[i].tone == match content.environment[i]
                                      case NoReading => Status
                                      case StaleReading => Status
                                      case Condition(_) => Tone.Condition
                                      case Temperature(_, _) => Tone.Temperature
                                      case Humidity(_) => Tone.Humidity)
            && (n <= i < |items| ==>
                  && items[i].text == w.temporal(content.temporal[i - n])
                  && items[i].tone == if content.temporal[i - n].Time? then Tone.Time else Tone.Date)
  {
    hide FrameCache.EnvironmentItems, FrameCache.TemporalItems;
  }

  /** Two items of a tone are both among the items of that tone. */
  lemma {:induction false} TwoOfTone(items: seq<Item>, tone: Tone, i: nat, j: nat)
    requires i < j < |items| && items[i].tone == tone && items[j].tone == tone
    ensures |OfTone(items, tone)| >= 2
  {
    if i == 0 {
      OneOfTone(items[1..], tone, j - 1);
    } else {
      TwoOfTone(items[1..], tone, i - 1, j - 1);
    }
  }

  lemma {:induction false} OneOfTone(items: seq<Item>, tone: Tone, i: nat)
    requires i < |items| && items[i].tone == tone
    ensures |OfTone(items, tone)| >= 1
  {
    if i > 0 {
      OneOfTone(items[1..], tone, i - 1);
    }
  }

  lemma {:induction false} NoneOfTone(items: seq<Item>, tone: Tone)
    requires forall i :: 0 <= i < |items| ==> items[i].tone != tone
    ensures OfTone(items, tone) == []
  {
    if items != [] {
      NoneOfTone(items[1..], tone);
    }
  }

  lemma {:induction false} AtMostOneOfTone(items: seq<Item>, tone: Tone)
    requires forall i, j :: 0 <= i < j < |items| && items[i].tone == tone ==> items[j].tone != tone
    ensures |OfTone(items, tone)| <= 1
  {
    if items != [] {
      if items[0].tone == tone {
        NoneOfTone(items[1..], tone);
      } else {
        AtMostOneOfTone(items[1..], tone);
      }
    }
  }

  /** The content has at most one status and one condition. */
  lemma ContentIsUnique(w: Wording, footer: FooterSettings, reading: Option<EnvironmentReading>, now: nat, unix: nat)
    ensures UniqueEllipsizable(Items(w, footer, reading, now, unix))
  {
    hide FrameCache.EnvironmentIsStale, FrameCache.TemporalItems;
    var environment := FrameCache.EnvironmentItems(footer, reading, now);
    assert forall i, j :: 0 <= i < j < |environment| && Ellipsizable(EnvironmentTone(environment[i])) ==>
                            EnvironmentTone(environment[i]) != EnvironmentTone(environment[j]);
  }

  /** Sorting by tone does not bring a second one in. */
  lemma SortedIsUnique(items: seq<Item>)
    requires UniqueEllipsizable(items)
    ensures UniqueEllipsizable(SortByTone(items))
  {
    var sorted := SortByTone(items);
    forall i, j | 0 <= i < j < |sorted| && Ellipsizable(sorted[i].tone) ensures sorted[i].tone != sorted[j].tone {
      if sorted[i].tone == sorted[j].tone {
        var tone := sorted[i].tone;
        TwoOfTone(sorted, tone, i, j);
        SortByToneIsStable(items, tone);
        AtMostOneOfTone(items, tone);
      }
    }
  }

  /** layout_footer on the program's own content: there is a layout exactly when there is something to show and no
      single item is too wide. */
  method LayoutProgramFooter(m: Metrics, w: Wording, footer: FooterSettings, reading: Option<EnvironmentReading>,
                             now: nat, unix: nat, maximumWidth: real)
    returns (r: Option<Layout>)
    requires m.Valid()
    ensures var items := SortByTone(Items(w, footer, reading, now, unix));
            var available := maximumWidth - 24.0;
            && (r.Some? ==> exists chosen :: Chosen(chosen, m, items, available)
                                             && FittedRows(chosen, r.value.rows, m, available)
                                             && r.value.railWidth == Score(r.value.rows) + 24.0)
            && (r.Some? ==> Shortened(items, Flatten(r.value.rows)))
            && (r.None? <==> items == [] || Hopeless(m, items, available))
  {
    hide Chosen, FittedRows, Hopeless, UniqueEllipsizable, Items;
    var items := Items(w, footer, reading, now, unix);
    ContentIsUnique(w, footer, reading, now, unix);
    SortedIsUnique(items);
    assert |multiset(SortByTone(items))| == |multiset(items)|;
    r := LayoutFooter(m, items, maximumWidth);
  }
}
