/**
 The search of src/render/footer.rs for the split of footer items into a given number of rows whose
 widest row is narrowest.  Widths are exact reals; the glyph metrics are a parameter.
*/
module FooterSearch {
  import opened Prelude

  datatype Tone = Status | Condition | Temperature | Humidity | Time | Date

  datatype Item = Item(text: string, tone: Tone)

  datatype Row = Row(items: seq<Item>, width: real)

  const SEPARATOR := " · "
  const ELLIPSIS := "…"

  predicate Ellipsizable(tone: Tone) {
    tone == Status || tone == Condition
  }

  /** How wide each text comes out. */
  datatype Metrics = Metrics(measure: string -> real) {
    ghost predicate Valid() {
      forall s :: measure(s) >= 0.0
    }

    function ItemsWidth(items: seq<Item>): real {
      if items == [] then 0.0 else ItemsWidth(items[..|items| - 1]) + measure(items[|items| - 1].text)
    }

    function Separators(count: nat): real {
      if count == 0 then 0.0 else measure(SEPARATOR) * (count - 1) as real
    }

    function MeasuredRow(items: seq<Item>): Row {
      Row(items, ItemsWidth(items) + Separators(|items|))
    }

    function MinimumItemsWidth(items: seq<Item>): real {
      if items == [] then 0.0
      else
        var last := items[|items| - 1];
        MinimumItemsWidth(items[..|items| - 1]) + measure(if Ellipsizable(last.tone) then ELLIPSIS else last.text)
    }

    /** The width left when every text that may be shortened is just an ellipsis. */
    function MinimumRowWidth(row: Row): real {
      MinimumItemsWidth(row.items) + Separators(|row.items|)
    }

    predicate Feasible(rows: seq<Row>, available: real) {
      forall i :: 0 <= i < |rows| ==> MinimumRowWidth(rows[i]) <= available
    }
  }

  /** A row is as wide as its texts with a separator between any two; at least, with an ellipsis for each text that
      may be shortened. */
  lemma RowGrows(m: Metrics, items: seq<Item>, last: Item)
    ensures m.MeasuredRow([]) == Row([], 0.0) && m.MinimumRowWidth(Row([], 0.0)) == 0.0
    ensures var gap := if items == [] then 0.0 else m.measure(" · ");
            var least := if last.tone.Status? || last.tone.Condition? then m.measure("…") else m.measure(last.text);
            var row, longer := m.MeasuredRow(items), m.MeasuredRow(items + [last]);
            && longer.items == items + [last]
            && longer.width == row.width + gap + m.measure(last.text)
            && m.MinimumRowWidth(longer) == m.MinimumRowWidth(row) + gap + least
  {
    assert (items + [last])[..|items|] == items;
    if items != [] {
      assert m.Separators(|items| + 1) == m.Separators(|items|) + m.measure(SEPARATOR) by {
        var w, n := m.measure(SEPARATOR), |items|;
        assert (n as real) == (n - 1) as real + 1.0;
        assert w * (n as real) == w * ((n - 1) as real) + w;
      }
    }
  }

  // ----- splits

  function Flatten(rows: seq<Row>): seq<Item> {
    if rows == [] then [] else rows[0].items + Flatten(rows[1..])
  }

  /** All the items, in order, in exactly `count` non-empty measured rows. */
  ghost predicate IsSplit(rows: seq<Row>, items: seq<Item>, count: nat, m: Metrics) {
    && |rows| == count
    && Flatten(rows) == items
    && forall i :: 0 <= i < |rows| ==> rows[i].items != [] && rows[i] == m.MeasuredRow(rows[i].items)
  }

  /** The widest row, at least zero. */
  function Score(rows: seq<Row>): (r: real)
    ensures r >= 0.0 && forall i :: 0 <= i < |rows| ==> rows[i].width <= r
    ensures r == 0.0 || exists i :: 0 <= i < |rows| && rows[i].width == r
  {
    if rows == [] then 0.0
    else
      var rest := Score(rows[..|rows| - 1]);
      if rows[|rows| - 1].width > rest then rows[|rows| - 1].width else rest
  }

  /** Enumeration order: the first row that differs is shorter. */
  predicate Before(p: seq<Row>, q: seq<Row>) {
    p != [] && q != []
    && (|p[0].items| < |q[0].items| || (|p[0].items| == |q[0].items| && Before(p[1..], q[1..])))
  }

  predicate ShorterAt(p: seq<Row>, q: seq<Row>, k: nat) {
    && k < |p| && k < |q| && |p[k].items| < |q[k].items|
    && forall j :: 0 <= j < k ==> |p[j].items| == |q[j].items|
  }

  lemma ShorterLater(p: seq<Row>, q: seq<Row>, k: nat)
    requires p != [] && q != []
    ensures ShorterAt(p, q, k + 1) <==> |p[0].items| == |q[0].items| && ShorterAt(p[1..], q[1..], k)
  {
    if |p[0].items| == |q[0].items| && ShorterAt(p[1..], q[1..], k) {
      forall j | 0 < j < k + 1 ensures |p[j].items| == |q[j].items| {
        assert p[j] == p[1..][j - 1] && q[j] == q[1..][j - 1];
      }
    }
  }

  /** Of two splits the one comes first whose first row of another length is shorter. */
  lemma {:induction false} BeforeMeans(p: seq<Row>, q: seq<Row>)
    ensures Before(p, q) <==> exists k: nat :: ShorterAt(p, q, k)
  {
    if p != [] && q != [] {
      BeforeMeans(p[1..], q[1..]);
      if k: nat :| ShorterAt(p, q, k) {
        if k > 0 { ShorterLater(p, q, k - 1); }
      }
      if k: nat :| ShorterAt(p[1..], q[1..], k) {
        ShorterLater(p, q, k);
      }
      assert |p[0].items| < |q[0].items| ==> ShorterAt(p, q, 0);
    }
  }

  /** The best split there is: none is narrower, and those as narrow come later. */
  ghost predicate IsBest(p: seq<Row>, items: seq<Item>, count: nat, m: Metrics, available: real) {
    && IsSplit(p, items, count, m) && m.Feasible(p, available)
    && forall q :: IsSplit(q, items, count, m) && m.Feasible(q, available) && q != p ==>
                     Score(p) < Score(q) || (Score(p) == Score(q) && Before(p, q))
  }

  // ----- the enumeration as a list

  function Prefixed(prefix: seq<Row>, list: seq<seq<Row>>): seq<seq<Row>> {
    seq(|list|, i requires 0 <= i < |list| => prefix + list[i])
  }

  /** The splits in the order the search visits them. */
  function Partitions(m: Metrics, items: seq<Item>, count: nat): seq<seq<Row>>
    requires 1 <= count <= |items|
    decreases count, 0, 0
  {
    if count == 1 then [[m.MeasuredRow(items)]] else PartitionsFrom(m, items, count, 1)
  }

  function PartitionsFrom(m: Metrics, items: seq<Item>, count: nat, split: nat): seq<seq<Row>>
    requires 2 <= count <= |items| && 1 <= split <= |items| - count + 2
    decreases count - 1, 1, |items| - split
  {
    if split > |items| - count + 1 then []
    else Prefixed([m.MeasuredRow(items[..split])], Partitions(m, items[split..], count - 1))
         + PartitionsFrom(m, items, count, split + 1)
  }

  lemma PrefixedByNothing(list: seq<seq<Row>>)
    ensures Prefixed([], list) == list
  {
    assert forall i :: 0 <= i < |list| ==> [] + list[i] == list[i];
  }

  ghost predicate Ascending(list: seq<seq<Row>>) {
    forall i, j :: 0 <= i < j < |list| ==> Before(list[i], list[j])
  }

  lemma {:induction false} PartitionsAreSplits(m: Metrics, items: seq<Item>, count: nat, i: nat)
    requires 1 <= count <= |items| && i < |Partitions(m, items, count)|
    ensures IsSplit(Partitions(m, items, count)[i], items, count, m)
    decreases count, 0, 0
  {
    if count == 1 {
      var p := Partitions(m, items, count)[i];
      assert p[1..] == [];
    } else {
      FromAreSplits(m, items, count, 1, i);
    }
  }

  lemma {:induction false} FromAreSplits(m: Metrics, items: seq<Item>, count: nat, split: nat, i: nat)
    requires 2 <= count <= |items| && 1 <= split <= |items| - count + 2 && i < |PartitionsFrom(m, items, count, split)|
    ensures var p := PartitionsFrom(m, items, count, split)[i];
            IsSplit(p, items, count, m) && |p[0].items| >= split
    decreases count - 1, 1, |items| - split
  {
    var head := [m.MeasuredRow(items[..split])];
    var tails := Partitions(m, items[split..], count - 1);
    if i < |tails| {
      PartitionsAreSplits(m, items[split..], count - 1, i);
      var p := head + tails[i];
      assert p[1..] == tails[i];
      assert items[..split] + items[split..] == items;
    } else {
      FromAreSplits(m, items, count, split + 1, i - |tails|);
    }
  }

  /** The search misses no split. */
  lemma {:induction false} SplitIsVisited(m: Metrics, items: seq<Item>, count: nat, p: seq<Row>) returns (i: nat)
    requires 1 <= count <= |items| && IsSplit(p, items, count, m)
    ensures i < |Partitions(m, items, count)| && Partitions(m, items, count)[i] == p
    decreases count, 0, 0
  {
    if count == 1 {
      assert p == [p[0]] && Flatten(p[1..]) == [] && p[0].items + [] == p[0].items;
      i := 0;
    } else {
      i := SplitIsVisitedFrom(m, items, count, 1, p);
    }
  }

  lemma {:induction false} SplitIsVisitedFrom(m: Metrics, items: seq<Item>, count: nat, split: nat, p: seq<Row>)
    returns (i: nat)
    requires 2 <= count <= |items| && IsSplit(p, items, count, m) && 1 <= split <= |p[0].items|
    requires split <= |items| - count + 2
    ensures i < |PartitionsFrom(m, items, count, split)| && PartitionsFrom(m, items, count, split)[i] == p
    decreases count - 1, 1, |items| - split
  {
    var rest := p[1..];
    FlattenIsLong(rest);
    var tails := Partitions(m, items[split..], count - 1);
    if |p[0].items| == split {
      assert items[..split] == p[0].items && items[split..] == Flatten(rest);
      i := SplitIsVisited(m, items[split..], count - 1, rest);
      assert p == [p[0]] + rest;
    } else {
      var j := SplitIsVisitedFrom(m, items, count, split + 1, p);
      i := |tails| + j;
    }
  }

  lemma {:induction false} FlattenIsLong(rows: seq<Row>)
    requires forall i :: 0 <= i < |rows| ==> rows[i].items != []
    ensures |Flatten(rows)| >= |rows|
  {
    if rows != [] { FlattenIsLong(rows[1..]); }
  }

  /** The list is in enumeration order. */
  lemma {:induction false} PartitionsAscend(m: Metrics, items: seq<Item>, count: nat)
    requires 1 <= count <= |items|
    ensures Ascending(Partitions(m, items, count))
    decreases count, 0, 0
  {
    if count > 1 { FromAscends(m, items, count, 1); }
  }

  lemma {:induction false} FromAscends(m: Metrics, items: seq<Item>, count: nat, split: nat)
    requires 2 <= count <= |items| && 1 <= split <= |items| - count + 2
    ensures Ascending(PartitionsFrom(m, items, count, split))
    decreases count - 1, 1, |items| - split
  {
    if split <= |items| - count + 1 {
      var head := [m.MeasuredRow(items[..split])];
      var tails := Partitions(m, items[split..], count - 1);
      var later := PartitionsFrom(m, items, count, split + 1);
      PartitionsAscend(m, items[split..], count - 1);
      FromAscends(m, items, count, split + 1);
      var all := PartitionsFrom(m, items, count, split);
      assert all == Prefixed(head, tails) + later;
      forall i, j | 0 <= i < j < |all| ensures Before(all[i], all[j]) {
        if j < |tails| {
          assert all[i][1..] == tails[i] && all[j][1..] == tails[j];
        } else if i < |tails| {
          FromAreSplits(m, items, count, split + 1, j - |tails|);
        }
      }
    }
  }

  // ----- keeping the best

  function Consider(m: Metrics, available: real, rows: seq<Row>,
                    best: Option<(real, seq<Row>)>): Option<(real, seq<Row>)> {
    if !m.Feasible(rows, available) then best
    else if best.None? || Score(rows) < best.value.0 then Some((Score(rows), rows))
    else best
  }

  /** What is best after visiting a list. */
  function FirstBest(m: Metrics, available: real, list: seq<seq<Row>>): Option<(real, seq<Row>)> {
    if list == [] then None
    else Consider(m, available, list[|list| - 1], FirstBest(m, available, list[..|list| - 1]))
  }

  /** It is feasible, none of the list is narrower, and any as narrow stands later in it. */
  lemma {:induction false} FirstBestFacts(m: Metrics, available: real, list: seq<seq<Row>>)
    ensures var best := FirstBest(m, available, list);
            if best.None? then forall i :: 0 <= i < |list| ==> !m.Feasible(list[i], available)
            else exists k :: && 0 <= k < |list| && list[k] == best.value.1 && best.value.0 == Score(list[k])
                             && LeadsAt(m, available, list, k)
  {
    hide Score, Metrics.Feasible;
    if list != [] {
      var init, last := list[..|list| - 1], list[|list| - 1];
      FirstBestFacts(m, available, init);
      var before := FirstBest(m, available, init);
      if m.Feasible(last, available) && (before.None? || Score(last) < before.value.0) {
        assert LeadsAt(m, available, list, |list| - 1);
      } else if before.Some? {
        var k :| 0 <= k < |init| && init[k] == before.value.1 && before.value.0 == Score(init[k])
            && LeadsAt(m, available, init, k);
        assert LeadsAt(m, available, list, k);
      }
    }
  }

  ghost predicate LeadsAt(m: Metrics, available: real, list: seq<seq<Row>>, k: nat)
    requires k < |list|
  {
    && m.Feasible(list[k], available)
    && forall i :: 0 <= i < |list| && m.Feasible(list[i], available) ==>
                     if i < k then Score(list[k]) < Score(list[i]) else Score(list[k]) <= Score(list[i])
  }

  // ----- the search

  class Search {
    const m: Metrics
    const items: seq<Item>
    const available: real
    /** The rows chosen so far on the current branch. */
    var rows: seq<Row>
    var best: Option<(real, seq<Row>)>
    /** Every split considered, in order. */
    ghost var visited: seq<seq<Row>>

    ghost predicate Valid()
      reads this
    {
      best == FirstBest(m, available, visited)
    }

    constructor (m: Metrics, items: seq<Item>, available: real)
      ensures Valid() && rows == [] && visited == [] && best == None
      ensures this.m == m && this.items == items && this.available == available
    {
      this.m, this.items, this.available := m, items, available;
      rows, best, visited := [], None, [];
    }

    method ConsiderPartition()
      requires Valid()
      modifies this`best, this`visited
      ensures Valid() && visited == old(visited) + [rows]
    {
      assert (visited + [rows])[..|visited|] == visited;
      visited := visited + [rows];
      for i := 0 to |rows|
        invariant forall j :: 0 <= j < i ==> m.MinimumRowWidth(rows[j]) <= available
        invariant best == old(best) && visited == old(visited) + [rows]
      {
        if m.MinimumRowWidth(rows[i]) > available {
          return;
        }
      }
      var score := Score(rows);
      if best.None? || score < best.value.0 {
        best := Some((score, rows));
      }
    }

    /** The last row takes all that is left. */
    method VisitRemainder(start: nat)
      requires Valid() && start < |items|
      modifies this
      ensures Valid() && rows == old(rows)
      ensures visited == old(visited) + Prefixed(rows, Partitions(m, items[start..], 1))
    {
      rows := rows + [m.MeasuredRow(items[start..])];
      ConsiderPartition();
      rows := rows[..|rows| - 1];
      assert rows == old(rows);
    }

    /** Visits every way of splitting the items from `start` on into `remaining` rows. */
    method EnumeratePartitions(remaining: nat, start: nat)
      requires Valid() && start <= |items| && 1 <= remaining <= |items| - start
      modifies this
      ensures Valid() && rows == old(rows)
      ensures visited == old(visited) + Prefixed(rows, Partitions(m, items[start..], remaining))
      decreases remaining, 1
    {
      if remaining == 1 {
        VisitRemainder(start);
        return;
      }
      hide *;
      var lastSplit := |items| - remaining + 1;
      ghost var prefix, all := rows, old(visited) + Prefixed(rows, Partitions(m, items[start..], remaining));
      BranchesFromFirst(rows, start, remaining);
      for split := start + 1 to lastSplit + 1
        invariant Valid() && rows == prefix
        invariant visited + Branches(prefix, start, remaining, split) == all
      {
        BranchesSplit(prefix, start, remaining, split);
        ghost var before := visited;
        VisitBranch(split, start, remaining);
        Associate(before, visited[|before|..], Branches(prefix, start, remaining, split + 1));
      }
      NoBranchLeft(prefix, start, remaining);
    }

    /** The first remaining row ends at `split`. */
    method VisitBranch(split: nat, start: nat, remaining: nat)
      requires Valid() && 2 <= remaining && start < split <= |items| - remaining + 1
      modifies this
      ensures Valid() && rows == old(rows)
      ensures visited == old(visited)
                         + Prefixed(rows + [m.MeasuredRow(items[start..split])],
                             Partitions(m, items[split..], remaining - 1))
      decreases remaining, 0
    {
      rows := rows + [m.MeasuredRow(items[start..split])];
      EnumeratePartitions(remaining - 1, split);
      rows := rows[..|rows| - 1];
      assert rows == old(rows);
    }

    /** What is still to be visited below `prefix` when the first remaining row ends at `split` or later. */
    ghost function Branches(prefix: seq<Row>, start: nat, remaining: nat, split: nat): seq<seq<Row>>
      requires 2 <= remaining && start < split <= |items| - remaining + 2 && remaining <= |items| - start
    {
      Prefixed(prefix, PartitionsFrom(m, items[start..], remaining, split - start))
    }

    lemma BranchesFromFirst(prefix: seq<Row>, start: nat, remaining: nat)
      requires 2 <= remaining <= |items| - start
      ensures Prefixed(prefix, Partitions(m, items[start..], remaining))
              == Branches(prefix, start, remaining, start + 1)
    {}

    lemma NoBranchLeft(prefix: seq<Row>, start: nat, remaining: nat)
      requires 2 <= remaining <= |items| - start
      ensures Branches(prefix, start, remaining, |items| - remaining + 2) == []
    {}

    /** One branch's share of the list, seen from the prefix of rows before it. */
    lemma BranchesSplit(prefix: seq<Row>, start: nat, remaining: nat, split: nat)
      requires 2 <= remaining && start < split <= |items| - remaining + 1
      ensures Branches(prefix, start, remaining, split)
              == Prefixed(prefix + [m.MeasuredRow(items[start..split])], Partitions(m, items[split..], remaining - 1))
                 + Branches(prefix, start, remaining, split + 1)
    {
      assert items[start..][..split - start] == items[start..split]
             && items[start..][split - start..] == items[split..];
      var head := m.MeasuredRow(items[start..split]);
      var tails := Partitions(m, items[split..], remaining - 1);
      forall i | 0 <= i < |tails| ensures prefix + ([head] + tails[i]) == prefix + [head] + tails[i] {}
    }
  }

  /** best_ordered_rows: the best split into `count` rows, or None when no split is feasible. */
  method BestOrderedRows(m: Metrics, items: seq<Item>, available: real, count: nat) returns (r: Option<seq<Row>>)
    ensures r.Some? ==> IsBest(r.value, items, count, m, available)
    ensures r.None? ==> forall p :: IsSplit(p, items, count, m) ==> count == 0 || !m.Feasible(p, available)
  {
    if count == 0 || count > |items| {
      if count > 0 { TooManyRows(m, items, count); }
      return None;
    }
    var search := new Search(m, items, available);
    search.EnumeratePartitions(count, 0);
    assert items[0..] == items;
    PrefixedByNothing(Partitions(m, items, count));
    assert search.visited == Partitions(m, items, count);
    VisitedBestIsBest(m, items, available, count);
    r := if search.best.None? then None else Some(search.best.value.1);
  }

  lemma TooManyRows(m: Metrics, items: seq<Item>, count: nat)
    requires count > |items|
    ensures forall p :: !IsSplit(p, items, count, m)
  {
    forall p ensures !IsSplit(p, items, count, m) {
      if IsSplit(p, items, count, m) { FlattenIsLong(p); }
    }
  }

  /** The best of the enumeration is the best of all splits. */
  lemma VisitedBestIsBest(m: Metrics, items: seq<Item>, available: real, count: nat)
    requires 1 <= count <= |items|
    ensures var best := FirstBest(m, available, Partitions(m, items, count));
            if best.None? then forall p :: IsSplit(p, items, count, m) ==> !m.Feasible(p, available)
            else IsBest(best.value.1, items, count, m, available)
  {
    var list := Partitions(m, items, count);
    var best := FirstBest(m, available, list);
    FirstBestFacts(m, available, list);
    PartitionsAscend(m, items, count);
    if best.None? {
      forall p | IsSplit(p, items, count, m) ensures !m.Feasible(p, available) {
        var i := SplitIsVisited(m, items, count, p);
      }
    } else {
      var k :| 0 <= k < |list| && list[k] == best.value.1 && best.value.0 == Score(list[k])
          && LeadsAt(m, available, list, k);
      PartitionsAreSplits(m, items, count, k);
      forall q | IsSplit(q, items, count, m) && m.Feasible(q, available) && q != list[k]
        ensures Score(list[k]) < Score(q) || (Score(list[k]) == Score(q) && Before(list[k], q))
      {
        var i := SplitIsVisited(m, items, count, q);
      }
    }
  }
}
