/** The long-to-wide pivot run once the CSV is parsed, and the list of
    distinct assets that decides which lines are drawn. */
module Pivot {
  import opened Table
  import opened Sorting

  /** A row takes part in the pivot only with a truthy date and asset. */
  predicate Kept(r: Row)
  {
    Truthy(r.date) && Truthy(r.asset)
  }

  /** The dates of the kept rows. */
  function KeptDates(rows: seq<Row>): (ds: set<string>)
    ensures forall j :: 0 <= j < |rows| && Kept(rows[j]) ==> rows[j].date in ds
    ensures forall d :: d in ds ==> exists j :: 0 <= j < |rows| && Kept(rows[j]) && rows[j].date == d
  {
    if rows == [] then {}
    else
      var init := rows[..|rows| - 1];
      var r := rows[|rows| - 1];
      var prev := KeptDates(init);
      assert forall j :: 0 <= j < |init| ==> init[j] == rows[j];
      prev + (if Kept(r) then {r.date} else {})
  }

  /** The dates of the kept rows in row order, repetitions included: the
      order in which the pivot meets them. Its members are given by
      `KeptDateColumnMembers`; the contract here only bounds its length. */
  function KeptDateColumn(rows: seq<Row>): (column: seq<string>)
    ensures |column| <= |rows|
  {
    if rows == [] then []
    else KeptDateColumn(rows[..|rows| - 1]) + (if Kept(rows[|rows| - 1]) then [rows[|rows| - 1].date] else [])
  }

  /** The column holds exactly the kept dates. */
  lemma {:induction false} KeptDateColumnMembers(rows: seq<Row>)
    ensures forall d :: d in KeptDateColumn(rows) <==> d in KeptDates(rows)
  {
    if rows != [] {
      var init := rows[..|rows| - 1];
      KeptDateColumnMembers(init);
      assert forall j :: 0 <= j < |init| ==> init[j] == rows[j];
    }
  }

  /** Row `r` is kept and is for date `d` and asset `a`. */
  predicate Matches(r: Row, d: string, a: string)
  {
    Kept(r) && r.date == d && r.asset == a
  }

  /** Row `j` is the last kept row for date `d` and asset `a`. */
  ghost predicate LastMatch(rows: seq<Row>, j: int, d: string, a: string)
    requires 0 <= j < |rows|
  {
    && Matches(rows[j], d, a)
    && forall j' :: j < j' < |rows| ==> !Matches(rows[j'], d, a)
  }

  /** The price of the last kept row for date `d` and asset `a`, if any: later
      rows overwrite earlier ones. */
  function LastPrice(rows: seq<Row>, d: string, a: string): (p: Option<Cell>)
    ensures p.None? <==> forall j :: 0 <= j < |rows| ==> !Matches(rows[j], d, a)
    ensures p.Some? ==> exists j :: 0 <= j < |rows| && LastMatch(rows, j, d, a) && rows[j].price == p.value
  {
    if rows == [] then None
    else
      var r := rows[|rows| - 1];
      if Matches(r, d, a) then
        assert LastMatch(rows, |rows| - 1, d, a);
        Some(r.price)
      else
        var init := rows[..|rows| - 1];
        var p := LastPrice(init, d, a);
        assert forall j :: 0 <= j < |init| ==> init[j] == rows[j];
        assert p.Some? ==> exists j :: 0 <= j < |rows| && LastMatch(rows, j, d, a) && rows[j].price == p.value by {
          if p.Some? {
            var j :| 0 <= j < |init| && LastMatch(init, j, d, a) && init[j].price == p.value;
            assert LastMatch(rows, j, d, a);
          }
        }
        p
  }

  /** The record's position in the chart: the day its date stands for. */
  function DayKey(dayOf: string -> int): WideRecord -> int
  {
    (r: WideRecord) => dayOf(r.date)
  }

  function DateOf(r: WideRecord): string
  {
    r.date
  }

  lemma LastPriceStep(rows: seq<Row>, i: int, d: string, a: string)
    requires 0 <= i < |rows|
    ensures LastPrice(rows[..i + 1], d, a)
         == if Matches(rows[i], d, a) then Some(rows[i].price) else LastPrice(rows[..i], d, a)
  {
    assert rows[..i + 1][..i] == rows[..i];
  }

  /** The `forEach` over the rows: fills the date-to-record dictionary and
      returns it with its dates in insertion order, which is the order in
      which `Object.values` lists the records. */
  method Group(rows: seq<Row>) returns (grouped: map<string, map<string, Cell>>, order: seq<string>)
    ensures grouped.Keys == KeptDates(rows)
    ensures order == Distinct(KeptDateColumn(rows))
    ensures forall d :: d in grouped <==> d in order
    ensures forall p, q :: 0 <= p < q < |order| ==> order[p] != order[q]
    ensures forall d, a :: d in grouped ==> Lookup(grouped[d], a) == LastPrice(rows, d, a)
  {
    grouped, order := map[], [];
    var i := 0;
    while i < |rows|
      invariant 0 <= i <= |rows|
      invariant GroupedUpTo(rows, i, grouped, order)
    {
      var row := rows[i];
      ghost var before, orderBefore := grouped, order;
      if Kept(row) {
        if row.date !in grouped {
          grouped := grouped[row.date := map[]];
          order := order + [row.date];
        }
        grouped := grouped[row.date := grouped[row.date][row.asset := row.price]];
      }
      GroupStep(rows, i, before, orderBefore, grouped, order);
      i := i + 1;
    }
    assert rows[..i] == rows;
    KeptDateColumnMembers(rows);
    DistinctProperties(KeptDateColumn(rows));
  }

  /** The loop invariant of `Group` after `i` rows. */
  ghost predicate GroupedUpTo(rows: seq<Row>, i: int, grouped: map<string, map<string, Cell>>, order: seq<string>)
    requires 0 <= i <= |rows|
  {
    && grouped.Keys == KeptDates(rows[..i])
    && order == Distinct(KeptDateColumn(rows[..i]))
    && forall d, a :: d in grouped ==> Lookup(grouped[d], a) == LastPrice(rows[..i], d, a)
  }

  /** One pass of the loop body of `Group` keeps its invariant. */
  lemma GroupStep(rows: seq<Row>, i: int,
                  before: map<string, map<string, Cell>>, orderBefore: seq<string>,
                  after: map<string, map<string, Cell>>, orderAfter: seq<string>)
    requires 0 <= i < |rows|
    requires GroupedUpTo(rows, i, before, orderBefore)
    requires !Kept(rows[i]) ==> after == before && orderAfter == orderBefore
    requires Kept(rows[i]) ==>
      && after.Keys == before.Keys + {rows[i].date}
      && after[rows[i].date]
         == (if rows[i].date in before then before[rows[i].date] else map[])[rows[i].asset := rows[i].price]
      && (forall d :: d in before && d != rows[i].date ==> after[d] == before[d])
      && orderAfter == if rows[i].date in before then orderBefore else orderBefore + [rows[i].date]
    ensures GroupedUpTo(rows, i + 1, after, orderAfter)
  {
    GroupOrderStep(rows, i, orderBefore);
    KeptDatesStep(rows, i);
    if Kept(rows[i]) {
      GroupPricesStep(rows, i, before, after);
    } else {
      GroupPricesSkip(rows, i, after);
    }
  }

  /** A kept row stores its price under its date and asset; every other
      stored price stays the last one given. */
  lemma GroupPricesStep(rows: seq<Row>, i: int, before: map<string, map<string, Cell>>, after: map<string, map<string, Cell>>)
    requires 0 <= i < |rows| && Kept(rows[i])
    requires before.Keys == KeptDates(rows[..i])
    requires forall d, a :: d in before ==> Lookup(before[d], a) == LastPrice(rows[..i], d, a)
    requires after.Keys == before.Keys + {rows[i].date}
    requires after[rows[i].date]
          == (if rows[i].date in before then before[rows[i].date] else map[])[rows[i].asset := rows[i].price]
    requires forall d :: d in before && d != rows[i].date ==> after[d] == before[d]
    ensures forall d, a :: d in after ==> Lookup(after[d], a) == LastPrice(rows[..i + 1], d, a)
  {
    forall d, a | d in after
      ensures Lookup(after[d], a) == LastPrice(rows[..i + 1], d, a)
    {
      LastPriceStep(rows, i, d, a);
      if d == rows[i].date && rows[i].date !in before {
        assert forall j :: 0 <= j < i ==> !Matches(rows[..i][j], d, a);
      }
    }
  }

  /** A skipped row changes no stored price. */
  lemma GroupPricesSkip(rows: seq<Row>, i: int, grouped: map<string, map<string, Cell>>)
    requires 0 <= i < |rows| && !Kept(rows[i])
    requires forall d, a :: d in grouped ==> Lookup(grouped[d], a) == LastPrice(rows[..i], d, a)
    ensures forall d, a :: d in grouped ==> Lookup(grouped[d], a) == LastPrice(rows[..i + 1], d, a)
  {
    forall d, a | d in grouped
      ensures Lookup(grouped[d], a) == LastPrice(rows[..i + 1], d, a)
    {
      LastPriceStep(rows, i, d, a);
    }
  }

  /** One row's effect on the set of kept dates. */
  lemma KeptDatesStep(rows: seq<Row>, i: int)
    requires 0 <= i < |rows|
    ensures KeptDates(rows[..i + 1]) == KeptDates(rows[..i]) + if Kept(rows[i]) then {rows[i].date} else {}
  {
    assert rows[..i + 1][..i] == rows[..i];
  }

  /** One row's effect on the insertion order: a kept row with a new date
      appends that date, every other row leaves the order as it is. */
  lemma GroupOrderStep(rows: seq<Row>, i: int, order: seq<string>)
    requires 0 <= i < |rows|
    requires order == Distinct(KeptDateColumn(rows[..i]))
    ensures Distinct(KeptDateColumn(rows[..i + 1]))
         == if Kept(rows[i]) && rows[i].date !in KeptDates(rows[..i]) then order + [rows[i].date] else order
  {
    var c := KeptDateColumn(rows[..i]);
    KeptDateColumnMembers(rows[..i]);
    DistinctProperties(c);
    assert rows[..i + 1][..i] == rows[..i];
    assert KeptDateColumn(rows[..i + 1]) == c + (if Kept(rows[i]) then [rows[i].date] else []);
    if Kept(rows[i]) {
      DistinctSnoc(c, rows[i].date);
      assert rows[i].date in Distinct(c) <==> rows[i].date in KeptDates(rows[..i]);
    } else {
      assert c + [] == c;
    }
  }

  /** `Object.values` of the dictionary: its records in insertion order. */
  function Values(grouped: map<string, map<string, Cell>>, order: seq<string>): (rs: seq<WideRecord>)
    requires forall d :: d in order ==> d in grouped
    requires forall p, q :: 0 <= p < q < |order| ==> order[p] != order[q]
    ensures |rs| == |order|
    ensures forall k :: 0 <= k < |order| ==> rs[k] == WideRecord(order[k], grouped[order[k]])
    ensures DistinctBy(rs, DateOf)
  {
    seq(|order|, k requires 0 <= k < |order| => WideRecord(order[k], grouped[order[k]]))
  }

  /** Groups the kept rows by date into one record per date (the later row
      wins for a repeated date and asset), then sorts the records by the day
      `dayOf` gives their date. */
  method Pivot(rows: seq<Row>, dayOf: string -> int) returns (records: seq<WideRecord>)
    ensures forall i, j :: 0 <= i < j < |records| ==> dayOf(records[i].date) <= dayOf(records[j].date)
    ensures forall i, j :: 0 <= i < j < |records| ==> records[i].date != records[j].date
    ensures forall k :: 0 <= k < |records| ==> records[k].date in KeptDates(rows)
    ensures forall j :: 0 <= j < |rows| && Kept(rows[j]) ==>
      exists k :: 0 <= k < |records| && records[k].date == rows[j].date
    ensures forall k, a :: 0 <= k < |records| ==>
      Lookup(records[k].prices, a) == LastPrice(rows, records[k].date, a)
    ensures forall i, j :: 0 <= i < j < |records| && dayOf(records[i].date) == dayOf(records[j].date) ==>
      && records[i].date in KeptDateColumn(rows)
      && records[j].date in KeptDateColumn(rows)
      && FirstIndex(KeptDateColumn(rows), records[i].date) < FirstIndex(KeptDateColumn(rows), records[j].date)
  {
    var grouped, order := Group(rows);
    var inserted := Values(grouped, order);
    var key := DayKey(dayOf);
    records := SortBy(inserted, key);
    SortByDistinct(inserted, key, DateOf);
    assert forall i, j :: 0 <= i < j < |records| ==> key(records[i]) <= key(records[j]);
    SortByMembers(inserted, key);
    RecordsMatch(rows, grouped, order, inserted, records);
    KeptDateColumnMembers(rows);
    SortedTiesKeepOrder(KeptDateColumn(rows), order, inserted, dayOf);
  }

  /** Records drawn from the dictionary's values hold the kept dates, each
      with its last prices, and miss no kept date. */
  lemma RecordsMatch(rows: seq<Row>, grouped: map<string, map<string, Cell>>, order: seq<string>,
                     inserted: seq<WideRecord>, records: seq<WideRecord>)
    requires grouped.Keys == KeptDates(rows)
    requires forall d :: d in grouped <==> d in order
    requires forall d, a :: d in grouped ==> Lookup(grouped[d], a) == LastPrice(rows, d, a)
    requires |inserted| == |order|
    requires forall k :: 0 <= k < |order| ==> inserted[k] == WideRecord(order[k], grouped[order[k]])
    requires forall r :: r in records <==> r in inserted
    ensures forall k :: 0 <= k < |records| ==> records[k].date in KeptDates(rows)
    ensures forall j :: 0 <= j < |rows| && Kept(rows[j]) ==>
      exists k :: 0 <= k < |records| && records[k].date == rows[j].date
    ensures forall k, a :: 0 <= k < |records| ==>
      Lookup(records[k].prices, a) == LastPrice(rows, records[k].date, a)
  {
  }

  /** Records whose dates fall on the same day leave the sort in the order
      in which the row loop first met their dates. */
  lemma SortedTiesKeepOrder(column: seq<string>, order: seq<string>, inserted: seq<WideRecord>, dayOf: string -> int)
    requires order == Distinct(column)
    requires |inserted| == |order|
    requires forall k :: 0 <= k < |order| ==> inserted[k].date == order[k]
    ensures forall i, j :: (0 <= i < j < |SortBy(inserted, DayKey(dayOf))|
      && dayOf(SortBy(inserted, DayKey(dayOf))[i].date) == dayOf(SortBy(inserted, DayKey(dayOf))[j].date)) ==>
      && SortBy(inserted, DayKey(dayOf))[i].date in column
      && SortBy(inserted, DayKey(dayOf))[j].date in column
      && FirstIndex(column, SortBy(inserted, DayKey(dayOf))[i].date)
         < FirstIndex(column, SortBy(inserted, DayKey(dayOf))[j].date)
  {
    var key := DayKey(dayOf);
    var records := SortBy(inserted, key);
    DistinctProperties(column);
    forall i, j | 0 <= i < j < |records| && dayOf(records[i].date) == dayOf(records[j].date)
      ensures records[i].date in column && records[j].date in column
      ensures FirstIndex(column, records[i].date) < FirstIndex(column, records[j].date)
    {
      assert key(records[i]) == key(records[j]);
      SortByTieOrder(inserted, key, i, j);
      var a, b :| 0 <= a < b < |inserted| && inserted[a] == records[i] && inserted[b] == records[j];
      assert records[i].date == order[a] && records[j].date == order[b];
    }
  }

  /** The distinct elements of `xs` in first-occurrence order, as a `Set`
      built by inserting them one by one yields them. It is specified by
      `DistinctProperties` and `DistinctSnoc`; the contract here only bounds
      its length. */
  function Distinct(xs: seq<string>): (r: seq<string>)
    ensures |r| <= |xs|
  {
    if xs == [] then []
    else
      var prev := Distinct(xs[..|xs| - 1]);
      if xs[|xs| - 1] in prev then prev else prev + [xs[|xs| - 1]]
  }

  /** `Distinct` has no repetitions, the members of its input, and lists
      them in the order of their first occurrence. */
  lemma {:induction false} DistinctProperties(xs: seq<string>)
    ensures forall i, j :: 0 <= i < j < |Distinct(xs)| ==> Distinct(xs)[i] != Distinct(xs)[j]
    ensures forall x :: x in Distinct(xs) <==> x in xs
    ensures forall i, j :: 0 <= i < j < |Distinct(xs)| ==>
      FirstIndex(xs, Distinct(xs)[i]) < FirstIndex(xs, Distinct(xs)[j])
  {
    if xs != [] {
      var init := xs[..|xs| - 1];
      var x := xs[|xs| - 1];
      assert xs == init + [x];
      DistinctProperties(init);
      FirstIndexExtend(init, x);
    }
  }

  /** The position of the first occurrence of `x` in `xs`. */
  function FirstIndex(xs: seq<string>, x: string): (i: nat)
    requires x in xs
    ensures i < |xs| && xs[i] == x
    ensures forall j :: 0 <= j < i ==> xs[j] != x
  {
    if xs[0] == x then 0 else 1 + FirstIndex(xs[1..], x)
  }

  lemma {:induction false} FirstIndexExtend(xs: seq<string>, y: string)
    ensures forall x :: x in xs ==> FirstIndex(xs + [y], x) == FirstIndex(xs, x)
    ensures y !in xs ==> FirstIndex(xs + [y], y) == |xs|
  {
    forall x | x in xs ensures FirstIndex(xs + [y], x) == FirstIndex(xs, x) {
      var i := FirstIndex(xs, x);
      var i' := FirstIndex(xs + [y], x);
      assert (xs + [y])[i] == x;
    }
  }

  /** `Distinct` grows like a `Set` that is added to: a new element goes
      at the end, a known one changes nothing. */
  lemma DistinctSnoc(xs: seq<string>, x: string)
    ensures Distinct(xs + [x]) == if x in Distinct(xs) then Distinct(xs) else Distinct(xs) + [x]
  {
    assert (xs + [x])[..|xs|] == xs;
  }

  /** The `Asset` column of the rows, `data.map((r) => r.Asset)`. */
  function AssetColumn(rows: seq<Row>): (column: seq<string>)
    ensures |column| == |rows|
    ensures forall j :: 0 <= j < |rows| ==> column[j] == rows[j].asset
  {
    seq(|rows|, j requires 0 <= j < |rows| => rows[j].asset)
  }

  /** The assets to draw, one line each: every row's asset, including rows
      the pivot skipped, without repetition, in first-occurrence order. The
      position of an asset in this list picks its line colour. */
  function UniqueAssets(rows: seq<Row>): (assets: seq<string>)
    ensures forall i, j :: 0 <= i < j < |assets| ==> assets[i] != assets[j]
    ensures forall j :: 0 <= j < |rows| ==> rows[j].asset in assets
    ensures forall a :: a in assets ==> exists j :: 0 <= j < |rows| && rows[j].asset == a
    ensures forall a :: a in assets <==> a in AssetColumn(rows)
    ensures forall i, j :: 0 <= i < j < |assets| ==>
      FirstIndex(AssetColumn(rows), assets[i]) < FirstIndex(AssetColumn(rows), assets[j])
  {
    DistinctProperties(AssetColumn(rows));
    Distinct(AssetColumn(rows))
  }
}
