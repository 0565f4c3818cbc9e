/** The tooltip's list of entries for the hovered point: entries with a name
    and a finite value, highest value first, or nothing at all. */
module Tooltip {
  import opened Table
  import opened Sorting

  /** One payload entry of the hovered point: a series key, its value and
      the colour of its line. The colour is carried only for rendering; no
      operation here reads it. */
  datatype Entry = Entry(name: string, value: Cell, color: string)

  /** `entry.name && Number.isFinite(entry.value)`. */
  predicate Shown(e: Entry)
  {
    Truthy(e.name) && e.value.Num?
  }

  /** The entries that pass the filter, in payload order. */
  function ShownEntries(payload: seq<Entry>): (r: seq<Entry>)
    ensures forall e :: e in r <==> e in payload && Shown(e)
    ensures forall i :: 0 <= i < |r| ==> Shown(r[i])
    ensures |r| <= |payload|
  {
    if payload == [] then []
    else (if Shown(payload[0]) then [payload[0]] else []) + ShownEntries(payload[1..])
  }

  /** The filter keeps a single entry exactly when it is shown. */
  lemma ShownEntriesSingle(e: Entry)
    ensures ShownEntries([e]) == if Shown(e) then [e] else []
  {
    assert [e][1..] == [];
  }

  /** The filter works entry by entry: filtering a concatenation
      concatenates the filtered parts. With `ShownEntriesSingle` this fixes
      the result completely, so shown entries keep their payload order and
      their number of occurrences. */
  lemma {:induction false} ShownEntriesAppend(a: seq<Entry>, b: seq<Entry>)
    ensures ShownEntries(a + b) == ShownEntries(a) + ShownEntries(b)
  {
    if a == [] {
      assert a + b == b;
    } else {
      assert (a + b)[0] == a[0];
      assert (a + b)[1..] == a[1..] + b;
      ShownEntriesAppend(a[1..], b);
    }
  }

  /** The numeric value of an entry (0 stands in for a value that is not a
      finite number; such entries are never shown). */
  function Amount(e: Entry): int
  {
    if e.value.Num? then e.value.n else 0
  }

  /** The sort key of the comparator `(a, b) => b.value - a.value`: a larger
      value sorts first. */
  function Rank(e: Entry): int
  {
    -Amount(e)
  }

  /** The entries the tooltip lists, or `None` when it renders nothing. */
  function TooltipEntries(active: bool, payload: seq<Entry>): (r: Option<seq<Entry>>)
    ensures r.None? <==> !active || forall e :: e in payload ==> !Shown(e)
    ensures r.Some? ==> multiset(r.value) == multiset(ShownEntries(payload))
    ensures r.Some? ==> (
      && r.value != []
      && (forall i :: 0 <= i < |r.value| ==> Shown(r.value[i]))
      && (forall i, j :: 0 <= i < j < |r.value| ==> Amount(r.value[i]) >= Amount(r.value[j])))
  {
    if active && |payload| > 0 then
      var valid := ShownEntries(payload);
      if |valid| == 0 then None
      else
        assert valid[0] in valid;
        SortedByValue(valid);
        Some(SortBy(valid, Rank))
    else
      assert active ==> payload == [];
      None
  }

  /** Sorting shown entries by rank lists them by value, highest first. */
  lemma SortedByValue(valid: seq<Entry>)
    requires forall i :: 0 <= i < |valid| ==> Shown(valid[i])
    ensures forall i :: 0 <= i < |SortBy(valid, Rank)| ==> Shown(SortBy(valid, Rank)[i])
    ensures forall i, j :: 0 <= i < j < |SortBy(valid, Rank)| ==>
      Amount(SortBy(valid, Rank)[i]) >= Amount(SortBy(valid, Rank)[j])
  {
    var sorted := SortBy(valid, Rank);
    forall i | 0 <= i < |sorted| ensures Shown(sorted[i]) {
      assert sorted[i] in multiset(valid);
    }
    forall i, j | 0 <= i < j < |sorted| ensures Amount(sorted[i]) >= Amount(sorted[j]) {
      assert Rank(sorted[i]) <= Rank(sorted[j]);
    }
  }

  /** Entries of equal value keep their payload order (the sort is
      stable): for every rank `k` (minus a value), the listed entries of that
      rank are the shown payload entries of that rank, in the same order. */
  lemma TooltipStable(active: bool, payload: seq<Entry>, k: int)
    requires active && ShownEntries(payload) != []
    ensures TooltipEntries(active, payload).Some?
    ensures WithKey(TooltipEntries(active, payload).value, Rank, k) == WithKey(ShownEntries(payload), Rank, k)
  {
    SortByStable(ShownEntries(payload), Rank, k);
  }

  /** Worked example: X = 5, Y = NaN, Z = 9 lists Z then X. */
  lemma TooltipExample()
    ensures TooltipEntries(true, [ExampleX, ExampleY, ExampleZ]) == Some([ExampleZ, ExampleX])
  {
    ExampleFilter();
    ExampleSort();
  }

  const ExampleX := Entry("X", Num(5), "")
  const ExampleY := Entry("Y", Blank, "")
  const ExampleZ := Entry("Z", Num(9), "")

  lemma ExampleFilter()
    ensures ShownEntries([ExampleX, ExampleY, ExampleZ]) == [ExampleX, ExampleZ]
  {
    var payload := [ExampleX, ExampleY, ExampleZ];
    assert payload[1..] == [ExampleY, ExampleZ] && [ExampleY, ExampleZ][1..] == [ExampleZ] && [ExampleZ][1..] == [];
    assert ShownEntries([ExampleZ]) == [ExampleZ];
    assert ShownEntries([ExampleY, ExampleZ]) == [ExampleZ];
  }

  lemma ExampleSort()
    ensures SortBy([ExampleX, ExampleZ], Rank) == [ExampleZ, ExampleX]
  {
    assert [ExampleX, ExampleZ][..1] == [ExampleX] && [ExampleX][..0] == [];
    assert SortBy([ExampleX], Rank) == [ExampleX];
    assert Insert(ExampleZ, [ExampleX], Rank) == [ExampleZ, ExampleX];
  }
}
