/** The up/down streak of the reference series at a chosen point, and the
    background ("market climate") chosen from it. */
module Streak {
  import opened Table

  /** The series whose streak drives the background. */
  const ReferenceKey: string := "S&P_500_Price"

  /** Whether the step into point `j` goes up: `data[j][key] >= data[j-1][key]`.
      Ties count as up. A step where either side is not a finite number
      (a missing key, a blank cell) counts as down. That agrees with
      JavaScript for `undefined` and `NaN`, where `>=` is false; it differs
      for `null` (compared as 0), for infinities (`Infinity >= 5` holds) and
      for two unparsed strings (compared in dictionary order). */
  predicate IsUp(data: seq<WideRecord>, j: int, key: string)
    requires 1 <= j < |data|
  {
    match (Lookup(data[j].prices, key), Lookup(data[j - 1].prices, key))
    case (Some(Num(cur)), Some(Num(prev))) => cur >= prev
    case _ => false
  }

  /** The number of consecutive steps ending at point `j` whose direction is
      `up`, walking back towards the first point. */
  function RunFrom(data: seq<WideRecord>, j: nat, up: bool, key: string): (k: nat)
    requires j < |data|
    ensures k <= j
    ensures forall m :: j - k < m <= j ==> IsUp(data, m, key) == up
    ensures k == j || IsUp(data, j - k, key) != up
  {
    if j == 0 || IsUp(data, j, key) != up then 0
    else 1 + RunFrom(data, j - 1, up, key)
  }

  /** The signed streak at `index`: positive for an upward run, negative for a
      downward one, its magnitude the length of the longest run of steps
      ending at `index` that all go the same way; 0 at or before the first
      point. */
  function Streak(data: seq<WideRecord>, index: int, key: string): (s: int)
    requires index < |data|
    ensures index <= 0 ==> s == 0
    ensures index >= 1 ==> (s > 0 <==> IsUp(data, index, key)) && s != 0
    ensures index >= 1 ==> var k := if s < 0 then -s else s;
      && k <= index
      && (forall m :: index - k < m <= index ==> IsUp(data, m, key) == IsUp(data, index, key))
      && (k == index || IsUp(data, index - k, key) != IsUp(data, index, key))
  {
    if index <= 0 then 0
    else if IsUp(data, index, key) then RunFrom(data, index, true, key)
    else -(RunFrom(data, index, false, key) as int)
  }

  /** The streak computation as the chart runs it: one step at `index`, then a
      backward walk that stops at the first step going the other way. */
  method GetStreak(data: seq<WideRecord>, index: int, key: string) returns (streak: int)
    requires index < |data|
    ensures streak == Streak(data, index, key)
  {
    if index <= 0 {
      return 0;
    }
    var up := IsUp(data, index, key);
    streak := 1;
    var i := index - 1;
    while i > 0
      invariant 0 <= i < index
      invariant streak + RunFrom(data, i, up, key) == RunFrom(data, index, up, key)
    {
      if IsUp(data, i, key) == up {
        streak := streak + 1;
      } else {
        break;
      }
      i := i - 1;
    }
    if !up {
      streak := -streak;
    }
  }

  /** The four backgrounds. */
  datatype Mood = Sunny | Sunny2 | Rainy | Rainy2

  /** Background for a streak: sunny for non-negative streaks, rainy for
      negative ones, the stronger variant from a magnitude of 2 on. */
  function PickBackground(streak: int): (m: Mood)
    ensures m == Sunny <==> 0 <= streak <= 1
    ensures m == Sunny2 <==> streak >= 2
    ensures m == Rainy <==> streak == -1
    ensures m == Rainy2 <==> streak <= -2
  {
    var abs := if streak < 0 then -streak else streak;
    if streak >= 0 then (if abs >= 2 then Sunny2 else Sunny)
    else (if abs >= 2 then Rainy2 else Rainy)
  }

  /** The background in terms of the last two steps into `index`: the strong
      variants need two steps the same way, the mild ones are everything
      else. */
  lemma MoodOfStreak(data: seq<WideRecord>, index: int, key: string)
    requires index < |data|
    ensures var m := PickBackground(Streak(data, index, key));
      && (m == Sunny2 <==> index >= 2 && IsUp(data, index, key) && IsUp(data, index - 1, key))
      && (m == Rainy2 <==> index >= 2 && !IsUp(data, index, key) && !IsUp(data, index - 1, key))
      && (m == Rainy <==> index >= 1 && !IsUp(data, index, key) && (index == 1 || IsUp(data, index - 1, key)))
      && (m == Sunny <==> index < 1 || (IsUp(data, index, key) && (index == 1 || !IsUp(data, index - 1, key))))
  {
    if index >= 1 {
      var up := IsUp(data, index, key);
      var k := RunFrom(data, index, up, key);
      if index >= 2 && IsUp(data, index - 1, key) == up {
        assert RunFrom(data, index - 1, up, key) >= 1;
      } else if index >= 2 {
        assert RunFrom(data, index - 1, up, key) == 0;
      }
    }
  }

  /** The point the background follows: the hovered point if there is one,
      the last point otherwise. */
  function IndexToUse(hovered: Option<int>, count: nat): (i: int)
    ensures hovered.None? ==> i == count - 1
    ensures hovered.Some? ==> i == hovered.value
  {
    if hovered.Some? then hovered.value else count - 1
  }

  /** The background of the chart: none with fewer than two points,
      otherwise the one for the reference series' streak at the point in use
      (a streak of 0 at the first point). */
  function Background(data: seq<WideRecord>, hovered: Option<int>): (bg: Option<Mood>)
    requires hovered.Some? ==> hovered.value < |data|
    ensures bg.None? <==> |data| < 2
    ensures bg.Some? && IndexToUse(hovered, |data|) <= 0 ==> bg == Some(Sunny)
    ensures bg.Some? && IndexToUse(hovered, |data|) >= 1 ==>
      bg == Some(PickBackground(Streak(data, IndexToUse(hovered, |data|), ReferenceKey)))
  {
    var index := IndexToUse(hovered, |data|);
    var streak := if |data| > 1 && index >= 1 then Streak(data, index, ReferenceKey) else 0;
    if |data| >= 2 then Some(PickBackground(streak)) else None
  }

  /** Without a hovered point, a chart of at least two points follows the
      last step of the reference series. */
  lemma BackgroundFollowsLastPoint(data: seq<WideRecord>)
    requires |data| >= 2
    ensures Background(data, None).Some?
    ensures var m := Background(data, None).value; var last := |data| - 1;
      (m == Sunny || m == Sunny2) <==> IsUp(data, last, ReferenceKey)
  {
  }

  /** A series of `vals` under the key `key`, for worked examples. */
  function Series(vals: seq<int>, key: string): (data: seq<WideRecord>)
    ensures |data| == |vals|
    ensures forall i :: 0 <= i < |vals| ==> Lookup(data[i].prices, key) == Some(Num(vals[i]))
  {
    seq(|vals|, i requires 0 <= i < |vals| => WideRecord("", map[key := Num(vals[i])]))
  }

  /** Worked example: for 10, 12, 11, 9, 8, 8 the streak at the last point is
      +1, because the tie 8 -> 8 is an up step and the step 9 -> 8 before it
      goes down. */
  lemma TieStreakExample()
    ensures Streak(Series([10, 12, 11, 9, 8, 8], ReferenceKey), 5, ReferenceKey) == 1
  {
    var data := Series([10, 12, 11, 9, 8, 8], ReferenceKey);
    assert IsUp(data, 5, ReferenceKey);
    assert !IsUp(data, 4, ReferenceKey);
  }
}
