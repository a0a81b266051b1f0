/** The statistics the dashboard derives from a user's activity list
    (components/Dashboard.tsx): how many activities, how many active minutes, the
    points of each of the last seven days, and the five most recent entries. The day
    keys (`YYYY-MM-DD` of today and the six days before) come from the clock and are
    an input here. */
module Dashboard {
  import opened Seqs
  import opened Types

  /** Number of activities logged. */
  function TotalActivities(acts: seq<Activity>): nat
  {
    |acts|
  }

  /** Minutes an activity contributes: its value, unless it is a step count. */
  function ActiveMinutes(a: Activity): int
  {
    if a.kind != Steps then a.value else 0
  }

  /** `activities.reduce((acc, curr) => curr.type !== 'STEPS' ? acc + curr.value : acc, 0)`,
      folding from the left. */
  function TotalMinutes(acts: seq<Activity>): int
  {
    if acts == [] then 0
    else TotalMinutes(acts[..|acts| - 1]) + ActiveMinutes(acts[|acts| - 1])
  }

  /** The test "is not a step count". */
  function IsTimed(): Activity -> bool
  {
    (a: Activity) => a.kind != Steps
  }

  /** Sum of `value` over a list. */
  function SumValues(acts: seq<Activity>): int
  {
    if acts == [] then 0 else acts[0].value + SumValues(acts[1..])
  }

  /** Sum of `pointsEarned` over a list. */
  function SumPoints(acts: seq<Activity>): int
  {
    if acts == [] then 0 else acts[0].pointsEarned + SumPoints(acts[1..])
  }

  lemma {:induction false} SumValuesAppend(a: seq<Activity>, b: seq<Activity>)
    ensures SumValues(a + b) == SumValues(a) + SumValues(b)
  {
    if a == [] {
      assert a + b == b;
    } else {
      assert (a + b)[1..] == a[1..] + b;
      SumValuesAppend(a[1..], b);
    }
  }

  lemma {:induction false} SumPointsAppend(a: seq<Activity>, b: seq<Activity>)
    ensures SumPoints(a + b) == SumPoints(a) + SumPoints(b)
  {
    if a == [] {
      assert a + b == b;
    } else {
      assert (a + b)[1..] == a[1..] + b;
      SumPointsAppend(a[1..], b);
    }
  }

  /** The active minutes are the total value of the activities that are not step
      counts: step entries contribute nothing. */
  lemma {:induction false} TotalMinutesOfTimed(acts: seq<Activity>)
    ensures TotalMinutes(acts) == SumValues(Filter(IsTimed(), acts))
  {
    if acts != [] {
      var init, last := acts[..|acts| - 1], acts[|acts| - 1];
      assert acts == init + [last];
      TotalMinutesOfTimed(init);
      FilterAppend(IsTimed(), init, [last]);
      assert Filter(IsTimed(), [last]) == (if last.kind != Steps then [last] else []) by {
        assert [last][1..] == [];
      }
      SumValuesAppend(Filter(IsTimed(), init), Filter(IsTimed(), [last]));
    }
  }

  /** The statistics of two lists put together are the sums of their statistics:
      counting and the minutes fold do not depend on where the list is split. */
  lemma StatsAppend(a: seq<Activity>, b: seq<Activity>)
    ensures TotalActivities(a + b) == TotalActivities(a) + TotalActivities(b)
    ensures TotalMinutes(a + b) == TotalMinutes(a) + TotalMinutes(b)
  {
    TotalMinutesOfTimed(a + b);
    TotalMinutesOfTimed(a);
    TotalMinutesOfTimed(b);
    FilterAppend(IsTimed(), a, b);
    SumValuesAppend(Filter(IsTimed(), a), Filter(IsTimed(), b));
  }

  /** `s.startsWith(prefix)`. */
  predicate StartsWith(s: string, prefix: string)
  {
    |prefix| <= |s| && s[..|prefix|] == prefix
  }

  /** The test "was logged on the day `key`". */
  function OnDay(key: string): Activity -> bool
  {
    (a: Activity) => StartsWith(a.date, key)
  }

  /** Points of the activities whose date starts with `key`: the filter-then-sum of one
      chart bar. */
  function DayPoints(acts: seq<Activity>, key: string): int
  {
    SumPoints(Filter(OnDay(key), acts))
  }

  /** A day's points are the points of that day's activities and of no others. */
  lemma {:induction false} DayPointsAppend(acts: seq<Activity>, a: Activity, key: string)
    ensures DayPoints(acts + [a], key) == DayPoints(acts, key) + (if StartsWith(a.date, key) then a.pointsEarned else 0)
  {
    FilterAppend(OnDay(key), acts, [a]);
    assert Filter(OnDay(key), [a]) == (if StartsWith(a.date, key) then [a] else []) by {
      assert [a][1..] == [];
    }
    SumPointsAppend(Filter(OnDay(key), acts), Filter(OnDay(key), [a]));
    if StartsWith(a.date, key) {
      assert SumPoints([a]) == a.pointsEarned by { assert [a][1..] == []; }
    }
  }

  /** With non-negative points, no day has more points than the whole list. */
  lemma {:induction false} DayPointsBounded(acts: seq<Activity>, key: string)
    requires forall a | a in acts :: a.pointsEarned >= 0
    ensures 0 <= DayPoints(acts, key) <= SumPoints(acts)
  {
    if acts != [] {
      var init, last := acts[..|acts| - 1], acts[|acts| - 1];
      assert acts == init + [last];
      assert forall a | a in init :: a in acts;
      DayPointsBounded(init, key);
      DayPointsAppend(init, last, key);
      SumPointsAppend(init, [last]);
      assert SumPoints([last]) == last.pointsEarned by { assert [last][1..] == []; }
    }
  }

  /** One bar of the weekly chart. The weekday label the application shows is derived
      from the day and is not modelled. */
  datatype ChartEntry = ChartEntry(day: string, points: int)

  /** The weekly chart: `dayKeys[i]` is the day `i` days ago, and the loop runs from
      six days ago to today, so the oldest day comes first. */
  method ChartData(acts: seq<Activity>, dayKeys: seq<string>) returns (data: seq<ChartEntry>)
    requires |dayKeys| == 7
    ensures |data| == 7
    ensures forall j :: 0 <= j < 7 ==> data[j] == ChartEntry(dayKeys[6 - j], DayPoints(acts, dayKeys[6 - j]))
  {
    data := [];
    var i := 6;
    while i >= 0
      invariant -1 <= i <= 6
      invariant |data| == 6 - i
      invariant forall j :: 0 <= j < |data| ==> data[j] == ChartEntry(dayKeys[6 - j], DayPoints(acts, dayKeys[6 - j]))
    {
      var dateStr := dayKeys[i];
      var points := SumPoints(Filter(OnDay(dateStr), acts));
      data := data + [ChartEntry(dateStr, points)];
      i := i - 1;
    }
  }

  /** `activities.slice(0, 5)`: the first five entries, or all of them when there are fewer. */
  function RecentActivities(acts: seq<Activity>): (r: seq<Activity>)
    ensures |r| <= 5 && r <= acts
    ensures |r| == 5 || r == acts
  {
    if |acts| <= 5 then acts else acts[..5]
  }

  /** On a list sorted newest first (as the store returns it), the recent entries are
      at least as new as every entry left out. */
  lemma RecentAreNewest(acts: seq<Activity>, timeOf: string -> int)
    requires forall i, j :: 0 <= i < j < |acts| ==> timeOf(acts[i].date) >= timeOf(acts[j].date)
    ensures forall i, j :: 0 <= i < |RecentActivities(acts)| <= j < |acts| ==>
      timeOf(RecentActivities(acts)[i].date) >= timeOf(acts[j].date)
  {
  }
}
