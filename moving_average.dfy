/**
  The moving-average engine: trailing windows of 5, 15 or 30 entries over the date-sorted series,
  averaging the readings that are present and not NaN and rounding the mean to two decimals.
  Readings and averages are exact reals.
*/
module MovingAverage {
  import opened Optional
  import opened Calendar
  import opened Numbers
  import opened HealthTypes
  import opened DateSort

  /** The window lengths the engine accepts (`days: 5 | 15 | 30`). */
  datatype Window = Days5 | Days15 | Days30 {
    function Days(): nat {
      match this
      case Days5 => 5
      case Days15 => 15
      case Days30 => 30
    }
  }

  /** The metric a window averages. */
  datatype DataKey = Weight | BodyFat

  /** A day's entry with the three optional moving averages attached. */
  datatype MovingAverageData = MovingAverageData(
    item: ParsedHealthData,
    movingAverage5: Option<real>,
    movingAverage15: Option<real>,
    movingAverage30: Option<real>)
  {
    /** The field `movingAverage<days>` of window `w`. */
    function Average(w: Window): Option<real> {
      match w
      case Days5 => movingAverage5
      case Days15 => movingAverage15
      case Days30 => movingAverage30
    }

    /** This entry with the field of window `w` replaced by `v`. */
    function WithAverage(w: Window, v: Option<real>): (r: MovingAverageData)
      ensures r.item == item && r.Average(w) == v
      ensures forall w' :: w' != w ==> r.Average(w') == Average(w')
    {
      match w
      case Days5 => this.(movingAverage5 := v)
      case Days15 => this.(movingAverage15 := v)
      case Days30 => this.(movingAverage30 := v)
    }
  }

  /** An entry copied with `{ ...item }`: no average attached yet. */
  function Plain(item: ParsedHealthData): MovingAverageData {
    MovingAverageData(item, None, None, None)
  }

  /** `item[dataKey]`. */
  function Metric(item: ParsedHealthData, key: DataKey): Option<Number> {
    match key
    case Weight => item.weight
    case BodyFat => item.bodyFat
  }

  /** The metric is defined and not NaN. */
  predicate HasValue(item: ParsedHealthData, key: DataKey) {
    Metric(item, key).Some? && Metric(item, key).value.Num?
  }

  function ValueOf(item: ParsedHealthData, key: DataKey): real
    requires HasValue(item, key)
  {
    Metric(item, key).value.value
  }

  /** The defined, non-NaN readings of `window`, in window order. */
  function ValidValues(window: seq<ParsedHealthData>, key: DataKey): seq<real> {
    if window == [] then []
    else
      var rest := ValidValues(window[1..], key);
      if HasValue(window[0], key) then [ValueOf(window[0], key)] + rest else rest
  }

  function Sum(xs: seq<real>): real {
    if xs == [] then 0.0 else xs[0] + Sum(xs[1..])
  }

  /** `Math.round(x * 100) / 100`: `x` to the nearest hundredth, halves rounded up. */
  function Round2(x: real): (r: real)
    ensures x - 0.005 < r <= x + 0.005
    ensures (r * 100.0).Floor as real == r * 100.0
  {
    MathRound(x * 100.0) as real / 100.0
  }

  /** The average of window `w` ending at position `index` of the sorted series, if any. */
  function WindowAverage(sorted: seq<ParsedHealthData>, index: nat, w: Window, key: DataKey): (r: Option<real>)
    requires index < |sorted|
    ensures index < w.Days() - 1 ==> r == None
    ensures w.Days() - 1 <= index ==> var window := sorted[index - w.Days() + 1..index + 1];
      (r.Some? <==> exists j :: 0 <= j < |window| && HasValue(window[j], key))
    ensures r.Some? ==> (r.value * 100.0).Floor as real == r.value * 100.0
  {
    if index < w.Days() - 1 then None
    else
      var values := ValidValues(sorted[index - w.Days() + 1..index + 1], key);
      ValidValuesPresent(sorted[index - w.Days() + 1..index + 1], key);
      if |values| == 0 then None
      else Some(Round2(Sum(values) / |values| as real))
  }

  /** `calculateMovingAverage(data, { days, dataKey })`. */
  function CalculateMovingAverage(data: seq<ParsedHealthData>, w: Window, key: DataKey): (r: seq<MovingAverageData>)
    ensures |r| == |data|
  {
    if |data| == 0 then []
    else
      var sorted := SortByDate(data);
      seq(|sorted|, i requires 0 <= i < |sorted| => Plain(sorted[i]).WithAverage(w, WindowAverage(sorted, i, w, key)))
  }

  /** `result.map((item, index) => ({ ...item, movingAverage<days>: averageData[index]?.movingAverage<days> }))`. */
  function MergeWindow(result: seq<MovingAverageData>, w: Window, averageData: seq<MovingAverageData>): (r: seq<MovingAverageData>)
    requires |averageData| == |result|
    ensures |r| == |result|
    ensures forall i :: 0 <= i < |r| ==> r[i].item == result[i].item && r[i].Average(w) == averageData[i].Average(w)
    ensures forall i, w' :: 0 <= i < |r| && w' != w ==> r[i].Average(w') == result[i].Average(w')
  {
    seq(|result|, i requires 0 <= i < |result| => result[i].WithAverage(w, averageData[i].Average(w)))
  }

  /** The averages computed for window `w`, out of the three windows' results. */
  function Pick(w: Window, a5: seq<MovingAverageData>, a15: seq<MovingAverageData>, a30: seq<MovingAverageData>): seq<MovingAverageData> {
    match w
    case Days5 => a5
    case Days15 => a15
    case Days30 => a30
  }

  /** Every entry of `result` carries its input record, the averages of the windows in `done` and no other. */
  ghost predicate MergedUpTo(result: seq<MovingAverageData>, data: seq<ParsedHealthData>, done: seq<Window>,
                             a5: seq<MovingAverageData>, a15: seq<MovingAverageData>, a30: seq<MovingAverageData>)
    requires |a5| == |a15| == |a30| == |data|
  {
    |result| == |data| &&
    (forall i :: 0 <= i < |data| ==> result[i].item == data[i]) &&
    forall i, w :: 0 <= i < |data| ==>
      result[i].Average(w) == if w in done then Pick(w, a5, a15, a30)[i].Average(w) else None
  }

  /** Merging the averages of window `windows[k]` extends the merged windows by that window. */
  lemma MergeStep(result: seq<MovingAverageData>, data: seq<ParsedHealthData>, key: DataKey, windows: seq<Window>, k: nat,
                  a5: seq<MovingAverageData>, a15: seq<MovingAverageData>, a30: seq<MovingAverageData>)
    requires a5 == CalculateMovingAverage(data, Days5, key) && a15 == CalculateMovingAverage(data, Days15, key)
    requires a30 == CalculateMovingAverage(data, Days30, key)
    requires k < |windows| && MergedUpTo(result, data, windows[..k], a5, a15, a30)
    ensures MergedUpTo(MergeWindow(result, windows[k], CalculateMovingAverage(data, windows[k], key)), data, windows[..k + 1],
      a5, a15, a30)
  {
    var w := windows[k];
    PickComputed(data, key, w, a5, a15, a30);
    MergeExtends(result, data, windows[..k], w, a5, a15, a30);
    assert windows[..k + 1] == windows[..k] + [w];
  }

  /** Merging one more window's averages extends the merged windows by that window. */
  lemma MergeExtends(result: seq<MovingAverageData>, data: seq<ParsedHealthData>, done: seq<Window>, w: Window,
                     a5: seq<MovingAverageData>, a15: seq<MovingAverageData>, a30: seq<MovingAverageData>)
    requires |a5| == |a15| == |a30| == |data|
    requires MergedUpTo(result, data, done, a5, a15, a30)
    ensures MergedUpTo(MergeWindow(result, w, Pick(w, a5, a15, a30)), data, done + [w], a5, a15, a30)
  {
    forall w': Window
      ensures (w' in done + [w]) == (w' in done || w' == w)
    {
    }
  }

  lemma PickComputed(data: seq<ParsedHealthData>, key: DataKey, w: Window,
                     a5: seq<MovingAverageData>, a15: seq<MovingAverageData>, a30: seq<MovingAverageData>)
    requires a5 == CalculateMovingAverage(data, Days5, key) && a15 == CalculateMovingAverage(data, Days15, key)
    requires a30 == CalculateMovingAverage(data, Days30, key)
    ensures Pick(w, a5, a15, a30) == CalculateMovingAverage(data, w, key)
  {
    match w
    case Days5 =>
    case Days15 =>
    case Days30 =>
  }

  /** Once all three windows are merged, every entry carries each window's average at its index. */
  lemma AllMerged(result: seq<MovingAverageData>, data: seq<ParsedHealthData>, key: DataKey, windows: seq<Window>,
                  a5: seq<MovingAverageData>, a15: seq<MovingAverageData>, a30: seq<MovingAverageData>)
    requires a5 == CalculateMovingAverage(data, Days5, key) && a15 == CalculateMovingAverage(data, Days15, key)
    requires a30 == CalculateMovingAverage(data, Days30, key)
    requires windows == [Days5, Days15, Days30] && MergedUpTo(result, data, windows[..|windows|], a5, a15, a30)
    ensures forall i, w :: 0 <= i < |data| ==> result[i].Average(w) == CalculateMovingAverage(data, w, key)[i].Average(w)
  {
    assert windows[..|windows|] == windows;
    forall i, w | 0 <= i < |data|
      ensures result[i].Average(w) == CalculateMovingAverage(data, w, key)[i].Average(w)
    {
      PickComputed(data, key, w, a5, a15, a30);
      assert w in windows;
    }
  }

  /** `calculateAllMovingAverages(data, dataKey)`: merges the three windows' fields by index. */
  method CalculateAllMovingAverages(data: seq<ParsedHealthData>, key: DataKey) returns (result: seq<MovingAverageData>)
    ensures |result| == |data|
    ensures forall i :: 0 <= i < |data| ==> result[i].item == data[i]
    ensures forall i, w :: 0 <= i < |data| ==> result[i].Average(w) == CalculateMovingAverage(data, w, key)[i].Average(w)
  {
    if |data| == 0 {
      return [];
    }
    result := seq(|data|, i requires 0 <= i < |data| => Plain(data[i]));
    ghost var a5, a15, a30 := CalculateMovingAverage(data, Days5, key), CalculateMovingAverage(data, Days15, key),
      CalculateMovingAverage(data, Days30, key);
    var windows := [Days5, Days15, Days30];
    for k := 0 to |windows|
      invariant MergedUpTo(result, data, windows[..k], a5, a15, a30)
    {
      var averageData := CalculateMovingAverage(data, windows[k], key);
      MergeStep(result, data, key, windows, k, a5, a15, a30);
      result := MergeWindow(result, windows[k], averageData);
    }
    AllMerged(result, data, key, windows, a5, a15, a30);
  }

  // ---------------------------------------------------------------------------------------
  // Properties

  /** The output is the input sorted by date, each entry copied with only the requested field set. */
  lemma CalculateShape(data: seq<ParsedHealthData>, w: Window, key: DataKey)
    ensures var r := CalculateMovingAverage(data, w, key);
      var items := seq(|r|, i requires 0 <= i < |r| => r[i].item);
      multiset(items) == multiset(data) && Sorted(items) &&
      (forall i, w' :: 0 <= i < |r| && w' != w ==> r[i].Average(w') == None)
  {
    var r := CalculateMovingAverage(data, w, key);
    var items := seq(|r|, i requires 0 <= i < |r| => r[i].item);
    if |data| > 0 {
      assert items == SortByDate(data);
    }
  }

  /** Positions before the first full window get no average. */
  lemma NoAverageBeforeFullWindow(data: seq<ParsedHealthData>, w: Window, key: DataKey, i: nat)
    requires i < |data| && i < w.Days() - 1
    ensures CalculateMovingAverage(data, w, key)[i].Average(w) == None
  {
  }

  /**
    From the first full window on, an average is present exactly when some entry of the window
    has the metric defined and not NaN.
  */
  lemma AveragePresence(data: seq<ParsedHealthData>, w: Window, key: DataKey, i: nat)
    requires w.Days() - 1 <= i < |data|
    ensures var window := SortByDate(data)[i - w.Days() + 1..i + 1];
      CalculateMovingAverage(data, w, key)[i].Average(w).Some? <==>
        exists j :: 0 <= j < |window| && HasValue(window[j], key)
  {
    AverageAt(data, w, key, i);
    ValidValuesPresent(SortByDate(data)[i - w.Days() + 1..i + 1], key);
  }

  /**
    Whatever bounds every valid reading of the window respects, the average respects them too,
    give or take the rounding to hundredths.
  */
  lemma AverageWithinReadings(data: seq<ParsedHealthData>, w: Window, key: DataKey, i: nat, lo: real, hi: real)
    requires w.Days() - 1 <= i < |data|
    requires var window := SortByDate(data)[i - w.Days() + 1..i + 1];
      forall j :: 0 <= j < |window| && HasValue(window[j], key) ==> lo <= ValueOf(window[j], key) <= hi
    ensures var avg := CalculateMovingAverage(data, w, key)[i].Average(w);
      avg.Some? ==> lo - 0.005 < avg.value <= hi + 0.005
  {
    var sorted := SortByDate(data);
    AverageAt(data, w, key, i);
    WindowWithinReadings(sorted, i, w, key, lo, hi);
  }

  lemma WindowWithinReadings(sorted: seq<ParsedHealthData>, i: nat, w: Window, key: DataKey, lo: real, hi: real)
    requires w.Days() - 1 <= i < |sorted|
    requires var window := sorted[i - w.Days() + 1..i + 1];
      forall j :: 0 <= j < |window| && HasValue(window[j], key) ==> lo <= ValueOf(window[j], key) <= hi
    ensures var avg := WindowAverage(sorted, i, w, key);
      avg.Some? ==> lo - 0.005 < avg.value <= hi + 0.005
  {
    var window := sorted[i - w.Days() + 1..i + 1];
    var values := ValidValues(window, key);
    if |values| > 0 {
      ValidValuesBounded(window, key, lo, hi);
      MeanBounds(values, lo, hi);
    }
  }

  /** Entry `i` of the output is entry `i` of the sorted input with its window's average. */
  lemma AverageAt(data: seq<ParsedHealthData>, w: Window, key: DataKey, i: nat)
    requires i < |data|
    ensures CalculateMovingAverage(data, w, key)[i].item == SortByDate(data)[i]
    ensures CalculateMovingAverage(data, w, key)[i].Average(w) == WindowAverage(SortByDate(data), i, w, key)
  {
  }

  lemma {:induction false} ValidValuesPresent(window: seq<ParsedHealthData>, key: DataKey)
    ensures |ValidValues(window, key)| > 0 <==> exists j :: 0 <= j < |window| && HasValue(window[j], key)
  {
    if window != [] {
      ValidValuesPresent(window[1..], key);
      if !HasValue(window[0], key) {
        assert forall j :: 1 <= j < |window| ==> window[j] == window[1..][j - 1];
      } else {
        assert HasValue(window[0], key);
      }
    }
  }

  lemma {:induction false} ValidValuesBounded(window: seq<ParsedHealthData>, key: DataKey, lo: real, hi: real)
    requires forall j :: 0 <= j < |window| && HasValue(window[j], key) ==> lo <= ValueOf(window[j], key) <= hi
    ensures forall k :: 0 <= k < |ValidValues(window, key)| ==> lo <= ValidValues(window, key)[k] <= hi
  {
    if window != [] {
      assert forall j :: 0 <= j < |window[1..]| ==> window[1..][j] == window[j + 1];
      ValidValuesBounded(window[1..], key, lo, hi);
    }
  }

  lemma {:induction false} SumBounds(xs: seq<real>, lo: real, hi: real)
    requires forall k :: 0 <= k < |xs| ==> lo <= xs[k] <= hi
    ensures lo * |xs| as real <= Sum(xs) <= hi * |xs| as real
  {
    if xs != [] {
      SumBounds(xs[1..], lo, hi);
    }
  }

  /** The rounded mean of readings between `lo` and `hi` lies between them, give or take 0.005. */
  lemma MeanBounds(xs: seq<real>, lo: real, hi: real)
    requires |xs| > 0
    requires forall k :: 0 <= k < |xs| ==> lo <= xs[k] <= hi
    ensures lo - 0.005 < Round2(Sum(xs) / |xs| as real) <= hi + 0.005
  {
    SumBounds(xs, lo, hi);
    DivBetween(Sum(xs), |xs| as real, lo, hi);
  }

  lemma DivBetween(s: real, n: real, lo: real, hi: real)
    requires n > 0.0 && lo * n <= s <= hi * n
    ensures lo <= s / n <= hi
  {
  }

  /** With input already in date order, the merged entry `i` carries the averages of entry `i` itself. */
  lemma SortedInputAligned(data: seq<ParsedHealthData>, w: Window, key: DataKey, i: nat)
    requires Sorted(data) && i < |data|
    ensures CalculateMovingAverage(data, w, key)[i].item == data[i]
  {
    SortSortedIdentity(data);
  }

  // ---------------------------------------------------------------------------------------
  // The worked examples of the engine's documentation

  function Day(n: int): Date {
    At(CalendarDay(2024, 0, n), 0)
  }

  function Entry(n: int, weight: real, bodyFat: real): ParsedHealthData {
    ParsedHealthData(Day(n), Some(Num(weight)), Some(Num(bodyFat)))
  }

  /** Seven days of January 2024, one entry each. */
  function Week(): seq<ParsedHealthData> {
    [Entry(1, 70.0, 15.0), Entry(2, 70.2, 15.1), Entry(3, 70.1, 15.2), Entry(4, 70.3, 15.0),
     Entry(5, 70.0, 14.9), Entry(6, 69.9, 15.1), Entry(7, 70.1, 15.0)]
  }

  lemma WeekSorted()
    ensures Sorted(Week())
  {
    var s := Week();
    forall i, j | 0 <= i < j < |s|
      ensures !Before(s[j].date, s[i].date)
    {
      assert s[i].date == Day(i + 1) && s[j].date == Day(j + 1);
    }
  }

  lemma FirstWeightWindow()
    ensures WindowAverage(Week(), 4, Days5, Weight) == Some(70.12)
  {
    var first := [Entry(1, 70.0, 15.0), Entry(2, 70.2, 15.1), Entry(3, 70.1, 15.2), Entry(4, 70.3, 15.0),
                  Entry(5, 70.0, 14.9)];
    assert Week()[0..5] == first;
    assert ValidValues(first, Weight) == [70.0, 70.2, 70.1, 70.3, 70.0];
  }

  lemma SecondWeightWindow()
    ensures WindowAverage(Week(), 5, Days5, Weight) == Some(70.1)
  {
    var second := [Entry(2, 70.2, 15.1), Entry(3, 70.1, 15.2), Entry(4, 70.3, 15.0), Entry(5, 70.0, 14.9),
                   Entry(6, 69.9, 15.1)];
    assert Week()[1..6] == second;
    assert ValidValues(second, Weight) == [70.2, 70.1, 70.3, 70.0, 69.9];
  }

  lemma FirstBodyFatWindow()
    ensures WindowAverage(Week(), 4, Days5, BodyFat) == Some(15.04)
  {
    var first := [Entry(1, 70.0, 15.0), Entry(2, 70.2, 15.1), Entry(3, 70.1, 15.2), Entry(4, 70.3, 15.0),
                  Entry(5, 70.0, 14.9)];
    assert Week()[0..5] == first;
    assert ValidValues(first, BodyFat) == [15.0, 15.1, 15.2, 15.0, 14.9];
  }

  /** The five-day weight averages of the week are 70.12 and then 70.1; the body-fat one is 15.04. */
  lemma WeekAverages()
    ensures CalculateMovingAverage(Week(), Days5, Weight)[4].movingAverage5 == Some(70.12)
    ensures CalculateMovingAverage(Week(), Days5, Weight)[5].movingAverage5 == Some(70.1)
    ensures CalculateMovingAverage(Week(), Days5, BodyFat)[4].movingAverage5 == Some(15.04)
  {
    assert SortByDate(Week()) == Week() by {
      WeekSorted();
      SortSortedIdentity(Week());
    }
    FirstWeightWindow();
    SecondWeightWindow();
    FirstBodyFatWindow();
  }

  function WeightOnly(n: int, weight: real): ParsedHealthData {
    ParsedHealthData(Day(n), Some(Num(weight)), None)
  }

  /** Five days of January 2024 with weights only; the third day has no reading. */
  function WeekWithGap(): seq<ParsedHealthData> {
    [WeightOnly(1, 70.0), WeightOnly(2, 70.2), ParsedHealthData(Day(3), None, None), WeightOnly(4, 70.3),
     WeightOnly(5, 70.0)]
  }

  lemma WeekWithGapSorted()
    ensures Sorted(WeekWithGap())
  {
    var s := WeekWithGap();
    forall i, j | 0 <= i < j < |s|
      ensures !Before(s[j].date, s[i].date)
    {
      assert s[i].date == Day(i + 1) && s[j].date == Day(j + 1);
    }
  }

  lemma GapWindow()
    ensures WindowAverage(WeekWithGap(), 4, Days5, Weight) == Some(70.13)
  {
    var s := WeekWithGap();
    assert s[0..5] == s;
    assert ValidValues(s, Weight) == [70.0, 70.2, 70.3, 70.0];
  }

  /** A missing reading is skipped: the mean of 70.0, 70.2, 70.3 and 70.0 is 70.125, shown as 70.13. */
  lemma MissingReadingSkipped()
    ensures CalculateMovingAverage(WeekWithGap(), Days5, Weight)[4].movingAverage5 == Some(70.13)
  {
    assert SortByDate(WeekWithGap()) == WeekWithGap() by {
      WeekWithGapSorted();
      SortSortedIdentity(WeekWithGap());
    }
    GapWindow();
  }
}
