/**
  The moving-average toggle: clicking a window's checkbox removes that window from the selected
  list when it is there, and appends it at the end otherwise.
*/
module MovingAverageSelector {
  import opened MovingAverage

  /** No window is listed twice. */
  predicate NoDuplicates(s: seq<Window>) {
    forall i, j :: 0 <= i < j < |s| ==> s[i] != s[j]
  }

  /** `s.filter(d => d !== x)`. */
  function RemoveAll(s: seq<Window>, x: Window): (r: seq<Window>)
    ensures x !in r
    ensures forall y :: y != x ==> (y in r <==> y in s)
    ensures |r| <= |s|
  {
    if s == [] then []
    else if s[0] == x then RemoveAll(s[1..], x)
    else [s[0]] + RemoveAll(s[1..], x)
  }

  /** `handleChange(days)` on the list `selectedDays`: the list passed to `onChange`. */
  function HandleChange(selectedDays: seq<Window>, days: Window): (r: seq<Window>)
    ensures days in r <==> days !in selectedDays
    ensures forall d :: d != days ==> (d in r <==> d in selectedDays)
  {
    if days in selectedDays then RemoveAll(selectedDays, days) else selectedDays + [days]
  }

  // ---------------------------------------------------------------------------------------
  // RemoveAll is the filter: it works element by element and keeps the order

  lemma {:induction false} RemoveAllAppend(s: seq<Window>, t: seq<Window>, x: Window)
    ensures RemoveAll(s + t, x) == RemoveAll(s, x) + RemoveAll(t, x)
  {
    if s == [] {
      assert s + t == t;
    } else {
      assert (s + t)[0] == s[0] && (s + t)[1..] == s[1..] + t;
      RemoveAllAppend(s[1..], t, x);
    }
  }

  lemma RemoveAllSingle(y: Window, x: Window)
    ensures RemoveAll([y], x) == if y == x then [] else [y]
  {
    assert [y][1..] == [];
  }

  /** Removing a window that is not listed changes nothing. */
  lemma {:induction false} RemoveAllAbsent(s: seq<Window>, x: Window)
    requires x !in s
    ensures RemoveAll(s, x) == s
  {
    if s != [] {
      assert x !in s[1..];
      RemoveAllAbsent(s[1..], x);
      assert s == [s[0]] + s[1..];
    }
  }

  /** Removing never introduces a repetition. */
  lemma {:induction false} RemoveAllKeepsDistinct(s: seq<Window>, x: Window)
    requires NoDuplicates(s)
    ensures NoDuplicates(RemoveAll(s, x))
  {
    if s != [] {
      var rest := RemoveAll(s[1..], x);
      RemoveAllKeepsDistinct(s[1..], x);
      if s[0] != x {
        forall k | 0 <= k < |s[1..]|
          ensures s[1..][k] != s[0]
        {
          assert s[1..][k] == s[k + 1];
        }
        assert s[0] !in rest;
      }
    }
  }

  // ---------------------------------------------------------------------------------------
  // Properties of the toggle

  /** An unlisted window goes to the end. */
  lemma ToggleAbsentAppends(selectedDays: seq<Window>, days: Window)
    requires days !in selectedDays
    ensures HandleChange(selectedDays, days) == selectedDays + [days]
  {
  }

  /** A listed window is removed with every repetition; the rest keep their order. */
  lemma TogglePresentRemoves(selectedDays: seq<Window>, days: Window)
    requires days in selectedDays
    ensures HandleChange(selectedDays, days) == RemoveAll(selectedDays, days)
    ensures |HandleChange(selectedDays, days)| < |selectedDays|
  {
    var i :| 0 <= i < |selectedDays| && selectedDays[i] == days;
    var s := selectedDays;
    assert s == s[..i] + [days] + s[i + 1..];
    RemoveAllAppend(s[..i] + [days], s[i + 1..], days);
    RemoveAllAppend(s[..i], [days], days);
    RemoveAllSingle(days, days);
  }

  /** A list without repetitions stays without repetitions. */
  lemma ToggleKeepsDistinct(selectedDays: seq<Window>, days: Window)
    requires NoDuplicates(selectedDays)
    ensures NoDuplicates(HandleChange(selectedDays, days))
  {
    if days in selectedDays {
      RemoveAllKeepsDistinct(selectedDays, days);
    }
  }

  /** Toggling an unlisted window on and then off gives the original list back. */
  lemma ToggleTwiceRestores(selectedDays: seq<Window>, days: Window)
    requires days !in selectedDays
    ensures HandleChange(HandleChange(selectedDays, days), days) == selectedDays
  {
    RemoveAllAppend(selectedDays, [days], days);
    RemoveAllAbsent(selectedDays, days);
    RemoveAllSingle(days, days);
  }

  /** `[5]` toggled with 15 gives `[5, 15]`; `[5, 15, 30]` toggled with 15 gives `[5, 30]`. */
  lemma ToggleExamples()
    ensures HandleChange([Days5], Days15) == [Days5, Days15]
    ensures HandleChange([Days5, Days15, Days30], Days15) == [Days5, Days30]
  {
    assert [Days5, Days15, Days30][1..] == [Days15, Days30];
    assert [Days15, Days30][1..] == [Days30];
    assert [Days30][1..] == [];
  }
}
