/**
  `records.sort((a, b) => a.date.getTime() - b.date.getTime())`, as both the normaliser and the
  moving-average engine call it. `Array.prototype.sort` is stable, so it is modelled by a stable
  insertion sort. An Invalid Date has time value NaN, and a NaN comparison counts as "equal".
*/
module DateSort {
  import opened Calendar
  import opened HealthTypes

  /** Every element of `s`, paired with a date no other element has. */
  predicate DistinctDates(s: seq<ParsedHealthData>) {
    forall i, j :: 0 <= i < j < |s| ==> s[i].date != s[j].date
  }

  /** No element is strictly later than one that comes after it. */
  predicate Sorted(s: seq<ParsedHealthData>) {
    forall i, j :: 0 <= i < j < |s| ==> !Before(s[j].date, s[i].date)
  }

  /** Puts `x` before the first element of `s` whose date is strictly later than its own. */
  function Insert(x: ParsedHealthData, s: seq<ParsedHealthData>): (r: seq<ParsedHealthData>)
    ensures multiset(r) == multiset(s) + multiset{x}
    ensures |r| == |s| + 1
  {
    if s == [] then [x]
    else if Before(x.date, s[0].date) then [x] + s
    else
      assert s == [s[0]] + s[1..];
      [s[0]] + Insert(x, s[1..])
  }

  /** Transitivity of Before, stated as: what is not before `c` is not before anything before `c`. */
  lemma NotBeforeEarlier(a: Date, b: Date, c: Date)
    requires Before(b, c) && !Before(a, c)
    ensures !Before(a, b)
  {
  }

  lemma {:induction false} InsertSorted(x: ParsedHealthData, s: seq<ParsedHealthData>)
    requires Sorted(s)
    ensures Sorted(Insert(x, s))
  {
    if s == [] {
    } else if Before(x.date, s[0].date) {
      forall j | 0 <= j < |s|
        ensures !Before(s[j].date, x.date)
      {
        assert !Before(s[j].date, s[0].date);
        NotBeforeEarlier(s[j].date, x.date, s[0].date);
      }
    } else {
      var t := Insert(x, s[1..]);
      InsertSorted(x, s[1..]);
      forall j | 0 <= j < |t|
        ensures !Before(t[j].date, s[0].date)
      {
        assert t[j] in multiset(s[1..]) + multiset{x};
        if t[j] != x {
          assert t[j] in s[1..];
        }
      }
    }
  }

  /** The stable sort by date: a sorted permutation of `s`. */
  function SortByDate(s: seq<ParsedHealthData>): (r: seq<ParsedHealthData>)
    ensures multiset(r) == multiset(s) && |r| == |s|
    ensures Sorted(r)
  {
    if s == [] then []
    else
      var rest := SortByDate(s[..|s| - 1]);
      InsertSorted(s[|s| - 1], rest);
      assert s == s[..|s| - 1] + [s[|s| - 1]];
      Insert(s[|s| - 1], rest)
  }

  lemma {:induction false} InsertAtEnd(x: ParsedHealthData, s: seq<ParsedHealthData>)
    requires forall k :: 0 <= k < |s| ==> !Before(x.date, s[k].date)
    ensures Insert(x, s) == s + [x]
  {
    if s != [] {
      InsertAtEnd(x, s[1..]);
    }
  }

  /** Sorting what is already sorted changes nothing. */
  lemma {:induction false} SortSortedIdentity(s: seq<ParsedHealthData>)
    requires Sorted(s)
    ensures SortByDate(s) == s
  {
    if s != [] {
      var init := s[..|s| - 1];
      assert Sorted(init);
      SortSortedIdentity(init);
      InsertAtEnd(s[|s| - 1], init);
      assert s == init + [s[|s| - 1]];
    }
  }

  lemma {:induction false} InsertDistinct(x: ParsedHealthData, s: seq<ParsedHealthData>)
    requires DistinctDates(s)
    requires forall k :: 0 <= k < |s| ==> s[k].date != x.date
    ensures DistinctDates(Insert(x, s))
  {
    if s != [] && !Before(x.date, s[0].date) {
      var t := Insert(x, s[1..]);
      InsertDistinct(x, s[1..]);
      forall j | 0 <= j < |t|
        ensures t[j].date != s[0].date
      {
        assert t[j] in multiset(s[1..]) + multiset{x};
        if t[j] != x {
          assert t[j] in s[1..];
        }
      }
    }
  }

  /** Sorting never makes two elements share a date. */
  lemma {:induction false} SortKeepsDistinct(s: seq<ParsedHealthData>)
    requires DistinctDates(s)
    ensures DistinctDates(SortByDate(s))
  {
    if s != [] {
      var init := s[..|s| - 1];
      var x := s[|s| - 1];
      var rest := SortByDate(init);
      SortKeepsDistinct(init);
      forall k | 0 <= k < |rest|
        ensures rest[k].date != x.date
      {
        assert rest[k] in multiset(init);
        assert rest[k] in init;
      }
      InsertDistinct(x, rest);
    }
  }

  // ---------------------------------------------------------------------------------------
  // Stability

  /** The element carries a valid date whose time value is `t`. */
  predicate AtTime(e: ParsedHealthData, t: int) {
    ValidDate(e.date) && TimeValue(e.date) == t
  }

  /** `[e]` when `e` is at time value `t`, and nothing otherwise. */
  function Own(e: ParsedHealthData, t: int): seq<ParsedHealthData> {
    if AtTime(e, t) then [e] else []
  }

  /** The elements of `s` at time value `t`, in their order in `s`. */
  function Tied(s: seq<ParsedHealthData>, t: int): seq<ParsedHealthData> {
    if s == [] then [] else Own(s[0], t) + Tied(s[1..], t)
  }

  lemma {:induction false} TiedAppend(a: seq<ParsedHealthData>, b: seq<ParsedHealthData>, t: int)
    ensures Tied(a + b, t) == Tied(a, t) + Tied(b, t)
  {
    if a == [] {
      assert a + b == b;
    } else {
      assert (a + b)[0] == a[0] && (a + b)[1..] == a[1..] + b;
      TiedAppend(a[1..], b, t);
    }
  }

  lemma {:induction false} NoneTied(s: seq<ParsedHealthData>, t: int)
    requires forall k :: 0 <= k < |s| ==> !AtTime(s[k], t)
    ensures Tied(s, t) == []
  {
    if s != [] {
      assert Own(s[0], t) == [];
      NoneTied(s[1..], t);
    }
  }

  /** Nothing in a sorted sequence that starts strictly after time `t` is at time `t`. */
  lemma LaterNotTied(s: seq<ParsedHealthData>, x: ParsedHealthData, t: int)
    requires Sorted(s) && s != [] && Before(x.date, s[0].date) && AtTime(x, t)
    ensures Tied(s, t) == []
  {
    forall k | 0 <= k < |s|
      ensures !AtTime(s[k], t)
    {
      if k > 0 {
        assert !Before(s[k].date, s[0].date);
      }
    }
    NoneTied(s, t);
  }

  /** Inserting into a sorted sequence puts the new element after every element tied with it. */
  lemma {:induction false} InsertTied(x: ParsedHealthData, s: seq<ParsedHealthData>, t: int)
    requires Sorted(s)
    ensures Tied(Insert(x, s), t) == Tied(s, t) + Own(x, t)
  {
    if s == [] {
      assert Insert(x, s) == [x] && [x][1..] == [];
      assert Tied([x], t) == Own(x, t) + Tied([], t);
    } else if Before(x.date, s[0].date) {
      InsertTiedFront(x, s, t);
    } else {
      SortedTail(s);
      InsertTied(x, s[1..], t);
      InsertTiedStep(x, s, t);
    }
  }

  lemma SortedTail(s: seq<ParsedHealthData>)
    requires Sorted(s) && s != []
    ensures Sorted(s[1..])
  {
    forall i, j | 0 <= i < j < |s[1..]|
      ensures !Before(s[1..][j].date, s[1..][i].date)
    {
      assert s[1..][j] == s[j + 1] && s[1..][i] == s[i + 1];
    }
  }

  /** An element strictly earlier than the first goes in front, and nothing after it is tied with it. */
  lemma InsertTiedFront(x: ParsedHealthData, s: seq<ParsedHealthData>, t: int)
    requires Sorted(s) && s != [] && Before(x.date, s[0].date)
    ensures Tied(Insert(x, s), t) == Tied(s, t) + Own(x, t)
  {
    var r := Insert(x, s);
    assert r == [x] + s;
    assert r[0] == x && r[1..] == s;
    assert Tied(r, t) == Own(x, t) + Tied(s, t);
    if AtTime(x, t) {
      LaterNotTied(s, x, t);
    } else {
      assert Own(x, t) == [];
    }
  }

  /** An element not earlier than the first goes into the tail. */
  lemma InsertTiedStep(x: ParsedHealthData, s: seq<ParsedHealthData>, t: int)
    requires s != [] && !Before(x.date, s[0].date)
    requires Tied(Insert(x, s[1..]), t) == Tied(s[1..], t) + Own(x, t)
    ensures Tied(Insert(x, s), t) == Tied(s, t) + Own(x, t)
  {
    InsertIntoTail(x, s);
    TiedCons(s[0], Insert(x, s[1..]), t);
    TiedCons(s[0], s[1..], t);
    ConsSplit(s);
    Associative(Own(s[0], t), Tied(s[1..], t), Own(x, t));
  }

  lemma ConsSplit<T>(s: seq<T>)
    requires s != []
    ensures s == [s[0]] + s[1..]
  {
  }

  lemma Associative<T>(a: seq<T>, b: seq<T>, c: seq<T>)
    ensures a + (b + c) == (a + b) + c
  {
  }

  lemma InsertIntoTail(x: ParsedHealthData, s: seq<ParsedHealthData>)
    requires s != [] && !Before(x.date, s[0].date)
    ensures Insert(x, s) == [s[0]] + Insert(x, s[1..])
  {
  }

  lemma TiedCons(e: ParsedHealthData, s: seq<ParsedHealthData>, t: int)
    ensures Tied([e] + s, t) == Own(e, t) + Tied(s, t)
  {
    assert ([e] + s)[0] == e && ([e] + s)[1..] == s;
  }

  /** The sort is stable: the elements at any one time value keep their input order. */
  lemma {:induction false} SortStable(s: seq<ParsedHealthData>, t: int)
    ensures Tied(SortByDate(s), t) == Tied(s, t)
  {
    if s != [] {
      var init, last := s[..|s| - 1], s[|s| - 1];
      assert s == init + [last];
      var sortedInit := SortByDate(init);
      assert SortByDate(s) == Insert(last, sortedInit);
      SortStable(init, t);
      InsertTied(last, sortedInit, t);
      TiedAppend(init, [last], t);
      assert [last][1..] == [];
      assert Tied([last], t) == Own(last, t) + Tied([], t);
    }
  }

  /** A sorted sequence of valid, pairwise different dates is strictly ascending. */
  lemma StrictlyAscending(s: seq<ParsedHealthData>)
    requires Sorted(s) && DistinctDates(s)
    requires forall k :: 0 <= k < |s| ==> ValidDate(s[k].date)
    ensures forall i, j :: 0 <= i < j < |s| ==> Before(s[i].date, s[j].date)
  {
    forall i, j | 0 <= i < j < |s|
      ensures Before(s[i].date, s[j].date)
    {
      TimeValueOrder(s[i].date, s[j].date);
    }
  }
}
