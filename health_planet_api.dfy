/**
  The raw-record normaliser of `HealthPlanetAPI` and its `YYYYMMDD` date codec.
  `parseHealthData` groups wire records by the first eight characters of their date, fills one
  entry per day (tag 6021 is the weight, tag 6022 the body-fat percentage, later records
  overwriting earlier ones), and returns the entries sorted by date.
*/
module HealthPlanetApi {
  import opened Optional
  import opened Calendar
  import opened Text
  import opened Numbers
  import opened HealthTypes
  import opened DateSort

  const WeightTag: string := "6021"
  const BodyFatTag: string := "6022"

  /** `date.substring(0, 8)`: the day key of a wire date, with the time of day cut off. */
  function DayPrefix(date: string): (p: string)
    ensures |date| >= 8 ==> p == date[..8]
    ensures |date| < 8 ==> p == date
  {
    Substring(date, 0, 8)
  }

  // ---------------------------------------------------------------------------------------
  // The date codec

  /**
    `parseDate`: year from characters 0..4, one-based month from 4..6, day from 6..8, passed to
    `new Date(year, month - 1, day)`; a part that `parseInt` rejects makes an Invalid Date.
  */
  function ParseDate(dateString: string): (d: Date)
    ensures d == InvalidDate || (ValidDate(d) && d.millis == 0)
  {
    DateOfParts(ParseInt(Substring(dateString, 0, 4)), ParseInt(Substring(dateString, 4, 6)),
                ParseInt(Substring(dateString, 6, 8)))
  }

  /** `new Date(year, month - 1, day)` on the three parsed parts; NaN in any part gives an Invalid Date. */
  function DateOfParts(year: Option<int>, month: Option<int>, day: Option<int>): (d: Date)
    ensures d == InvalidDate <==> (year.None? || month.None? || day.None?)
    ensures d != InvalidDate ==> ValidDate(d) && d.millis == 0
  {
    if year.Some? && month.Some? && day.Some? then NewDate(year.value, month.value - 1, day.value)
    else InvalidDate
  }

  /**
    `formatDateForAPI`: the year, then the one-based month and the day each padded to two
    digits. Every getter of an Invalid Date gives NaN, which renders as "NaN".
  */
  function FormatDateForApi(d: Date): (s: string)
    ensures d.InvalidDate? ==> s == "NaNNaNNaN"
  {
    match d
    case InvalidDate => "NaNNaNNaN"
    case At(c, _) => IntToString(c.year) + PadStart2(IntToString(c.month + 1)) + PadStart2(IntToString(c.day))
  }

  /** A day key `YYYYMMDD` that names a real calendar day of the years 1000 to 9999. */
  predicate ValidDayKey(p: string) {
    |p| == 8 && AllDigits(p) && p[0] != '0' &&
    1 <= DigitsValue(p[4..6]) <= 12 &&
    1 <= DigitsValue(p[6..8]) <= DaysInMonth(DigitsValue(p[..4]), DigitsValue(p[4..6]) - 1)
  }

  /** The calendar day a valid day key names. */
  function KeyDay(p: string): CalendarDay
    requires ValidDayKey(p)
  {
    CalendarDay(DigitsValue(p[..4]), DigitsValue(p[4..6]) - 1, DigitsValue(p[6..8]))
  }

  /** A valid day key is parsed field by field: midnight of the day it names, month stored zero-based. */
  lemma ParseDateOfDayKey(p: string)
    requires ValidDayKey(p)
    ensures ParseDate(p) == At(KeyDay(p), 0)
  {
    KeyDayValid(p);
    var c := KeyDay(p);
    ParseDateFields(p, c.year, c.month + 1, c.day);
    NewDateOfDay(c);
  }

  lemma KeyDayValid(p: string)
    requires ValidDayKey(p)
    ensures KeyDay(p).Valid() && KeyDay(p).year >= 1000
  {
    assert p[..4][0] == p[0];
    DigitsValueAbove(p[..4]);
  }

  lemma ParseDateFields(s: string, year: int, month: int, day: int)
    requires |s| >= 8 && AllDigits(s[..4]) && AllDigits(s[4..6]) && AllDigits(s[6..8])
    requires year == DigitsValue(s[..4]) && month == DigitsValue(s[4..6]) && day == DigitsValue(s[6..8])
    ensures ParseDate(s) == NewDate(year, month - 1, day)
  {
    assert Substring(s, 0, 4) == s[..4] && Substring(s, 4, 6) == s[4..6] && Substring(s, 6, 8) == s[6..8];
    assert ParseDate(s) == DateOfParts(Some(year), Some(month), Some(day));
    DateOfNumbers(year, month, day);
  }

  lemma DateOfNumbers(year: int, month: int, day: int)
    ensures DateOfParts(Some(year), Some(month), Some(day)) == NewDate(year, month - 1, day)
  {
  }

  lemma NatToStringNoLeadingZero(n: nat)
    requires n >= 1
    ensures NatToString(n)[0] != '0'
  {
    if n >= 10 {
      NatToStringNoLeadingZero(n / 10);
    }
  }

  lemma PadValue(n: nat)
    requires n <= 99
    ensures var s := PadStart2(IntToString(n)); |s| == 2 && AllDigits(s) && DigitsValue(s) == n
  {
    var s := PadStart2(IntToString(n));
    NatToStringLength(n);
    NatToStringValue(n);
    if n < 10 {
      assert s == ['0', DigitChar(n)];
      assert s[..1] == ['0'];
    }
  }

  /** Four year digits, two month digits and two day digits make an eight-digit key with those fields. */
  lemma KeyOfFields(y: string, m: string, dd: string)
    requires |y| == 4 && |m| == 2 && |dd| == 2 && AllDigits(y) && AllDigits(m) && AllDigits(dd)
    ensures var p := y + m + dd;
      |p| == 8 && AllDigits(p) && p[0] == y[0] && p[..4] == y && p[4..6] == m && p[6..8] == dd
  {
    var p := y + m + dd;
    assert p[..4] == y && p[4..6] == m && p[6..8] == dd;
    forall i | 0 <= i < 8
      ensures IsDigit(p[i])
    {
      if i < 4 { assert p[i] == y[i]; }
      else if i < 6 { assert p[i] == m[i - 4]; }
      else { assert p[i] == dd[i - 6]; }
    }
  }

  /** The three formatted fields of a valid day of the years 1000 to 9999 read back as its numbers. */
  lemma FormatFields(c: CalendarDay)
    requires c.Valid() && 1000 <= c.year <= 9999
    ensures var y := IntToString(c.year);
      |y| == 4 && AllDigits(y) && DigitsValue(y) == c.year && y[0] != '0'
    ensures var m := PadStart2(IntToString(c.month + 1));
      |m| == 2 && AllDigits(m) && DigitsValue(m) == c.month + 1
    ensures var dd := PadStart2(IntToString(c.day));
      |dd| == 2 && AllDigits(dd) && DigitsValue(dd) == c.day
  {
    NatToStringLength(c.year);
    NatToStringValue(c.year);
    NatToStringNoLeadingZero(c.year);
    PadValue(c.month + 1);
    MonthLength(c.year, c.month);
    PadValue(c.day);
  }

  /** Fields that read back as a valid day make a valid key naming that day. */
  lemma KeyOfDayFields(y: string, m: string, dd: string, c: CalendarDay)
    requires c.Valid()
    requires |y| == 4 && AllDigits(y) && DigitsValue(y) == c.year && y[0] != '0'
    requires |m| == 2 && AllDigits(m) && DigitsValue(m) == c.month + 1
    requires |dd| == 2 && AllDigits(dd) && DigitsValue(dd) == c.day
    ensures ValidDayKey(y + m + dd) && KeyDay(y + m + dd) == c
  {
    KeyOfFields(y, m, dd);
  }

  lemma FormatIsKey(d: Date)
    requires ValidDate(d) && 1000 <= d.day.year <= 9999
    ensures |FormatDateForApi(d)| == 8 && ValidDayKey(FormatDateForApi(d))
    ensures KeyDay(FormatDateForApi(d)) == d.day
  {
    var c := d.day;
    var y, m, dd := IntToString(c.year), PadStart2(IntToString(c.month + 1)), PadStart2(IntToString(c.day));
    assert FormatDateForApi(d) == y + m + dd;
    FormatFields(c);
    KeyOfDayFields(y, m, dd, c);
  }

  /** Formatting a valid day of the years 1000 to 9999 gives a valid key that parses back to that day. */
  lemma FormatThenParse(d: Date)
    requires ValidDate(d) && 1000 <= d.day.year <= 9999
    ensures |FormatDateForApi(d)| == 8 && ValidDayKey(FormatDateForApi(d))
    ensures ParseDate(FormatDateForApi(d)) == At(d.day, 0)
  {
    FormatIsKey(d);
    ParseDateOfDayKey(FormatDateForApi(d));
  }

  /** A two-digit field with a nonzero value is written back as it was read. */
  lemma PadOfDigits(s: string)
    requires |s| == 2 && AllDigits(s) && DigitsValue(s) >= 1
    ensures PadStart2(IntToString(DigitsValue(s))) == s
  {
    assert s[..1] == [s[0]];
    if s[0] == '0' {
      assert DigitsValue(s[..1]) == 0 by {
        assert s[..1][..0] == [];
      }
      assert DigitsValue(s) == DigitValue(s[1]);
      assert s == ['0', DigitChar(DigitValue(s[1]))];
    } else {
      NatToStringOfDigits(s);
    }
  }

  lemma FormatKeyDay(p: string)
    requires ValidDayKey(p)
    ensures FormatDateForApi(At(KeyDay(p), 0)) == p
  {
    var y, m, d := p[..4], p[4..6], p[6..8];
    assert y[0] == p[0];
    NatToStringOfDigits(y);
    PadOfDigits(m);
    PadOfDigits(d);
    assert p == y + m + d;
  }

  /** Parsing a valid day key and formatting the result gives the key back. */
  lemma ParseThenFormat(p: string)
    requires ValidDayKey(p)
    ensures FormatDateForApi(ParseDate(p)) == p
  {
    ParseDateOfDayKey(p);
    FormatKeyDay(p);
  }

  /** Different valid day keys parse to different dates. */
  lemma ParseDateInjective(p: string, q: string)
    requires ValidDayKey(p) && ValidDayKey(q) && p != q
    ensures ParseDate(p) != ParseDate(q)
  {
    ParseThenFormat(p);
    ParseThenFormat(q);
  }

  /**
    Outside the valid keys, parsing is not injective: `new Date` reads the years 0..99 as 1900..1999,
    so the keys `00240301` and `19240301` parse to the same date, 1 March 1924.
  */
  lemma TwoDigitYearKeysCollide()
    ensures ParseDate("00240301") == ParseDate("19240301") == At(CalendarDay(1924, 2, 1), 0)
  {
    ParseKey00240301();
    ParseKey19240301();
    NewDateOfDay(CalendarDay(1924, 2, 1));
  }

  lemma ParseKey00240301()
    ensures ParseDate("00240301") == NewDate(24, 2, 1)
  {
    var a := "00240301";
    assert a[..4] == "0024" && a[4..6] == "03" && a[6..8] == "01";
    assert DigitsValue("0024") == 24 by {
      assert "0024"[..3] == "002" && "002"[..2] == "00" && "00"[..1] == "0" && "0"[..0] == "";
    }
    MonthDayDigits();
    ParseDateFields(a, 24, 3, 1);
  }

  lemma ParseKey19240301()
    ensures ParseDate("19240301") == NewDate(1924, 2, 1)
  {
    var b := "19240301";
    assert b[..4] == "1924" && b[4..6] == "03" && b[6..8] == "01";
    assert DigitsValue("1924") == 1924 by {
      assert "1924"[..3] == "192" && "192"[..2] == "19" && "19"[..1] == "1" && "1"[..0] == "";
    }
    MonthDayDigits();
    ParseDateFields(b, 1924, 3, 1);
  }

  lemma MonthDayDigits()
    ensures DigitsValue("03") == 3 && DigitsValue("01") == 1
  {
    assert "03"[..1] == "0" && "01"[..1] == "0" && "0"[..0] == "";
  }

  // ---------------------------------------------------------------------------------------
  // The normaliser, specified

  /** `item` is a record of day `key` with tag `tag`. */
  predicate Reads(item: HealthData, key: string, tag: string) {
    DayPrefix(item.date) == key && item.tag == tag
  }

  /** The day keys of `raw` in order of first appearance, as they enter the map. */
  function DayKeys(raw: seq<HealthData>): seq<string> {
    if raw == [] then []
    else
      var keys := DayKeys(raw[..|raw| - 1]);
      var key := DayPrefix(raw[|raw| - 1].date);
      if key in keys then keys else keys + [key]
  }

  /** The day keys are the keys of the records, each listed once. */
  lemma {:induction false} DayKeysDistinct(raw: seq<HealthData>)
    ensures forall i :: 0 <= i < |raw| ==> DayPrefix(raw[i].date) in DayKeys(raw)
    ensures forall k :: 0 <= k < |DayKeys(raw)| ==> exists i :: 0 <= i < |raw| && DayPrefix(raw[i].date) == DayKeys(raw)[k]
    ensures forall k, l :: 0 <= k < l < |DayKeys(raw)| ==> DayKeys(raw)[k] != DayKeys(raw)[l]
  {
    if raw != [] {
      var init := raw[..|raw| - 1];
      var keys := DayKeys(raw);
      DayKeysDistinct(init);
      assert forall i :: 0 <= i < |init| ==> raw[i] == init[i];
      forall k | 0 <= k < |keys|
        ensures exists i :: 0 <= i < |raw| && DayPrefix(raw[i].date) == keys[k]
      {
        if k < |DayKeys(init)| {
          var i :| 0 <= i < |init| && DayPrefix(init[i].date) == keys[k];
          assert raw[i] == init[i];
        } else {
          assert DayPrefix(raw[|raw| - 1].date) == keys[k];
        }
      }
    } else {
      assert DayKeys(raw) == [];
    }
  }

  /** The parsed `keydata` of the last record of day `key` with tag `tag`; None when there is none. */
  function LastReading(raw: seq<HealthData>, key: string, tag: string): Option<Number> {
    if raw == [] then None
    else
      var item := raw[|raw| - 1];
      if Reads(item, key, tag) then Some(ParseFloat(item.keydata))
      else LastReading(raw[..|raw| - 1], key, tag)
  }

  /** The merged entry of day `key`: its parsed date and its last weight and body-fat readings. */
  function DayEntry(raw: seq<HealthData>, key: string): ParsedHealthData {
    ParsedHealthData(ParseDate(key), LastReading(raw, key, WeightTag), LastReading(raw, key, BodyFatTag))
  }

  /** The map's values in insertion order. */
  function Entries(raw: seq<HealthData>): seq<ParsedHealthData> {
    var keys := DayKeys(raw);
    seq(|keys|, k requires 0 <= k < |keys| => DayEntry(raw, keys[k]))
  }

  /** What `parseHealthData` returns. */
  function Normalized(raw: seq<HealthData>): seq<ParsedHealthData> {
    SortByDate(Entries(raw))
  }

  // ---------------------------------------------------------------------------------------
  // The normaliser, as written

  /** `parseHealthData`: fills a map from day key to entry record by record, then sorts its values. */
  method ParseHealthData(rawData: seq<HealthData>) returns (result: seq<ParsedHealthData>)
    ensures result == Normalized(rawData)
    ensures Sorted(result)
    ensures rawData == [] ==> result == []
  {
    var dataMap: map<string, ParsedHealthData> := map[];
    var keys: seq<string> := [];
    for i := 0 to |rawData|
      invariant Collected(dataMap, keys, rawData[..i])
    {
      var item := rawData[i];
      var date := DayPrefix(item.date);
      var dateObj := ParseDate(date);
      ghost var before, beforeKeys := dataMap, keys;
      assert rawData[..i + 1] == rawData[..i] + [item];
      if date !in dataMap {
        dataMap := dataMap[date := ParsedHealthData(dateObj, None, None)];
        keys := keys + [date];
      }
      assert dataMap == WithDay(before, date);
      var entry := dataMap[date];
      var value := ParseFloat(item.keydata);
      if item.tag == WeightTag {
        entry := entry.(weight := Some(value));
      } else if item.tag == BodyFatTag {
        entry := entry.(bodyFat := Some(value));
      }
      assert entry == Applied(WithDay(before, date)[date], item);
      dataMap := dataMap[date := entry];
      CollectStep(before, beforeKeys, rawData[..i], item);
    }
    assert rawData[..|rawData|] == rawData;
    var values := seq(|keys|, k requires 0 <= k < |keys| => dataMap[keys[k]]);
    assert values == Entries(rawData);
    result := SortByDate(values);
  }

  /** How one more record changes the entry of day `key`: only its own day and tag move. */
  lemma EntryStep(raw: seq<HealthData>, item: HealthData, key: string)
    ensures DayEntry(raw + [item], key) ==
      if DayPrefix(item.date) != key then DayEntry(raw, key)
      else if item.tag == WeightTag then DayEntry(raw, key).(weight := Some(ParseFloat(item.keydata)))
      else if item.tag == BodyFatTag then DayEntry(raw, key).(bodyFat := Some(ParseFloat(item.keydata)))
      else DayEntry(raw, key)
  {
    assert (raw + [item])[..|raw|] == raw;
  }

  /** The map and its insertion order after the records `raw`: one entry per day key, in order of first appearance. */
  ghost predicate Collected(dataMap: map<string, ParsedHealthData>, keys: seq<string>, raw: seq<HealthData>) {
    keys == DayKeys(raw)
    && (forall k :: k in dataMap <==> k in keys)
    && (forall k :: k in dataMap ==> dataMap[k] == DayEntry(raw, k))
  }

  /** The map with an empty entry, dated by the key, added for a day key it lacks. */
  function WithDay(dataMap: map<string, ParsedHealthData>, key: string): (m: map<string, ParsedHealthData>)
    ensures key in m
  {
    if key in dataMap then dataMap else dataMap[key := ParsedHealthData(ParseDate(key), None, None)]
  }

  /** `entry` with `item`'s reading stored under its tag; other tags leave it unchanged. */
  function Applied(entry: ParsedHealthData, item: HealthData): ParsedHealthData {
    var value := ParseFloat(item.keydata);
    if item.tag == WeightTag then entry.(weight := Some(value))
    else if item.tag == BodyFatTag then entry.(bodyFat := Some(value))
    else entry
  }

  /** One pass of the loop body keeps the map in step with the records read so far. */
  lemma CollectStep(dataMap: map<string, ParsedHealthData>, keys: seq<string>, raw: seq<HealthData>, item: HealthData)
    requires Collected(dataMap, keys, raw)
    ensures var key := DayPrefix(item.date);
      var m := WithDay(dataMap, key);
      Collected(m[key := Applied(m[key], item)], if key in dataMap then keys else keys + [key], raw + [item])
  {
    DayKeysStep(raw, item);
    EntriesStep(dataMap, raw, item);
  }

  lemma DayKeysStep(raw: seq<HealthData>, item: HealthData)
    ensures var key := DayPrefix(item.date);
      DayKeys(raw + [item]) == if key in DayKeys(raw) then DayKeys(raw) else DayKeys(raw) + [key]
  {
    assert (raw + [item])[..|raw|] == raw;
  }

  lemma EntriesStep(dataMap: map<string, ParsedHealthData>, raw: seq<HealthData>, item: HealthData)
    requires forall k :: k in dataMap <==> k in DayKeys(raw)
    requires forall k :: k in dataMap ==> dataMap[k] == DayEntry(raw, k)
    ensures var key := DayPrefix(item.date);
      var m := WithDay(dataMap, key);
      forall k :: k in m[key := Applied(m[key], item)] ==> m[key := Applied(m[key], item)][k] == DayEntry(raw + [item], k)
  {
    var key := DayPrefix(item.date);
    var m := WithDay(dataMap, key);
    var next := m[key := Applied(m[key], item)];
    if key !in dataMap {
      UnseenDay(raw, key, WeightTag);
      UnseenDay(raw, key, BodyFatTag);
    }
    forall k | k in next
      ensures next[k] == DayEntry(raw + [item], k)
    {
      EntryStep(raw, item, k);
    }
  }

  // ---------------------------------------------------------------------------------------
  // Properties

  lemma {:induction false} UnseenDay(raw: seq<HealthData>, key: string, tag: string)
    requires key !in DayKeys(raw)
    ensures LastReading(raw, key, tag) == None
  {
    if raw != [] {
      var init := raw[..|raw| - 1];
      assert key !in DayKeys(init);
      UnseenDay(init, key, tag);
    }
  }

  /**
    Last write wins: the reading of a day and tag is absent exactly when no record carries them,
    and otherwise it is the parsed `keydata` of the last record that does.
  */
  lemma LastReadingIsLast(raw: seq<HealthData>, key: string, tag: string)
    ensures LastReading(raw, key, tag) == None <==> forall i :: 0 <= i < |raw| ==> !Reads(raw[i], key, tag)
    ensures LastReading(raw, key, tag).Some? ==>
      exists i :: 0 <= i < |raw| && Reads(raw[i], key, tag) &&
        LastReading(raw, key, tag) == Some(ParseFloat(raw[i].keydata)) &&
        forall j :: i < j < |raw| ==> !Reads(raw[j], key, tag)
  {
    NoReadingWithoutRecord(raw, key, tag);
    ReadingOfLastRecord(raw, key, tag);
  }

  lemma {:induction false} NoReadingWithoutRecord(raw: seq<HealthData>, key: string, tag: string)
    ensures LastReading(raw, key, tag) == None <==> forall i :: 0 <= i < |raw| ==> !Reads(raw[i], key, tag)
  {
    if raw != [] {
      var init := raw[..|raw| - 1];
      NoReadingWithoutRecord(init, key, tag);
      assert forall i :: 0 <= i < |init| ==> raw[i] == init[i];
    }
  }

  lemma {:induction false} ReadingOfLastRecord(raw: seq<HealthData>, key: string, tag: string)
    ensures LastReading(raw, key, tag).Some? ==>
      exists i :: 0 <= i < |raw| && Reads(raw[i], key, tag) &&
        LastReading(raw, key, tag) == Some(ParseFloat(raw[i].keydata)) &&
        forall j :: i < j < |raw| ==> !Reads(raw[j], key, tag)
  {
    if raw != [] {
      var init := raw[..|raw| - 1];
      if Reads(raw[|raw| - 1], key, tag) {
        assert Reads(raw[|raw| - 1], key, tag) &&
          LastReading(raw, key, tag) == Some(ParseFloat(raw[|raw| - 1].keydata));
      } else {
        ReadingOfLastRecord(init, key, tag);
        assert forall i :: 0 <= i < |init| ==> raw[i] == init[i];
      }
    }
  }

  /** The entry of every day key is in the output. */
  lemma EntryOfKey(raw: seq<HealthData>, key: string)
    requires key in DayKeys(raw)
    ensures DayEntry(raw, key) in Normalized(raw)
  {
    var keys := DayKeys(raw);
    var entries := Entries(raw);
    var k :| 0 <= k < |keys| && keys[k] == key;
    assert entries[k] == DayEntry(raw, key);
    assert entries[k] in multiset(Normalized(raw));
  }

  /** The output holds exactly one entry per distinct day key of the input, and nothing else. */
  lemma NormalizedEntries(raw: seq<HealthData>)
    ensures |Normalized(raw)| == |DayKeys(raw)|
    ensures multiset(Normalized(raw)) == multiset(Entries(raw))
    ensures forall i :: 0 <= i < |raw| ==> DayEntry(raw, DayPrefix(raw[i].date)) in Normalized(raw)
    ensures forall e :: e in Normalized(raw) ==> exists i :: 0 <= i < |raw| && e == DayEntry(raw, DayPrefix(raw[i].date))
  {
    EveryRecordEntered(raw);
    OnlyRecordsEntered(raw);
  }

  lemma EveryRecordEntered(raw: seq<HealthData>)
    ensures forall i :: 0 <= i < |raw| ==> DayEntry(raw, DayPrefix(raw[i].date)) in Normalized(raw)
  {
    DayKeysDistinct(raw);
    forall i | 0 <= i < |raw|
      ensures DayEntry(raw, DayPrefix(raw[i].date)) in Normalized(raw)
    {
      EntryOfKey(raw, DayPrefix(raw[i].date));
    }
  }

  lemma OnlyRecordsEntered(raw: seq<HealthData>)
    ensures forall e :: e in Normalized(raw) ==> exists i :: 0 <= i < |raw| && e == DayEntry(raw, DayPrefix(raw[i].date))
  {
    var out := Normalized(raw);
    var entries := Entries(raw);
    var keys := DayKeys(raw);
    DayKeysDistinct(raw);
    forall e | e in out
      ensures exists i :: 0 <= i < |raw| && e == DayEntry(raw, DayPrefix(raw[i].date))
    {
      assert e in multiset(entries);
      var k :| 0 <= k < |entries| && entries[k] == e;
      var i :| 0 <= i < |raw| && DayPrefix(raw[i].date) == keys[k];
      assert e == DayEntry(raw, DayPrefix(raw[i].date));
    }
  }

  /** The set of day keys that occur in `raw`. */
  function KeySet(raw: seq<HealthData>): set<string> {
    set i | 0 <= i < |raw| :: DayPrefix(raw[i].date)
  }

  /** The number of entries is the number of distinct day keys. */
  lemma {:induction false} EntryCount(raw: seq<HealthData>)
    ensures |Normalized(raw)| == |KeySet(raw)|
  {
    NormalizedEntries(raw);
    KeysCount(raw);
  }

  lemma {:induction false} KeysCount(raw: seq<HealthData>)
    ensures |DayKeys(raw)| == |KeySet(raw)|
  {
    if raw == [] {
      assert KeySet(raw) == {};
    } else {
      var init := raw[..|raw| - 1];
      var key := DayPrefix(raw[|raw| - 1].date);
      KeysCount(init);
      KeySetStep(raw);
      KeysAreKeySet(init);
    }
  }

  lemma KeySetStep(raw: seq<HealthData>)
    requires raw != []
    ensures KeySet(raw) == KeySet(raw[..|raw| - 1]) + {DayPrefix(raw[|raw| - 1].date)}
  {
    var init := raw[..|raw| - 1];
    forall k | k in KeySet(raw)
      ensures k in KeySet(init) + {DayPrefix(raw[|raw| - 1].date)}
    {
      var i :| 0 <= i < |raw| && DayPrefix(raw[i].date) == k;
      if i < |init| {
        assert init[i] == raw[i];
      }
    }
    forall k | k in KeySet(init)
      ensures k in KeySet(raw)
    {
      var i :| 0 <= i < |init| && DayPrefix(init[i].date) == k;
      assert raw[i] == init[i];
    }
  }

  lemma KeysAreKeySet(raw: seq<HealthData>)
    ensures forall key :: key in DayKeys(raw) <==> key in KeySet(raw)
  {
    DayKeysDistinct(raw);
    var keys := DayKeys(raw);
    forall key | key in keys
      ensures key in KeySet(raw)
    {
      var k :| 0 <= k < |keys| && keys[k] == key;
      var i :| 0 <= i < |raw| && DayPrefix(raw[i].date) == keys[k];
    }
  }

  /** When every day key is a `ValidDayKey` (a real calendar day of the years 1000..9999), the dates strictly ascend: no day appears twice. */
  lemma NormalizedStrictlyAscending(raw: seq<HealthData>)
    requires forall i :: 0 <= i < |raw| ==> ValidDayKey(DayPrefix(raw[i].date))
    ensures forall i, j :: 0 <= i < j < |Normalized(raw)| ==> Before(Normalized(raw)[i].date, Normalized(raw)[j].date)
  {
    var entries := Entries(raw);
    var out := Normalized(raw);
    assert DistinctDates(entries) && forall k :: 0 <= k < |entries| ==> ValidDate(entries[k].date) by {
      EntriesOfValidKeys(raw);
    }
    assert DistinctDates(out) by {
      SortKeepsDistinct(entries);
    }
    forall k | 0 <= k < |out|
      ensures ValidDate(out[k].date)
    {
      assert out[k] in multiset(entries);
    }
    StrictlyAscending(out);
  }

  lemma EntriesOfValidKeys(raw: seq<HealthData>)
    requires forall i :: 0 <= i < |raw| ==> ValidDayKey(DayPrefix(raw[i].date))
    ensures DistinctDates(Entries(raw))
    ensures forall k :: 0 <= k < |Entries(raw)| ==> ValidDate(Entries(raw)[k].date)
  {
    var keys := DayKeys(raw);
    var entries := Entries(raw);
    DayKeysDistinct(raw);
    forall k | 0 <= k < |keys|
      ensures ValidDayKey(keys[k])
    {
      var i :| 0 <= i < |raw| && DayPrefix(raw[i].date) == keys[k];
    }
    forall k, l | 0 <= k < l < |entries|
      ensures entries[k].date != entries[l].date
    {
      ParseDateInjective(keys[k], keys[l]);
    }
    forall k | 0 <= k < |entries|
      ensures ValidDate(entries[k].date)
    {
      ParseDateOfDayKey(keys[k]);
    }
  }

  /** A record with an unknown tag for a day already seen changes nothing. */
  lemma UnknownTagIgnored(raw: seq<HealthData>, item: HealthData)
    requires item.tag != WeightTag && item.tag != BodyFatTag
    requires DayPrefix(item.date) in DayKeys(raw)
    ensures Normalized(raw + [item]) == Normalized(raw)
  {
    var raw' := raw + [item];
    assert DayKeys(raw') == DayKeys(raw) by {
      assert raw'[..|raw|] == raw;
    }
    forall key
      ensures DayEntry(raw', key) == DayEntry(raw, key)
    {
      EntryStep(raw, item, key);
    }
    assert Entries(raw') == Entries(raw);
  }

  /** A day whose records all carry unknown tags still gets an entry, holding only its date. */
  lemma DateOnlyEntry(raw: seq<HealthData>, key: string)
    requires key in DayKeys(raw)
    requires forall i :: 0 <= i < |raw| && DayPrefix(raw[i].date) == key ==> raw[i].tag != WeightTag && raw[i].tag != BodyFatTag
    ensures ParsedHealthData(ParseDate(key), None, None) in Normalized(raw)
  {
    assert DayEntry(raw, key) == ParsedHealthData(ParseDate(key), None, None) by {
      LastReadingIsLast(raw, key, WeightTag);
      LastReadingIsLast(raw, key, BodyFatTag);
    }
    EntryOfKey(raw, key);
  }

  /** Only the first eight characters of a record's date matter: the time of day never does. */
  lemma {:induction false} TimeOfDayIrrelevant(raw: seq<HealthData>, other: seq<HealthData>)
    requires |raw| == |other|
    requires forall i :: 0 <= i < |raw| ==>
      DayPrefix(raw[i].date) == DayPrefix(other[i].date) && raw[i].tag == other[i].tag && raw[i].keydata == other[i].keydata
    ensures Normalized(raw) == Normalized(other)
  {
    SameDays(raw, other);
    forall key
      ensures DayEntry(raw, key) == DayEntry(other, key)
    {
      SameReadings(raw, other, key, WeightTag);
      SameReadings(raw, other, key, BodyFatTag);
    }
    assert Entries(raw) == Entries(other);
  }

  lemma {:induction false} SameDays(raw: seq<HealthData>, other: seq<HealthData>)
    requires |raw| == |other|
    requires forall i :: 0 <= i < |raw| ==> DayPrefix(raw[i].date) == DayPrefix(other[i].date)
    ensures DayKeys(raw) == DayKeys(other)
  {
    if raw != [] {
      SameDays(raw[..|raw| - 1], other[..|other| - 1]);
    }
  }

  lemma {:induction false} SameReadings(raw: seq<HealthData>, other: seq<HealthData>, key: string, tag: string)
    requires |raw| == |other|
    requires forall i :: 0 <= i < |raw| ==>
      DayPrefix(raw[i].date) == DayPrefix(other[i].date) && raw[i].tag == other[i].tag && raw[i].keydata == other[i].keydata
    ensures LastReading(raw, key, tag) == LastReading(other, key, tag)
  {
    if raw != [] {
      SameReadings(raw[..|raw| - 1], other[..|other| - 1], key, tag);
    }
  }
}
