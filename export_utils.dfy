/**
  The CSV export: a header line of five column names, then one line per record in input order.
  A record line holds the date as the Japanese locale writes it and the metrics fixed to one
  decimal; an absent metric, and the two columns the record type does not carry, stay empty.
*/
module ExportUtils {
  import opened Optional
  import opened Calendar
  import opened Text
  import opened Numbers
  import opened HealthTypes

  /** Date, weight (kg), body-fat ratio (%), muscle mass (kg) and BMI. */
  const Headers: seq<string> := ["日付", "体重(kg)", "体脂肪率(%)", "筋肉量(kg)", "BMI"]

  /** The header cells joined by commas. */
  function HeaderLine(): string {
    Join(Headers, ',')
  }

  /** Neither of the two CSV separators occurs in `s`. */
  predicate NoSeparators(s: string) {
    ',' !in s && '\n' !in s
  }

  lemma DigitsHaveNoSeparators(t: string)
    requires AllDigits(t)
    ensures NoSeparators(t)
  {
    forall i | 0 <= i < |t|
      ensures t[i] != ',' && t[i] != '\n'
    {
      assert IsDigit(t[i]);
    }
  }

  lemma IntegerHasNoSeparators(n: int)
    ensures NoSeparators(IntToString(n))
  {
    DigitsHaveNoSeparators(NatToString(if n < 0 then -n else n));
  }

  /** `date.toLocaleDateString('ja-JP')`: year, month and day without padding, separated by slashes. */
  function LocaleDateString(d: Date): (s: string)
    ensures NoSeparators(s)
    ensures s == "Invalid Date" <==> d.InvalidDate?
  {
    match d
    case InvalidDate => "Invalid Date"
    case At(c, _) =>
      IntegerHasNoSeparators(c.year);
      IntegerHasNoSeparators(c.month + 1);
      IntegerHasNoSeparators(c.day);
      var y := IntToString(c.year);
      var s := y + "/" + IntToString(c.month + 1) + "/" + IntToString(c.day);
      assert s[|y|] == '/';
      assert '/' !in "Invalid Date";
      s
  }

  /** `toFixed(1)` writes a sign, digits, a point and a digit, or `NaN`: never a separator. */
  lemma FixedHasNoSeparators(x: Number)
    ensures NoSeparators(ToFixed1(x)) && ToFixed1(x) != ""
  {
    match x
    case NaN =>
    case Num(v) =>
      var a := if v < 0.0 then -v else v;
      var n := MathRound(a * 10.0);
      DigitsHaveNoSeparators(NatToString(n / 10));
  }

  /** `value?.toFixed(1) || ''`: toFixed never gives the empty string, so only an absent value is empty. */
  function FixedOrEmpty(value: Option<Number>): (cell: string)
    ensures NoSeparators(cell)
    ensures cell == "" <==> value.None?
  {
    match value
    case None => ""
    case Some(x) =>
      FixedHasNoSeparators(x);
      ToFixed1(x)
  }

  /** The cells of a record's line: `Object.values` of the export row, in declaration order. */
  function RowCells(item: ParsedHealthData): (cells: seq<string>)
    ensures |cells| == |Headers|
    ensures forall k :: 0 <= k < |cells| ==> NoSeparators(cells[k])
  {
    [LocaleDateString(item.date), FixedOrEmpty(item.weight), FixedOrEmpty(item.bodyFat), "", ""]
  }

  /** A record's line: its cells joined by commas. It splits back into those cells and holds no newline. */
  function FormatRow(item: ParsedHealthData): (line: string)
    ensures Split(line, ',') == RowCells(item)
    ensures '\n' !in line
  {
    SplitJoin(RowCells(item), ',');
    JoinAvoids(RowCells(item), ',', '\n');
    Join(RowCells(item), ',')
  }

  /** One line per record, in input order. */
  function Rows(data: seq<ParsedHealthData>): (rows: seq<string>)
    ensures |rows| == |data|
    ensures forall i :: 0 <= i < |data| ==> Split(rows[i], ',') == RowCells(data[i]) && '\n' !in rows[i]
  {
    seq(|data|, i requires 0 <= i < |data| => FormatRow(data[i]))
  }

  /** `convertToCSV(data)`. */
  function ConvertToCsv(data: seq<ParsedHealthData>): (csv: string)
    ensures csv == "" <==> data == []
  {
    if |data| == 0 then ""
    else
      var lines := [HeaderLine()] + Rows(data);
      JoinStartsWithFirst(lines, '\n');
      JoinStartsWithFirst(Headers, ',');
      Join(lines, '\n')
  }

  // ---------------------------------------------------------------------------------------
  // Properties

  lemma HeaderCells()
    ensures Split(HeaderLine(), ',') == Headers
  {
    SplitJoin(Headers, ',');
  }

  /** A record line splits back into its five cells. */
  lemma RowSplits(item: ParsedHealthData)
    ensures Split(FormatRow(item), ',') == RowCells(item)
    ensures |Split(FormatRow(item), ',')| == |Split(HeaderLine(), ',')|
  {
    HeaderCells();
  }

  /** A non-empty export is the header line, then exactly one line per record in input order. */
  lemma CsvLines(data: seq<ParsedHealthData>)
    requires |data| > 0
    ensures Split(ConvertToCsv(data), '\n') == [HeaderLine()] + Rows(data)
    ensures |Split(ConvertToCsv(data), '\n')| == |data| + 1
  {
    LinesHaveNoNewline(data);
    SplitJoin([HeaderLine()] + Rows(data), '\n');
  }

  lemma LinesHaveNoNewline(data: seq<ParsedHealthData>)
    ensures var lines := [HeaderLine()] + Rows(data);
      forall k :: 0 <= k < |lines| ==> '\n' !in lines[k]
  {
    HeaderHasNoNewline();
  }

  lemma HeaderHasNoNewline()
    ensures '\n' !in HeaderLine()
  {
    JoinAvoids(Headers, ',', '\n');
  }

  /** The weight and body-fat cells are empty exactly when the metric is absent, and otherwise read back as the value rounded to one decimal. */
  lemma MetricCells(item: ParsedHealthData)
    ensures RowCells(item)[1] == "" <==> item.weight.None?
    ensures RowCells(item)[2] == "" <==> item.bodyFat.None?
    ensures item.weight.Some? && item.weight.value.Num? ==>
      ParseFloat(RowCells(item)[1]) == Num(Round1(item.weight.value.value))
    ensures item.bodyFat.Some? && item.bodyFat.value.Num? ==>
      ParseFloat(RowCells(item)[2]) == Num(Round1(item.bodyFat.value.value))
  {
    if item.weight.Some? {
      ToFixed1RoundTrip(item.weight.value);
    }
    if item.bodyFat.Some? {
      ToFixed1RoundTrip(item.bodyFat.value);
    }
  }

  /** The muscle-mass and BMI cells are always empty. */
  lemma UncarriedColumnsEmpty(item: ParsedHealthData)
    ensures RowCells(item)[3] == "" && RowCells(item)[4] == ""
  {
  }

  // ---------------------------------------------------------------------------------------
  // Worked examples

  const FirstOfMarch: Date := At(CalendarDay(2024, 2, 1), 0)

  /** 1 March 2024 is written `2024/3/1`, with no zero padding. */
  lemma DateExample()
    ensures LocaleDateString(FirstOfMarch) == "2024/3/1"
  {
    assert NatToString(2024) == "2024" by {
      assert NatToString(202) == "202" by {
        assert NatToString(20) == "20";
      }
    }
  }

  /** A record without readings gives `2024/3/1,,,,`. */
  lemma EmptyRowExample()
    ensures FormatRow(ParsedHealthData(FirstOfMarch, None, None)) == "2024/3/1,,,,"
  {
    DateExample();
    var cells := RowCells(ParsedHealthData(FirstOfMarch, None, None));
    assert cells == ["2024/3/1", "", "", "", ""];
    assert Join(cells[3..], ',') == ",";
    assert Join(cells[2..], ',') == ",,";
    assert Join(cells[1..], ',') == ",,,";
    assert Join(cells, ',') == "2024/3/1,,,,";
  }

  /** 70.123456 is written `70.1`, 15.987654 is written `16.0` and 15 is written `15.0`. */
  lemma FixedExamples()
    ensures ToFixed1(Num(70.123456)) == "70.1"
    ensures ToFixed1(Num(15.987654)) == "16.0"
    ensures ToFixed1(Num(15.0)) == "15.0"
  {
    assert MathRound(701.23456) == 701;
    assert MathRound(159.87654) == 160;
    assert MathRound(150.0) == 150;
  }

  lemma RoundingExample()
    ensures FormatRow(ParsedHealthData(FirstOfMarch, Some(Num(70.123456)), Some(Num(15.987654))))
      == "2024/3/1,70.1,16.0,,"
  {
    var item := ParsedHealthData(FirstOfMarch, Some(Num(70.123456)), Some(Num(15.987654)));
    DateExample();
    FixedExamples();
    var cells := RowCells(item);
    assert cells == ["2024/3/1", "70.1", "16.0", "", ""];
    assert Join(cells[3..], ',') == ",";
    assert Join(cells[2..], ',') == "16.0,,";
    assert Join(cells[1..], ',') == "70.1,16.0,,";
    assert Join(cells, ',') == "2024/3/1,70.1,16.0,,";
  }

  /** The export of one record is the header line, a newline and the record's line. */
  lemma CsvOfOne(item: ParsedHealthData)
    ensures ConvertToCsv([item]) == HeaderLine() + "\n" + FormatRow(item)
  {
    var lines := [HeaderLine()] + Rows([item]);
    assert lines == [HeaderLine(), FormatRow(item)];
    assert lines[1..] == [FormatRow(item)];
    assert ConvertToCsv([item]) == Join(lines, '\n');
    assert Join(lines, '\n') == lines[0] + ['\n'] + Join(lines[1..], '\n');
  }

  /** A record with only a body-fat reading of 15 gives `2024/3/1,,15.0,,`. */
  lemma BodyFatOnlyRowExample()
    ensures FormatRow(ParsedHealthData(FirstOfMarch, None, Some(Num(15.0)))) == "2024/3/1,,15.0,,"
  {
    DateExample();
    FixedExamples();
    var cells := RowCells(ParsedHealthData(FirstOfMarch, None, Some(Num(15.0))));
    assert cells == ["2024/3/1", "", "15.0", "", ""];
    assert Join(cells[3..], ',') == ",";
    assert Join(cells[2..], ',') == "15.0,,";
    assert Join(cells[1..], ',') == ",15.0,,";
    assert Join(cells, ',') == "2024/3/1,,15.0,,";
  }

  lemma SingleRecordExample()
    ensures ConvertToCsv([ParsedHealthData(FirstOfMarch, None, Some(Num(15.0)))])
      == HeaderLine() + "\n" + "2024/3/1,,15.0,,"
  {
    BodyFatOnlyRowExample();
    CsvOfOne(ParsedHealthData(FirstOfMarch, None, Some(Num(15.0))));
  }
}
