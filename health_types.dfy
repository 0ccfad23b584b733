/** The records that flow through the dashboard's data pipeline. */
module HealthTypes {
  import opened Optional
  import opened Calendar
  import opened Numbers

  /** A measurement record as the Health Planet API sends it; `date` is `YYYYMMDD` or `YYYYMMDDHHMM...`. */
  datatype HealthData = HealthData(date: string, keydata: string, model: string, tag: string)

  /** One day's merged measurements; an absent metric is `None`. */
  datatype ParsedHealthData = ParsedHealthData(date: Date, weight: Option<Number>, bodyFat: Option<Number>)

  /**
    The date-window kinds. The strings `'week'`, `'month'` and `'year'` are `Week`, `Month` and
    `Year`; `Unrecognised(text)` stands for a run-time value outside that declared union, which
    the type annotation does not prevent, so its `text` is never one of those three strings.
  */
  datatype DateRange = Week | Month | Year | Unrecognised(text: string)

  /** The query window: its kind and its two end points. */
  datatype DateRangeFilter = DateRangeFilter(rangeType: DateRange, startDate: Date, endDate: Date)
}
