/** The values that flow through the job-posting table: cell values, the
    Python objects found in the `categories` column, the exceptions that can
    escape category extraction, and one record of the table. */
module Frame {
  import opened Wrappers

  /** A scalar cell. `Missing` stands for Python `None` and for `NaN`, the
      values pandas treats as absent (and drops from group keys). */
  datatype Value = Missing | Int(i: int) | Str(s: string)

  /** One element of a category list: a dict from field name to scalar, or
      anything else (a number, a string, a nested list), which cannot be
      subscripted with a string key. */
  datatype Item = Dict(fields: map<string, Value>) | NonDict

  /** What the `categories` column holds, and what `ast.literal_eval` returns:
      a list of items, a string, or any other object (None, NaN, a number, a dict). */
  datatype PyObject = PyList(items: seq<Item>) | PyStr(s: string) | PyOther

  /** The exceptions that can escape `extract_category`. */
  datatype PyError = KeyError(key: string) | TypeError

  /** The cell `extract_category` writes into `flattened_categories`:
      `None`, or a list of display names. */
  type Names = Option<seq<Value>>

  /** A job posting, restricted to the columns the demand pipeline reads.
      A missing application count is `None` (NaN in the frame). */
  datatype Record = Record(
    title: Value,
    positionLevels: Value,
    applications: Option<int>,
    categories: PyObject)

  /** The dict `category_map` in force when `extract_category` runs. */
  const CategoryMap: map<int, string> := map[
    7 := "Consulting",
    14 := "Events / Promotions",
    24 := "Logistics / Supply Chain",
    29 := "Professional Services",
    35 := "Sales / Retail"]

  /** The contribution of a record to a sum: pandas' `sum` skips NaN. */
  function RecordApplications(rec: Record): (n: int)
    ensures rec.applications.None? ==> n == 0
    ensures rec.applications.Some? ==> n == rec.applications.value
  {
    match rec.applications
    case None => 0
    case Some(k) => k
  }
}
