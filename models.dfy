/** The data shapes the query pipeline passes around: the page descriptor
    `Pageable` with its `Sort` and `Filter` parts, the `PageableResult` it
    produces, the `QueryParams` the table emits, and the user records. */
module Models {

  datatype Option<+T> = None | Some(value: T)

  /** A field value of a user record. A date of birth is kept as its
      calendar year, month and day. */
  datatype Value = Null | Bool(b: bool) | BirthDate(year: int, month: int, day: int) | Str(s: string)

  /** A record maps field names to values; an absent field reads as `Null`,
      as `undefined == null` holds in the source. */
  type Record = map<string, Value>

  function Get(r: Record, field: string): Value {
    if field in r then r[field] else Null
  }

  /** Sort by one field; `direction` is `"ascend"`, `"descend"` or any other string. */
  datatype Sort = Sort(field: string, direction: string)

  /** Filter on one field; a null or empty `value` list imposes no constraint. */
  datatype Filter = Filter(field: Option<string>, value: Option<seq<string>>)

  /** The page descriptor sent with every fetch. */
  datatype Pageable = Pageable(
    page: nat,
    size: int,
    query: Option<string>,
    sort: Option<Sort>,
    filters: Option<seq<Filter>>)

  datatype PageableResult = PageableResult(content: seq<Record>, completed: bool)

  /** The table's sort state: column key and order (`"ascend"`, `"descend"` or null). */
  datatype SortParam = SortParam(key: Option<string>, value: Option<string>)

  /** One column's filter state: column key and the selected filter tokens. */
  datatype FilterParam = FilterParam(key: Option<string>, value: Option<seq<string>>)

  /** What the table emits when its sort or filter state changes. */
  datatype QueryParams = QueryParams(sort: SortParam, filters: seq<FilterParam>)
}
