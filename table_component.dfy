/** The table's query-param normaliser: from the table's per-column sort and
    filter state it builds the one `QueryParams` value it emits, taking the
    first column with an active sort order and the filters that have a value. */
module TableComponentModule {
  import opened Models
  import opened Seqs

  /** `s || null` on a string that may be null: `''` and null both give null. */
  function OrNull(o: Option<string>): (r: Option<string>)
    ensures r.None? <==> o.None? || o.value == ""
    ensures r.Some? ==> r == o
  {
    if o.Some? && o.value != "" then o else None
  }

  /** The index of the first sort entry whose order is not null, if any. */
  function FindActiveSort(sorts: seq<SortParam>): (r: Option<nat>)
    ensures r.None? <==> forall i :: 0 <= i < |sorts| ==> sorts[i].value.None?
    ensures r.Some? ==>
      r.value < |sorts| && sorts[r.value].value.Some? &&
      forall i :: 0 <= i < r.value ==> sorts[i].value.None?
  {
    if |sorts| == 0 then None
    else if sorts[0].value.Some? then Some(0)
    else
      match FindActiveSort(sorts[1..])
      case None => None
      case Some(k) => Some(k + 1)
  }

  /** A filter entry is kept when its value is not null. */
  predicate HasValue(f: FilterParam) {
    f.value.Some?
  }

  /** The emitted parameters: the key and order of the first active sort
      (both null when none is active), and the filters that have a value. */
  function OnQueryParamsChange(sorts: seq<SortParam>, filters: seq<FilterParam>): (r: QueryParams)
    ensures FindActiveSort(sorts).None? ==> r.sort == SortParam(None, None)
    ensures FindActiveSort(sorts).Some? ==>
      var current := sorts[FindActiveSort(sorts).value];
      r.sort == SortParam(OrNull(current.key), OrNull(current.value))
    ensures |r.filters| <= |filters|
  {
    var currentFilters := Keep(filters, HasValue);
    match FindActiveSort(sorts)
    case None => QueryParams(SortParam(None, None), currentFilters)
    case Some(k) => QueryParams(SortParam(OrNull(sorts[k].key), OrNull(sorts[k].value)), currentFilters)
  }

  /** The emitted sort is taken from the first entry with a non-null order:
      an entry before it, whatever its key, plays no part. */
  lemma SortFromFirstActive(sorts: seq<SortParam>, filters: seq<FilterParam>, k: int)
    requires 0 <= k < |sorts| && sorts[k].value.Some?
    requires forall i :: 0 <= i < k ==> sorts[i].value.None?
    ensures OnQueryParamsChange(sorts, filters).sort
         == SortParam(OrNull(sorts[k].key), OrNull(sorts[k].value))
  {
    assert FindActiveSort(sorts) == Some(k);
  }

  /** With no active sort the emitted key and order are both null. */
  lemma NoActiveSortEmitsNull(sorts: seq<SortParam>, filters: seq<FilterParam>)
    requires forall i :: 0 <= i < |sorts| ==> sorts[i].value.None?
    ensures OnQueryParamsChange(sorts, filters).sort.key.None?
    ensures OnQueryParamsChange(sorts, filters).sort.value.None?
  {
  }

  /** The emitted filters are exactly the entries whose value is not null,
      in their original order. */
  lemma EmittedFilters(sorts: seq<SortParam>, filters: seq<FilterParam>)
    ensures var emitted := OnQueryParamsChange(sorts, filters).filters;
      && (forall i :: 0 <= i < |emitted| ==> emitted[i] in filters && emitted[i].value.Some?)
      && (forall i :: 0 <= i < |filters| && filters[i].value.Some? ==> filters[i] in emitted)
      && IsSubsequence(emitted, filters)
  {
    KeepMembers(filters, HasValue);
    KeepIsSubsequence(filters, HasValue);
  }
}
