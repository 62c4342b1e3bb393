/** The client-side query engine of `UsersService`: filter, free-text search,
    stable sort and page slicing over the full user list. The current year,
    which the source reads from the clock, is a parameter. */
module UsersService {
  import opened Models
  import opened Text
  import opened Seqs
  import opened ValueOrder

  // ---------------------------------------------------------------------
  // Filtering
  // ---------------------------------------------------------------------

  /** Age in whole years: current year minus birth year, no month or day
      adjustment. Whoever turns 18 during the current year is already 18. */
  function CalculateAge(birthYear: int, currentYear: int): (age: int)
    ensures age >= 18 <==> birthYear <= currentYear - 18
    ensures birthYear == currentYear ==> age == 0
  {
    currentYear - birthYear
  }

  /** JavaScript truthiness of a field value. A date of birth is a non-empty
      string in the source, hence truthy. */
  predicate Truthy(v: Value) {
    match v
    case Null => false
    case Bool(b) => b
    case BirthDate(_, _, _) => true
    case Str(s) => s != ""
  }

  /** `String(v)`. */
  function Stringify(v: Value): string {
    match v
    case Null => "null"
    case Bool(b) => if b then "true" else "false"
    case BirthDate(y, _, _) => IntToDecimal(y)
    case Str(s) => s
  }

  /** The year of the Unix epoch, 1 January 1970 (UTC). */
  const EpochYear: int := 1970

  /** The year `new Date(v).getFullYear()` gives for a field value, if any.
      A boolean converts to the number 0 or 1, a millisecond past the epoch;
      any other non-date value is taken as an invalid date, with no year. */
  function DateYear(v: Value): (r: Option<int>)
    ensures v.BirthDate? ==> r == Some(v.year)
    ensures v.Bool? ==> r == Some(EpochYear)
    ensures r.None? <==> v.Null? || v.Str?
  {
    match v
    case BirthDate(y, _, _) => Some(y)
    case Bool(_) => Some(EpochYear)
    case _ => None
  }

  /** Whether one filter token accepts a (non-null) field value. The age
      tokens compare the age of the value's date with 18; a value with no
      date has age `NaN`, which fails both comparisons. */
  predicate TokenMatches(token: string, v: Value, currentYear: int): (accepted: bool)
    ensures (token == "ADULTS" || token == "NOT_ADULTS") && DateYear(v).None? ==> !accepted
    ensures (token == "ADULTS" || token == "NOT_ADULTS") && DateYear(v).Some? ==>
      (accepted <==> (token == "ADULTS") == (DateYear(v).value <= currentYear - 18))
    ensures token == "ACTIVE" || token == "NOT_ACTIVE" ==> (accepted <==> (token == "ACTIVE") == Truthy(v))
  {
    if token == "NOT_ADULTS" then
      DateYear(v).Some? && CalculateAge(DateYear(v).value, currentYear) < 18
    else if token == "ADULTS" then
      DateYear(v).Some? && CalculateAge(DateYear(v).value, currentYear) >= 18
    else if token == "ACTIVE" then
      Truthy(v)
    else if token == "NOT_ACTIVE" then
      !Truthy(v)
    else
      Contains(ToLower(Stringify(v)), ToLower(token))
  }

  /** The property key a filter reads: `item[null]` reads the key `"null"`. */
  function FieldKey(field: Option<string>): string {
    match field
    case None => "null"
    case Some(f) => f
  }

  /** A filter constrains only when its token list is present and non-empty. */
  predicate Constrains(f: Filter) {
    f.value.Some? && |f.value.value| > 0
  }

  /** One filter admits a record: no constraint, or the field is non-null and
      some token matches it (OR within a filter). */
  predicate FilterAdmits(item: Record, f: Filter, currentYear: int) {
    !Constrains(f) ||
    (Get(item, FieldKey(f.field)) != Null &&
     exists t :: t in f.value.value && TokenMatches(t, Get(item, FieldKey(f.field)), currentYear))
  }

  /** Every filter admits the record (AND across filters). */
  predicate AdmitsAll(item: Record, filters: seq<Filter>, currentYear: int) {
    forall i :: 0 <= i < |filters| ==> FilterAdmits(item, filters[i], currentYear)
  }

  function ApplyFilters(result: seq<Record>, filters: Option<seq<Filter>>, currentYear: int): (r: seq<Record>)
    ensures filters.None? || filters.value == [] ==> r == result
    ensures |r| <= |result|
  {
    if filters.None? || |filters.value| == 0 then result
    else Keep(result, (item: Record) => AdmitsAll(item, filters.value, currentYear))
  }

  /** A record survives the filter stage iff it is in the input and every
      filter admits it. */
  lemma ApplyFiltersMembers(result: seq<Record>, filters: seq<Filter>, currentYear: int)
    ensures forall x :: x in ApplyFilters(result, Some(filters), currentYear) <==>
      x in result && AdmitsAll(x, filters, currentYear)
  {
    if filters != [] {
      KeepMembers(result, (item: Record) => AdmitsAll(item, filters, currentYear));
    }
  }

  /** The same, with the filter semantics spelled out: AND across the
      filters that carry tokens, non-null field, OR across the tokens. */
  lemma FilterSemantics(result: seq<Record>, filters: seq<Filter>, currentYear: int, x: Record)
    ensures x in ApplyFilters(result, Some(filters), currentYear) <==>
      x in result &&
      forall i :: 0 <= i < |filters| && filters[i].value.Some? && filters[i].value.value != [] ==>
        Get(x, FieldKey(filters[i].field)) != Null &&
        exists t :: t in filters[i].value.value && TokenMatches(t, Get(x, FieldKey(filters[i].field)), currentYear)
  {
    ApplyFiltersMembers(result, filters, currentYear);
  }

  /** A record whose filtered field is null is dropped by any filter that
      carries tokens. */
  lemma NullFieldExcluded(result: seq<Record>, filters: seq<Filter>, currentYear: int, x: Record, i: int)
    requires 0 <= i < |filters| && Constrains(filters[i])
    requires Get(x, FieldKey(filters[i].field)) == Null
    ensures x !in ApplyFilters(result, Some(filters), currentYear)
  {
    ApplyFiltersMembers(result, filters, currentYear);
  }

  /** The filter stage keeps records in their input order. */
  lemma ApplyFiltersIsSubsequence(result: seq<Record>, filters: Option<seq<Filter>>, currentYear: int)
    ensures IsSubsequence(ApplyFilters(result, filters, currentYear), result)
  {
    if filters.None? || |filters.value| == 0 {
      SubsequenceReflexive(result);
    } else {
      KeepIsSubsequence(result, (item: Record) => AdmitsAll(item, filters.value, currentYear));
    }
  }

  lemma {:induction false} KeepSamePredicate(s: seq<Record>, p: Record -> bool, q: Record -> bool)
    requires forall x :: x in s ==> p(x) == q(x)
    ensures Keep(s, p) == Keep(s, q)
  {
    if s != [] {
      KeepSamePredicate(s[1..], p, q);
    }
  }

  lemma {:induction false} KeepKeep(s: seq<Record>, p: Record -> bool, q: Record -> bool)
    ensures Keep(Keep(s, p), q) == Keep(s, (x: Record) => p(x) && q(x))
  {
    if s != [] {
      KeepKeep(s[1..], p, q);
      var head := if p(s[0]) then [s[0]] else [];
      KeepConcat(head, Keep(s[1..], p), q);
    }
  }

  /** AND across filters: filtering by `fs1 + fs2` is filtering by `fs1`, then by `fs2`. */
  lemma FiltersCompose(s: seq<Record>, fs1: seq<Filter>, fs2: seq<Filter>, currentYear: int)
    ensures ApplyFilters(s, Some(fs1 + fs2), currentYear)
         == ApplyFilters(ApplyFilters(s, Some(fs1), currentYear), Some(fs2), currentYear)
  {
    var p := (item: Record) => AdmitsAll(item, fs1, currentYear);
    var q := (item: Record) => AdmitsAll(item, fs2, currentYear);
    var pq := (item: Record) => AdmitsAll(item, fs1 + fs2, currentYear);
    forall x: Record
      ensures AdmitsAll(x, fs1 + fs2, currentYear) == (AdmitsAll(x, fs1, currentYear) && AdmitsAll(x, fs2, currentYear))
    {
      if AdmitsAll(x, fs1 + fs2, currentYear) {
        forall i | 0 <= i < |fs1| ensures FilterAdmits(x, fs1[i], currentYear) {
          assert (fs1 + fs2)[i] == fs1[i];
        }
        forall i | 0 <= i < |fs2| ensures FilterAdmits(x, fs2[i], currentYear) {
          assert (fs1 + fs2)[|fs1| + i] == fs2[i];
        }
      }
      if AdmitsAll(x, fs1, currentYear) && AdmitsAll(x, fs2, currentYear) {
        forall i | 0 <= i < |fs1 + fs2| ensures FilterAdmits(x, (fs1 + fs2)[i], currentYear) {
          if i >= |fs1| {
            assert (fs1 + fs2)[i] == fs2[i - |fs1|];
          }
        }
      }
    }
    if fs1 == [] {
      assert fs1 + fs2 == fs2;
    } else if fs2 == [] {
      assert fs1 + fs2 == fs1;
    } else {
      KeepKeep(s, p, q);
      KeepSamePredicate(s, pq, (x: Record) => p(x) && q(x));
    }
  }

  /** A filter without tokens can be dropped: it constrains nothing. */
  lemma UnconstrainedFilterIsNoOp(s: seq<Record>, fs: seq<Filter>, f: Filter, currentYear: int)
    requires !Constrains(f)
    ensures ApplyFilters(s, Some(fs + [f]), currentYear) == ApplyFilters(s, Some(fs), currentYear)
  {
    FiltersCompose(s, fs, [f], currentYear);
    var mid := ApplyFilters(s, Some(fs), currentYear);
    KeepAll(mid, (item: Record) => AdmitsAll(item, [f], currentYear));
  }

  /** What each filter token means for a non-null field value. */
  lemma TokenSemantics(token: string, v: Value, currentYear: int)
    requires v != Null
    ensures TokenMatches("ADULTS", v, currentYear) <==>
      (v.BirthDate? && currentYear - v.year >= 18) || (v.Bool? && currentYear - EpochYear >= 18)
    ensures TokenMatches("NOT_ADULTS", v, currentYear) <==>
      (v.BirthDate? && currentYear - v.year < 18) || (v.Bool? && currentYear - EpochYear < 18)
    ensures v.Str? ==> !TokenMatches("ADULTS", v, currentYear) && !TokenMatches("NOT_ADULTS", v, currentYear)
    ensures v.BirthDate? || v.Bool? ==>
      TokenMatches("ADULTS", v, currentYear) != TokenMatches("NOT_ADULTS", v, currentYear)
    ensures TokenMatches("ACTIVE", v, currentYear) != TokenMatches("NOT_ACTIVE", v, currentYear)
    ensures v.Bool? ==> TokenMatches("ACTIVE", v, currentYear) == v.b
    ensures token !in {"ADULTS", "NOT_ADULTS", "ACTIVE", "NOT_ACTIVE"} ==>
      (TokenMatches(token, v, currentYear) <==>
       exists i :: OccursAt(ToLower(Stringify(v)), ToLower(token), i))
  {
    if token !in {"ADULTS", "NOT_ADULTS", "ACTIVE", "NOT_ACTIVE"} {
      assert TokenMatches(token, v, currentYear) == Contains(ToLower(Stringify(v)), ToLower(token));
    }
  }

  /** An age token on a boolean field: `new Date(false)` and `new Date(true)`
      fall in the epoch year, so from 1988 on the record counts as an adult. */
  lemma BooleanAgeIsFromEpoch(r: Record, field: string, currentYear: int)
    requires field in r && r[field].Bool? && currentYear - EpochYear >= 18
    ensures ApplyFilters([r], Some([Filter(Some(field), Some(["ADULTS"]))]), currentYear) == [r]
    ensures ApplyFilters([r], Some([Filter(Some(field), Some(["NOT_ADULTS"]))]), currentYear) == []
  {
    var adults := Filter(Some(field), Some(["ADULTS"]));
    var minors := Filter(Some(field), Some(["NOT_ADULTS"]));
    assert "ADULTS" in adults.value.value && TokenMatches("ADULTS", Get(r, field), currentYear);
    assert AdmitsAll(r, [adults], currentYear);
    assert !AdmitsAll(r, [minors], currentYear) by {
      assert !FilterAdmits(r, [minors][0], currentYear);
    }
  }

  // ---------------------------------------------------------------------
  // Free-text search
  // ---------------------------------------------------------------------

  const SearchFields: seq<string> := ["firstName", "lastName", "phone"]

  /** The field is present and its text contains the query, ignoring case. */
  predicate FieldContains(item: Record, field: string, query: string) {
    Get(item, field) != Null && Contains(ToLower(Stringify(Get(item, field))), ToLower(query))
  }

  predicate SearchMatches(item: Record, query: string) {
    exists i :: 0 <= i < |SearchFields| && FieldContains(item, SearchFields[i], query)
  }

  function ApplySearchQuery(result: seq<Record>, searchQuery: string): (r: seq<Record>)
    ensures |r| <= |result|
  {
    Keep(result, (item: Record) => SearchMatches(item, searchQuery))
  }

  /** A record survives the search iff one of `firstName`, `lastName` and
      `phone` is present and contains the query, ignoring case. */
  lemma ApplySearchQueryMembers(result: seq<Record>, searchQuery: string)
    ensures forall x :: x in ApplySearchQuery(result, searchQuery) <==>
      x in result &&
      (FieldContains(x, "firstName", searchQuery) ||
       FieldContains(x, "lastName", searchQuery) ||
       FieldContains(x, "phone", searchQuery))
  {
    assert SearchFields[0] == "firstName" && SearchFields[1] == "lastName" && SearchFields[2] == "phone";
    KeepMembers(result, (item: Record) => SearchMatches(item, searchQuery));
  }

  /** The search stage keeps records in their input order. */
  lemma ApplySearchQueryIsSubsequence(result: seq<Record>, searchQuery: string)
    ensures IsSubsequence(ApplySearchQuery(result, searchQuery), result)
  {
    KeepIsSubsequence(result, (item: Record) => SearchMatches(item, searchQuery));
  }

  // ---------------------------------------------------------------------
  // Sorting
  // ---------------------------------------------------------------------

  function Key(item: Record, sort: Sort): Value {
    Get(item, sort.field)
  }

  /** The comparator returns a negative number for `(x, y)`: `x` goes first.
      Any direction other than `"ascend"` sorts descending. */
  predicate Before(x: Record, y: Record, sort: Sort): (b: bool)
    ensures b ==> Key(x, sort) != Key(y, sort)
  {
    LessIrreflexive(Key(x, sort));
    if sort.direction == "ascend" then Less(Key(x, sort), Key(y, sort))
    else Less(Key(y, sort), Key(x, sort))
  }

  /** Inserts `x` into `s` after every element it does not strictly precede. */
  function Insert(s: seq<Record>, x: Record, sort: Sort): seq<Record> {
    if |s| == 0 || !Before(x, s[|s| - 1], sort) then s + [x]
    else Insert(s[..|s| - 1], x, sort) + [s[|s| - 1]]
  }

  /** The stable sort of `s` under the comparator: insertion from the left. */
  function SortedBy(s: seq<Record>, sort: Sort): seq<Record> {
    if |s| == 0 then []
    else Insert(SortedBy(s[..|s| - 1], sort), s[|s| - 1], sort)
  }

  /** No element is strictly preceded by a later one. */
  ghost predicate Ordered(s: seq<Record>, sort: Sort) {
    forall i, j :: 0 <= i < j < |s| ==> !Before(s[j], s[i], sort)
  }

  /** The elements of `s` whose sort key is `k`, in order. */
  function WithKey(s: seq<Record>, sort: Sort, k: Value): seq<Record> {
    Keep(s, (item: Record) => Key(item, sort) == k)
  }

  lemma BeforeAsymmetric(x: Record, y: Record, sort: Sort)
    requires Before(x, y, sort)
    ensures !Before(y, x, sort) && Key(x, sort) != Key(y, sort)
  {
    if sort.direction == "ascend" {
      LessAsymmetric(Key(x, sort), Key(y, sort));
      LessIrreflexive(Key(x, sort));
    } else {
      LessAsymmetric(Key(y, sort), Key(x, sort));
      LessIrreflexive(Key(x, sort));
    }
  }

  lemma NotBeforeTransitive(a: Record, b: Record, c: Record, sort: Sort)
    requires !Before(c, b, sort) && !Before(b, a, sort)
    ensures !Before(c, a, sort)
  {
    var ka, kb, kc := Key(a, sort), Key(b, sort), Key(c, sort);
    if sort.direction == "ascend" {
      NotLessIsLessOrEqual(kb, kc);
      NotLessIsLessOrEqual(ka, kb);
      LessOrEqualTransitive(ka, kb, kc);
      NotLessIsLessOrEqual(ka, kc);
    } else {
      NotLessIsLessOrEqual(kc, kb);
      NotLessIsLessOrEqual(kb, ka);
      LessOrEqualTransitive(kc, kb, ka);
      NotLessIsLessOrEqual(kc, ka);
    }
  }

  lemma {:induction false} InsertPermutes(s: seq<Record>, x: Record, sort: Sort)
    ensures multiset(Insert(s, x, sort)) == multiset(s) + multiset{x}
  {
    if |s| > 0 && Before(x, s[|s| - 1], sort) {
      InsertPermutes(s[..|s| - 1], x, sort);
      assert s == s[..|s| - 1] + [s[|s| - 1]];
    }
  }

  /** Sorting permutes: the multiset of records is unchanged. */
  lemma {:induction false} SortedByPermutes(s: seq<Record>, sort: Sort)
    ensures multiset(SortedBy(s, sort)) == multiset(s)
    ensures |SortedBy(s, sort)| == |s|
  {
    if |s| > 0 {
      SortedByPermutes(s[..|s| - 1], sort);
      InsertPermutes(SortedBy(s[..|s| - 1], sort), s[|s| - 1], sort);
      assert s == s[..|s| - 1] + [s[|s| - 1]];
      assert |multiset(SortedBy(s, sort))| == |multiset(s)|;
    }
  }

  lemma {:induction false} InsertOrdered(s: seq<Record>, x: Record, sort: Sort)
    requires Ordered(s, sort)
    ensures Ordered(Insert(s, x, sort), sort)
  {
    if |s| == 0 {
    } else if !Before(x, s[|s| - 1], sort) {
      AppendOrdered(s, x, sort);
    } else {
      var front, last := s[..|s| - 1], s[|s| - 1];
      InsertOrdered(front, x, sort);
      InsertPermutes(front, x, sort);
      InsertBeforeLastOrdered(s, x, sort);
    }
  }

  /** Appending a record that no element strictly follows keeps the list ordered. */
  lemma AppendOrdered(s: seq<Record>, x: Record, sort: Sort)
    requires Ordered(s, sort) && |s| > 0 && !Before(x, s[|s| - 1], sort)
    ensures Ordered(s + [x], sort)
  {
    var r := s + [x];
    forall i | 0 <= i < |s| ensures !Before(x, s[i], sort) {
      if i < |s| - 1 {
        NotBeforeTransitive(s[i], s[|s| - 1], x, sort);
      }
    }
    assert forall i, j :: 0 <= i < j < |r| ==> !Before(r[j], r[i], sort);
  }

  /** When `x` goes before the last record, the ordered insertion into the
      front, followed by the last record, is ordered. */
  lemma InsertBeforeLastOrdered(s: seq<Record>, x: Record, sort: Sort)
    requires Ordered(s, sort) && |s| > 0 && Before(x, s[|s| - 1], sort)
    requires Ordered(Insert(s[..|s| - 1], x, sort), sort)
    requires multiset(Insert(s[..|s| - 1], x, sort)) == multiset(s[..|s| - 1]) + multiset{x}
    ensures Ordered(Insert(s[..|s| - 1], x, sort) + [s[|s| - 1]], sort)
  {
    var front, last := s[..|s| - 1], s[|s| - 1];
    var ins := Insert(front, x, sort);
    var r := ins + [last];
    forall i | 0 <= i < |ins| ensures !Before(last, ins[i], sort) {
      assert ins[i] in multiset(ins);
      if ins[i] == x {
        BeforeAsymmetric(x, last, sort);
      } else {
        assert ins[i] in multiset(front);
        var k :| 0 <= k < |front| && front[k] == ins[i];
        assert s[k] == front[k];
      }
    }
    assert forall i, j :: 0 <= i < j < |r| ==> !Before(r[j], r[i], sort);
  }

  lemma {:induction false} SortedByOrdered(s: seq<Record>, sort: Sort)
    ensures Ordered(SortedBy(s, sort), sort)
  {
    if |s| > 0 {
      SortedByOrdered(s[..|s| - 1], sort);
      InsertOrdered(SortedBy(s[..|s| - 1], sort), s[|s| - 1], sort);
    }
  }

  /** Keys are non-decreasing after an `"ascend"` sort and non-increasing
      after any other. */
  lemma SortedByKeysMonotone(s: seq<Record>, sort: Sort)
    ensures sort.direction == "ascend" ==>
      forall i, j :: 0 <= i < j < |SortedBy(s, sort)| ==>
        LessOrEqual(Key(SortedBy(s, sort)[i], sort), Key(SortedBy(s, sort)[j], sort))
    ensures sort.direction != "ascend" ==>
      forall i, j :: 0 <= i < j < |SortedBy(s, sort)| ==>
        LessOrEqual(Key(SortedBy(s, sort)[j], sort), Key(SortedBy(s, sort)[i], sort))
  {
    var r := SortedBy(s, sort);
    SortedByOrdered(s, sort);
    forall i, j | 0 <= i < j < |r|
      ensures sort.direction == "ascend" ==> LessOrEqual(Key(r[i], sort), Key(r[j], sort))
      ensures sort.direction != "ascend" ==> LessOrEqual(Key(r[j], sort), Key(r[i], sort))
    {
      assert !Before(r[j], r[i], sort);
      NotLessIsLessOrEqual(Key(r[i], sort), Key(r[j], sort));
      NotLessIsLessOrEqual(Key(r[j], sort), Key(r[i], sort));
    }
  }

  /** Appending one record to a list appends it to its key class. */
  lemma WithKeySnoc(a: seq<Record>, y: Record, sort: Sort, k: Value)
    ensures WithKey(a + [y], sort, k) == WithKey(a, sort, k) + (if Key(y, sort) == k then [y] else [])
  {
    var p := (item: Record) => Key(item, sort) == k;
    KeepConcat(a, [y], p);
    assert Keep([y], p) == (if Key(y, sort) == k then [y] else []);
  }

  lemma WithKeyLast(s: seq<Record>, sort: Sort, k: Value)
    requires |s| > 0
    ensures WithKey(s, sort, k)
         == WithKey(s[..|s| - 1], sort, k) + (if Key(s[|s| - 1], sort) == k then [s[|s| - 1]] else [])
  {
    WithKeySnoc(s[..|s| - 1], s[|s| - 1], sort, k);
    assert s == s[..|s| - 1] + [s[|s| - 1]];
  }

  lemma {:induction false} InsertKeepsKeyOrder(s: seq<Record>, x: Record, sort: Sort, k: Value)
    ensures WithKey(Insert(s, x, sort), sort, k)
         == WithKey(s, sort, k) + (if Key(x, sort) == k then [x] else [])
  {
    if |s| == 0 || !Before(x, s[|s| - 1], sort) {
      WithKeySnoc(s, x, sort, k);
    } else {
      var front, last := s[..|s| - 1], s[|s| - 1];
      var mine := if Key(x, sort) == k then [x] else [];
      var theirs := if Key(last, sort) == k then [last] else [];
      InsertKeepsKeyOrder(front, x, sort, k);
      WithKeySnoc(Insert(front, x, sort), last, sort, k);
      WithKeyLast(s, sort, k);
      BeforeAsymmetric(x, last, sort);
      assert mine == [] || theirs == [];
      assert WithKey(front, sort, k) + mine + theirs == WithKey(front, sort, k) + theirs + mine;
    }
  }

  /** Stability: records with equal keys keep their relative order. */
  lemma {:induction false} SortedByStable(s: seq<Record>, sort: Sort, k: Value)
    ensures WithKey(SortedBy(s, sort), sort, k) == WithKey(s, sort, k)
  {
    if |s| > 0 {
      var front, last := s[..|s| - 1], s[|s| - 1];
      SortedByStable(front, sort, k);
      InsertKeepsKeyOrder(SortedBy(front, sort), last, sort, k);
      WithKeyLast(s, sort, k);
    }
  }

  /** When every record has the same key (for instance, the field is absent
      from all of them) sorting leaves the list as it was. */
  lemma {:induction false} SortedBySameKeyIsIdentity(s: seq<Record>, sort: Sort, k: Value)
    requires forall i :: 0 <= i < |s| ==> Key(s[i], sort) == k
    ensures SortedBy(s, sort) == s
  {
    if |s| > 0 {
      SortedBySameKeyIsIdentity(s[..|s| - 1], sort, k);
      LessIrreflexive(k);
      assert s == s[..|s| - 1] + [s[|s| - 1]];
    }
  }

  /** One step of the insertion loop: `x` moves left past `prefix[j - 1]`. */
  lemma InsertShift(prefix: seq<Record>, x: Record, sort: Sort, j: int)
    requires 0 < j <= |prefix| && Before(x, prefix[j - 1], sort)
    ensures Insert(prefix[..j], x, sort) + prefix[j..] == Insert(prefix[..j - 1], x, sort) + prefix[j - 1..]
  {
    assert prefix[..j][..j - 1] == prefix[..j - 1];
    assert Insert(prefix[..j], x, sort) == Insert(prefix[..j - 1], x, sort) + [prefix[j - 1]];
    assert prefix[j - 1..] == [prefix[j - 1]] + prefix[j..];
  }

  /** The insertion loop stops: `x` lands at `j`. */
  lemma InsertPlace(prefix: seq<Record>, x: Record, sort: Sort, j: int)
    requires 0 <= j <= |prefix| && (j == 0 || !Before(x, prefix[j - 1], sort))
    ensures Insert(prefix[..j], x, sort) + prefix[j..] == prefix[..j] + [x] + prefix[j..]
  {
  }

  lemma SortedByPrefix(s: seq<Record>, sort: Sort, i: int)
    requires 0 <= i < |s|
    ensures SortedBy(s[..i + 1], sort) == Insert(SortedBy(s[..i], sort), s[i], sort)
  {
    assert s[..i + 1][..i] == s[..i];
  }

  /** One pass of the insertion sort: moves `result[i]` left into the sorted
      prefix `result[..i]`, past every record it strictly precedes. The
      slot at `j` is the hole the record is moving through. */
  method InsertInto(result: array<Record>, i: int, sort: Sort)
    requires 0 <= i < result.Length
    modifies result
    ensures result[..i + 1] == Insert(old(result[..i]), old(result[i]), sort)
    ensures result[i + 1..] == old(result[i + 1..])
  {
    ghost var prefix := result[..i];
    var x := result[i];
    var j := i;
    assert prefix[..j] == prefix && prefix[j..] == [];
    assert result[..i + 1] == prefix[..j] + [result[j]] + prefix[j..];
    while j > 0 && Before(x, result[j - 1], sort)
      invariant 0 <= j <= i
      invariant result[..i + 1] == prefix[..j] + [result[j]] + prefix[j..]
      invariant result[i + 1..] == old(result[i + 1..])
      invariant Insert(prefix, x, sort) == Insert(prefix[..j], x, sort) + prefix[j..]
    {
      InsertShift(prefix, x, sort, j);
      ShiftRightOne(result, prefix, j, i);
      j := j - 1;
    }
    FillHole(result, prefix, j, i, x);
    InsertPlace(prefix, x, sort, j);
  }

  /** `result[j] := result[j - 1]`: the hole moves one slot left. */
  method ShiftRightOne(result: array<Record>, ghost prefix: seq<Record>, j: int, i: int)
    requires 0 < j <= i < result.Length && |prefix| == i
    requires result[..i + 1] == prefix[..j] + [result[j]] + prefix[j..]
    modifies result
    ensures result[..i + 1] == prefix[..j - 1] + [result[j - 1]] + prefix[j - 1..]
    ensures result[i + 1..] == old(result[i + 1..])
  {
    assert result[j - 1] == prefix[j - 1];
    result[j] := result[j - 1];
    assert result[..i + 1] == prefix[..j - 1] + [result[j - 1]] + prefix[j - 1..];
  }

  /** `result[j] := x`: the record drops into the hole. */
  method FillHole(result: array<Record>, ghost prefix: seq<Record>, j: int, i: int, x: Record)
    requires 0 <= j <= i < result.Length && |prefix| == i
    requires result[..i + 1] == prefix[..j] + [result[j]] + prefix[j..]
    modifies result
    ensures result[..i + 1] == prefix[..j] + [x] + prefix[j..]
    ensures result[i + 1..] == old(result[i + 1..])
  {
    result[j] := x;
    assert result[..i + 1] == prefix[..j] + [x] + prefix[j..];
  }

  /** `result.sort(comparator)`: an in-place insertion sort, which is stable
      as the standard requires of `Array.prototype.sort`. */
  method ApplySorting(result: array<Record>, sort: Sort)
    modifies result
    ensures result[..] == SortedBy(old(result[..]), sort)
  {
    ghost var input := result[..];
    var i := 0;
    while i < result.Length
      invariant 0 <= i <= result.Length
      invariant result[..i] == SortedBy(input[..i], sort)
      invariant forall k :: i <= k < result.Length ==> result[k] == input[k]
    {
      InsertInto(result, i, sort);
      SortedByPrefix(input, sort, i);
      i := i + 1;
    }
    assert input[..result.Length] == input;
  }

  /** Dates of birth sort chronologically, not just by year: of two users
      born in the same year, the one born in the earlier month comes first
      in ascending order and last in descending order. */
  lemma SameYearSortsByMonth(a: Record, b: Record, field: string, year: int)
    requires Get(a, field).BirthDate? && Get(b, field).BirthDate?
    requires Get(a, field).year == year && Get(b, field).year == year
    requires Get(b, field).month < Get(a, field).month
    ensures SortedBy([a, b], Sort(field, "ascend")) == [b, a]
    ensures SortedBy([b, a], Sort(field, "descend")) == [a, b]
  {
    var asc, desc := Sort(field, "ascend"), Sort(field, "descend");
    assert [a, b][..1] == [a] && [b, a][..1] == [b];
    assert SortedBy([a], asc) == [a] && SortedBy([b], desc) == [b];
    assert Before(b, a, asc) && Before(a, b, desc);
    assert Insert([a], b, asc) == Insert([], b, asc) + [a];
    assert Insert([b], a, desc) == Insert([], a, desc) + [b];
  }

  // ---------------------------------------------------------------------
  // The whole pipeline
  // ---------------------------------------------------------------------

  predicate FiltersActive(pageable: Pageable) {
    pageable.filters.Some? && |pageable.filters.value| > 0
  }

  /** `if (pageable.query)`: present and non-empty. */
  predicate QueryActive(pageable: Pageable) {
    pageable.query.Some? && pageable.query.value != ""
  }

  /** `data` after the filter stage, when there are filters. */
  function Filtered(data: seq<Record>, pageable: Pageable, currentYear: int): seq<Record> {
    if FiltersActive(pageable) then ApplyFilters(data, pageable.filters, currentYear) else data
  }

  /** ... then after the search stage, when there is a query. */
  function Searched(data: seq<Record>, pageable: Pageable, currentYear: int): seq<Record> {
    var filtered := Filtered(data, pageable, currentYear);
    if QueryActive(pageable) then ApplySearchQuery(filtered, pageable.query.value) else filtered
  }

  /** ... then after the sort stage, when there is a sort: the list the page is cut from. */
  function Processed(data: seq<Record>, pageable: Pageable, currentYear: int): seq<Record> {
    var searched := Searched(data, pageable, currentYear);
    if pageable.sort.Some? then SortedBy(searched, pageable.sort.value) else searched
  }

  function PageStart(pageable: Pageable): nat
    requires pageable.size > 0
  {
    pageable.page * pageable.size
  }

  function PageEnd(pageable: Pageable): nat
    requires pageable.size > 0
  {
    PageStart(pageable) + pageable.size
  }

  /** `s.slice(start, end)` for `0 <= start <= end`. */
  function Slice(s: seq<Record>, start: nat, end: nat): seq<Record>
    requires start <= end
  {
    if start >= |s| then [] else s[start..if end <= |s| then end else |s|]
  }

  /** The result `applyPageable` returns for `data`. */
  function PageOf(data: seq<Record>, pageable: Pageable, currentYear: int): PageableResult
    requires pageable.size > 0
  {
    PageableResult(
      Slice(Processed(data, pageable, currentYear), PageStart(pageable), PageEnd(pageable)),
      |data| <= PageEnd(pageable))
  }

  /** Copies a list into a fresh array, as `[...data]` and `filter` do. */
  method ToArray(s: seq<Record>) returns (a: array<Record>)
    ensures fresh(a) && a[..] == s
  {
    a := new Record[|s|](i requires 0 <= i < |s| => s[i]);
  }

  /** `applyPageable`: copies `data`, runs the stages that are switched on,
      sorts the copy in place and cuts the page. `completed` compares the
      length of the raw `data`, not of the processed list, with the page end. */
  method ApplyPageable(data: seq<Record>, pageable: Pageable, currentYear: int) returns (r: PageableResult)
    requires pageable.size > 0
    ensures r == PageOf(data, pageable, currentYear)
    ensures r.completed <==> |data| <= (pageable.page + 1) * pageable.size
  {
    var result := ToArray(data);
    if FiltersActive(pageable) {
      result := ToArray(ApplyFilters(result[..], pageable.filters, currentYear));
    }
    assert result[..] == Filtered(data, pageable, currentYear);
    if QueryActive(pageable) {
      result := ToArray(ApplySearchQuery(result[..], pageable.query.value));
    }
    assert result[..] == Searched(data, pageable, currentYear);
    if pageable.sort.Some? {
      ApplySorting(result, pageable.sort.value);
    }
    assert result[..] == Processed(data, pageable, currentYear);
    var startIndex := PageStart(pageable);
    var endIndex := startIndex + pageable.size;
    var content := if startIndex >= result.Length then []
                   else result[startIndex..if endIndex <= result.Length then endIndex else result.Length];
    r := PageableResult(content, |data| <= endIndex);
    MulSucc(pageable.page, pageable.size);
  }

  lemma MulSucc(a: nat, b: int)
    ensures (a + 1) * b == a * b + b
  {
  }

  // ---------------------------------------------------------------------
  // Properties of the pipeline
  // ---------------------------------------------------------------------

  lemma SortedByMembers(s: seq<Record>, sort: Sort)
    ensures forall x :: x in SortedBy(s, sort) <==> x in s
  {
    SortedByPermutes(s, sort);
    forall x ensures x in SortedBy(s, sort) <==> x in s {
      assert x in SortedBy(s, sort) <==> x in multiset(SortedBy(s, sort));
      assert x in s <==> x in multiset(s);
    }
  }

  /** A record is in the processed list iff it is in `data` and passes every
      stage that is switched on. */
  lemma ProcessedMembers(data: seq<Record>, pageable: Pageable, currentYear: int)
    ensures forall x :: x in Processed(data, pageable, currentYear) <==>
      x in data &&
      (FiltersActive(pageable) ==> AdmitsAll(x, pageable.filters.value, currentYear)) &&
      (QueryActive(pageable) ==> SearchMatches(x, pageable.query.value))
  {
    var filtered := Filtered(data, pageable, currentYear);
    var searched := Searched(data, pageable, currentYear);
    if FiltersActive(pageable) {
      ApplyFiltersMembers(data, pageable.filters.value, currentYear);
    }
    if QueryActive(pageable) {
      ApplySearchQueryMembers(filtered, pageable.query.value);
      KeepMembers(filtered, (item: Record) => SearchMatches(item, pageable.query.value));
    }
    if pageable.sort.Some? {
      SortedByMembers(searched, pageable.sort.value);
    }
  }

  /** Without a sort the processed list is an order-preserving subsequence
      of `data`; with one it is ordered by the sort key. */
  lemma ProcessedOrder(data: seq<Record>, pageable: Pageable, currentYear: int)
    ensures pageable.sort.None? ==> IsSubsequence(Processed(data, pageable, currentYear), data)
    ensures pageable.sort.Some? ==> Ordered(Processed(data, pageable, currentYear), pageable.sort.value)
    ensures |Processed(data, pageable, currentYear)| <= |data|
  {
    var filtered := Filtered(data, pageable, currentYear);
    var searched := Searched(data, pageable, currentYear);
    ApplyFiltersIsSubsequence(data, pageable.filters, currentYear);
    SubsequenceReflexive(data);
    SubsequenceReflexive(filtered);
    if QueryActive(pageable) {
      ApplySearchQueryIsSubsequence(filtered, pageable.query.value);
    }
    SubsequenceTransitive(searched, filtered, data);
    if pageable.sort.Some? {
      SortedByOrdered(searched, pageable.sort.value);
      SortedByPermutes(searched, pageable.sort.value);
    }
  }

  /** The page holds at most `size` records, empty once the start is past
      the end, and is the processed list read from `page * size` on. */
  lemma PageContent(data: seq<Record>, pageable: Pageable, currentYear: int)
    requires pageable.size > 0
    ensures var content, all := PageOf(data, pageable, currentYear).content, Processed(data, pageable, currentYear);
      && |content| <= pageable.size
      && (pageable.page * pageable.size >= |all| ==> content == [])
      && forall k :: 0 <= k < |content| ==>
           pageable.page * pageable.size + k < |all| && content[k] == all[pageable.page * pageable.size + k]
  {
  }

  /** Once a page is completed, every later page is completed and empty:
      the processed list is never longer than the raw data. */
  lemma CompletedThenNextEmpty(data: seq<Record>, pageable: Pageable, currentYear: int)
    requires pageable.size > 0
    requires PageOf(data, pageable, currentYear).completed
    ensures PageOf(data, pageable.(page := pageable.page + 1), currentYear).completed
    ensures PageOf(data, pageable.(page := pageable.page + 1), currentYear).content == []
  {
    ProcessedOrder(data, pageable, currentYear);
    var next := pageable.(page := pageable.page + 1);
    ProcessedIgnoresPage(data, pageable, pageable.page + 1, currentYear);
    MulSucc(pageable.page, pageable.size);
    assert PageStart(next) == PageEnd(pageable);
  }

  /** The page index plays no part in which records are processed. */
  lemma ProcessedIgnoresPage(data: seq<Record>, pageable: Pageable, page: nat, currentYear: int)
    ensures Processed(data, pageable.(page := page), currentYear) == Processed(data, pageable, currentYear)
  {
    var p := pageable.(page := page);
    assert FiltersActive(p) == FiltersActive(pageable) && QueryActive(p) == QueryActive(pageable);
    assert Filtered(data, p, currentYear) == Filtered(data, pageable, currentYear);
    assert Searched(data, p, currentYear) == Searched(data, pageable, currentYear);
  }

  /** Pages `0 .. n-1` laid end to end. */
  function PagesUpTo(data: seq<Record>, pageable: Pageable, currentYear: int, n: nat): seq<Record>
    requires pageable.size > 0
  {
    if n == 0 then []
    else PagesUpTo(data, pageable, currentYear, n - 1)
         + PageOf(data, pageable.(page := n - 1), currentYear).content
  }

  /** The first `k` records of `s`, or all of them. */
  function Take(s: seq<Record>, k: nat): seq<Record> {
    if k <= |s| then s[..k] else s
  }

  lemma TakeThenSlice(s: seq<Record>, lo: nat, hi: nat)
    requires lo <= hi
    ensures Take(s, lo) + Slice(s, lo, hi) == Take(s, hi)
  {
    if lo < |s| {
      var b := if hi <= |s| then hi else |s|;
      assert s[..b] == s[..lo] + s[lo..b];
    }
  }

  /** Each page ends where the next one starts. */
  lemma PageEndIsNextStart(pageable: Pageable)
    requires pageable.size > 0
    ensures PageEnd(pageable) == PageStart(pageable.(page := pageable.page + 1))
  {
    MulSucc(pageable.page, pageable.size);
  }

  /** Page `k` is the processed list cut between the start of page `k` and
      the start of page `k + 1`. */
  lemma PageIsSlice(data: seq<Record>, pageable: Pageable, currentYear: int, k: nat)
    requires pageable.size > 0
    ensures PageStart(pageable.(page := k)) + pageable.size == PageStart(pageable.(page := k + 1))
    ensures PageOf(data, pageable.(page := k), currentYear).content
         == Slice(Processed(data, pageable, currentYear),
                  PageStart(pageable.(page := k)), PageStart(pageable.(page := k + 1)))
  {
    var p := pageable.(page := k);
    ProcessedIgnoresPage(data, pageable, k, currentYear);
    PageEndIsNextStart(p);
    assert p.(page := p.page + 1) == pageable.(page := k + 1);
  }

  /** The pages tile the processed list: the first `n` of them are its
      records before the start of page `n`. */
  lemma {:induction false} PagesTile(data: seq<Record>, pageable: Pageable, currentYear: int, n: nat)
    requires pageable.size > 0
    ensures PagesUpTo(data, pageable, currentYear, n)
         == Take(Processed(data, pageable, currentYear), PageStart(pageable.(page := n)))
  {
    if n == 0 {
      assert PageStart(pageable.(page := 0)) == 0;
      assert Take(Processed(data, pageable, currentYear), 0) == [];
    } else {
      PagesTile(data, pageable, currentYear, n - 1);
      PagesTileStep(data, pageable, currentYear, n);
    }
  }

  /** One more page extends the tiled prefix to the start of the next page. */
  lemma PagesTileStep(data: seq<Record>, pageable: Pageable, currentYear: int, n: nat)
    requires pageable.size > 0 && n > 0
    requires PagesUpTo(data, pageable, currentYear, n - 1)
          == Take(Processed(data, pageable, currentYear), PageStart(pageable.(page := n - 1)))
    ensures PagesUpTo(data, pageable, currentYear, n)
         == Take(Processed(data, pageable, currentYear), PageStart(pageable.(page := n)))
  {
    var all := Processed(data, pageable, currentYear);
    var lo, hi := PageStart(pageable.(page := n - 1)), PageStart(pageable.(page := n));
    PageIsSlice(data, pageable, currentYear, n - 1);
    TakeThenSlice(all, lo, hi);
  }

  /** Twenty-five unfiltered records in pages of twenty: the first page is
      full and not completed, the second holds the last five and is. */
  lemma TwentyFiveRecords(data: seq<Record>, currentYear: int)
    requires |data| == 25
    ensures var p := Pageable(0, 20, Some(""), None, None);
      |PageOf(data, p, currentYear).content| == 20 && !PageOf(data, p, currentYear).completed &&
      PageOf(data, p.(page := 1), currentYear).content == data[20..] &&
      PageOf(data, p.(page := 1), currentYear).completed
  {
  }
}
