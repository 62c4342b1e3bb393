/** The page-load coordinator: the root component keeps the page descriptor
    `pageQuery` and the list of users on screen, `userList`. A search or a
    sort/filter change starts again from page 0 and replaces the list; a
    load-more request moves to the next page and appends it. The HTTP fetch
    is a synchronous call of the query engine on a fixed dataset. */
module AppComponentModule {
  import opened Models
  import opened UsersService

  /** `value || ''` on a string that may be null: null and `''` both give `''`. */
  function OrEmpty(o: Option<string>): (r: string)
    ensures o.Some? ==> r == o.value
    ensures o.None? ==> r == ""
  {
    if o.Some? then o.value else ""
  }

  /** The table's filter entries renamed into page-descriptor filters,
      `key` to `field` and `value` to `value`, in the same order. */
  function ToFilters(params: seq<FilterParam>): (r: seq<Filter>)
    ensures |r| == |params|
    ensures forall i :: 0 <= i < |params| ==>
      r[i].field == params[i].key && r[i].value == params[i].value
  {
    seq(|params|, i requires 0 <= i < |params| => Filter(params[i].key, params[i].value))
  }

  /** How many pages a run of load-more requests has put on screen once the
      descriptor has reached page `p`: page 0 always (it is fetched in
      replace mode), and each later page only if it came back not completed. */
  function PagesShown(data: seq<Record>, pageable: Pageable, currentYear: int, p: nat): nat
    requires pageable.size > 0
  {
    if p == 0 then 1
    else PagesShown(data, pageable, currentYear, p - 1)
         + (if PageOf(data, pageable.(page := p), currentYear).completed then 0 else 1)
  }

  /** At least the first page is shown, and never more than `p + 1` pages. */
  lemma {:induction false} PagesShownBounds(data: seq<Record>, pageable: Pageable, currentYear: int, p: nat)
    requires pageable.size > 0
    ensures 1 <= PagesShown(data, pageable, currentYear, p) <= p + 1
  {
    if p > 0 {
      PagesShownBounds(data, pageable, currentYear, p - 1);
    }
  }

  /** Completion is monotone in the page index: a completed page stays
      completed for every later index. */
  lemma {:induction false} CompletedLater(data: seq<Record>, pageable: Pageable, currentYear: int, p: nat, q: nat)
    requires pageable.size > 0 && p <= q
    ensures PageOf(data, pageable.(page := p), currentYear).completed ==>
            PageOf(data, pageable.(page := q), currentYear).completed
    decreases q - p
  {
    if p < q && PageOf(data, pageable.(page := p), currentYear).completed {
      var here := pageable.(page := p);
      CompletedThenNextEmpty(data, here, currentYear);
      assert here.(page := here.page + 1) == pageable.(page := p + 1);
      CompletedLater(data, pageable, currentYear, p + 1, q);
    }
  }

  /** A page that comes back not completed finds every earlier page on
      screen. */
  lemma {:induction false} NotCompletedAllShown(data: seq<Record>, pageable: Pageable, currentYear: int, p: nat)
    requires pageable.size > 0 && p > 0
    requires !PageOf(data, pageable.(page := p), currentYear).completed
    ensures PagesShown(data, pageable, currentYear, p - 1) == p
  {
    if p > 1 {
      CompletedLater(data, pageable, currentYear, p - 1, p);
      NotCompletedAllShown(data, pageable, currentYear, p - 1);
    }
  }

  /** Once some page comes back completed, no later load-more adds anything:
      the pages shown stop at the first completed page after page 0. */
  lemma {:induction false} CompletedStopsGrowth(data: seq<Record>, pageable: Pageable, currentYear: int, p: nat, q: nat)
    requires pageable.size > 0 && 0 < p <= q
    requires PageOf(data, pageable.(page := p), currentYear).completed
    ensures PagesShown(data, pageable, currentYear, q) == PagesShown(data, pageable, currentYear, p - 1)
  {
    if q > p {
      CompletedStopsGrowth(data, pageable, currentYear, p, q - 1);
      CompletedLater(data, pageable, currentYear, p, q);
    }
  }

  /** What is on screen is always a prefix of the whole processed list: the
      records before the start of the first page not shown. */
  lemma ShownIsPrefix(data: seq<Record>, pageable: Pageable, currentYear: int, p: nat)
    requires pageable.size > 0
    ensures var n := PagesShown(data, pageable, currentYear, p);
      PagesUpTo(data, pageable, currentYear, n)
      == Take(Processed(data, pageable, currentYear), PageStart(pageable.(page := n)))
  {
    PagesTile(data, pageable, currentYear, PagesShown(data, pageable, currentYear, p));
  }

  /** With twenty-five unfiltered records in pages of twenty, however often
      more is requested, the screen holds the first twenty records only: the
      second page comes back completed and is dropped. */
  lemma TwentyFiveRecordsShowTwenty(data: seq<Record>, currentYear: int, p: nat)
    requires |data| == 25
    ensures var pageable := Pageable(0, 20, Some(""), None, None);
      PagesShown(data, pageable, currentYear, p) == 1
      && PagesUpTo(data, pageable, currentYear, 1) == data[..20]
  {
    var pageable := Pageable(0, 20, Some(""), None, None);
    TwentyFiveRecords(data, currentYear);
    if p > 0 {
      CompletedStopsGrowth(data, pageable, currentYear, 1, p);
    }
  }

  /** A sort on the field `""`, which is what a cleared table sort becomes,
      keeps the order of records that have no such field. */
  lemma EmptySortFieldKeepsOrder(data: seq<Record>, pageable: Pageable, currentYear: int)
    requires pageable.sort.Some? && pageable.sort.value.field == ""
    requires forall i :: 0 <= i < |data| ==> "" !in data[i]
    ensures Processed(data, pageable, currentYear) == Processed(data, pageable.(sort := None), currentYear)
  {
    var unsorted := pageable.(sort := None);
    var searched := Searched(data, pageable, currentYear);
    assert Filtered(data, unsorted, currentYear) == Filtered(data, pageable, currentYear);
    assert Searched(data, unsorted, currentYear) == searched;
    ProcessedMembers(data, unsorted, currentYear);
    forall i | 0 <= i < |searched| ensures Key(searched[i], pageable.sort.value) == Null {
      assert searched[i] in Processed(data, unsorted, currentYear);
    }
    SortedBySameKeyIsIdentity(searched, pageable.sort.value, Null);
  }

  /** A replace-mode fetch of page 0 puts on screen exactly the pages shown
      at page 0. */
  lemma ReplaceShowsFirstPage(data: seq<Record>, pageable: Pageable, currentYear: int)
    requires pageable.size > 0 && pageable.page == 0
    ensures PageOf(data, pageable, currentYear).content
         == PagesUpTo(data, pageable.(page := 0), currentYear,
                      PagesShown(data, pageable.(page := 0), currentYear, pageable.page))
  {
    assert pageable.(page := 0) == pageable;
    assert PagesUpTo(data, pageable, currentYear, 1) == PageOf(data, pageable, currentYear).content;
  }

  /** An append-mode fetch of page `p` after the pages shown at `p - 1`
      leaves on screen the pages shown at `p`. */
  lemma LoadMoreShowsNextPage(data: seq<Record>, pageable: Pageable, currentYear: int,
                              before: seq<Record>, after: seq<Record>)
    requires pageable.size > 0 && pageable.page > 0
    requires before == PagesUpTo(data, pageable.(page := 0), currentYear,
                                 PagesShown(data, pageable.(page := 0), currentYear, pageable.page - 1))
    requires PageOf(data, pageable, currentYear).completed ==> after == before
    requires !PageOf(data, pageable, currentYear).completed ==>
      after == before + PageOf(data, pageable, currentYear).content
    ensures after == PagesUpTo(data, pageable.(page := 0), currentYear,
                               PagesShown(data, pageable.(page := 0), currentYear, pageable.page))
  {
    var base := pageable.(page := 0);
    var p := pageable.page;
    assert base.(page := p) == pageable;
    if !PageOf(data, pageable, currentYear).completed {
      NotCompletedAllShown(data, base, currentYear, p);
      assert base.(page := p + 1 - 1) == pageable;
    }
  }

  class AppComponent {
    /** The users the fetch returns, and the year ages are computed in. */
    const dataset: seq<Record>
    const currentYear: int
    var userList: seq<Record>
    var pageQuery: Pageable

    predicate Valid()
      reads this
    {
      pageQuery.size > 0
    }

    /** After any fetch the screen holds the pages shown so far, end to end. */
    ghost predicate Consistent()
      reads this
    {
      pageQuery.size > 0 &&
      userList == PagesUpTo(dataset, pageQuery.(page := 0), currentYear,
                            PagesShown(dataset, pageQuery.(page := 0), currentYear, pageQuery.page))
    }

    /** Page 0, twenty per page, an empty query, and nothing on screen. */
    constructor (dataset: seq<Record>, currentYear: int)
      ensures this.dataset == dataset && this.currentYear == currentYear
      ensures pageQuery == Pageable(0, 20, Some(""), None, None)
      ensures userList == []
      ensures Valid()
    {
      this.dataset := dataset;
      this.currentYear := currentYear;
      userList := [];
      pageQuery := Pageable(0, 20, Some(""), None, None);
    }

    /** The first fetch, in replace mode. */
    method NgOnInit()
      requires Valid()
      modifies this
      ensures pageQuery == old(pageQuery)
      ensures userList == PageOf(dataset, pageQuery, currentYear).content
      ensures pageQuery.page == 0 ==> Consistent()
    {
      GetUsers(false);
      if pageQuery.page == 0 {
        ReplaceShowsFirstPage(dataset, pageQuery, currentYear);
      }
    }

    /** Fetches the current page. In replace mode the list becomes the page;
        in append mode the page is added at the end, unless it came back
        completed, in which case it is dropped and the list stays as it was. */
    method GetUsers(infiniteLoad: bool)
      requires Valid()
      modifies this
      ensures pageQuery == old(pageQuery)
      ensures !infiniteLoad ==> userList == PageOf(dataset, pageQuery, currentYear).content
      ensures infiniteLoad && PageOf(dataset, pageQuery, currentYear).completed ==> userList == old(userList)
      ensures infiniteLoad && !PageOf(dataset, pageQuery, currentYear).completed ==>
        userList == old(userList) + PageOf(dataset, pageQuery, currentYear).content
    {
      var users := ApplyPageable(dataset, pageQuery, currentYear);
      if infiniteLoad {
        if users.completed {
          return;
        }
        userList := userList + users.content;
      } else {
        userList := users.content;
      }
    }

    /** A table sort or filter change: back to page 0, the sort set from the
        table's sort (a missing key or order becomes `''`), the filters
        renamed from the table's, the query kept, and the list replaced. */
    method OnQueryParamsChange(params: QueryParams)
      requires Valid()
      modifies this
      ensures pageQuery == old(pageQuery).(page := 0,
        sort := Some(Sort(OrEmpty(params.sort.key), OrEmpty(params.sort.value))),
        filters := Some(ToFilters(params.filters)))
      ensures userList == PageOf(dataset, pageQuery, currentYear).content
      ensures Consistent()
    {
      pageQuery := pageQuery.(page := 0,
        sort := Some(Sort(OrEmpty(params.sort.key), OrEmpty(params.sort.value))),
        filters := Some(ToFilters(params.filters)));
      GetUsers(false);
      ReplaceShowsFirstPage(dataset, pageQuery, currentYear);
    }

    /** Load more: the page index goes up by one, with no guard, and the
        next page is fetched in append mode. */
    method OnLoadMore()
      requires Valid()
      modifies this
      ensures pageQuery == old(pageQuery).(page := old(pageQuery).page + 1)
      ensures PageOf(dataset, pageQuery, currentYear).completed ==> userList == old(userList)
      ensures !PageOf(dataset, pageQuery, currentYear).completed ==>
        userList == old(userList) + PageOf(dataset, pageQuery, currentYear).content
      ensures old(Consistent()) ==> Consistent()
    {
      ghost var before := userList;
      ghost var wasConsistent := Consistent();
      ghost var base := pageQuery.(page := 0);
      pageQuery := pageQuery.(page := pageQuery.page + 1);
      GetUsers(true);
      if wasConsistent {
        assert pageQuery.(page := 0) == base;
        LoadMoreShowsNextPage(dataset, pageQuery, currentYear, before, userList);
      }
    }

    /** A search: back to page 0 with the new query, sort and filters kept,
        and the list replaced. */
    method OnSearch(searchQuery: string)
      requires Valid()
      modifies this
      ensures pageQuery == old(pageQuery).(page := 0, query := Some(searchQuery))
      ensures userList == PageOf(dataset, pageQuery, currentYear).content
      ensures Consistent()
    {
      pageQuery := pageQuery.(page := 0, query := Some(searchQuery));
      GetUsers(false);
      ReplaceShowsFirstPage(dataset, pageQuery, currentYear);
    }
  }
}
