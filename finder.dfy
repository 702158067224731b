/**
 * The university finder's state (components/UniversityFinder.tsx): the comparison
 * selector, the client-side pagination over the fetched list, and the effect of a
 * listing request on the component state.
 */
module Finder {
  import opened Wrappers
  import opened Api
  import FilterState
  import CompareModal

  /** RESULTS_PER_PAGE. */
  const ResultsPerPage: int := 3

  // ---------------------------------------------------------------------------
  // Comparison selection

  /** `prev.filter((x) => x !== id)`. */
  function Without(s: seq<string>, id: string): (r: seq<string>)
    ensures |r| <= |s|
    ensures forall x :: x in r <==> x in s && x != id
  {
    if s == [] then []
    else if s[0] != id then [s[0]] + Without(s[1..], id)
    else Without(s[1..], id)
  }

  /** The updater passed to `setCompareIds` by `handleCompareAdd` (UniversityFinder.tsx:54-64). */
  function Toggle(prev: seq<string>, id: string): (r: seq<string>)
    ensures id in r <==> id !in prev
  {
    if id in prev then Without(prev, id)
    else if |prev| >= 2 then [prev[1], id]
    else prev + [id]
  }

  /** The comparison selection holds at most two distinct ids. */
  predicate SelectionInvariant(ids: seq<string>)
  {
    |ids| <= 2 && NoDup(ids)
  }

  /** Removing an id from a duplicate-free list removes just its one position. */
  lemma {:induction false} WithoutAt(s: seq<string>, i: int)
    requires NoDup(s) && 0 <= i < |s|
    ensures Without(s, s[i]) == s[..i] + s[i + 1..]
  {
    if i == 0 {
      assert s[1..] == s[..0] + s[1..];
      WithoutAbsent(s[1..], s[0]);
    } else {
      assert NoDup(s[1..]) by {
        assert forall a | 0 <= a < |s| - 1 :: s[1..][a] == s[a + 1];
      }
      assert s[0] != s[i];
      WithoutAt(s[1..], i - 1);
      assert s[1..][..i - 1] + s[1..][i..] == s[1..i] + s[i + 1..];
      assert s[..i] + s[i + 1..] == [s[0]] + (s[1..i] + s[i + 1..]);
    }
  }

  /** Removing an absent id changes nothing. */
  lemma {:induction false} WithoutAbsent(s: seq<string>, id: string)
    requires id !in s
    ensures Without(s, id) == s
  {
    if s != [] {
      WithoutAbsent(s[1..], id);
    }
  }

  /** Toggling a selected id removes exactly that id and keeps the others in order. */
  lemma ToggleRemoves(prev: seq<string>, i: int)
    requires NoDup(prev) && 0 <= i < |prev|
    ensures Toggle(prev, prev[i]) == prev[..i] + prev[i + 1..]
  {
    WithoutAt(prev, i);
  }

  /**
   * Toggling a new id appends it while fewer than two are selected; with two selected
   * the oldest is evicted and the result is the newer one followed by the new id.
   */
  lemma ToggleAdds(prev: seq<string>, id: string)
    requires id !in prev
    ensures |prev| < 2 ==> Toggle(prev, id) == prev + [id]
    ensures |prev| >= 2 ==> Toggle(prev, id) == [prev[1], id] && |Toggle(prev, id)| == 2
  {
  }

  /** Every toggle keeps the selection at most two long and free of duplicates. */
  lemma ToggleKeepsInvariant(prev: seq<string>, id: string)
    requires SelectionInvariant(prev)
    ensures SelectionInvariant(Toggle(prev, id))
  {
    if id in prev {
      var i :| 0 <= i < |prev| && prev[i] == id;
      WithoutAt(prev, i);
    }
  }

  /** The selection after a sequence of toggles. */
  function ApplyToggles(ids: seq<string>, clicks: seq<string>): seq<string>
    decreases clicks
  {
    if clicks == [] then ids else ApplyToggles(Toggle(ids, clicks[0]), clicks[1..])
  }

  /** From the initial empty selection, any sequence of toggles keeps the invariant. */
  lemma {:induction false} TogglesKeepInvariant(ids: seq<string>, clicks: seq<string>)
    requires SelectionInvariant(ids)
    ensures SelectionInvariant(ApplyToggles(ids, clicks))
    decreases clicks
  {
    if clicks != [] {
      ToggleKeepsInvariant(ids, clicks[0]);
      TogglesKeepInvariant(Toggle(ids, clicks[0]), clicks[1..]);
    }
  }

  // ---------------------------------------------------------------------------
  // Joining the selection with the fetched list

  /** `universities.filter((u) => compareIds.includes(u.id))`. */
  function CompareSelection(us: seq<University>, ids: seq<string>): (r: seq<University>)
    ensures |r| <= |us|
    ensures forall u :: u in r <==> u in us && u.id in ids
  {
    if us == [] then []
    else (if us[0].id in ids then [us[0]] else []) + CompareSelection(us[1..], ids)
  }

  /** The joined records follow the fetched list's order. */
  lemma {:induction false} CompareSelectionAppend(a: seq<University>, b: seq<University>, ids: seq<string>)
    ensures CompareSelection(a + b, ids) == CompareSelection(a, ids) + CompareSelection(b, ids)
  {
    if a == [] {
      assert a + b == b;
    } else {
      assert (a + b)[1..] == a[1..] + b;
      CompareSelectionAppend(a[1..], b, ids);
    }
  }

  predicate UniqueIds(us: seq<University>)
  {
    forall i, j | 0 <= i < j < |us| :: us[i].id != us[j].id
  }

  predicate Listed(us: seq<University>, id: string)
  {
    exists i | 0 <= i < |us| :: us[i].id == id
  }

  /** With unique ids, a pair of distinct ids joins to one record per id that is listed. */
  lemma {:induction false} CompareSelectionCount(us: seq<University>, a: string, b: string)
    requires UniqueIds(us) && a != b
    ensures |CompareSelection(us, [a, b])|
      == (if Listed(us, a) then 1 else 0) + (if Listed(us, b) then 1 else 0)
  {
    if us != [] {
      var rest := us[1..];
      assert UniqueIds(rest) by {
        assert forall i | 0 <= i < |rest| :: rest[i] == us[i + 1];
      }
      CompareSelectionCount(rest, a, b);
      ListedCons(us, a);
      ListedCons(us, b);
      assert !Listed(rest, us[0].id) by {
        assert forall i | 0 <= i < |rest| :: rest[i] == us[i + 1];
      }
    }
  }

  /** With unique ids, a single selected id joins to one record iff it is listed. */
  lemma {:induction false} CompareSelectionSingle(us: seq<University>, a: string)
    requires UniqueIds(us)
    ensures |CompareSelection(us, [a])| == if Listed(us, a) then 1 else 0
  {
    if us != [] {
      var rest := us[1..];
      assert UniqueIds(rest) by {
        assert forall i | 0 <= i < |rest| :: rest[i] == us[i + 1];
      }
      CompareSelectionSingle(rest, a);
      ListedCons(us, a);
      assert !Listed(rest, us[0].id) by {
        assert forall i | 0 <= i < |rest| :: rest[i] == us[i + 1];
      }
    }
  }

  lemma ListedCons(us: seq<University>, x: string)
    requires us != []
    ensures Listed(us, x) <==> us[0].id == x || Listed(us[1..], x)
  {
    var rest := us[1..];
    if Listed(rest, x) {
      var i :| 0 <= i < |rest| && rest[i].id == x;
      assert us[i + 1] == rest[i];
    }
    if Listed(us, x) && us[0].id != x {
      var i :| 0 <= i < |us| && us[i].id == x;
      assert rest[i - 1] == us[i];
    }
  }

  /**
   * The modal's join yields two records exactly when both selected ids are in the
   * fetched list (ids being unique there).
   */
  lemma CompareSelectionPair(us: seq<University>, ids: seq<string>)
    requires UniqueIds(us) && |ids| == 2 && NoDup(ids)
    ensures |CompareSelection(us, ids)| == 2 <==> Listed(us, ids[0]) && Listed(us, ids[1])
  {
    assert ids == [ids[0], ids[1]];
    CompareSelectionCount(us, ids[0], ids[1]);
  }

  // ---------------------------------------------------------------------------
  // Pagination

  /**
   * `Math.ceil(total / RESULTS_PER_PAGE) || 1`: the ceiling of total/3, with 0 mapped
   * to 1.  (For an integral total the ceiling is `-((-total) / 3)`.)
   */
  function TotalPages(total: int): (pages: int)
    ensures total > 0 ==> (pages - 1) * ResultsPerPage < total <= pages * ResultsPerPage
    ensures total == 0 ==> pages == 1
    ensures total >= 0 ==> pages >= 1
  {
    var c := -((-total) / ResultsPerPage);
    if c == 0 then 1 else c
  }

  /** `Math.max(1, Math.min(page, totalPages))`. */
  function ClampPage(page: int, totalPages: int): (p: int)
    ensures p >= 1
    ensures totalPages >= 1 ==> p <= totalPages
    ensures 1 <= page <= totalPages ==> p == page
    ensures page < 1 ==> p == 1
    ensures page > totalPages >= 1 ==> p == totalPages
  {
    Max(1, Min(page, totalPages))
  }

  /** `(currentPage - 1) * RESULTS_PER_PAGE`: the position of the page's first item. */
  function StartIndex(currentPage: int): (i: int)
    ensures currentPage >= 1 ==> i >= 0 && i % ResultsPerPage == 0 && i / ResultsPerPage == currentPage - 1
  {
    (currentPage - 1) * ResultsPerPage
  }

  /** How `Array.prototype.slice` resolves an index: from the end when negative, then clamped. */
  function SliceBound(i: int, len: nat): (j: nat)
    ensures j <= len
  {
    if i < 0 then Max(len + i, 0) else Min(i, len)
  }

  /** `s.slice(start, end)`. */
  function Slice<T>(s: seq<T>, start: int, end: int): (r: seq<T>)
    ensures 0 <= start && 0 <= end ==> |r| == Max(0, Min(end, |s|) - start)
    ensures 0 <= start ==> forall j | 0 <= j < |r| :: start + j < |s| && r[j] == s[start + j]
  {
    var from := SliceBound(start, |s|);
    var to := SliceBound(end, |s|);
    if from < to then s[from..to] else []
  }

  /**
   * `paginatedUniversities`: the items from position (page-1)*3 on, at most three,
   * truncated to the list.
   */
  function PageItems(us: seq<University>, currentPage: int): (r: seq<University>)
    requires currentPage >= 1
    ensures |r| <= ResultsPerPage
    ensures |r| == Max(0, Min(StartIndex(currentPage) + ResultsPerPage, |us|) - StartIndex(currentPage))
    ensures forall j | 0 <= j < |r| :: r[j] == us[StartIndex(currentPage) + j]
  {
    Slice(us, StartIndex(currentPage), StartIndex(currentPage) + ResultsPerPage)
  }

  /** The first number of "Showing X–Y of N". */
  function RangeFirst(total: int, currentPage: int): (x: int)
    ensures currentPage >= 1 ==> (x == 0 <==> total == 0)
    ensures total != 0 ==> x == StartIndex(currentPage) + 1
  {
    if total == 0 then 0 else StartIndex(currentPage) + 1
  }

  /** The second number of "Showing X–Y of N". */
  function RangeLast(total: int, currentPage: int): (y: int)
    ensures y <= total && y <= StartIndex(currentPage) + ResultsPerPage
    ensures y == total || y == StartIndex(currentPage) + ResultsPerPage
  {
    Min(StartIndex(currentPage) + ResultsPerPage, total)
  }

  /**
   * When the fetched list holds `total` items and the page is in range, the
   * "Showing X–Y of N" text describes exactly the visible items: positions X..Y
   * (one-based) of the list, or 0–0 for an empty list.
   */
  lemma RangeDescribesPage(us: seq<University>, currentPage: int)
    requires 1 <= currentPage <= TotalPages(|us|)
    ensures |us| == 0 ==> RangeFirst(|us|, currentPage) == 0 == RangeLast(|us|, currentPage)
                          && PageItems(us, currentPage) == []
    ensures |us| > 0 ==>
      var first, last, items := RangeFirst(|us|, currentPage), RangeLast(|us|, currentPage), PageItems(us, currentPage);
      && 1 <= first <= last <= |us|
      && last - first + 1 == |items|
      && items[0] == us[first - 1] && items[|items| - 1] == us[last - 1]
  {
    var pages := TotalPages(|us|);
    if |us| > 0 {
      assert (currentPage - 1) * ResultsPerPage <= (pages - 1) * ResultsPerPage;
    }
  }

  // ---------------------------------------------------------------------------
  // The component state

  /**
   * The state of the `UniversityFinder` component.  Each method is one state update
   * of the component; `fetch` is not called here: a load is split into its start and
   * its settlement, which receives the listing client's outcome.
   */
  class UniversityFinder {
    var universities: seq<University>
    var total: int
    var filters: Filters
    var loading: bool
    var compareIds: seq<string>
    var showCompare: bool
    var currentPage: int

    /** What every update keeps: a bounded selection, a positive page, canonical filters. */
    ghost predicate Valid()
      reads this
    {
      && SelectionInvariant(compareIds)
      && currentPage >= 1
      && FilterState.Canonical(filters) && WellFormed(filters)
    }

    /** The current page is one of the pages the pagination offers. */
    predicate PageInRange()
      reads this
    {
      total >= 0 ==> currentPage <= TotalPages(total)
    }

    /** The initial `useState` values. */
    constructor ()
      ensures Valid() && PageInRange()
      ensures universities == [] && total == 0 && filters == [] && loading
      ensures compareIds == [] && !showCompare && currentPage == 1
    {
      universities := [];
      total := 0;
      filters := [];
      loading := true;
      compareIds := [];
      showCompare := false;
      currentPage := 1;
    }

    /** The filter panel's `update(key, value)` handed to `setFilters`. */
    method UpdateFilter(key: FilterKey, raw: string)
      requires Valid()
      modifies this`filters
      ensures Valid()
      ensures filters == FilterState.Update(old(filters), key, raw)
    {
      FilterState.UpdateKeepsCanonical(filters, key, raw);
      filters := FilterState.Update(filters, key, raw);
    }

    /** The filter panel's `reset()` handed to `setFilters`. */
    method ResetFilters()
      requires Valid()
      modifies this`filters
      ensures Valid()
      ensures filters == FilterState.Reset()
    {
      filters := FilterState.Reset();
    }

    /** The start of `loadUniversities` (lines 29-30): loading, and back to page 1. */
    method StartLoad()
      requires Valid()
      modifies this`loading, this`currentPage
      ensures Valid() && PageInRange()
      ensures loading && currentPage == 1
    {
      loading := true;
      currentPage := 1;
    }

    /**
     * The settlement of `loadUniversities` as written (lines 31-40): a response
     * replaces the list and total, a failure empties them, loading ends; the page is
     * left as it is.
     */
    method SettleLoadAsWritten(outcome: Result<UniversitiesResponse, FetchError>)
      requires Valid()
      modifies this`universities, this`total, this`loading
      ensures Valid()
      ensures outcome.Success? ==> universities == outcome.value.universities && total == outcome.value.total
      ensures outcome.Failure? ==> universities == [] && total == 0
      ensures !loading && currentPage == old(currentPage)
    {
      match outcome {
        case Success(response) =>
          universities := response.universities;
          total := response.total;
        case Failure(_) =>
          universities := [];
          total := 0;
      }
      loading := false;
    }

    /**
     * The settlement with the page reset moved to when the response is applied: the
     * page is always in range afterwards, whatever was clicked while loading.
     */
    method SettleLoad(outcome: Result<UniversitiesResponse, FetchError>)
      requires Valid()
      modifies this`universities, this`total, this`loading, this`currentPage
      ensures Valid() && PageInRange()
      ensures outcome.Success? ==> universities == outcome.value.universities && total == outcome.value.total
      ensures outcome.Failure? ==> universities == [] && total == 0
      ensures !loading && currentPage == 1
    {
      match outcome {
        case Success(response) =>
          universities := response.universities;
          total := response.total;
        case Failure(_) =>
          universities := [];
          total := 0;
      }
      currentPage := 1;
      loading := false;
    }

    /** `goToPage(page)`: the requested page, saturated into 1..totalPages. */
    method GoToPage(page: int)
      requires Valid()
      modifies this`currentPage
      ensures Valid() && PageInRange()
      ensures currentPage == ClampPage(page, TotalPages(total))
    {
      currentPage := ClampPage(page, TotalPages(total));
    }

    /** `handleCompareAdd(id)`. */
    method HandleCompareAdd(id: string)
      requires Valid()
      modifies this`compareIds
      ensures Valid()
      ensures compareIds == Toggle(old(compareIds), id)
    {
      ToggleKeepsInvariant(compareIds, id);
      compareIds := Toggle(compareIds, id);
    }

    /** `handleOpenCompare()`: opens only when exactly two ids are selected. */
    method HandleOpenCompare()
      requires Valid()
      modifies this`showCompare
      ensures Valid()
      ensures showCompare == (old(showCompare) || |compareIds| == 2)
    {
      if |compareIds| == 2 {
        showCompare := true;
      }
    }

    /** `handleCloseCompare()`: closes the view and keeps the selection. */
    method HandleCloseCompare()
      requires Valid()
      modifies this`showCompare
      ensures Valid()
      ensures !showCompare && compareIds == old(compareIds)
    {
      showCompare := false;
    }

    /** `compareUniversities`. */
    function CompareUniversities(): (r: seq<University>)
      reads this
      ensures forall u :: u in r <==> u in universities && u.id in compareIds
    {
      CompareSelection(universities, compareIds)
    }

    /** The modal is mounted when open and both selected records are in the list. */
    predicate ModalShown()
      reads this
      ensures ModalShown() ==> showCompare && CompareModal.Render(CompareUniversities()).Table?
    {
      showCompare && |CompareUniversities()| == 2
    }

    /** The cards on the current page. */
    function VisibleUniversities(): (r: seq<University>)
      reads this
      requires currentPage >= 1
      ensures |r| <= ResultsPerPage
      ensures forall j | 0 <= j < |r| ::
        StartIndex(currentPage) + j < |universities| && r[j] == universities[StartIndex(currentPage) + j]
    {
      PageItems(universities, currentPage)
    }

    /** The badge on the filter panel counts exactly the criteria the next query sends. */
    lemma ActiveBadgeCountsCriteria()
      requires Valid()
      ensures FilterState.ActiveFilterCount(filters) == |Criteria(filters)|
    {
      FilterState.ActiveCountIsCriteriaSize(filters);
    }

    /** With unique ids in the list, a mounted modal means both selected ids are listed. */
    lemma ModalShownMeansBothListed()
      requires Valid() && UniqueIds(universities) && ModalShown()
      ensures |compareIds| == 2
      ensures Listed(universities, compareIds[0]) && Listed(universities, compareIds[1])
    {
      if |compareIds| == 1 {
        assert compareIds == [compareIds[0]];
        CompareSelectionSingle(universities, compareIds[0]);
      } else if |compareIds| == 2 {
        CompareSelectionPair(universities, compareIds);
      }
    }
  }

  /** A shown modal always gets a table, never the empty or one-record render. */
  lemma ShownModalRendersTable(us: seq<University>, ids: seq<string>)
    requires |CompareSelection(us, ids)| == 2
    ensures CompareModal.Render(CompareSelection(us, ids)).Table?
  {
  }

  /** A stand-in record for the scenario below. */
  function SampleUniversity(id: string): University
  {
    University(id, "", "", "", 0.0, 1, 1900, None, None, None)
  }

  /**
   * A page chosen while a request is in flight survives the response as written:
   * nine results, a new request starts (page 1), the user goes to page 3, and the
   * response holds three results, one page, while page 3 stays current.
   */
  method StaleResponseScenario() returns (page: int, pages: int, visible: seq<University>, first: int, last: int)
    ensures page == 3 && pages == 1
    ensures visible == [] && first == 7 && last == 3
  {
    var finder := new UniversityFinder();
    var nine := seq(9, _ => SampleUniversity("u"));
    finder.SettleLoadAsWritten(Success(UniversitiesResponse(nine, 9)));
    finder.StartLoad();
    finder.GoToPage(3);
    finder.SettleLoadAsWritten(Success(UniversitiesResponse(nine[..3], 3)));
    page, pages := finder.currentPage, TotalPages(finder.total);
    visible := finder.VisibleUniversities();
    first, last := RangeFirst(finder.total, finder.currentPage), RangeLast(finder.total, finder.currentPage);
  }
}
