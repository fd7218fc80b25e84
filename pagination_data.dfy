/** `usePaginationData`: the search queries of a list page with defaults for `page` and
    `limit`, and the update rule that sends the list back to page 1 whenever a filter, the
    page size or the sort order changes. */
module PaginationData {
  import opened JsValues
  import opened SearchParams

  /** One field of an update record: `Keep` when the key is absent (the spread leaves the
      old value), `Put(v)` when the key is present, with `Put(None)` for a key whose value
      is `undefined` (the spread overwrites the old value with it). */
  datatype Patch<T> = Keep | Put(v: Option<T>)

  datatype Update = Update(
    page: Patch<Num>,
    limit: Patch<Num>,
    sortBy: Patch<string>,
    sortDesc: Patch<bool>,
    textSearch: Patch<string>,
    status: Patch<string>,
    employeeId: Patch<string>,
    from: Patch<string>,
    to: Patch<string>)

  const NoUpdate: Update := Update(Keep, Keep, Keep, Keep, Keep, Keep, Keep, Keep, Keep)

  /** `{...old, ...update}` on one field. */
  function Apply<T>(current: Option<T>, p: Patch<T>): (r: Option<T>)
    ensures p.Keep? ==> r == current
    ensures p.Put? ==> r == p.v
  {
    match p
    case Keep => current
    case Put(v) => v
  }

  function Merge(q: SearchQueries, u: Update): SearchQueries {
    SearchQueries(
      Apply(q.page, u.page), Apply(q.limit, u.limit), Apply(q.sortBy, u.sortBy),
      Apply(q.sortDesc, u.sortDesc), Apply(q.textSearch, u.textSearch), Apply(q.status, u.status),
      Apply(q.employeeId, u.employeeId), Apply(q.from, u.from), Apply(q.to, u.to))
  }

  /** JS `a !== b` on two optional numbers: NaN differs from everything, itself included. */
  predicate NumDiffers(a: Option<Num>, b: Option<Num>) {
    match (a, b)
    case (Some(Finite(x)), Some(Finite(y))) => x != y
    case (None, None) => false
    case _ => true
  }

  /** A text filter changes: the update puts a non-empty text that differs from the current one. */
  predicate TextChanges(current: Option<string>, p: Patch<string>) {
    p.Put? && p.v.Some? && p.v.value != "" && p.v != current
  }

  /** The condition of `updateQueryValue` under which the page goes back to 1. */
  predicate ResetsPage(q: SearchQueries, u: Update) {
    TextChanges(q.textSearch, u.textSearch)
    || (u.limit.Put? && u.limit.v.Some? && NumDiffers(u.limit.v, q.limit))
    || (u.sortBy.Put? && u.sortBy.v.Some?)
    || (u.sortDesc.Put? && u.sortDesc.v.Some?)
    || TextChanges(q.status, u.status)
    || TextChanges(q.employeeId, u.employeeId)
    || TextChanges(q.from, u.from)
    || TextChanges(q.to, u.to)
  }

  /** `updateQueryValue`: the merged record, with `page` forced to 1 on a reset. */
  function NextQueries(q: SearchQueries, u: Update): (r: SearchQueries)
    ensures ResetsPage(q, u) ==> r.page == Some(Finite(1))
    ensures !ResetsPage(q, u) ==> r.page == Apply(q.page, u.page)
    ensures r.limit == Apply(q.limit, u.limit) && r.sortBy == Apply(q.sortBy, u.sortBy)
    ensures r.sortDesc == Apply(q.sortDesc, u.sortDesc) && r.textSearch == Apply(q.textSearch, u.textSearch)
    ensures r.status == Apply(q.status, u.status) && r.employeeId == Apply(q.employeeId, u.employeeId)
    ensures r.from == Apply(q.from, u.from) && r.to == Apply(q.to, u.to)
  {
    var merged := Merge(q, u);
    if ResetsPage(q, u) then merged.(page := Some(Finite(1))) else merged
  }

  /** The queries the hook starts from: the given ones (none when absent), with a falsy
      `page` replaced by 1 and a falsy `limit` by 10. */
  function InitialQueries(initial: Option<SearchQueries>): (r: SearchQueries)
    ensures EmitsNumber(r.page) && EmitsNumber(r.limit)
    ensures r.page == (if initial.Some? && EmitsNumber(initial.value.page) then initial.value.page else Some(Finite(1)))
    ensures r.limit == (if initial.Some? && EmitsNumber(initial.value.limit) then initial.value.limit else Some(Finite(10)))
    ensures initial.None? ==> (r.sortBy.None? && r.sortDesc.None? && r.textSearch.None? && r.status.None?
      && r.employeeId.None? && r.from.None? && r.to.None?)
    ensures initial.Some? ==> (r.sortBy == initial.value.sortBy && r.sortDesc == initial.value.sortDesc
      && r.textSearch == initial.value.textSearch && r.status == initial.value.status
      && r.employeeId == initial.value.employeeId && r.from == initial.value.from && r.to == initial.value.to)
  {
    var q := if initial.Some? then initial.value else NoQueries;
    q.(page := if EmitsNumber(q.page) then q.page else Some(Finite(1)),
       limit := if EmitsNumber(q.limit) then q.limit else Some(Finite(10)))
  }

  /** Without initial queries the list starts on page 1 with 10 rows, and nothing else. */
  lemma DefaultInitialQueries()
    ensures InitialQueries(None) == NoQueries.(page := Some(Finite(1)), limit := Some(Finite(10)))
  {
  }

  /** Putting `sortBy` or `sortDesc` goes back to page 1 even when the value is unchanged,
      and even when the update names another page. */
  lemma SortAlwaysResets(q: SearchQueries, u: Update)
    requires (u.sortBy == Put(q.sortBy) && q.sortBy.Some?) || (u.sortDesc == Put(q.sortDesc) && q.sortDesc.Some?)
    ensures NextQueries(q, u).page == Some(Finite(1))
    ensures NextQueries(q, u).sortBy == q.sortBy || u.sortBy != Put(q.sortBy)
  {
  }

  /** A new page size always resets the page; so does a NaN one, which differs even from itself. */
  lemma LimitChangeResets(q: SearchQueries, n: Num)
    requires n.NaN? || q.limit != Some(n)
    ensures NextQueries(q, NoUpdate.(limit := Put(Some(n)))) == q.(page := Some(Finite(1)), limit := Some(n))
  {
  }

  /** Clearing filters to `undefined` removes them but keeps the page: the reset tests the
      new values for truthiness. Keys absent from the update keep their values. */
  lemma ClearingKeepsPage(q: SearchQueries, u: Update)
    requires u.page.Keep? && u.limit.Keep? && u.sortBy.Keep? && u.sortDesc.Keep?
    requires u.textSearch in {Keep, Put(None)} && u.status in {Keep, Put(None)}
    requires u.employeeId in {Keep, Put(None)} && u.from in {Keep, Put(None)} && u.to in {Keep, Put(None)}
    ensures !ResetsPage(q, u)
    ensures NextQueries(q, u).page == q.page && NextQueries(q, u).limit == q.limit
    ensures NextQueries(q, u).status == (if u.status.Keep? then q.status else None)
  {
  }

  /** Once an update's text is applied, the same update no longer changes it. */
  lemma TextSettled(current: Option<string>, p: Patch<string>)
    ensures !TextChanges(Apply(current, p), p)
  {
  }

  /** Re-applying an update only resets the page if applying it the first time did. */
  lemma ResetOnlyOnce(q: SearchQueries, u: Update)
    ensures ResetsPage(NextQueries(q, u), u) ==> ResetsPage(q, u)
  {
    var r := NextQueries(q, u);
    TextSettled(q.textSearch, u.textSearch);
    TextSettled(q.status, u.status);
    TextSettled(q.employeeId, u.employeeId);
    TextSettled(q.from, u.from);
    TextSettled(q.to, u.to);
    if ResetsPage(r, u) && !(u.sortBy.Put? && u.sortBy.v.Some?) && !(u.sortDesc.Put? && u.sortDesc.v.Some?) {
      assert u.limit.Put? && u.limit.v.Some? && NumDiffers(u.limit.v, r.limit);
      assert u.limit.v.value.NaN?;
    }
  }

  /** Re-applying an update that does not name a page other than 1 changes nothing more. */
  lemma UpdateIdempotent(q: SearchQueries, u: Update)
    requires u.page.Keep? || u.page == Put(Some(Finite(1)))
    ensures NextQueries(NextQueries(q, u), u) == NextQueries(q, u)
  {
    var r := NextQueries(q, u);
    ResetOnlyOnce(q, u);
    var r2 := NextQueries(r, u);
    assert r2.page == r.page;
  }

  /** The hook's state: the record and URL of `usePaginationSearchParams`, started from the
      defaulted initial queries. */
  class PaginationData {
    const store: PaginationSearchParams

    constructor (url: Params, initial: Option<SearchQueries>)
      ensures store.value == SearchParams.InitialValue(url, InitialQueries(initial))
      ensures store.Synced()
      ensures fresh(store)
    {
      store := new PaginationSearchParams(url, InitialQueries(initial));
    }

    /** `updateQueryValue`: the next record is stored and written to the URL. */
    method UpdateQueryValue(u: Update)
      modifies store
      ensures store.value == NextQueries(old(store.value), u)
      ensures store.Synced()
    {
      var next := NextQueries(store.value, u);
      store.SetValue(next);
    }
  }
}
