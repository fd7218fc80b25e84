/** `usePaginationSearchParams`: the search-query record of a list page and its mirror in
    the URL. The record is read from the URL once, when the page mounts, and written back
    to the URL after every change. URL parameters are a map from key to value; a key the
    map lacks is what `params.get` answers with `null`. */
module SearchParams {
  import opened JsValues

  /** `SearchQueries`: every field optional. `page` and `limit` are numbers (NaN when the
      URL held something that is not a number); `limit` is typed as a page size but nothing
      checks it against the allowed sizes. */
  datatype SearchQueries = SearchQueries(
    page: Option<Num>,
    limit: Option<Num>,
    sortBy: Option<string>,
    sortDesc: Option<bool>,
    textSearch: Option<string>,
    status: Option<string>,
    employeeId: Option<string>,
    from: Option<string>,
    to: Option<string>)

  const NoQueries := SearchQueries(None, None, None, None, None, None, None, None, None)

  type Params = map<string, string>

  /** The nine keys the hook reads and writes. */
  const Keys: set<string> :=
    {"page", "limit", "sortBy", "sortDesc", "textSearch", "status", "employeeId", "from", "to"}

  /** The allowed page sizes of the type `PageSize`. */
  const PageSizes: set<int> := {5, 10, 25, 50, 100, 1000}

  /** `params.get(key)` is truthy: the key is present with a non-empty value. */
  predicate Has(params: Params, key: string) {
    key in params && params[key] != ""
  }

  function TextParam(params: Params, key: string): (r: Option<string>)
    ensures r.Some? <==> Has(params, key)
    ensures r.Some? ==> r.value == params[key] && r.value != ""
  {
    if Has(params, key) then Some(params[key]) else None
  }

  function NumberParam(params: Params, key: string): (r: Option<Num>)
    ensures r.Some? <==> Has(params, key)
    ensures r.Some? ==> r.value == ParseNumber(params[key])
  {
    if Has(params, key) then Some(ParseNumber(params[key])) else None
  }

  /** The record built from the URL alone: a field for every non-empty parameter; `sortDesc`
      is true exactly for the text "true". */
  function FromParams(params: Params): (q: SearchQueries)
    ensures q.sortDesc.Some? <==> Has(params, "sortDesc")
    ensures q.sortDesc.Some? ==> (q.sortDesc.value <==> params["sortDesc"] == "true")
  {
    SearchQueries(
      NumberParam(params, "page"),
      NumberParam(params, "limit"),
      TextParam(params, "sortBy"),
      if Has(params, "sortDesc") then Some(params["sortDesc"] == "true") else None,
      TextParam(params, "textSearch"),
      TextParam(params, "status"),
      TextParam(params, "employeeId"),
      TextParam(params, "from"),
      TextParam(params, "to"))
  }

  /** Some recognised key has a non-empty value in the URL. */
  predicate AnyRecognised(params: Params) {
    exists k :: k in Keys && Has(params, k)
  }

  /** The state initialiser: the URL wins as a whole when it holds any recognised key,
      otherwise the initial queries are used unchanged. */
  function InitialValue(params: Params, initial: SearchQueries): (q: SearchQueries)
    ensures !AnyRecognised(params) ==> q == initial
    ensures AnyRecognised(params) ==> q == FromParams(params)
  {
    if Has(params, "page") || Has(params, "limit") || Has(params, "sortBy") || Has(params, "sortDesc")
      || Has(params, "textSearch") || Has(params, "status") || Has(params, "employeeId")
      || Has(params, "from") || Has(params, "to")
    then FromParams(params)
    else initial
  }

  /** A number field is written when it is truthy, as `n + ""`. */
  predicate EmitsNumber(x: Option<Num>) {
    x.Some? && NumTruthy(x.value)
  }

  /** A text field is written when it is truthy, i.e. defined and non-empty. */
  predicate EmitsText(s: Option<string>) {
    s.Some? && StrTruthy(s.value)
  }

  function NumberEntry(x: Option<Num>): Option<string> {
    if EmitsNumber(x) then Some(IntToString(x.value.n)) else None
  }

  function TextEntry(s: Option<string>): Option<string> {
    if EmitsText(s) then s else None
  }

  /** The text the effect writes under `key`, if it writes that key at all. */
  function Entry(q: SearchQueries, key: string): Option<string> {
    if key == "page" then NumberEntry(q.page)
    else if key == "limit" then NumberEntry(q.limit)
    else if key == "sortBy" then TextEntry(q.sortBy)
    else if key == "sortDesc" then
      (if q.sortDesc.None? then None else if q.sortDesc.value then Some("true") else Some("false"))
    else if key == "textSearch" then TextEntry(q.textSearch)
    else if key == "status" then TextEntry(q.status)
    else if key == "employeeId" then TextEntry(q.employeeId)
    else if key == "from" then TextEntry(q.from)
    else if key == "to" then TextEntry(q.to)
    else None
  }

  /** The effect body: the record as URL parameters. */
  function ToParams(q: SearchQueries): (p: Params)
    ensures p.Keys <= Keys
    ensures "page" in p <==> EmitsNumber(q.page)
    ensures "page" in p ==> p["page"] == IntToString(q.page.value.n)
    ensures "limit" in p <==> EmitsNumber(q.limit)
    ensures "limit" in p ==> p["limit"] == IntToString(q.limit.value.n)
    ensures "sortBy" in p <==> EmitsText(q.sortBy)
    ensures "sortBy" in p ==> p["sortBy"] == q.sortBy.value
    ensures "sortDesc" in p <==> q.sortDesc.Some?
    ensures "sortDesc" in p ==> p["sortDesc"] == (if q.sortDesc.value then "true" else "false")
    ensures "textSearch" in p <==> EmitsText(q.textSearch)
    ensures "textSearch" in p ==> p["textSearch"] == q.textSearch.value
    ensures "status" in p <==> EmitsText(q.status)
    ensures "status" in p ==> p["status"] == q.status.value
    ensures "employeeId" in p <==> EmitsText(q.employeeId)
    ensures "employeeId" in p ==> p["employeeId"] == q.employeeId.value
    ensures "from" in p <==> EmitsText(q.from)
    ensures "from" in p ==> p["from"] == q.from.value
    ensures "to" in p <==> EmitsText(q.to)
    ensures "to" in p ==> p["to"] == q.to.value
  {
    map k | k in Keys && Entry(q, k).Some? :: Entry(q, k).value
  }

  /** A number that survives the URL: defined, a finite non-zero integer. */
  predicate CanonicalNumber(x: Option<Num>) {
    x.None? || (x.value.Finite? && x.value.n != 0)
  }

  predicate CanonicalText(s: Option<string>) {
    s.None? || s.value != ""
  }

  /** A record every field of which the URL can carry: no 0 or NaN numbers, no empty texts. */
  predicate Canonical(q: SearchQueries) {
    CanonicalNumber(q.page) && CanonicalNumber(q.limit) && CanonicalText(q.sortBy)
    && CanonicalText(q.textSearch) && CanonicalText(q.status) && CanonicalText(q.employeeId)
    && CanonicalText(q.from) && CanonicalText(q.to)
  }

  /** A canonical record with some field writes some recognised key. */
  lemma CanonicalWritesSomething(q: SearchQueries)
    requires Canonical(q) && q != NoQueries
    ensures AnyRecognised(ToParams(q))
  {
    var p := ToParams(q);
    if q.page.Some? {
      assert Has(p, "page");
    } else if q.limit.Some? {
      assert Has(p, "limit");
    } else if q.sortBy.Some? {
      assert Has(p, "sortBy");
    } else if q.sortDesc.Some? {
      assert Has(p, "sortDesc");
    } else if q.textSearch.Some? {
      assert Has(p, "textSearch");
    } else if q.status.Some? {
      assert Has(p, "status");
    } else if q.employeeId.Some? {
      assert Has(p, "employeeId");
    } else if q.from.Some? {
      assert Has(p, "from");
    } else {
      assert Has(p, "to");
    }
  }

  /** Reading the URL a canonical record writes gives the record back. */
  lemma ReadBackWritten(q: SearchQueries)
    requires Canonical(q)
    ensures FromParams(ToParams(q)) == q
  {
    var p := ToParams(q);
    if q.page.Some? { IntToStringRoundTrip(q.page.value.n); }
    if q.limit.Some? { IntToStringRoundTrip(q.limit.value.n); }
    assert FromParams(p).page == q.page;
    assert FromParams(p).limit == q.limit;
  }

  /** Written back and read again on the next mount, a canonical record with at least one
      field comes back unchanged, whatever the initial queries. */
  lemma ParamsRoundTrip(q: SearchQueries, initial: SearchQueries)
    requires Canonical(q) && q != NoQueries
    ensures InitialValue(ToParams(q), initial) == q
  {
    CanonicalWritesSomething(q);
    ReadBackWritten(q);
  }

  /** A record with nothing to write leaves an empty URL, and the next mount starts again
      from the initial queries. */
  lemma EmptyRecordFallsBack(q: SearchQueries, initial: SearchQueries)
    requires !EmitsNumber(q.page) && !EmitsNumber(q.limit) && q.sortDesc.None?
    requires !EmitsText(q.sortBy) && !EmitsText(q.textSearch) && !EmitsText(q.status)
    requires !EmitsText(q.employeeId) && !EmitsText(q.from) && !EmitsText(q.to)
    ensures ToParams(q) == map[]
    ensures InitialValue(ToParams(q), initial) == initial
  {
  }

  /** A URL value the record reproduces exactly: page and limit as canonical integer numerals,
      sortDesc as "true" or "false", every value non-empty. */
  predicate CanonicalParams(params: Params) {
    params.Keys <= Keys
    && (forall k :: k in params ==> params[k] != "")
    && ("page" in params ==> CanonicalNumeral(params["page"]))
    && ("limit" in params ==> CanonicalNumeral(params["limit"]))
    && ("sortDesc" in params ==> params["sortDesc"] in {"true", "false"})
  }

  predicate CanonicalNumeral(s: string) {
    var x := ParseNumber(s);
    x.Finite? && x.n != 0 && IntToString(x.n) == s
  }

  /** Each key of a canonical URL is written back with the text it was read from. */
  lemma EntryOfFromParams(params: Params, k: string)
    requires CanonicalParams(params) && k in Keys
    ensures Entry(FromParams(params), k) == if k in params then Some(params[k]) else None
  {
    var q := FromParams(params);
    if k == "page" && k in params {
      assert ParseNumber(params[k]).Finite?;
    } else if k == "limit" && k in params {
      assert ParseNumber(params[k]).Finite?;
    }
  }

  /** Read and written back, a canonical non-empty URL is reproduced exactly. */
  lemma RecordRoundTrip(params: Params, initial: SearchQueries)
    requires CanonicalParams(params) && params != map[]
    ensures ToParams(InitialValue(params, initial)) == params
  {
    var k :| k in params;
    assert k in Keys && Has(params, k);
    var p := ToParams(FromParams(params));
    forall key | key in Keys
      ensures (key in p <==> key in params) && (key in p ==> p[key] == params[key])
    {
      EntryOfFromParams(params, key);
    }
    assert p.Keys == params.Keys;
  }

  /** `limit` is taken from the URL as any number, also one that is not a page size. */
  lemma LimitIsNotChecked(n: int, initial: SearchQueries)
    requires n != 0
    ensures InitialValue(map["limit" := IntToString(n)], initial).limit == Some(Finite(n))
    ensures InitialValue(map["limit" := "ten"], initial).limit == Some(NaN)
  {
    IntToStringRoundTrip(n);
    assert Has(map["limit" := IntToString(n)], "limit");
    assert Has(map["limit" := "ten"], "limit");
  }

  /** The state of the hook: the record in `useState` and the URL parameters it is written
      to. Every change of the record is followed by the effect that rewrites the URL. */
  class PaginationSearchParams {
    var value: SearchQueries
    var params: Params

    /** The URL reflects the record. */
    predicate Synced()
      reads this
    {
      params == ToParams(value)
    }

    /** Mounting: the record is initialised from the URL (or the initial queries), then the
        effect writes it back. */
    constructor (url: Params, initial: SearchQueries)
      ensures value == InitialValue(url, initial)
      ensures Synced()
    {
      value := InitialValue(url, initial);
      params := ToParams(InitialValue(url, initial));
    }

    /** `setValue` followed by the effect. */
    method SetValue(v: SearchQueries)
      modifies this
      ensures value == v
      ensures Synced()
    {
      value := v;
      params := ToParams(v);
    }
  }
}
