/**
 * The listing client (lib/api.ts): the records exchanged with the listing service,
 * the filter object, the choice of query pairs, the request URLs and the mapping of
 * a non-success response to an error.  The transport itself (`fetch`, `res.json()`)
 * is a parameter.
 */
module Api {
  import opened Wrappers

  /** The base URL used when no override is configured. */
  const DefaultApiBase: string := "http://localhost:3001"

  /**
   * `NEXT_PUBLIC_API_URL || 'http://localhost:3001'`: an unset or empty setting falls
   * back to the local address, so the base is never empty.
   */
  function ApiBase(configured: Option<string>): (base: string)
    ensures base != ""
    ensures configured == None || configured == Some("") ==> base == DefaultApiBase
    ensures configured.Some? && configured.value != "" ==> base == configured.value
  {
    if configured.Some? && configured.value != "" then configured.value else DefaultApiBase
  }

  // ---------------------------------------------------------------------------
  // Records received from the listing service

  datatype University = University(
    id: string,
    name: string,
    country: string,
    location: string,
    tuitionFee: real,
    ranking: int,
    establishedYear: int,
    minIeltsScore: Option<real>,
    courses: Option<seq<string>>,
    scholarshipsAvailable: Option<bool>)

  datatype UniversitiesResponse = UniversitiesResponse(universities: seq<University>, total: int)

  datatype FilterOptions = FilterOptions(countries: seq<string>, courses: seq<string>, ieltsScores: seq<real>)

  // ---------------------------------------------------------------------------
  // The filter object

  /** The twelve optional properties of `UniversityFilters`. */
  datatype FilterKey =
    | Name | Country | Location | TuitionMin | TuitionMax | RankingMin | RankingMax
    | EstablishedMin | EstablishedMax | MinIelts | Course | Scholarships

  /** The property name, which is also the query parameter name. */
  function KeyName(k: FilterKey): string
  {
    match k
    case Name => "name"
    case Country => "country"
    case Location => "location"
    case TuitionMin => "tuitionMin"
    case TuitionMax => "tuitionMax"
    case RankingMin => "rankingMin"
    case RankingMax => "rankingMax"
    case EstablishedMin => "establishedMin"
    case EstablishedMax => "establishedMax"
    case MinIelts => "minIelts"
    case Course => "course"
    case Scholarships => "scholarships"
  }

  /** A JavaScript property value as the filter object can hold it. */
  datatype FieldValue = Undefined | Null | Str(s: string)

  datatype Entry = Entry(key: FilterKey, value: FieldValue)

  /**
   * A filter object as the list `Object.entries` yields: its own properties in
   * insertion order.  A property explicitly set to `undefined` is still an entry.
   */
  type Filters = seq<Entry>

  /** A JavaScript object never holds the same property twice. */
  predicate WellFormed(f: Filters)
  {
    forall i, j | 0 <= i < j < |f| :: f[i].key != f[j].key
  }

  function Keys(f: Filters): set<FilterKey>
  {
    set i | 0 <= i < |f| :: f[i].key
  }

  /** Reading a property: `undefined` when the object lacks it. */
  function Get(f: Filters, k: FilterKey): (v: FieldValue)
    ensures k !in Keys(f) ==> v == Undefined
  {
    if f == [] then Undefined
    else if f[0].key == k then f[0].value
    else
      assert forall i | 0 <= i < |f| - 1 :: f[1..][i] == f[i + 1];
      Get(f[1..], k)
  }

  /** A defined read comes from an entry of the object. */
  lemma {:induction false} GetIndex(f: Filters, k: FilterKey) returns (i: int)
    requires Get(f, k) != Undefined
    ensures 0 <= i < |f| && f[i] == Entry(k, Get(f, k))
  {
    if f[0].key == k {
      i := 0;
    } else {
      var j := GetIndex(f[1..], k);
      i := j + 1;
    }
  }

  /** The guard of api.ts:48: a value is sent unless it is undefined, null or ''. */
  predicate IsSent(v: FieldValue)
  {
    v != Undefined && v != Null && v != Str("")
  }

  /** The criteria a filter object actually sets: every key whose value is sent. */
  function Criteria(f: Filters): map<FilterKey, string>
  {
    map k | k in Keys(f) && IsSent(Get(f, k)) :: Get(f, k).s
  }

  /** A key is a criterion exactly when its value is sent, and then it maps to that value. */
  lemma {:induction false} CriteriaAt(f: Filters, k: FilterKey)
    ensures k in Criteria(f) <==> IsSent(Get(f, k))
    ensures k in Criteria(f) ==> Criteria(f)[k] == Get(f, k).s
  {
  }

  // ---------------------------------------------------------------------------
  // Query pairs and the request URL

  type QueryPair = (string, string)

  /** The pairs one entry contributes to the query: none, or its key and value unchanged. */
  function EntryPairs(e: Entry): seq<QueryPair>
  {
    if IsSent(e.value) then [(KeyName(e.key), e.value.s)] else []
  }

  /** The pairs `params` holds after the `forEach` of api.ts:47-51 over the entries. */
  function QueryPairs(f: Filters): (pairs: seq<QueryPair>)
    ensures |pairs| <= |f|
  {
    if f == [] then [] else EntryPairs(f[0]) + QueryPairs(f[1..])
  }

  /** The query pairs follow entry order: the pairs of a concatenation are concatenated. */
  lemma {:induction false} QueryPairsAppend(a: Filters, b: Filters)
    ensures QueryPairs(a + b) == QueryPairs(a) + QueryPairs(b)
  {
    if a == [] {
      assert a + b == b;
    } else {
      assert (a + b)[1..] == a[1..] + b;
      QueryPairsAppend(a[1..], b);
    }
  }

  /** A pair is emitted if and only if some entry with a sent value produced it. */
  lemma {:induction false} QueryPairsMembership(f: Filters, p: QueryPair)
    ensures p in QueryPairs(f) <==>
      exists i | 0 <= i < |f| :: IsSent(f[i].value) && p == (KeyName(f[i].key), f[i].value.s)
  {
    if f != [] {
      QueryPairsMembership(f[1..], p);
      if p in QueryPairs(f[1..]) {
        var i :| 0 <= i < |f[1..]| && IsSent(f[1..][i].value) && p == (KeyName(f[1..][i].key), f[1..][i].value.s);
        assert f[i + 1] == f[1..][i];
      }
      if exists i | 0 <= i < |f| :: IsSent(f[i].value) && p == (KeyName(f[i].key), f[i].value.s) {
        var i :| 0 <= i < |f| && IsSent(f[i].value) && p == (KeyName(f[i].key), f[i].value.s);
        if i > 0 {
          assert f[1..][i - 1] == f[i];
        }
      }
    }
  }

  /** Distinct filter keys are distinct query parameter names. */
  lemma KeyNameInjective(a: FilterKey, b: FilterKey)
    ensures KeyName(a) == KeyName(b) ==> a == b
  {
  }

  /** Reading the key of an entry of a well-formed object finds that entry's value. */
  lemma {:induction false} GetAt(f: Filters, i: int)
    requires WellFormed(f) && 0 <= i < |f|
    ensures Get(f, f[i].key) == f[i].value
  {
    if i > 0 {
      assert f[1..][i - 1] == f[i];
      GetAt(f[1..], i - 1);
    }
  }

  /**
   * For a well-formed object, the emitted pairs are exactly its criteria: the pair
   * `(name, s)` is sent if and only if the key called `name` is set to `s`.
   */
  lemma QueryPairsAreCriteria(f: Filters, k: FilterKey, s: string)
    requires WellFormed(f)
    ensures (KeyName(k), s) in QueryPairs(f) <==> k in Criteria(f) && Criteria(f)[k] == s
  {
    var p := (KeyName(k), s);
    QueryPairsMembership(f, p);
    if p in QueryPairs(f) {
      var i :| 0 <= i < |f| && IsSent(f[i].value) && p == (KeyName(f[i].key), f[i].value.s);
      KeyNameInjective(f[i].key, k);
      GetAt(f, i);
    }
    if k in Criteria(f) && Criteria(f)[k] == s {
      var i := GetIndex(f, k);
      assert IsSent(f[i].value) && p == (KeyName(f[i].key), f[i].value.s);
    }
  }

  /**
   * The `forEach` of api.ts:47-51: walk the entries in order and append each one
   * whose value is neither undefined, null nor '' as a (key, value) pair.
   */
  method BuildQueryPairs(f: Filters) returns (params: seq<QueryPair>)
    ensures params == QueryPairs(f)
  {
    params := [];
    var i := 0;
    while i < |f|
      invariant 0 <= i <= |f|
      invariant params == QueryPairs(f[..i])
    {
      var e := f[i];
      if e.value != Undefined && e.value != Null && e.value != Str("") {
        params := params + [(KeyName(e.key), e.value.s)];
      }
      assert f[..i + 1] == f[..i] + [e];
      QueryPairsAppend(f[..i], [e]);
      i := i + 1;
    }
    assert f[..i] == f;
  }

  /** One pair as `key=value` (percent-encoding is not modelled). */
  function EncodePair(p: QueryPair): string
  {
    p.0 + "=" + p.1
  }

  /** `URLSearchParams.toString()`: the pairs joined by `&`. */
  function FormSerialize(pairs: seq<QueryPair>): (text: string)
    ensures text == "" <==> pairs == []
  {
    if pairs == [] then ""
    else if |pairs| == 1 then EncodePair(pairs[0])
    else EncodePair(pairs[0]) + "&" + FormSerialize(pairs[1..])
  }

  /**
   * The listing URL of api.ts:53: the `?` and the serialized pairs are added only
   * when the serialization is non-empty, that is, exactly when some pair is sent.
   * With the default argument `{}` this is the bare listing path.
   */
  function UniversitiesUrl(base: string, f: Filters): (url: string)
    ensures QueryPairs(f) == [] ==> url == base + "/api/universities"
    ensures QueryPairs(f) != [] ==> url == base + "/api/universities?" + FormSerialize(QueryPairs(f))
  {
    var query := FormSerialize(QueryPairs(f));
    base + "/api/universities" + (if query != "" then "?" + query else "")
  }

  function UniversityUrl(base: string, id: string): (url: string)
    ensures |url| == |base| + 18 + |id|
    ensures url[..|base|] == base && url[|base| + 18..] == id
    ensures url[|base|..|base| + 18] == "/api/universities/"
  {
    base + "/api/universities/" + id
  }

  function FilterOptionsUrl(base: string): (url: string)
    ensures |url| == |base| + 12 && url[..|base|] == base
    ensures url[|base|..] == "/api/filters"
  {
    base + "/api/filters"
  }

  /** On one base, each id has its own detail URL. */
  lemma UniversityUrlInjective(base: string, a: string, b: string)
    requires UniversityUrl(base, a) == UniversityUrl(base, b)
    ensures a == b
  {
    assert a == UniversityUrl(base, a)[|base| + 18..];
  }

  /** On one base, the filter-options URL is neither the listing URL nor a detail URL. */
  lemma EndpointsDistinct(base: string, f: Filters, id: string)
    ensures FilterOptionsUrl(base) != UniversitiesUrl(base, f)
    ensures FilterOptionsUrl(base) != UniversityUrl(base, id)
  {
    assert FilterOptionsUrl(base)[|base| + 5] == 'f';
    assert UniversityUrl(base, id)[|base| + 5] == 'u';
    assert (base + "/api/universities")[|base| + 5] == 'u';
  }

  // ---------------------------------------------------------------------------
  // Responses and errors

  /** What the transport yields: a network failure, or a response with its `ok` flag and body. */
  datatype HttpResponse<T> = NetworkFailure | Received(ok: bool, body: T)

  /** A rejected fetch: the transport's own failure, or the `Error` thrown on a non-ok status. */
  datatype FetchError = TransportFailure | StatusError(message: string)

  /** The shared tail of the three fetchers: a non-ok status throws, never yielding data. */
  function Settle<T>(response: HttpResponse<T>, message: string): (r: Result<T, FetchError>)
    ensures r.Success? <==> response.Received? && response.ok
    ensures r.Success? ==> r.value == response.body
    ensures response.Received? && !response.ok ==> r == Failure(StatusError(message))
  {
    match response
    case NetworkFailure => Failure(TransportFailure)
    case Received(ok, body) => if !ok then Failure(StatusError(message)) else Success(body)
  }

  function FetchUniversities(base: string, f: Filters, transport: string -> HttpResponse<UniversitiesResponse>)
    : (r: Result<UniversitiesResponse, FetchError>)
    ensures var response := transport(UniversitiesUrl(base, f));
      && (r.Success? <==> response.Received? && response.ok)
      && (r.Success? ==> r.value == response.body)
      && (response.Received? && !response.ok ==> r == Failure(StatusError("Failed to fetch universities")))
  {
    Settle(transport(UniversitiesUrl(base, f)), "Failed to fetch universities")
  }

  function FetchUniversityById(base: string, id: string, transport: string -> HttpResponse<University>)
    : (r: Result<University, FetchError>)
    ensures var response := transport(UniversityUrl(base, id));
      && (r.Success? <==> response.Received? && response.ok)
      && (r.Success? ==> r.value == response.body)
      && (response.Received? && !response.ok ==> r == Failure(StatusError("University not found")))
  {
    Settle(transport(UniversityUrl(base, id)), "University not found")
  }

  function FetchFilterOptions(base: string, transport: string -> HttpResponse<FilterOptions>)
    : (r: Result<FilterOptions, FetchError>)
    ensures var response := transport(FilterOptionsUrl(base));
      && (r.Success? <==> response.Received? && response.ok)
      && (r.Success? ==> r.value == response.body)
      && (response.Received? && !response.ok ==> r == Failure(StatusError("Failed to fetch filter options")))
  {
    Settle(transport(FilterOptionsUrl(base)), "Failed to fetch filter options")
  }
}
