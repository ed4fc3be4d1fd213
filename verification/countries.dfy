/** The countries slice: the reference list fetched from the public
    endpoint, the country currently selected by a detail page, and the
    case-insensitive lookup by name. */
module Countries {
  import opened Domain
  import opened Text

  datatype State = State(
    countries: seq<Country>,
    selectedCountry: Option<Country>,
    loading: bool,
    error: Option<string>
  )

  const InitialState := State([], None, false, None)

  /** The two plain reducers and the three lifecycle actions of
      `fetchCountries`; only `fulfilled` has a handler. */
  datatype Action =
    | SetSelectedCountry(country: Country)
    | ClearSelectedCountry
    | FetchPending
    | FetchFulfilled(countries: seq<Country>)
    | FetchRejected(message: string)

  function Reduce(s: State, a: Action): (r: State)
    ensures a.SetSelectedCountry? ==>
      r.selectedCountry == Some(a.country) && r.error == None
      && r.countries == s.countries && r.loading == s.loading
    ensures a.ClearSelectedCountry? ==> r == s.(selectedCountry := None, error := None)
    ensures a.FetchFulfilled? ==>
      r.countries == a.countries && r.selectedCountry == s.selectedCountry
      && r.loading == s.loading && r.error == s.error
    // a fetch that is in flight or failed changes nothing
    ensures (a.FetchPending? || a.FetchRejected?) ==> r == s
  {
    match a
    case SetSelectedCountry(c) => s.(selectedCountry := Some(c), error := None)
    case ClearSelectedCountry => s.(selectedCountry := None, error := None)
    case FetchFulfilled(cs) => s.(countries := cs)
    case FetchPending => s
    case FetchRejected(_) => s
  }

  /** The lookup's test: the lowered common or official name equals the
      lowered query. */
  predicate NameMatches(c: Country, query: string)
  {
    Lower(c.common) == Lower(query) || Lower(c.official) == Lower(query)
  }

  /** Index of the first country from `from` on that matches `query`. */
  function FindFrom(countries: seq<Country>, query: string, from: nat): (r: Option<nat>)
    requires from <= |countries|
    ensures r.Some? ==> from <= r.value < |countries| && NameMatches(countries[r.value], query)
    ensures r.Some? ==> forall j :: from <= j < r.value ==> !NameMatches(countries[j], query)
    ensures r.None? ==> forall j :: from <= j < |countries| ==> !NameMatches(countries[j], query)
    decreases |countries| - from
  {
    if from == |countries| then None
    else if NameMatches(countries[from], query) then Some(from)
    else FindFrom(countries, query, from + 1)
  }

  /** `selectCountryByName`: the first country in list order whose common
      or official name equals the query, ignoring case. */
  function SelectCountryByName(countries: seq<Country>, query: string): (r: Option<Country>)
    ensures r.Some? ==> exists i :: 0 <= i < |countries| && countries[i] == r.value
                                   && NameMatches(countries[i], query)
                                   && forall j :: 0 <= j < i ==> !NameMatches(countries[j], query)
    ensures r.None? <==> forall j :: 0 <= j < |countries| ==> !NameMatches(countries[j], query)
  {
    match FindFrom(countries, query, 0)
    case Some(i) => Some(countries[i])
    case None => None
  }

  /** The lookup sees only the lowered query: two queries that lower alike
      select the same country. */
  lemma {:induction false} SelectIgnoresCase(countries: seq<Country>, q1: string, q2: string)
    requires Lower(q1) == Lower(q2)
    ensures SelectCountryByName(countries, q1) == SelectCountryByName(countries, q2)
  {
    assert forall c :: NameMatches(c, q1) == NameMatches(c, q2);
    FindFromAgrees(countries, q1, q2, 0);
  }

  lemma {:induction false} FindFromAgrees(countries: seq<Country>, q1: string, q2: string, from: nat)
    requires from <= |countries|
    requires forall c :: NameMatches(c, q1) == NameMatches(c, q2)
    ensures FindFrom(countries, q1, from) == FindFrom(countries, q2, from)
    decreases |countries| - from
  {
    if from < |countries| {
      FindFromAgrees(countries, q1, q2, from + 1);
    }
  }

  /** A country that matches and has no matching predecessor is the one
      the lookup returns. */
  lemma SelectFindsFirstMatch(countries: seq<Country>, query: string, i: nat)
    requires i < |countries| && NameMatches(countries[i], query)
    requires forall j :: 0 <= j < i ==> !NameMatches(countries[j], query)
    ensures SelectCountryByName(countries, query) == Some(countries[i])
  {
  }
}
