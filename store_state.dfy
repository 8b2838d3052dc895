/**
 * The Pinia store of stores/store.ts (`useStoreStore`): the list of stores,
 * the fetch flags, the pagination and the search selection, with its getters
 * and actions.
 *
 * The getters are functions of the state; `popularCities` builds its `Map`
 * in a loop and is a method. The fetch itself is asynchronous I/O: its outcome
 * is a parameter of `FetchAllStores`, and a ghost counter records how often
 * the fetch was started.
 */
module StoreState {

  import opened Wrappers
  import opened Text
  import opened Seqs
  import opened OrderedMap
  import opened StoreTypes
  import opened SearchHelper

  // ---------------------------------------------------------------------------
  // pagedStores: `slice(start, end)` on a page

  function Clamp(i: int, len: nat): (r: nat)
    ensures r <= len
  {
    if i < 0 then (if len + i < 0 then 0 else len + i) else if i < len then i else len
  }

  /** `xs.slice(start, end)`: a negative bound counts from the end; bounds are clamped to the length. */
  function JsSlice<T>(xs: seq<T>, start: int, end: int): (r: seq<T>)
    ensures |r| <= |xs|
  {
    var from, to := Clamp(start, |xs|), Clamp(end, |xs|);
    if from < to then xs[from..to] else []
  }

  /**
   * `r` can be page `page` of `xs`: from page 1 on, at most `size` stores,
   * the ones from position `(page - 1) * size` on.
   */
  ghost predicate IsPage<T>(r: seq<T>, xs: seq<T>, page: int, size: nat)
  {
    page >= 1 ==>
      && |r| <= size
      && forall k :: 0 <= k < |r| ==> (page - 1) * size + k < |xs| && r[k] == xs[(page - 1) * size + k]
  }

  /** The stores of page `page` (counted from 1) with `size` stores a page. */
  function PageOf<T>(xs: seq<T>, page: int, size: nat): (r: seq<T>)
    ensures IsPage(r, xs, page, size)
  {
    var start := (page - 1) * size;
    assert page >= 1 ==> start >= 0 by {
      if page >= 1 {
        MulLe(0, page - 1, size);
      }
    }
    JsSlice(xs, start, start + size)
  }

  /** `Math.ceil(length / pageSize)`: a page count, or `Infinity`/`NaN` when the page size is 0. */
  datatype PageCount = Pages(n: nat) | NotFinite

  function MaxPageOf(len: nat, size: nat): PageCount
  {
    if size == 0 then NotFinite else Pages((len + size - 1) / size)
  }

  /** `page > maxPage`: never true of `Infinity` or `NaN`. */
  predicate Exceeds(page: int, maxPage: PageCount)
  {
    maxPage.Pages? && page > maxPage.n
  }

  /** The number of pages is the least one whose pages hold every store. */
  lemma MaxPageIsCeiling(len: nat, size: nat)
    ensures size > 0 ==> MaxPageOf(len, size).Pages?
    ensures size > 0 ==> var n := MaxPageOf(len, size).n; len <= n * size && (n == 0 || (n - 1) * size < len)
    ensures size > 0 ==> (MaxPageOf(len, size).n == 0 <==> len == 0)
    ensures size == 0 ==> MaxPageOf(len, size) == NotFinite
  {
    if size == 0 {
      return;
    }
    var n := (len + size - 1) / size;
    var rem := (len + size - 1) % size;
    assert len + size - 1 == n * size + rem;
    assert n * size == len + size - 1 - rem;
    if n > 0 {
      assert (n - 1) * size == n * size - size;
    }
  }

  /** A page from 1 on holds what is left from `(page - 1) * size` on, up to `size` stores. */
  lemma PageLength<T>(xs: seq<T>, page: int, size: nat)
    ensures page >= 1 ==> var start := (page - 1) * size;
      |PageOf(xs, page, size)| == (if start < |xs| then (if |xs| - start < size then |xs| - start else size) else 0)
  {
    if page >= 1 {
      MulLe(0, page - 1, size);
    }
  }

  lemma MulLe(a: nat, b: nat, c: nat)
    requires a <= b
    ensures a * c <= b * c
  {
  }

  /** With a positive page size, a page from 1 on holds stores exactly when it is at most the page count. */
  lemma PageNonEmptyIff<T>(xs: seq<T>, page: int, size: nat)
    requires page >= 1 && size > 0
    ensures PageOf(xs, page, size) != [] <==> !Exceeds(page, MaxPageOf(|xs|, size))
  {
    PageLength(xs, page, size);
    MaxPageIsCeiling(|xs|, size);
    var n := MaxPageOf(|xs|, size).n;
    if page <= n {
      MulLe(page - 1, n - 1, size);
    } else {
      MulLe(n, page - 1, size);
    }
  }

  /** Store `k` is on page `k / size + 1`, at position `k % size`, and that page is within the page count. */
  lemma PageOfStore<T>(xs: seq<T>, size: nat, k: nat)
    requires size > 0 && k < |xs|
    ensures var page := k / size + 1;
      && !Exceeds(page, MaxPageOf(|xs|, size))
      && k % size < |PageOf(xs, page, size)|
      && PageOf(xs, page, size)[k % size] == xs[k]
  {
    var page := k / size + 1;
    assert (page - 1) * size + k % size == k;
    PageLength(xs, page, size);
    PageNonEmptyIff(xs, page, size);
  }

  /** Page 0 is empty. */
  lemma PageZero<T>(xs: seq<T>, size: nat)
    ensures PageOf(xs, 0, size) == []
  {
  }

  // ---------------------------------------------------------------------------
  // popularCities

  datatype CityCount = CityCount(name: string, count: nat)

  /** The `Map<string, number>` of store counts by city. */
  type Counts = seq<Entry<nat>>

  /** The counts once the `forEach` has seen the stores `ss`: `set(city, (get(city) || 0) + 1)`. */
  function CountCities(ss: seq<Store>): Counts
    decreases |ss|
  {
    if ss == [] then []
    else
      var m := CountCities(ss[..|ss| - 1]);
      var city := ss[|ss| - 1].address.city;
      Set(m, city, Get(m, city).GetOr(0) + 1)
  }

  /** `.map(([name, count]) => ({ name, count }))`. */
  function ToCityCounts(m: Counts): (r: seq<CityCount>)
    ensures |r| == |m|
    ensures forall i :: 0 <= i < |m| ==> r[i] == CityCount(m[i].key, m[i].value)
  {
    seq(|m|, i requires 0 <= i < |m| => CityCount(m[i].key, m[i].value))
  }

  function CountOf(c: CityCount): nat
  {
    c.count
  }

  function Size(g: seq<Store>): nat
  {
    |g|
  }

  /** What `popularCities` returns for the stores `ss`. */
  function PopularCitiesOf(ss: seq<Store>): (r: seq<CityCount>)
    ensures |r| <= 10
  {
    Take(SortDesc(ToCityCounts(CountCities(ss)), CountOf), 10)
  }

  /**
   * The counts are the sizes of the city groups of the suggestion engine under
   * an empty query, in which every city matches.
   */
  lemma {:induction false} CountCitiesAreGroupSizes(ss: seq<Store>)
    ensures CountCities(ss) == MapValues(Grouped(ss, City, []), Size)
    decreases |ss|
  {
    if ss != [] {
      var pre, s := ss[..|ss| - 1], ss[|ss| - 1];
      CountCitiesAreGroupSizes(pre);
      ContainsEmpty(NormalizeStr(s.address.city));
      assert Grouped(ss, City, []) == Add(Grouped(pre, City, []), s.address.city, s);
      CountStep(Grouped(pre, City, []), s);
    }
  }

  /** Adding a store to its city group adds one to that city's count. */
  lemma CountStep(g: Groups, s: Store)
    ensures MapValues(Add(g, s.address.city, s), Size) ==
      Set(MapValues(g, Size), s.address.city, Get(MapValues(g, Size), s.address.city).GetOr(0) + 1)
  {
    var c := s.address.city;
    MapValuesGetSet(g, Size, c, Get(g, c).GetOr([]) + [s]);
  }

  /** The list before sorting: the cities' group sizes, one entry per city group. */
  lemma UnsortedAreGroups(ss: seq<Store>)
    ensures var l, g := ToCityCounts(CountCities(ss)), Grouped(ss, City, []);
      |l| == |g| && forall i :: 0 <= i < |l| ==> l[i] == CityCount(g[i].key, |g[i].value|)
  {
    CountCitiesAreGroupSizes(ss);
  }

  /**
   * A list of cities for the stores `ss`: each city named once, in the order
   * of first occurrence, with exactly the number of stores in that city.
   */
  ghost predicate CityListOf(l: seq<CityCount>, ss: seq<Store>)
  {
    && (forall i, j :: 0 <= i < j < |l| ==> l[i].name != l[j].name)
    && (forall i, j :: 0 <= i < j < |l| ==> FirstIndex(ss, City, l[i].name) < FirstIndex(ss, City, l[j].name))
    && (forall i :: 0 <= i < |l| ==> l[i].count == |StoresWith(ss, City, l[i].name)| && l[i].count >= 1)
  }

  /** The list before sorting is such a list. */
  lemma UnsortedCities(ss: seq<Store>)
    ensures CityListOf(ToCityCounts(CountCities(ss)), ss)
  {
    UnsortedAreGroups(ss);
    GroupedSpec(ss, City, []);
  }

  /** Every city of a store is in the list before sorting. */
  lemma UnsortedCovers(ss: seq<Store>, s: Store) returns (i: nat)
    requires s in ss
    ensures var l := ToCityCounts(CountCities(ss));
      i < |l| && l[i].name == s.address.city && l[i].count == |StoresWith(ss, City, s.address.city)|
  {
    UnsortedAreGroups(ss);
    var g := Grouped(ss, City, []);
    GroupedSpec(ss, City, []);
    ContainsEmpty(NormalizeStr(s.address.city));
    assert FacetValue(s, City) in Keys(g);
    i :| 0 <= i < |g| && Keys(g)[i] == s.address.city;
  }

  /** The first ten of such a list sorted by count keep the counts and name no city twice. */
  lemma TopTenCounts(l: seq<CityCount>, ss: seq<Store>, i: nat, k: nat)
    requires CityListOf(l, ss) && i < k < |Take(SortDesc(l, CountOf), 10)|
    ensures var t := Take(SortDesc(l, CountOf), 10);
      && t[i].count == |StoresWith(ss, City, t[i].name)| >= 1
      && t[k].count == |StoresWith(ss, City, t[k].name)| >= 1
      && t[i].name != t[k].name
  {
    var sorted := SortDesc(l, CountOf);
    assert NoDup(l) by {
      forall a, b | 0 <= a < b < |l| ensures l[a] != l[b] {
        assert l[a].name != l[b].name;
      }
    }
    PermutationNoDup(sorted, l);
    var a := SortDescElement(l, CountOf, i);
    var b := SortDescElement(l, CountOf, k);
    assert a != b;
    if a < b {
      assert l[a].name != l[b].name;
    } else {
      assert l[b].name != l[a].name;
    }
  }

  /** The first ten of such a list sorted by count: non-increasing counts, ties in first-occurrence order. */
  lemma TopTenOrder(l: seq<CityCount>, ss: seq<Store>, i: nat, k: nat)
    requires CityListOf(l, ss) && i < k < |Take(SortDesc(l, CountOf), 10)|
    ensures var t := Take(SortDesc(l, CountOf), 10);
      && t[i].count >= t[k].count
      && (t[i].count == t[k].count ==> FirstIndex(ss, City, t[i].name) < FirstIndex(ss, City, t[k].name))
  {
    var sorted := SortDesc(l, CountOf);
    SortDescSorted(l, CountOf);
    assert CountOf(sorted[i]) >= CountOf(sorted[k]);
    if sorted[i].count == sorted[k].count {
      var a, b := SortDescStable(l, CountOf, i, k);
      assert FirstIndex(ss, City, l[a].name) < FirstIndex(ss, City, l[b].name);
    }
  }

  /** Each popular city counts exactly the stores in that city, at least one; no city is listed twice. */
  lemma PopularCitiesDistinct(ss: seq<Store>, i: nat, k: nat)
    requires i < k < |PopularCitiesOf(ss)|
    ensures var r := PopularCitiesOf(ss);
      && r[i].count == |StoresWith(ss, City, r[i].name)| >= 1
      && r[k].count == |StoresWith(ss, City, r[k].name)| >= 1
      && r[i].name != r[k].name
  {
    UnsortedCities(ss);
    TopTenCounts(ToCityCounts(CountCities(ss)), ss, i, k);
  }

  /** The list is sorted by non-increasing count; equal counts keep the order in which the cities first occur. */
  lemma PopularCitiesOrder(ss: seq<Store>, i: nat, k: nat)
    requires i < k < |PopularCitiesOf(ss)|
    ensures PopularCitiesOf(ss)[i].count >= PopularCitiesOf(ss)[k].count
    ensures PopularCitiesOf(ss)[i].count == PopularCitiesOf(ss)[k].count ==>
      FirstIndex(ss, City, PopularCitiesOf(ss)[i].name) < FirstIndex(ss, City, PopularCitiesOf(ss)[k].name)
  {
    UnsortedCities(ss);
    TopTenOrder(ToCityCounts(CountCities(ss)), ss, i, k);
  }

  /**
   * A city that is left out has no more stores than any listed city, and then
   * ten cities are listed: the list is the top ten.
   */
  lemma PopularCitiesTop(ss: seq<Store>, s: Store)
    requires s in ss
    requires forall i :: 0 <= i < |PopularCitiesOf(ss)| ==> PopularCitiesOf(ss)[i].name != s.address.city
    ensures |PopularCitiesOf(ss)| == 10
    ensures forall i :: 0 <= i < 10 ==> PopularCitiesOf(ss)[i].count >= |StoresWith(ss, City, s.address.city)|
  {
    var l := ToCityCounts(CountCities(ss));
    var t := PopularCitiesOf(ss);
    assert t == Take(SortDesc(l, CountOf), 10);
    var j := UnsortedCovers(ss, s);
    assert l[j].name == s.address.city;
    TopTenLeftOut(l, j);
  }

  /** An entry of a city list that the first ten by count leave out ranks below all ten. */
  lemma TopTenLeftOut(l: seq<CityCount>, j: nat)
    requires j < |l|
    requires forall i :: 0 <= i < |Take(SortDesc(l, CountOf), 10)| ==> Take(SortDesc(l, CountOf), 10)[i].name != l[j].name
    ensures |Take(SortDesc(l, CountOf), 10)| == 10
    ensures forall i :: 0 <= i < 10 ==> Take(SortDesc(l, CountOf), 10)[i].count >= l[j].count
  {
    var sorted := SortDesc(l, CountOf);
    SortDescSorted(l, CountOf);
    var p := SortDescPosition(l, CountOf, j);
    TakeSortedTop(sorted, CountOf, 10, p);
  }

  /** The case of stores/__test__/store.spec.ts: one store in Nuenen, two in St. Oedenrode. */
  lemma PopularCitiesExample(a: Store, b: Store, c: Store)
    requires a.address.city == "NUENEN"
    requires b.address.city == "ST. OEDENRODE" && c.address.city == "ST. OEDENRODE"
    ensures PopularCitiesOf([a, b, c]) == [CityCount("ST. OEDENRODE", 2), CityCount("NUENEN", 1)]
  {
    var n, o := "NUENEN", "ST. OEDENRODE";
    ExampleCounts(a, b, c);
    var l := [CityCount(n, 1), CityCount(o, 2)];
    assert ToCityCounts(CountCities([a, b, c])) == l;
    ExampleSorted();
  }

  /** The counts of the example, in first-occurrence order. */
  lemma ExampleCounts(a: Store, b: Store, c: Store)
    requires a.address.city == "NUENEN"
    requires b.address.city == "ST. OEDENRODE" && c.address.city == "ST. OEDENRODE"
    ensures CountCities([a, b, c]) == [Entry("NUENEN", 1), Entry("ST. OEDENRODE", 2)]
  {
    var n, o := "NUENEN", "ST. OEDENRODE";
    assert n != o by { assert n[0] != o[0]; }
    CountCitiesSnoc([], a);
    assert [] + [a] == [a];
    assert CountCities([a]) == [Entry(n, 1)];
    CountCitiesSnoc([a], b);
    assert [a] + [b] == [a, b];
    assert IndexOf([Entry(n, 1)], o) == 1;
    var m2 := [Entry(n, 1), Entry(o, 1)];
    assert CountCities([a, b]) == m2;
    CountCitiesSnoc([a, b], c);
    assert [a, b] + [c] == [a, b, c];
    assert IndexOf(m2, o) == 1;
    assert Set(m2, o, 2) == [Entry(n, 1), Entry(o, 2)];
  }

  /** One more store: its city's count goes up by one. */
  lemma CountCitiesSnoc(ss: seq<Store>, s: Store)
    ensures CountCities(ss + [s]) ==
      Set(CountCities(ss), s.address.city, Get(CountCities(ss), s.address.city).GetOr(0) + 1)
  {
    assert (ss + [s])[..|ss|] == ss;
  }

  /** The example's two cities, sorted by count. */
  lemma ExampleSorted()
    ensures SortDesc([CityCount("NUENEN", 1), CityCount("ST. OEDENRODE", 2)], CountOf) ==
      [CityCount("ST. OEDENRODE", 2), CityCount("NUENEN", 1)]
  {
    var n, o := "NUENEN", "ST. OEDENRODE";
    var l, t := [CityCount(n, 1), CityCount(o, 2)], [CityCount(o, 2)];
    SortDescCons(l, CountOf);
    assert l[1..] == t;
    SortDescCons(t, CountOf);
    assert t[1..] == [];
    assert SortDesc(t, CountOf) == t;
    assert InsertPos(CityCount(n, 1), t, CountOf) == 1;
    assert t[..1] + [CityCount(n, 1)] + t[1..] == [CityCount(o, 2), CityCount(n, 1)];
  }

  // ---------------------------------------------------------------------------
  // The store itself

  /** What the fetch settles with: a response whose `stores` may be missing, or a thrown value. */
  datatype FetchOutcome = Resolved(stores: Option<seq<Store>>) | Rejected(thrown: Thrown)

  /** A thrown `Error` carries its message; anything else thrown has none. */
  datatype Thrown = ErrorObject(message: string) | NonError

  class StoreStore {
    var stores: seq<Store>
    var loading: bool
    var error: Option<string>
    var fetched: bool
    var currentPage: int
    var pageSize: nat
    var searchText: string
    var selectedCity: string
    var selectedSuggestion: Option<Suggestion>
    /** How often `fetchStores` was called. */
    ghost var fetchCalls: nat

    /** The initial state. */
    constructor()
      ensures stores == [] && !loading && error == None && !fetched
      ensures currentPage == 1 && pageSize == 10
      ensures searchText == [] && selectedCity == [] && selectedSuggestion == None
      ensures fetchCalls == 0
      ensures Valid()
    {
      stores := [];
      loading := false;
      error := None;
      fetched := false;
      currentPage := 1;
      pageSize := 10;
      searchText := [];
      selectedCity := [];
      selectedSuggestion := None;
      fetchCalls := 0;
    }

    /**
     * A suggestion and a city are never selected together, and the page is
     * never below 1: every action keeps this.
     */
    ghost predicate Valid()
      reads this
    {
      (selectedSuggestion.Some? ==> selectedCity == []) && currentPage >= 1
    }

    /**
     * `filteredStores`: a selected suggestion's stores; otherwise the stores in
     * the selected city, in order; and with no city selected, every store.
     */
    function FilteredStores(): (r: seq<Store>)
      reads this
      ensures selectedSuggestion.Some? ==> r == selectedSuggestion.value.data
      ensures selectedSuggestion.None? && selectedCity != [] ==>
        && (forall s :: s in r <==> s in stores && s.address.city == selectedCity)
        && (forall s :: multiset(r)[s] == if s.address.city == selectedCity then multiset(stores)[s] else 0)
        && IsSubseq(r, stores)
      ensures selectedSuggestion.None? && selectedCity == [] ==> r == stores
    {
      if selectedSuggestion.Some? then selectedSuggestion.value.data
      else if selectedCity != [] then
        var city := selectedCity;
        Filter(stores, (s: Store) => s.address.city == city)
      else stores
    }

    /** `pagedStores`: the current page of the filtered stores. */
    function PagedStores(): (r: seq<Store>)
      reads this
      ensures IsPage(r, FilteredStores(), currentPage, pageSize)
      ensures currentPage >= 1 ==> var start, len := (currentPage - 1) * pageSize, |FilteredStores()|;
        |r| == (if start < len then (if len - start < pageSize then len - start else pageSize) else 0)
    {
      PageLength(FilteredStores(), currentPage, pageSize);
      PageOf(FilteredStores(), currentPage, pageSize)
    }

    /** `maxPage`. */
    function MaxPage(): (r: PageCount)
      reads this
      ensures pageSize > 0 ==> r.Pages? && (r.n == 0 <==> FilteredStores() == [])
      ensures pageSize > 0 ==> |FilteredStores()| <= r.n * pageSize && (r.n == 0 || (r.n - 1) * pageSize < |FilteredStores()|)
    {
      MaxPageIsCeiling(|FilteredStores()|, pageSize);
      MaxPageOf(|FilteredStores()|, pageSize)
    }

    /** `popularCities`: count the stores by city in one pass, sort by count, keep ten. */
    method PopularCities() returns (r: seq<CityCount>)
      ensures r == PopularCitiesOf(stores)
    {
      var cityCount: Counts := [];
      for i := 0 to |stores|
        invariant cityCount == CountCities(stores[..i])
      {
        var city := stores[i].address.city;
        cityCount := Set(cityCount, city, Get(cityCount, city).GetOr(0) + 1);
        assert stores[..i + 1][..i] == stores[..i];
      }
      assert stores[..|stores|] == stores;
      r := Take(SortDesc(ToCityCounts(cityCount), CountOf), 10);
    }

    /**
     * `fetchAllStores`. Once fetched, it returns the stores and changes
     * nothing. Otherwise it fetches: on success the stores are replaced (by []
     * when the response has none) and `fetched` is set; on failure the error
     * message is kept, the stores stay as they were and [] is returned. Either
     * way `loading` ends false.
     */
    method FetchAllStores(outcome: FetchOutcome) returns (r: seq<Store>)
      modifies this`loading, this`error, this`stores, this`fetched, this`fetchCalls
      ensures old(fetched) ==>
        r == stores == old(stores) && loading == old(loading) && error == old(error) &&
        fetched && fetchCalls == old(fetchCalls)
      ensures !old(fetched) ==> !loading && fetchCalls == old(fetchCalls) + 1
      ensures !old(fetched) && outcome.Resolved? ==>
        stores == outcome.stores.GetOr([]) && fetched && error == None && r == stores
      ensures old(Valid()) ==> Valid()
      ensures !old(fetched) && outcome.Rejected? ==>
        stores == old(stores) && !fetched && r == []
        && error == Some(if outcome.thrown.ErrorObject? then outcome.thrown.message else "Unknown error")
    {
      if fetched {
        return stores;
      }
      loading := true;
      error := None;
      fetchCalls := fetchCalls + 1;
      match outcome {
        case Resolved(data) =>
          stores := data.GetOr([]);
          fetched := true;
          r := stores;
        case Rejected(thrown) =>
          error := Some(if thrown.ErrorObject? then thrown.message else "Unknown error");
          r := [];
      }
      loading := false;
    }

    /** `changeCurrentPage`: a page below 1 or beyond the page count is refused. */
    method ChangeCurrentPage(page: int)
      modifies this`currentPage
      ensures page < 1 || Exceeds(page, MaxPage()) ==> currentPage == old(currentPage)
      ensures !(page < 1 || Exceeds(page, MaxPage())) ==> currentPage == page
      ensures old(Valid()) ==> Valid()
    {
      if page < 1 || Exceeds(page, MaxPage()) {
        return;
      }
      currentPage := page;
    }

    /** `filterByCity`: select a city, dropping the search text and the suggestion, back to page 1. */
    method FilterByCity(city: string)
      modifies this`selectedCity, this`searchText, this`selectedSuggestion, this`currentPage
      ensures selectedCity == city && searchText == [] && selectedSuggestion == None && currentPage == 1
      ensures Valid()
      ensures city != [] ==> forall s :: s in FilteredStores() <==> s in stores && s.address.city == city
    {
      selectedCity := city;
      searchText := [];
      selectedSuggestion := None;
      currentPage := 1;
    }

    /** `clearSearch`: drop the search text and the suggestion, back to page 1; the city stays. */
    method ClearSearch()
      modifies this`searchText, this`selectedSuggestion, this`currentPage
      ensures searchText == [] && selectedSuggestion == None && currentPage == 1
      ensures Valid()
    {
      searchText := [];
      selectedSuggestion := None;
      currentPage := 1;
    }

    /** `select`: show a suggestion's stores, dropping the city, back to page 1; the search text stays. */
    method Select(suggestion: Suggestion)
      modifies this`selectedSuggestion, this`selectedCity, this`currentPage
      ensures selectedSuggestion == Some(suggestion) && selectedCity == [] && currentPage == 1
      ensures Valid()
      ensures FilteredStores() == suggestion.data
    {
      selectedSuggestion := Some(suggestion);
      selectedCity := [];
      currentPage := 1;
    }
  }

  /**
   * With a positive page size, `changeCurrentPage` accepts a page exactly when
   * that page of the filtered stores is not empty.
   */
  lemma AcceptedPagesHoldStores(xs: seq<Store>, page: int, size: nat)
    requires size > 0
    ensures !(page < 1 || Exceeds(page, MaxPageOf(|xs|, size))) <==> page >= 1 && PageOf(xs, page, size) != []
  {
    if page >= 1 {
      PageNonEmptyIff(xs, page, size);
    }
  }

  /** Fetching twice: the second call does not fetch and returns the stores of the first. */
  method FetchTwice(data: seq<Store>) returns (first: seq<Store>, second: seq<Store>, ghost calls: nat)
    ensures first == data && second == data
    ensures calls == 1
  {
    var s := new StoreStore();
    first := s.FetchAllStores(Resolved(Some(data)));
    second := s.FetchAllStores(Rejected(NonError));
    calls := s.fetchCalls;
  }

  /** A failed first fetch leaves the store empty, with the error's message, and a later fetch is tried again. */
  method FetchFails(message: string, data: seq<Store>) returns (first: seq<Store>, err: Option<string>, second: seq<Store>)
    ensures first == [] && err == Some(message) && second == data
  {
    var s := new StoreStore();
    first := s.FetchAllStores(Rejected(ErrorObject(message)));
    err := s.error;
    assert s.stores == [] && !s.fetched;
    second := s.FetchAllStores(Resolved(Some(data)));
  }
}
