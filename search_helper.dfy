/**
 * The suggestion engine of utils/searchHelper.ts: `getSuggestions` and
 * `mapToSuggestions`.
 *
 * A store is a candidate for a facet (city, street or store name) when the
 * normalised facet value contains the normalised query. Candidates are grouped
 * by the raw facet value in insertion order, each group becomes one
 * suggestion, groups are sorted stably by descending size, and the three
 * facets are concatenated City, Street, Store.
 */
module SearchHelper {

  import opened Wrappers
  import opened Text
  import opened Seqs
  import opened OrderedMap
  import opened StoreTypes

  datatype Facet = City | Street | StoreName

  /** The suggestion `type` of a facet. */
  function FacetLabel(f: Facet): string
  {
    match f
    case City => "City"
    case Street => "Street"
    case StoreName => "Store"
  }

  /** The raw value of a facet: `address.city`, `address.street` or `name`. */
  function FacetValue(s: Store, f: Facet): string
  {
    match f
    case City => s.address.city
    case Street => s.address.street
    case StoreName => s.name
  }

  /** `normalizeStr(value).includes(normalizedQuery)`. */
  predicate Matches(normalizedQuery: string, value: string)
  {
    Contains(NormalizeStr(value), normalizedQuery)
  }

  /** One facet's `Map<string, Store[]>`. */
  type Groups = seq<Entry<seq<Store>>>

  /** `map.set(key, [...(map.get(key) || []), store])`. */
  function Add(m: Groups, key: string, store: Store): Groups
  {
    Set(m, key, Get(m, key).GetOr([]) + [store])
  }

  /** The map of facet `f` once the loop has seen the stores `ss`. */
  function Grouped(ss: seq<Store>, f: Facet, normalizedQuery: string): Groups
    decreases |ss|
  {
    if ss == [] then []
    else
      var g := Grouped(ss[..|ss| - 1], f, normalizedQuery);
      var s := ss[|ss| - 1];
      if Matches(normalizedQuery, FacetValue(s, f)) then Add(g, FacetValue(s, f), s) else g
  }

  /** The sort key of `mapToSuggestions`: `data.length`. */
  function GroupSize(e: Entry<seq<Store>>): nat
  {
    |e.value|
  }

  /** One entry `[key, data]` as a suggestion. */
  function ToSuggestion(e: Entry<seq<Store>>, f: Facet): Suggestion
  {
    Suggestion(Lower(FacetLabel(f)) + "-" + e.key, e.key, FacetLabel(f), Some(|e.value|), e.value)
  }

  /** `mapToSuggestions`: the entries sorted stably by descending size, each made a suggestion. */
  function MapToSuggestions(m: Groups, f: Facet): (r: seq<Suggestion>)
    ensures |r| == |m|
  {
    var sorted := SortDesc(m, GroupSize);
    seq(|sorted|, i requires 0 <= i < |sorted| => ToSuggestion(sorted[i], f))
  }

  /** The suggestions of one facet for `query`. */
  function Section(query: string, stores: seq<Store>, f: Facet): seq<Suggestion>
  {
    MapToSuggestions(Grouped(stores, f, NormalizeStr(query)), f)
  }

  /** What `getSuggestions(query, stores)` returns. */
  function Suggestions(query: string, stores: seq<Store>): seq<Suggestion>
  {
    Section(query, stores, City) + Section(query, stores, Street) + Section(query, stores, StoreName)
  }

  /** `getSuggestions`: one pass over the stores updating three maps in place. */
  method GetSuggestions(query: string, stores: seq<Store>) returns (r: seq<Suggestion>)
    ensures r == Suggestions(query, stores)
  {
    var normalizedQuery := NormalizeStr(query);
    var cities: Groups := [];
    var streets: Groups := [];
    var storeNames: Groups := [];
    for i := 0 to |stores|
      invariant cities == Grouped(stores[..i], City, normalizedQuery)
      invariant streets == Grouped(stores[..i], Street, normalizedQuery)
      invariant storeNames == Grouped(stores[..i], StoreName, normalizedQuery)
    {
      var store := stores[i];
      var city, street := store.address.city, store.address.street;
      var name := store.name;
      var normalizedCity := NormalizeStr(city);
      var normalizedStreet := NormalizeStr(street);
      var normalizedName := NormalizeStr(name);
      var matchesCity := Contains(normalizedCity, normalizedQuery);
      var matchesStreet := Contains(normalizedStreet, normalizedQuery);
      var matchesName := Contains(normalizedName, normalizedQuery);
      ghost var cities0, streets0, storeNames0 := cities, streets, storeNames;
      if matchesCity || matchesStreet || matchesName {
        if matchesCity {
          cities := Add(cities, city, store);
        }
        if matchesStreet {
          streets := Add(streets, street, store);
        }
        if matchesName {
          storeNames := Add(storeNames, name, store);
        }
      }
      GroupedStep(stores, i, City, normalizedQuery, cities0, cities);
      GroupedStep(stores, i, Street, normalizedQuery, streets0, streets);
      GroupedStep(stores, i, StoreName, normalizedQuery, storeNames0, storeNames);
    }
    assert stores[..|stores|] == stores;
    r := MapToSuggestions(cities, City) + MapToSuggestions(streets, Street) + MapToSuggestions(storeNames, StoreName);
  }

  /** One more store of the loop: the map of facet `f` gains it exactly when it matches. */
  lemma GroupedStep(ss: seq<Store>, i: nat, f: Facet, nq: string, before: Groups, after: Groups)
    requires i < |ss| && before == Grouped(ss[..i], f, nq)
    requires after == if Matches(nq, FacetValue(ss[i], f)) then Add(before, FacetValue(ss[i], f), ss[i]) else before
    ensures after == Grouped(ss[..i + 1], f, nq)
  {
    assert ss[..i + 1][..i] == ss[..i];
  }

  // ---------------------------------------------------------------------------
  // Reference definitions: the stores of one facet value, and where it first occurs

  /** The stores whose facet `f` is exactly `k`, in the order of `ss`. */
  function StoresWith(ss: seq<Store>, f: Facet, k: string): (r: seq<Store>)
    ensures forall s :: s in r ==> s in ss && FacetValue(s, f) == k
    decreases |ss|
  {
    if ss == [] then []
    else
      var s := ss[|ss| - 1];
      assert ss == ss[..|ss| - 1] + [s];
      StoresWith(ss[..|ss| - 1], f, k) + (if FacetValue(s, f) == k then [s] else [])
  }

  /** A group holds each store with its facet value as often as the input does, and no other. */
  lemma {:induction false} StoresWithCounts(ss: seq<Store>, f: Facet, k: string)
    ensures forall s :: multiset(StoresWith(ss, f, k))[s] == if FacetValue(s, f) == k then multiset(ss)[s] else 0
    decreases |ss|
  {
    if ss != [] {
      var pre, s := ss[..|ss| - 1], ss[|ss| - 1];
      StoresWithCounts(pre, f, k);
      assert ss == pre + [s];
      assert multiset(ss) == multiset(pre) + multiset{s};
    }
  }

  /** A group keeps the input order. */
  lemma {:induction false} StoresWithOrder(ss: seq<Store>, f: Facet, k: string)
    ensures IsSubseq(StoresWith(ss, f, k), ss)
    decreases |ss|
  {
    if ss != [] {
      var pre, s := ss[..|ss| - 1], ss[|ss| - 1];
      StoresWithOrder(pre, f, k);
      assert ss == pre + [s];
      SubseqSnoc(StoresWith(pre, f, k), pre, s);
      if FacetValue(s, f) == k {
        assert StoresWith(ss, f, k) == StoresWith(pre, f, k) + [s];
      } else {
        assert StoresWith(ss, f, k) == StoresWith(pre, f, k);
      }
    }
  }

  /** The position of the first store whose facet `f` is `k`, or `|ss|` when there is none. */
  function FirstIndex(ss: seq<Store>, f: Facet, k: string): (r: nat)
    ensures r <= |ss|
    ensures r < |ss| ==> FacetValue(ss[r], f) == k
    ensures forall j :: 0 <= j < r ==> FacetValue(ss[j], f) != k
    decreases |ss|
  {
    if ss == [] then 0
    else
      var pre := ss[..|ss| - 1];
      var p := FirstIndex(pre, f, k);
      assert forall j :: 0 <= j < |pre| ==> pre[j] == ss[j];
      if p < |pre| then p
      else if FacetValue(ss[|ss| - 1], f) == k then |pre|
      else |ss|
  }

  /** Each entry is a matching facet value with exactly its stores, which occur in `ss`. */
  ghost predicate EntriesHold(g: Groups, ss: seq<Store>, f: Facet, nq: string)
  {
    forall i :: 0 <= i < |g| ==>
      && Matches(nq, g[i].key)
      && g[i].value == StoresWith(ss, f, g[i].key)
      && g[i].value != []
      && FirstIndex(ss, f, g[i].key) < |ss|
  }

  /** The keys stand in the order of their first occurrence in `ss`. */
  ghost predicate FirstSeenOrder(g: Groups, ss: seq<Store>, f: Facet)
  {
    forall i, j :: 0 <= i < j < |g| ==> FirstIndex(ss, f, g[i].key) < FirstIndex(ss, f, g[j].key)
  }

  /** Every matching store's facet value is a key. */
  ghost predicate CoversMatches(g: Groups, ss: seq<Store>, f: Facet, nq: string)
  {
    forall s :: s in ss && Matches(nq, FacetValue(s, f)) ==> FacetValue(s, f) in Keys(g)
  }

  /**
   * What the map of one facet holds for the stores `ss`: distinct keys, each a
   * matching facet value whose entry is exactly its stores, keys in the order
   * of their first occurrence, and a key for every matching store.
   */
  ghost predicate GroupsOf(g: Groups, ss: seq<Store>, f: Facet, nq: string)
  {
    DistinctKeys(g) && EntriesHold(g, ss, f, nq) && FirstSeenOrder(g, ss, f) && CoversMatches(g, ss, f, nq)
  }

  /** A non-matching store leaves the map as it is. */
  lemma StepSkip(g: Groups, pre: seq<Store>, s: Store, f: Facet, nq: string)
    requires GroupsOf(g, pre, f, nq)
    requires !Matches(nq, FacetValue(s, f))
    ensures GroupsOf(g, pre + [s], f, nq)
  {
    var ss := pre + [s];
    assert ss[..|ss| - 1] == pre;
    forall i | 0 <= i < |g|
      ensures StoresWith(ss, f, g[i].key) == StoresWith(pre, f, g[i].key)
      ensures FirstIndex(ss, f, g[i].key) == FirstIndex(pre, f, g[i].key)
    {
      assert g[i].key != FacetValue(s, f);
    }
    assert EntriesHold(g, ss, f, nq);
    assert FirstSeenOrder(g, ss, f);
  }

  /** `StoresWith` after one more store. */
  lemma StoresWithSnoc(pre: seq<Store>, s: Store, f: Facet, k: string)
    ensures StoresWith(pre + [s], f, k) == StoresWith(pre, f, k) + (if FacetValue(s, f) == k then [s] else [])
  {
    assert (pre + [s])[..|pre|] == pre;
  }

  /** `FirstIndex` after one more store. */
  lemma FirstIndexSnoc(pre: seq<Store>, s: Store, f: Facet, k: string)
    ensures FirstIndex(pre + [s], f, k) ==
      if FirstIndex(pre, f, k) < |pre| then FirstIndex(pre, f, k)
      else if FacetValue(s, f) == k then |pre| else |pre| + 1
  {
    assert (pre + [s])[..|pre|] == pre;
  }

  /** A key other than the new store's value keeps its stores and first occurrence. */
  lemma OtherKeySnoc(pre: seq<Store>, s: Store, f: Facet, k: string)
    requires FacetValue(s, f) != k
    ensures StoresWith(pre + [s], f, k) == StoresWith(pre, f, k)
    ensures FirstIndex(pre + [s], f, k) <= |pre| ==> FirstIndex(pre + [s], f, k) == FirstIndex(pre, f, k)
    ensures FirstIndex(pre, f, k) < |pre| ==> FirstIndex(pre + [s], f, k) == FirstIndex(pre, f, k)
  {
    StoresWithSnoc(pre, s, f, k);
    FirstIndexSnoc(pre, s, f, k);
  }

  /** The entries after appending `s` to the entry at `i0`. */
  lemma UpdateEntries(g: Groups, pre: seq<Store>, s: Store, f: Facet, nq: string, i0: nat)
    requires DistinctKeys(g) && EntriesHold(g, pre, f, nq)
    requires i0 < |g| && g[i0].key == FacetValue(s, f)
    ensures EntriesHold(g[i0 := Entry(g[i0].key, g[i0].value + [s])], pre + [s], f, nq)
  {
    var g' := g[i0 := Entry(g[i0].key, g[i0].value + [s])];
    forall i | 0 <= i < |g'|
      ensures Matches(nq, g'[i].key) && g'[i].value == StoresWith(pre + [s], f, g'[i].key)
      ensures g'[i].value != [] && FirstIndex(pre + [s], f, g'[i].key) < |pre + [s]|
    {
      if i == i0 {
        UpdatedEntry(g[i0], pre, s, f, nq);
      } else {
        assert g'[i] == g[i];
        OtherKeySnoc(pre, s, f, g[i].key);
      }
    }
  }

  /** The entry of the new store's value, with the store appended. */
  lemma UpdatedEntry(e: Entry<seq<Store>>, pre: seq<Store>, s: Store, f: Facet, nq: string)
    requires e.key == FacetValue(s, f) && Matches(nq, e.key)
    requires e.value == StoresWith(pre, f, e.key) && e.value != [] && FirstIndex(pre, f, e.key) < |pre|
    ensures e.value + [s] == StoresWith(pre + [s], f, e.key)
    ensures FirstIndex(pre + [s], f, e.key) < |pre + [s]|
  {
    StoresWithSnoc(pre, s, f, e.key);
    FirstIndexSnoc(pre, s, f, e.key);
  }

  lemma UpdateOrder(g: Groups, pre: seq<Store>, s: Store, f: Facet, nq: string, i0: nat)
    requires EntriesHold(g, pre, f, nq) && FirstSeenOrder(g, pre, f)
    requires i0 < |g|
    ensures FirstSeenOrder(g[i0 := Entry(g[i0].key, g[i0].value + [s])], pre + [s], f)
  {
    var g' := g[i0 := Entry(g[i0].key, g[i0].value + [s])];
    assert forall i :: 0 <= i < |g| ==> g'[i].key == g[i].key;
    forall i | 0 <= i < |g|
      ensures FirstIndex(pre + [s], f, g[i].key) == FirstIndex(pre, f, g[i].key)
    {
      FirstIndexSnoc(pre, s, f, g[i].key);
    }
  }

  /** A matching store whose facet value is already a key is appended to that key's entry. */
  lemma StepUpdate(g: Groups, pre: seq<Store>, s: Store, f: Facet, nq: string, i0: nat)
    requires GroupsOf(g, pre, f, nq)
    requires Matches(nq, FacetValue(s, f))
    requires i0 < |g| && g[i0].key == FacetValue(s, f)
    ensures GroupsOf(Add(g, FacetValue(s, f), s), pre + [s], f, nq)
  {
    var v := FacetValue(s, f);
    IndexOfDistinct(g, i0);
    var g' := g[i0 := Entry(g[i0].key, g[i0].value + [s])];
    assert Add(g, v, s) == g';
    SetKeys(g, v, g[i0].value + [s]);
    UpdateEntries(g, pre, s, f, nq, i0);
    UpdateOrder(g, pre, s, f, nq, i0);
    assert CoversMatches(g', pre + [s], f, nq) by {
      forall t | t in pre + [s] && Matches(nq, FacetValue(t, f)) ensures FacetValue(t, f) in Keys(g') {
        if t != s { assert t in pre; }
      }
    }
  }

  /** The entries after appending a new entry for the new store. */
  lemma InsertEntries(g: Groups, pre: seq<Store>, s: Store, f: Facet, nq: string)
    requires EntriesHold(g, pre, f, nq) && CoversMatches(g, pre, f, nq)
    requires Matches(nq, FacetValue(s, f))
    requires FacetValue(s, f) !in Keys(g)
    ensures EntriesHold(g + [Entry(FacetValue(s, f), [s])], pre + [s], f, nq)
  {
    var v := FacetValue(s, f);
    var g' := g + [Entry(v, [s])];
    assert forall t :: t in pre ==> FacetValue(t, f) != v;
    NoStoresWith(pre, f, v);
    StoresWithSnoc(pre, s, f, v);
    FirstIndexSnoc(pre, s, f, v);
    forall i | 0 <= i < |g'|
      ensures Matches(nq, g'[i].key) && g'[i].value == StoresWith(pre + [s], f, g'[i].key)
      ensures g'[i].value != [] && FirstIndex(pre + [s], f, g'[i].key) < |pre + [s]|
    {
      if i < |g| {
        assert g'[i] == g[i];
        assert g[i].key != v by { assert Keys(g)[i] == g[i].key; }
        OtherKeySnoc(pre, s, f, g[i].key);
      }
    }
  }

  lemma InsertOrder(g: Groups, pre: seq<Store>, s: Store, f: Facet, nq: string)
    requires EntriesHold(g, pre, f, nq) && FirstSeenOrder(g, pre, f) && CoversMatches(g, pre, f, nq)
    requires Matches(nq, FacetValue(s, f))
    requires FacetValue(s, f) !in Keys(g)
    ensures FirstSeenOrder(g + [Entry(FacetValue(s, f), [s])], pre + [s], f)
  {
    var v := FacetValue(s, f);
    var g' := g + [Entry(v, [s])];
    assert forall t :: t in pre ==> FacetValue(t, f) != v;
    NoStoresWith(pre, f, v);
    FirstIndexSnoc(pre, s, f, v);
    assert FirstIndex(pre + [s], f, g'[|g|].key) == |pre|;
    forall i | 0 <= i < |g|
      ensures FirstIndex(pre + [s], f, g'[i].key) == FirstIndex(pre, f, g[i].key) < |pre|
    {
      assert g'[i] == g[i];
      assert g[i].key != v by { assert Keys(g)[i] == g[i].key; }
      OtherKeySnoc(pre, s, f, g[i].key);
    }
    forall i, j | 0 <= i < j < |g'|
      ensures FirstIndex(pre + [s], f, g'[i].key) < FirstIndex(pre + [s], f, g'[j].key)
    {
      if j < |g| {
        assert FirstIndex(pre, f, g[i].key) < FirstIndex(pre, f, g[j].key);
      }
    }
  }

  /** `Add` for a new key appends an entry and keeps the keys distinct. */
  lemma AddNew(g: Groups, v: string, s: Store)
    requires DistinctKeys(g) && v !in Keys(g)
    ensures Add(g, v, s) == g + [Entry(v, [s])]
    ensures DistinctKeys(Add(g, v, s)) && Keys(Add(g, v, s)) == Keys(g) + [v]
  {
    assert IndexOf(g, v) == |g|;
    assert Get(g, v).GetOr([]) + [s] == [s];
    SetKeys(g, v, [s]);
  }

  /** A matching store with a new facet value opens a new entry at the end. */
  lemma StepInsert(g: Groups, pre: seq<Store>, s: Store, f: Facet, nq: string)
    requires GroupsOf(g, pre, f, nq)
    requires Matches(nq, FacetValue(s, f))
    requires FacetValue(s, f) !in Keys(g)
    ensures GroupsOf(Add(g, FacetValue(s, f), s), pre + [s], f, nq)
  {
    var v := FacetValue(s, f);
    var g' := g + [Entry(v, [s])];
    AddNew(g, v, s);
    InsertEntries(g, pre, s, f, nq);
    InsertOrder(g, pre, s, f, nq);
    assert CoversMatches(g', pre + [s], f, nq) by {
      forall t | t in pre + [s] && Matches(nq, FacetValue(t, f)) ensures FacetValue(t, f) in Keys(g') {
        if t != s { assert t in pre; }
      }
    }
  }

  /** A facet value no store of `ss` has has no stores and no first occurrence. */
  lemma NoStoresWith(ss: seq<Store>, f: Facet, v: string)
    requires forall t :: t in ss ==> FacetValue(t, f) != v
    ensures StoresWith(ss, f, v) == []
    ensures FirstIndex(ss, f, v) == |ss|
  {
  }

  /** The map of one facet is grouped as `GroupsOf` says. */
  lemma {:induction false} GroupedSpec(ss: seq<Store>, f: Facet, nq: string)
    ensures GroupsOf(Grouped(ss, f, nq), ss, f, nq)
    decreases |ss|
  {
    if ss != [] {
      var pre := ss[..|ss| - 1];
      var s := ss[|ss| - 1];
      assert ss == pre + [s];
      GroupedSpec(pre, f, nq);
      var g := Grouped(pre, f, nq);
      var v := FacetValue(s, f);
      if !Matches(nq, v) {
        StepSkip(g, pre, s, f, nq);
      } else if v in Keys(g) {
        var i0 :| 0 <= i0 < |g| && Keys(g)[i0] == v;
        StepUpdate(g, pre, s, f, nq, i0);
      } else {
        StepInsert(g, pre, s, f, nq);
      }
    }
  }

  // ---------------------------------------------------------------------------
  // What one facet's suggestions are

  /**
   * Each suggestion of a facet names one matching facet value, carries exactly
   * the stores with that value (in input order, at least one) and their number,
   * and has the id `<kind in lower case>-<value>`.
   */
  lemma {:induction false} SectionEntry(query: string, ss: seq<Store>, f: Facet, i: nat)
    requires i < |Section(query, ss, f)|
    ensures var r := Section(query, ss, f)[i];
      && r.kind == FacetLabel(f)
      && r.id == Lower(FacetLabel(f)) + "-" + r.text
      && r.count == Some(|r.data|)
      && r.data == StoresWith(ss, f, r.text)
      && r.data != []
      && Matches(NormalizeStr(query), r.text)
      && FirstIndex(ss, f, r.text) < |ss|
  {
    var nq := NormalizeStr(query);
    var g := Grouped(ss, f, nq);
    GroupedSpec(ss, f, nq);
    var j := SortDescElement(g, GroupSize, i);
  }

  /** No facet value is suggested twice. */
  lemma {:induction false} SectionDistinct(query: string, ss: seq<Store>, f: Facet, i: nat, k: nat)
    requires i < k < |Section(query, ss, f)|
    ensures Section(query, ss, f)[i].text != Section(query, ss, f)[k].text
  {
    var nq := NormalizeStr(query);
    var g := Grouped(ss, f, nq);
    GroupedSpec(ss, f, nq);
    SortedKeysDistinct(g, i, k);
  }

  /** Sorting a map with distinct keys keeps them distinct. */
  lemma SortedKeysDistinct(g: Groups, i: nat, k: nat)
    requires DistinctKeys(g) && i < k < |g|
    ensures SortDesc(g, GroupSize)[i].key != SortDesc(g, GroupSize)[k].key
  {
    var sorted := SortDesc(g, GroupSize);
    assert NoDup(g) by {
      forall a, b | 0 <= a < b < |g| ensures g[a] != g[b] {
        assert g[a].key != g[b].key;
      }
    }
    PermutationNoDup(sorted, g);
    var a := SortDescElement(g, GroupSize, i);
    var b := SortDescElement(g, GroupSize, k);
    if a != b {
      assert g[a].key != g[b].key;
    }
  }

  /** A facet's suggestions come by non-increasing number of stores. */
  lemma {:induction false} SectionSorted(query: string, ss: seq<Store>, f: Facet, i: nat, k: nat)
    requires i < k < |Section(query, ss, f)|
    ensures |Section(query, ss, f)[i].data| >= |Section(query, ss, f)[k].data|
  {
    var g := Grouped(ss, f, NormalizeStr(query));
    SortDescSorted(g, GroupSize);
    var sorted := SortDesc(g, GroupSize);
    assert GroupSize(sorted[i]) >= GroupSize(sorted[k]);
  }

  /** Suggestions with as many stores come in the order their values first occur in the input. */
  lemma {:induction false} SectionTies(query: string, ss: seq<Store>, f: Facet, i: nat, k: nat)
    requires i < k < |Section(query, ss, f)|
    requires |Section(query, ss, f)[i].data| == |Section(query, ss, f)[k].data|
    ensures FirstIndex(ss, f, Section(query, ss, f)[i].text) < FirstIndex(ss, f, Section(query, ss, f)[k].text)
  {
    var nq := NormalizeStr(query);
    var g := Grouped(ss, f, nq);
    GroupedSpec(ss, f, nq);
    var sorted := SortDesc(g, GroupSize);
    assert GroupSize(sorted[i]) == GroupSize(sorted[k]);
    var a, b := SortDescStable(g, GroupSize, i, k);
    assert FirstIndex(ss, f, g[a].key) < FirstIndex(ss, f, g[b].key);
  }

  /** Every store whose facet value matches has that value among the facet's suggestions. */
  lemma {:induction false} SectionComplete(query: string, ss: seq<Store>, f: Facet, s: Store) returns (i: nat)
    requires s in ss && Matches(NormalizeStr(query), FacetValue(s, f))
    ensures i < |Section(query, ss, f)| && Section(query, ss, f)[i].text == FacetValue(s, f)
  {
    var nq := NormalizeStr(query);
    var g := Grouped(ss, f, nq);
    GroupedSpec(ss, f, nq);
    i := SortedKeyPosition(g, FacetValue(s, f));
  }

  /** A key of the map is the key of some entry after sorting. */
  lemma SortedKeyPosition(g: Groups, key: string) returns (i: nat)
    requires key in Keys(g)
    ensures i < |SortDesc(g, GroupSize)| && SortDesc(g, GroupSize)[i].key == key
  {
    var j :| 0 <= j < |g| && Keys(g)[j] == key;
    i := SortDescPosition(g, GroupSize, j);
  }

  // ---------------------------------------------------------------------------
  // What `getSuggestions` returns

  /** The position of a facet's block in the result: cities, then streets, then stores. */
  function Rank(f: Facet): nat
  {
    match f
    case City => 0
    case Street => 1
    case StoreName => 2
  }

  /** The facet a suggestion `type` stands for. */
  function FacetOfKind(kind: string): (f: Facet)
    ensures kind == FacetLabel(f) || kind !in {"City", "Street", "Store"}
  {
    if kind == "City" then City else if kind == "Street" then Street else StoreName
  }

  /** A facet's label names that facet. */
  lemma FacetOfLabel(f: Facet)
    ensures FacetOfKind(FacetLabel(f)) == f
  {
    match f
    case City =>
    case Street => assert "Street"[0] != "City"[0];
    case StoreName => assert "Store"[0] != "City"[0] && "Store"[2] != "Street"[2];
  }

  /** Position `k` of the result lies in the block of facet `f`, at position `i` of it. */
  lemma Locate(query: string, ss: seq<Store>, k: nat) returns (f: Facet, i: nat)
    requires k < |Suggestions(query, ss)|
    ensures i < |Section(query, ss, f)| && Suggestions(query, ss)[k] == Section(query, ss, f)[i]
    ensures k == i + (if Rank(f) >= 1 then |Section(query, ss, City)| else 0)
                  + (if Rank(f) >= 2 then |Section(query, ss, Street)| else 0)
  {
    var a, b, c := Section(query, ss, City), Section(query, ss, Street), Section(query, ss, StoreName);
    assert Suggestions(query, ss) == a + b + c;
    var part;
    part, i := Concat3At(a, b, c, k);
    if part == 0 {
      f := City;
    } else if part == 1 {
      f := Street;
    } else {
      f := StoreName;
    }
  }

  /**
   * Every suggestion's `type` is its facet's label, its id is
   * `<type in lower case>-<text>`, its data is exactly the stores with that
   * facet value (at least one), its count their number, and its text matches
   * the query.
   */
  lemma SuggestionsEntry(query: string, ss: seq<Store>, k: nat)
    requires k < |Suggestions(query, ss)|
    ensures var r := Suggestions(query, ss)[k]; var f := FacetOfKind(r.kind);
      && r.kind == FacetLabel(f)
      && r.id == Lower(r.kind) + "-" + r.text
      && r.count == Some(|r.data|)
      && r.data == StoresWith(ss, f, r.text)
      && r.data != []
      && Matches(NormalizeStr(query), r.text)
  {
    var f, i := Locate(query, ss, k);
    SectionEntry(query, ss, f, i);
    FacetOfLabel(f);
  }

  /** Every suggestion's text is the facet value of a store of the input, and it matches the query. */
  lemma SuggestionsWitness(query: string, ss: seq<Store>, k: nat) returns (s: Store)
    requires k < |Suggestions(query, ss)|
    ensures var r := Suggestions(query, ss)[k];
      s in ss && s in r.data && FacetValue(s, FacetOfKind(r.kind)) == r.text && Matches(NormalizeStr(query), r.text)
  {
    SuggestionsEntry(query, ss, k);
    var r := Suggestions(query, ss)[k];
    s := r.data[0];
  }

  /** City suggestions come first, then street suggestions, then store suggestions. */
  lemma SuggestionsByKind(query: string, ss: seq<Store>, k1: nat, k2: nat)
    requires k1 < k2 < |Suggestions(query, ss)|
    ensures Rank(FacetOfKind(Suggestions(query, ss)[k1].kind)) <= Rank(FacetOfKind(Suggestions(query, ss)[k2].kind))
  {
    var f1, i1 := Locate(query, ss, k1);
    var f2, i2 := Locate(query, ss, k2);
    SectionEntry(query, ss, f1, i1);
    SectionEntry(query, ss, f2, i2);
    FacetOfLabel(f1);
    FacetOfLabel(f2);
  }

  /**
   * Within one kind, no text occurs twice, suggestions come by non-increasing
   * count, and equal counts keep the order in which the values first occur.
   */
  lemma SuggestionsWithinKind(query: string, ss: seq<Store>, k1: nat, k2: nat)
    requires k1 < k2 < |Suggestions(query, ss)|
    requires Suggestions(query, ss)[k1].kind == Suggestions(query, ss)[k2].kind
    ensures var r1, r2 := Suggestions(query, ss)[k1], Suggestions(query, ss)[k2]; var f := FacetOfKind(r1.kind);
      && r1.text != r2.text
      && |r1.data| >= |r2.data|
      && (|r1.data| == |r2.data| ==> FirstIndex(ss, f, r1.text) < FirstIndex(ss, f, r2.text))
  {
    var f1, i1 := Locate(query, ss, k1);
    var f2, i2 := Locate(query, ss, k2);
    SectionEntry(query, ss, f1, i1);
    SectionEntry(query, ss, f2, i2);
    FacetOfLabel(f1);
    FacetOfLabel(f2);
    SectionDistinct(query, ss, f1, i1, i2);
    SectionSorted(query, ss, f1, i1, i2);
    if |Section(query, ss, f1)[i1].data| == |Section(query, ss, f1)[i2].data| {
      SectionTies(query, ss, f1, i1, i2);
    }
  }

  /** Every store and facet whose value matches the query has a suggestion of that kind and text. */
  lemma SuggestionsComplete(query: string, ss: seq<Store>, f: Facet, s: Store) returns (k: nat)
    requires s in ss && Matches(NormalizeStr(query), FacetValue(s, f))
    ensures k < |Suggestions(query, ss)|
    ensures Suggestions(query, ss)[k].kind == FacetLabel(f) && Suggestions(query, ss)[k].text == FacetValue(s, f)
  {
    var i := SectionComplete(query, ss, f, s);
    SectionEntry(query, ss, f, i);
    k := Place(query, ss, f, i);
  }

  /** Position `i` of the block of facet `f`, counted in the whole result. */
  lemma Place(query: string, ss: seq<Store>, f: Facet, i: nat) returns (k: nat)
    requires i < |Section(query, ss, f)|
    ensures k < |Suggestions(query, ss)| && Suggestions(query, ss)[k] == Section(query, ss, f)[i]
  {
    var a, b, c := Section(query, ss, City), Section(query, ss, Street), Section(query, ss, StoreName);
    if f == City {
      k := Concat3Index(a, b, c, 0, i);
    } else if f == Street {
      k := Concat3Index(a, b, c, 1, i);
    } else {
      k := Concat3Index(a, b, c, 2, i);
    }
  }

  /** A query that no facet of any store matches has no suggestions. */
  lemma SuggestionsNone(query: string, ss: seq<Store>)
    requires forall s, f :: s in ss ==> !Matches(NormalizeStr(query), FacetValue(s, f))
    ensures Suggestions(query, ss) == []
  {
    if Suggestions(query, ss) != [] {
      var s := SuggestionsWitness(query, ss, 0);
      assert false;
    }
  }

  /** A query with no letter or digit (the empty query among them) suggests every facet value of every store. */
  lemma SuggestionsBlankQuery(query: string, ss: seq<Store>, f: Facet, s: Store) returns (k: nat)
    requires NormalizeStr(query) == [] && s in ss
    ensures k < |Suggestions(query, ss)|
    ensures Suggestions(query, ss)[k].kind == FacetLabel(f) && Suggestions(query, ss)[k].text == FacetValue(s, f)
  {
    ContainsEmpty(NormalizeStr(FacetValue(s, f)));
    k := SuggestionsComplete(query, ss, f, s);
  }
}
