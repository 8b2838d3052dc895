/**
 * The GraphQL resolvers of server/graphql/resolvers/store.ts that query the
 * store list: `store`, `storesByCity` and `storesWithFacility`. Each one reads
 * the whole list first; here that list is a parameter.
 */
module Resolvers {

  import opened Wrappers
  import opened Text
  import opened Seqs
  import opened StoreTypes

  /** `stores.find(store => store.storeId === storeId)`. */
  function FindStore(stores: seq<Store>, storeId: string): (r: Option<Store>)
    ensures r.None? <==> forall i :: 0 <= i < |stores| ==> stores[i].storeId != storeId
    ensures r.Some? ==> r.value in stores && r.value.storeId == storeId
  {
    if stores == [] then None
    else if stores[0].storeId == storeId then Some(stores[0])
    else
      var r := FindStore(stores[1..], storeId);
      assert forall i :: 1 <= i < |stores| ==> stores[i] == stores[1..][i - 1];
      r
  }

  /** The store found is the first one with that id. */
  lemma {:induction false} FindStoreFirst(stores: seq<Store>, storeId: string) returns (i: nat)
    requires FindStore(stores, storeId).Some?
    ensures i < |stores| && stores[i] == FindStore(stores, storeId).value
    ensures forall j :: 0 <= j < i ==> stores[j].storeId != storeId
  {
    if stores[0].storeId == storeId {
      i := 0;
    } else {
      var k := FindStoreFirst(stores[1..], storeId);
      i := k + 1;
    }
  }

  /** `store.location.address.city.toLowerCase().includes(city.toLowerCase())`. */
  predicate CityMatches(s: Store, city: string)
  {
    Contains(Lower(s.address.city), Lower(city))
  }

  /** `storesByCity`: the stores whose city contains `city`, case-insensitively, in their order. */
  function StoresByCity(stores: seq<Store>, city: string): (r: seq<Store>)
    ensures forall s :: s in r <==> s in stores && CityMatches(s, city)
    ensures forall s :: multiset(r)[s] == if CityMatches(s, city) then multiset(stores)[s] else 0
    ensures IsSubseq(r, stores) && |r| <= |stores|
  {
    Filter(stores, s => CityMatches(s, city))
  }

  /** An empty city matches every store. */
  lemma StoresByCityEmpty(stores: seq<Store>)
    ensures StoresByCity(stores, "") == stores
  {
    forall i | 0 <= i < |stores| ensures CityMatches(stores[i], "") {
      ContainsEmpty(Lower(stores[i].address.city));
    }
    FilterAll(stores, s => CityMatches(s, ""));
  }

  /** The case of the city asked for does not matter. */
  lemma StoresByCityIgnoresCase(stores: seq<Store>, city: string)
    ensures StoresByCity(stores, Lower(city)) == StoresByCity(stores, city)
  {
    LowerChars(city);
    FilterExt(stores, s => CityMatches(s, Lower(city)), s => CityMatches(s, city));
  }

  /** `facilities[facility] === true`: only a flag that is set, never a text field or an unknown name. */
  predicate HasFacility(s: Store, facility: string)
  {
    FacilityByName(s.facilities, facility) == Flag(true)
  }

  /** `storesWithFacility`: the stores whose facility `facility` is set, in their order. */
  function StoresWithFacility(stores: seq<Store>, facility: string): (r: seq<Store>)
    ensures forall s :: s in r <==> s in stores && HasFacility(s, facility)
    ensures forall s :: multiset(r)[s] == if HasFacility(s, facility) then multiset(stores)[s] else 0
    ensures IsSubseq(r, stores) && |r| <= |stores|
  {
    Filter(stores, s => HasFacility(s, facility))
  }

  /** The text-valued facilities and names that are no facility select no store. */
  lemma StoresWithFacilityNotFlag(stores: seq<Store>, facility: string)
    requires facility !in FlagNames
    ensures StoresWithFacility(stores, facility) == []
  {
    forall i | 0 <= i < |stores| ensures !HasFacility(stores[i], facility) {
      FlagNamesExact(stores[i].facilities, facility);
    }
    FilterNone(stores, s => HasFacility(s, facility));
  }

  lemma TextFacilitiesSelectNothing(stores: seq<Store>)
    ensures StoresWithFacility(stores, "parking") == []
    ensures StoresWithFacility(stores, "locationType") == []
    ensures StoresWithFacility(stores, "pickUpType") == []
    ensures StoresWithFacility(stores, "") == []
  {
    StoresWithFacilityNotFlag(stores, "parking");
    StoresWithFacilityNotFlag(stores, "locationType");
    StoresWithFacilityNotFlag(stores, "pickUpType");
    StoresWithFacilityNotFlag(stores, "");
  }

  /** A flag facility selects exactly the stores that have it. */
  lemma StoresWithWifi(stores: seq<Store>)
    ensures forall s :: s in StoresWithFacility(stores, "wifi") <==> s in stores && s.facilities.wifi
  {
    forall s: Store ensures HasFacility(s, "wifi") == s.facilities.wifi {
      WifiFlag(s.facilities);
    }
  }

  /** `facilities["wifi"]` is the wifi flag. */
  lemma WifiFlag(f: Facilities)
    ensures FacilityByName(f, "wifi") == Flag(f.wifi)
  {
  }
}
