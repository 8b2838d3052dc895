/**
 * The records of types/store.ts that the core reads. A store's location is
 * reduced to its postal address, and the address to the two fields searched
 * on; coordinates, commerce channels and the other fields are not read by the
 * core and are left out.
 */
module StoreTypes {

  import opened Wrappers

  datatype Address = Address(street: string, city: string)

  /** Eleven flags and three free-text fields. */
  datatype Facilities = Facilities(
    cookingStudio: bool,
    dryCleaning: bool,
    flowers: bool,
    kitchen: bool,
    liquorService: bool,
    locationType: string,
    parking: string,
    pharmacy: bool,
    photoService: bool,
    pickUpType: string,
    postOffice: bool,
    selfCheckout: bool,
    selfScan: bool,
    wifi: bool)

  /** An empty `opensAt` or `closesAt` means closed that day. */
  datatype OpeningHoursDay = OpeningHoursDay(opensAt: string, closesAt: string)

  datatype OpeningHours = OpeningHours(
    monday: OpeningHoursDay,
    tuesday: OpeningHoursDay,
    wednesday: OpeningHoursDay,
    thursday: OpeningHoursDay,
    friday: OpeningHoursDay,
    saturday: OpeningHoursDay,
    sunday: OpeningHoursDay)

  datatype Store = Store(
    storeId: string,
    name: string,
    address: Address,
    facilities: Facilities,
    openingHours: OpeningHours)

  /**
   * A search suggestion. `kind` is the source's `type` field; `count` is
   * optional in the record type, and the suggestion engine always sets it.
   */
  datatype Suggestion = Suggestion(id: string, text: string, kind: string, count: Option<nat>, data: seq<Store>)

  /** What `facilities[name]` reads: a flag, a text field, or nothing for an unknown name. */
  datatype FacilityValue = Flag(on: bool) | Label(text: string) | Absent

  function FacilityByName(f: Facilities, name: string): FacilityValue
  {
    match name
    case "cookingStudio" => Flag(f.cookingStudio)
    case "dryCleaning" => Flag(f.dryCleaning)
    case "flowers" => Flag(f.flowers)
    case "kitchen" => Flag(f.kitchen)
    case "liquorService" => Flag(f.liquorService)
    case "locationType" => Label(f.locationType)
    case "parking" => Label(f.parking)
    case "pharmacy" => Flag(f.pharmacy)
    case "photoService" => Flag(f.photoService)
    case "pickUpType" => Label(f.pickUpType)
    case "postOffice" => Flag(f.postOffice)
    case "selfCheckout" => Flag(f.selfCheckout)
    case "selfScan" => Flag(f.selfScan)
    case "wifi" => Flag(f.wifi)
    case _ => Absent
  }

  /** The names of the boolean facilities. */
  const FlagNames: set<string> := {
    "cookingStudio", "dryCleaning", "flowers", "kitchen", "liquorService", "pharmacy",
    "photoService", "postOffice", "selfCheckout", "selfScan", "wifi"}

  /** A name reads a flag exactly when it is one of the boolean facilities. */
  lemma FlagNamesExact(f: Facilities, name: string)
    ensures FacilityByName(f, name).Flag? <==> name in FlagNames
  {
  }
}
