/**
 * The closed vocabularies of the shared schema: the hint categories and the
 * sources images are scraped from, with their wire names.
 */
module Categories {
  import opened Wrappers

  datatype Category =
    | Bollards | LicensePlates | RoadLines | StreetSigns | UtilityPoles
    | PhoneBooths | PostBoxes | Crosswalks | Guardrails | RoadMarkings
    | TrafficLights | HouseNumbers | FollowCars | GoogleCars | Vegetation
    | Architecture | RoadSurfaces | RoadSigns | SpeedLimits | Languages | Scripts

  datatype Source = Geomastr | Geohints | Plonkit

  /** The literal a category is written as. */
  function CategoryName(c: Category): string {
    match c
    case Bollards => "bollards"
    case LicensePlates => "license-plates"
    case RoadLines => "road-lines"
    case StreetSigns => "street-signs"
    case UtilityPoles => "utility-poles"
    case PhoneBooths => "phone-booths"
    case PostBoxes => "post-boxes"
    case Crosswalks => "crosswalks"
    case Guardrails => "guardrails"
    case RoadMarkings => "road-markings"
    case TrafficLights => "traffic-lights"
    case HouseNumbers => "house-numbers"
    case FollowCars => "follow-cars"
    case GoogleCars => "google-cars"
    case Vegetation => "vegetation"
    case Architecture => "architecture"
    case RoadSurfaces => "road-surfaces"
    case RoadSigns => "road-signs"
    case SpeedLimits => "speed-limits"
    case Languages => "languages"
    case Scripts => "scripts"
  }

  /** All categories, in the order the schema lists them. */
  const AllCategories: seq<Category> := [
    Bollards, LicensePlates, RoadLines, StreetSigns, UtilityPoles,
    PhoneBooths, PostBoxes, Crosswalks, Guardrails, RoadMarkings,
    TrafficLights, HouseNumbers, FollowCars, GoogleCars, Vegetation,
    Architecture, RoadSurfaces, RoadSigns, SpeedLimits, Languages, Scripts
  ]

  /** Decoding a category literal: the category with that name, if any. */
  function ParseCategory(s: string): (r: Option<Category>)
    ensures r.Some? ==> CategoryName(r.value) == s
    ensures r.None? ==> forall c: Category :: CategoryName(c) != s
  {
    assert forall c: Category :: c in AllCategories by {
      forall c: Category ensures c in AllCategories {
        AllCategoriesComplete(c);
      }
    }
    ParseCategoryFrom(AllCategories, s)
  }

  function ParseCategoryFrom(cs: seq<Category>, s: string): (r: Option<Category>)
    ensures r.Some? ==> CategoryName(r.value) == s
    ensures r.None? ==> forall c: Category :: c in cs ==> CategoryName(c) != s
  {
    if cs == [] then None
    else if CategoryName(cs[0]) == s then Some(cs[0])
    else ParseCategoryFrom(cs[1..], s)
  }

  /** Every category is covered by the list. */
  lemma AllCategoriesComplete(c: Category)
    ensures c in AllCategories
  {
  }

  /** Distinct categories have distinct names, so decoding inverts naming. */
  lemma ParseCategoryName(c: Category)
    ensures ParseCategory(CategoryName(c)) == Some(c)
  {
    var r := ParseCategory(CategoryName(c));
    assert r.Some?;
    CategoryNameInjective(r.value, c);
  }

  lemma CategoryNameInjective(a: Category, b: Category)
    requires CategoryName(a) == CategoryName(b)
    ensures a == b
  {
  }

  function SourceName(s: Source): string {
    match s
    case Geomastr => "geomastr"
    case Geohints => "geohints"
    case Plonkit => "plonkit"
  }
}
