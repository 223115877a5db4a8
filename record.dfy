/**
 * The registry's record: a compliance standard as the browser holds it,
 * the fixed stress-type -> subcategory taxonomy, the default order lists,
 * and the lookups by id that every operation uses.
 */
module Record {
  import opened Text

  /** A standard. `id` and `name` are always strings (every loader requires
      both); every other property may be absent. */
  datatype Standard = Standard(
    id: string,
    name: string,
    description: Field,
    version: Field,
    category: Field,
    stressType: Field,
    cost: Field,
    effectiveDate: Field,
    expiryDate: Field,
    revisionSummary: Field,
    sourceUrl: Field)

  /** An entry of the subcategory table; the icon is display-only. */
  datatype Subcategory = Subcategory(name: string, order: nat)

  const OtherSubcategory: string := "其他"

  /** The category order used when none was stored. */
  const DefaultCategoryOrder: seq<string> :=
    ["MOXA Standard", "Marine Standard", "Railway Standard", "Power Station", "Other"]

  /** The subcategory order used when none was stored. */
  const DefaultSubcategoryOrder: seq<string> :=
    ["溫度類", "濕度類", "鹽霧類", "高空類", "機構類", "包裝類", "防護類",
     "船舶標準", "鐵路標準", "電廠標準", OtherSubcategory]

  /** The stress-type taxonomy. */
  const SubcategoryMap: map<string, Subcategory> := map[
    "temperature-low" := Subcategory("溫度類", 1),
    "temperature-high" := Subcategory("溫度類", 1),
    "temperature-cyclic" := Subcategory("溫度類", 1),
    "humidity" := Subcategory("濕度類", 2),
    "salt-mist" := Subcategory("鹽霧類", 3),
    "pressure" := Subcategory("高空類", 4),
    "vibration" := Subcategory("機構類", 5),
    "shock" := Subcategory("機構類", 5),
    "packaging" := Subcategory("包裝類", 6),
    "ip-protection" := Subcategory("防護類", 7),
    "marine" := Subcategory("船舶標準", 8),
    "railway" := Subcategory("鐵路標準", 9),
    "emc" := Subcategory("電廠標準", 10)]

  /** The subcategory of a stress type, `其他` (order 99) when the type is
      absent or not in the table. */
  function GetSubcategory(stressType: Field): (r: Subcategory)
    ensures stressType.Present? && stressType.s in SubcategoryMap ==> r == SubcategoryMap[stressType.s]
    ensures !(stressType.Present? && stressType.s in SubcategoryMap) ==> r == Subcategory(OtherSubcategory, 99)
    ensures r.name in DefaultSubcategoryOrder
  {
    if stressType.Present? && stressType.s in SubcategoryMap then SubcategoryMap[stressType.s]
    else Subcategory(OtherSubcategory, 99)
  }

  /** `std.category || 'Other'`: the category a record is grouped under. */
  function CategoryKey(std: Standard): string {
    if Truthy(std.category) then std.category.s else "Other"
  }

  /** The subcategory name a record is grouped under. */
  function SubcategoryKey(std: Standard): string {
    GetSubcategory(std.stressType).name
  }

  /** The records of `stds` grouped under category `c` and subcategory
      `k`, in collection order. */
  function GroupItems(stds: seq<Standard>, c: string, k: string): (r: seq<Standard>)
    ensures |r| <= |stds|
    ensures forall s :: s in r <==> s in stds && CategoryKey(s) == c && SubcategoryKey(s) == k
  {
    if stds == [] then []
    else
      var s := stds[|stds| - 1];
      assert stds == stds[..|stds| - 1] + [s];
      GroupItems(stds[..|stds| - 1], c, k) + (if CategoryKey(s) == c && SubcategoryKey(s) == k then [s] else [])
  }

  /** `standards.findIndex(s => s.id === id)`. */
  function FindIndex(stds: seq<Standard>, id: string): (r: int)
    ensures -1 <= r < |stds|
    ensures r == -1 <==> forall k :: 0 <= k < |stds| ==> stds[k].id != id
    ensures 0 <= r ==> stds[r].id == id && forall k :: 0 <= k < r ==> stds[k].id != id
  {
    if stds == [] then -1
    else if stds[0].id == id then 0
    else var k := FindIndex(stds[1..], id); if k == -1 then -1 else k + 1
  }

  /** `standards.find(s => s.id === id)`. */
  function Find(stds: seq<Standard>, id: string): (r: Option<Standard>)
    ensures r.None? <==> FindIndex(stds, id) == -1
    ensures r.Some? ==> r.value == stds[FindIndex(stds, id)]
  {
    var k := FindIndex(stds, id);
    if k == -1 then None else Some(stds[k])
  }

  /** The ids of a collection are pairwise distinct. */
  predicate UniqueIds(stds: seq<Standard>) {
    forall i, j :: 0 <= i < j < |stds| ==> stds[i].id != stds[j].id
  }
}
