/**
 * The catalog as the client receives it from `GET /api/features`: a list of
 * features, each with its options (ids, machine names, prices in cents).
 */
module Catalog {
  import opened Wrappers
  import opened JsArray

  /** One selectable option; `price` is in cents, exactly as `DECIMAL(10,2)` stores it. */
  datatype FeatureOption = FeatureOption(id: int, name: string, price: int)

  /** A category (`exterior`, `wheels`, ...) with its options in catalog order. */
  datatype Feature = Feature(name: string, options: seq<FeatureOption>)

  /** The `featuresData` array. */
  type FeaturesData = seq<Feature>

  /** `data[i]` is the first feature called `name`: the one `find` returns. */
  ghost predicate FirstNamed(data: FeaturesData, name: string, i: int)
  {
    0 <= i < |data| && data[i].name == name && forall j :: 0 <= j < i ==> data[j].name != name
  }

  /** `featuresData.find(f => f.name === name)`. */
  function FindFeature(data: FeaturesData, name: string): (r: Option<Feature>)
    ensures r.Some? ==> r.value in data && r.value.name == name
  {
    Find(data, (f: Feature) => f.name == name)
  }

  /** The feature found is the first one with that name; none is found only when no feature has it. */
  lemma FindFeatureSpec(data: FeaturesData, name: string)
    ensures FindFeature(data, name).None? <==> forall i :: 0 <= i < |data| ==> data[i].name != name
    ensures FindFeature(data, name).Some? ==> exists i :: FirstNamed(data, name, i) && data[i] == FindFeature(data, name).value
  {
    FindSpec(data, (f: Feature) => f.name == name);
  }

  /** `feature.options.find(o => o.id === optionId)`; `null` matches no id. */
  function FindOption(options: seq<FeatureOption>, optionId: Option<int>): (r: Option<FeatureOption>)
    ensures r.Some? ==> r.value in options && Some(r.value.id) == optionId
  {
    Find(options, (o: FeatureOption) => optionId == Some(o.id))
  }

  /** The option found is the first one with that id; none is found only when no option has it. */
  lemma FindOptionSpec(options: seq<FeatureOption>, optionId: Option<int>)
    ensures FindOption(options, optionId).None? <==> forall j :: 0 <= j < |options| ==> optionId != Some(options[j].id)
    ensures FindOption(options, optionId).Some? ==>
              exists j :: 0 <= j < |options| && options[j] == FindOption(options, optionId).value &&
                          forall k :: 0 <= k < j ==> Some(options[k].id) != optionId
  {
    FindSpec(options, (o: FeatureOption) => optionId == Some(o.id));
  }
}
