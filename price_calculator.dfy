/** The client's running total: catalog prices summed over a selection. */
module PriceCalculator {
  import opened Wrappers
  import opened Selections
  import opened Catalog
  import opened Validation

  /** `getOptionPrice`: the matched option's price, 0 when the feature or the option is missing. */
  function GetOptionPrice(featureName: string, optionId: Option<int>, data: FeaturesData): (price: int)
    ensures optionId.None? ==> price == 0
    ensures optionId.Some? ==>
              price == match GetSelectedOption(featureName, optionId.value, data)
                       case Some(o) => o.price
                       case None => 0
  {
    match FindFeature(data, featureName)
    case None => 0
    case Some(feature) =>
      match FindOption(feature.options, optionId)
      case None => 0
      case Some(option) => option.price
  }

  /**
   * The price is that of the first option with the id in the first feature
   * with the name, and 0 when there is no such option.
   */
  lemma GetOptionPriceSpec(featureName: string, optionId: Option<int>, data: FeaturesData)
    ensures (forall i, j :: FirstNamed(data, featureName, i) && 0 <= j < |data[i].options| ==>
               Some(data[i].options[j].id) != optionId) ==>
            GetOptionPrice(featureName, optionId, data) == 0
    ensures forall i, j :: FirstNamed(data, featureName, i) && 0 <= j < |data[i].options| &&
                           Some(data[i].options[j].id) == optionId &&
                           (forall k :: 0 <= k < j ==> Some(data[i].options[k].id) != optionId) ==>
            GetOptionPrice(featureName, optionId, data) == data[i].options[j].price
  {
    FindFeatureSpec(data, featureName);
    var feature := FindFeature(data, featureName);
    if feature.Some? {
      var i :| FirstNamed(data, featureName, i) && data[i] == feature.value;
      FindOptionSpec(feature.value.options, optionId);
      var option := FindOption(feature.value.options, optionId);
      forall i', j | FirstNamed(data, featureName, i') && 0 <= j < |data[i'].options| &&
                     Some(data[i'].options[j].id) == optionId &&
                     (forall k :: 0 <= k < j ==> Some(data[i'].options[k].id) != optionId)
        ensures GetOptionPrice(featureName, optionId, data) == data[i'].options[j].price
      {
        Validation.FirstNamedUnique(data, featureName);
        assert i' == i;
        var j' :| 0 <= j' < |feature.value.options| && feature.value.options[j'] == option.value &&
                  forall k :: 0 <= k < j' ==> Some(feature.value.options[k].id) != optionId;
        assert j' == j;
      }
      if option.Some? {
        var j' :| 0 <= j' < |feature.value.options| && feature.value.options[j'] == option.value &&
                  forall k :: 0 <= k < j' ==> Some(feature.value.options[k].id) != optionId;
        assert FirstNamed(data, featureName, i) && Some(data[i].options[j'].id) == optionId;
      }
    }
  }

  /** The weight `calculateTotalPrice` gives each entry of the selection. */
  function PriceOf(data: FeaturesData): (price: (string, Option<int>) -> int)
  {
    (featureName: string, optionId: Option<int>) => GetOptionPrice(featureName, optionId, data)
  }

  /** The sum of `getOptionPrice` over the entries of the selection. */
  ghost function TotalPrice(sel: Selection, data: FeaturesData): (total: int)
  {
    MapSum(sel, PriceOf(data))
  }

  /** `calculateTotalPrice`: one pass over the entries, adding each resolved option's price. */
  method CalculateTotalPrice(sel: Selection, data: FeaturesData) returns (totalPrice: int)
    ensures totalPrice == TotalPrice(sel, data)
    ensures sel == map[] ==> totalPrice == 0
  {
    totalPrice := 0;
    var rest := sel;
    while rest != map[]
      invariant forall k :: k in rest ==> k in sel && rest[k] == sel[k]
      invariant totalPrice + MapSum(rest, PriceOf(data)) == TotalPrice(sel, data)
      decreases |rest|
    {
      var featureName :| featureName in rest;
      var optionId := sel[featureName];
      MapSumPick(rest, PriceOf(data), featureName);
      var feature := FindFeature(data, featureName);
      if feature.Some? {
        var option := FindOption(feature.value.options, optionId);
        if option.Some? {
          totalPrice := totalPrice + option.value.price;
        }
      }
      assert |rest - {featureName}| < |rest| by { assert (rest - {featureName}).Keys < rest.Keys; }
      rest := rest - {featureName};
    }
  }

  /** The entries may be visited in any order: every visiting order gives the same total. */
  lemma TotalInAnyOrder(sel: Selection, data: FeaturesData, order: seq<string>)
    requires forall i, j :: 0 <= i < j < |order| ==> order[i] != order[j]
    requires forall k :: k in sel <==> k in order
    ensures SeqSum(order, sel, PriceOf(data)) == TotalPrice(sel, data)
  {
    SeqSumIsMapSum(order, sel, PriceOf(data));
  }

  /** Every catalog price is non-negative (the seed catalog's are). */
  ghost predicate NonNegativePrices(data: FeaturesData)
  {
    forall f, o :: f in data && o in f.options ==> o.price >= 0
  }

  /** With non-negative prices the total is non-negative and no smaller than any entry's price. */
  lemma TotalBounds(sel: Selection, data: FeaturesData)
    requires NonNegativePrices(data)
    ensures TotalPrice(sel, data) >= 0
    ensures forall k :: k in sel ==> TotalPrice(sel, data) >= GetOptionPrice(k, sel[k], data)
  {
    forall k | k in sel ensures PriceOf(data)(k, sel[k]) >= 0 {
      var feature := FindFeature(data, k);
      if feature.Some? {
        var option := FindOption(feature.value.options, sel[k]);
      }
    }
    MapSumBounds(sel, PriceOf(data));
  }

  /** An entry that is null, or whose feature or option is not in the catalog, adds nothing. */
  lemma UnresolvedAddsNothing(sel: Selection, data: FeaturesData, k: string)
    requires k in sel
    requires sel[k].None? || GetSelectedOption(k, sel[k].value, data).None?
    ensures TotalPrice(sel, data) == TotalPrice(sel - {k}, data)
  {
    MapSumDropZero(sel, PriceOf(data), k);
  }
}
