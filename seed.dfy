/**
 * The catalog the database reset script seeds, in both shapes: the one the
 * client receives from `getAllFeatures` (features by id, options by price)
 * and the server's tables keyed by SERIAL id. Prices are in cents. The
 * scenario lemmas below run the rules of both sides on concrete bodies.
 */
module Seed {
  import opened Wrappers
  import opened Selections
  import opened Catalog
  import Validation
  import PriceCalculator
  import CarsController

  const Exterior: Feature := Feature("exterior", [
    FeatureOption(1, "red", 0), FeatureOption(5, "silver", 30000), FeatureOption(2, "blue", 50000),
    FeatureOption(4, "white", 80000), FeatureOption(3, "black", 100000)])
  const Wheels: Feature := Feature("wheels", [
    FeatureOption(6, "standard", 0), FeatureOption(7, "sport", 120000),
    FeatureOption(8, "luxury", 200000), FeatureOption(9, "performance", 250000)])
  const Interior: Feature := Feature("interior", [
    FeatureOption(10, "black", 0), FeatureOption(11, "brown", 50000),
    FeatureOption(12, "white", 80000), FeatureOption(13, "red", 100000)])
  const Engine: Feature := Feature("engine", [
    FeatureOption(14, "standard", 0), FeatureOption(17, "hybrid", 300000),
    FeatureOption(15, "turbo", 500000), FeatureOption(16, "electric", 800000)])

  /** What `getAllFeatures` returns for the seeded tables. */
  const ClientCatalog: FeaturesData := [Exterior, Wheels, Interior, Engine]

  /** The prices of the seeded options 1 to 17, in the order the reset script inserts them. */
  const OptionPrices: seq<int> := [0, 50000, 100000, 80000, 30000,
                                   0, 120000, 200000, 250000,
                                   0, 50000, 80000, 100000,
                                   0, 500000, 800000, 300000]

  /** The feature of a seeded option: ids 1-5 exterior, 6-9 wheels, 10-13 interior, 14-17 engine. */
  function FeatureOfOption(optionId: int): (f: int)
  {
    if optionId <= 5 then 1 else if optionId <= 9 then 2 else if optionId <= 13 then 3 else 4
  }

  /** The seeded `features` and `feature_options` tables, keyed by their SERIAL ids. */
  const SeededServerCatalog: CarsController.ServerCatalog := CarsController.ServerCatalog(
    map id | 1 <= id <= 4 :: Required[id - 1],
    map id | 1 <= id <= 17 :: CarsController.OptionRow(FeatureOfOption(id), OptionPrices[id - 1]))

  function Body(exterior: int, wheels: int, interior: int, engine: int): (sel: Selection)
  {
    map["exterior" := Some(exterior), "wheels" := Some(wheels), "interior" := Some(interior), "engine" := Some(engine)]
  }

  /** A full body has exactly the required keys, which the sums below visit in order. */
  lemma KeysCover(exterior: int, wheels: int, interior: int, engine: int)
    ensures forall i, j :: 0 <= i < j < |Required| ==> Required[i] != Required[j]
    ensures forall k :: k in Body(exterior, wheels, interior, engine) <==> k in Required
  {
  }

  lemma FeatureAt(data: FeaturesData, name: string, i: int)
    requires FirstNamed(data, name, i)
    ensures FindFeature(data, name) == Some(data[i])
  {
    FindFeatureSpec(data, name);
    Validation.FirstNamedUnique(data, name);
  }

  lemma OptionAt(options: seq<FeatureOption>, id: int, j: int)
    requires 0 <= j < |options| && options[j].id == id
    requires forall k :: 0 <= k < j ==> options[k].id != id
    ensures FindOption(options, Some(id)) == Some(options[j])
  {
    FindOptionSpec(options, Some(id));
  }

  lemma NoOption(options: seq<FeatureOption>, id: int)
    requires forall k :: 0 <= k < |options| ==> options[k].id != id
    ensures FindOption(options, Some(id)) == None
  {
    FindOptionSpec(options, Some(id));
  }

  lemma BodyEntries(exterior: int, wheels: int, interior: int, engine: int)
    ensures var sel := Body(exterior, wheels, interior, engine);
      sel["exterior"] == Some(exterior) && sel["wheels"] == Some(wheels) &&
      sel["interior"] == Some(interior) && sel["engine"] == Some(engine)
  {
  }

  /** The client finds every seeded category under its own name. */
  lemma CategoriesFound()
    ensures FindFeature(ClientCatalog, "exterior") == Some(Exterior)
    ensures FindFeature(ClientCatalog, "wheels") == Some(Wheels)
    ensures FindFeature(ClientCatalog, "interior") == Some(Interior)
    ensures FindFeature(ClientCatalog, "engine") == Some(Engine)
  {
    FeatureAt(ClientCatalog, "exterior", 0);
    FeatureAt(ClientCatalog, "wheels", 1);
    FeatureAt(ClientCatalog, "interior", 2);
    FeatureAt(ClientCatalog, "engine", 3);
  }

  /** The sum over a full body, one category after the other. */
  lemma SumOverBody(exterior: int, wheels: int, interior: int, engine: int, w: (string, Option<int>) -> int)
    ensures MapSum(Body(exterior, wheels, interior, engine), w) ==
            w("exterior", Some(exterior)) + w("wheels", Some(wheels)) + w("interior", Some(interior)) + w("engine", Some(engine))
  {
    var sel := Body(exterior, wheels, interior, engine);
    KeysCover(exterior, wheels, interior, engine);
    BodyEntries(exterior, wheels, interior, engine);
    SeqSumIsMapSum(Required, sel, w);
    assert Required[1..] == ["wheels", "interior", "engine"];
    assert Required[1..][1..] == ["interior", "engine"];
    assert Required[1..][1..][1..] == ["engine"];
    assert SeqSum(["engine"], sel, w) == w("engine", Some(engine));
    assert SeqSum(["interior", "engine"], sel, w) == w("interior", Some(interior)) + w("engine", Some(engine));
    assert SeqSum(["wheels", "interior", "engine"], sel, w) ==
           w("wheels", Some(wheels)) + w("interior", Some(interior)) + w("engine", Some(engine));
  }

  /** No option before index `j` has the id. */
  predicate NotBefore(options: seq<FeatureOption>, id: int, j: nat)
    requires j <= |options|
  {
    j == 0 || (options[j - 1].id != id && NotBefore(options, id, j - 1))
  }

  lemma {:induction false} NotBeforeAll(options: seq<FeatureOption>, id: int, j: nat)
    requires j <= |options| && NotBefore(options, id, j)
    ensures forall k :: 0 <= k < j ==> options[k].id != id
  {
    if j > 0 {
      NotBeforeAll(options, id, j - 1);
    }
  }

  /** A truthy id found in the first feature with the category's name resolves to that option. */
  lemma ResolvesTo(sel: Selection, data: FeaturesData, c: string, i: int, j: int)
    requires Truthy(sel, c) && FirstNamed(data, c, i)
    requires 0 <= j < |data[i].options| && data[i].options[j].id == sel[c].value
    requires forall k :: 0 <= k < j ==> data[i].options[k].id != sel[c].value
    ensures Validation.ResolvedName(sel, data, c) == Some(data[i].options[j].name)
    ensures PriceCalculator.GetOptionPrice(c, sel[c], data) == data[i].options[j].price
  {
    FeatureAt(data, c, i);
    OptionAt(data[i].options, sel[c].value, j);
  }

  /**
   * The id chosen for the category of `f = ClientCatalog[i]`, when it is the
   * id of `f`'s option at index `j` and no earlier option has it, resolves to
   * that option's name and is priced at that option's price.
   */
  lemma SeededOption(sel: Selection, data: FeaturesData, f: Feature, i: int, j: int)
    requires data == ClientCatalog && 0 <= i < |data| && data[i] == f
    requires Truthy(sel, f.name)
    requires 0 <= j < |f.options| && f.options[j].id == sel[f.name].value
    requires NotBefore(f.options, sel[f.name].value, j)
    ensures Validation.ResolvedName(sel, data, f.name) == Some(f.options[j].name)
    ensures PriceCalculator.GetOptionPrice(f.name, sel[f.name], data) == f.options[j].price
  {
    NotBeforeAll(f.options, sel[f.name].value, j);
    assert FirstNamed(data, f.name, i);
    ResolvesTo(sel, data, f.name, i, j);
  }

  /** `SeededOption` for the exterior of a full body. */
  lemma ExteriorChoice(sel: Selection, data: FeaturesData, exterior: int, wheels: int, interior: int, engine: int, j: int)
    requires sel == Body(exterior, wheels, interior, engine) && data == ClientCatalog
    requires 0 <= j < |Exterior.options| && Exterior.options[j].id == exterior != 0
    requires NotBefore(Exterior.options, exterior, j)
    ensures Validation.ResolvedName(sel, data, "exterior") == Some(Exterior.options[j].name)
    ensures PriceCalculator.GetOptionPrice("exterior", Some(exterior), data) == Exterior.options[j].price
  {
    BodyEntries(exterior, wheels, interior, engine);
    SeededOption(sel, data, Exterior, 0, j);
  }

  /** `SeededOption` for the wheels of a full body. */
  lemma WheelsChoice(sel: Selection, data: FeaturesData, exterior: int, wheels: int, interior: int, engine: int, j: int)
    requires sel == Body(exterior, wheels, interior, engine) && data == ClientCatalog
    requires 0 <= j < |Wheels.options| && Wheels.options[j].id == wheels != 0
    requires NotBefore(Wheels.options, wheels, j)
    ensures Validation.ResolvedName(sel, data, "wheels") == Some(Wheels.options[j].name)
    ensures PriceCalculator.GetOptionPrice("wheels", Some(wheels), data) == Wheels.options[j].price
  {
    BodyEntries(exterior, wheels, interior, engine);
    SeededOption(sel, data, Wheels, 1, j);
  }

  /** `SeededOption` for the interior of a full body. */
  lemma InteriorChoice(sel: Selection, data: FeaturesData, exterior: int, wheels: int, interior: int, engine: int, j: int)
    requires sel == Body(exterior, wheels, interior, engine) && data == ClientCatalog
    requires 0 <= j < |Interior.options| && Interior.options[j].id == interior != 0
    requires NotBefore(Interior.options, interior, j)
    ensures Validation.ResolvedName(sel, data, "interior") == Some(Interior.options[j].name)
    ensures PriceCalculator.GetOptionPrice("interior", Some(interior), data) == Interior.options[j].price
  {
    BodyEntries(exterior, wheels, interior, engine);
    SeededOption(sel, data, Interior, 2, j);
  }

  /** `SeededOption` for the engine of a full body. */
  lemma EngineChoice(sel: Selection, data: FeaturesData, exterior: int, wheels: int, interior: int, engine: int, j: int)
    requires sel == Body(exterior, wheels, interior, engine) && data == ClientCatalog
    requires 0 <= j < |Engine.options| && Engine.options[j].id == engine != 0
    requires NotBefore(Engine.options, engine, j)
    ensures Validation.ResolvedName(sel, data, "engine") == Some(Engine.options[j].name)
    ensures PriceCalculator.GetOptionPrice("engine", Some(engine), data) == Engine.options[j].price
  {
    BodyEntries(exterior, wheels, interior, engine);
    SeededOption(sel, data, Engine, 3, j);
  }

  /** Blue paint, luxury wheels, black interior and the turbo engine resolve to those names on the client. */
  lemma BlueLuxuryTurboNames(sel: Selection, data: FeaturesData)
    requires sel == Body(2, 8, 10, 15) && data == ClientCatalog
    ensures Validation.Resolve(sel, data) ==
            Validation.ResolvedNames(Some("blue"), Some("luxury"), Some("black"), Some("turbo"))
  {
    ExteriorChoice(sel, data, 2, 8, 10, 15, 2);
    WheelsChoice(sel, data, 2, 8, 10, 15, 2);
    InteriorChoice(sel, data, 2, 8, 10, 15, 0);
    EngineChoice(sel, data, 2, 8, 10, 15, 2);
  }

  lemma BlueLuxuryTurboPrices(sel: Selection, data: FeaturesData)
    requires sel == Body(2, 8, 10, 15) && data == ClientCatalog
    ensures PriceCalculator.GetOptionPrice("exterior", Some(2), data) == 50000
    ensures PriceCalculator.GetOptionPrice("wheels", Some(8), data) == 200000
    ensures PriceCalculator.GetOptionPrice("interior", Some(10), data) == 0
    ensures PriceCalculator.GetOptionPrice("engine", Some(15), data) == 500000
  {
    ExteriorChoice(sel, data, 2, 8, 10, 15, 2);
    WheelsChoice(sel, data, 2, 8, 10, 15, 2);
    InteriorChoice(sel, data, 2, 8, 10, 15, 0);
    EngineChoice(sel, data, 2, 8, 10, 15, 2);
  }

  /** The client accepts that car and prices it at $7,500. */
  lemma BlueLuxuryTurboOnClient(sel: Selection, data: FeaturesData)
    requires sel == Body(2, 8, 10, 15) && data == ClientCatalog
    ensures Validation.CombinationViolations(sel, data) == []
    ensures PriceCalculator.TotalPrice(sel, data) == 750000
  {
    BlueLuxuryTurboNames(sel, data);
    BlueLuxuryTurboPrices(sel, data);
    BodyEntries(2, 8, 10, 15);
    Validation.ValidIff(sel, Validation.Resolve(sel, data));
    SumOverBody(2, 8, 10, 15, PriceCalculator.PriceOf(data));
  }

  /** The server accepts the same body and stores the same $7,500. */
  lemma BlueLuxuryTurboOnServer(sel: Selection)
    requires sel == Body(2, 8, 10, 15)
    ensures CarsController.Accepts(SeededServerCatalog, sel)
    ensures CarsController.ServerTotal(SeededServerCatalog, sel) == 750000
  {
    ServerAccepts(sel, 2, 8, 10, 15);
    BlueLuxuryTurboServerTotal(sel);
  }

  lemma BlueLuxuryTurboServerTotal(sel: Selection)
    requires sel == Body(2, 8, 10, 15)
    ensures CarsController.ServerTotal(SeededServerCatalog, sel) == 750000
  {
    var w := CarsController.RowPrice(SeededServerCatalog);
    SumOverBody(2, 8, 10, 15, w);
    SeededPrice("exterior", 2);
    SeededPrice("wheels", 8);
    SeededPrice("interior", 10);
    SeededPrice("engine", 15);
    assert w("exterior", Some(2)) + w("wheels", Some(8)) + w("interior", Some(10)) + w("engine", Some(15)) == 750000;
  }

  /** The server prices a seeded option id at the price the reset script gives it. */
  lemma SeededPrice(k: string, optionId: int)
    requires 1 <= optionId <= 17
    ensures CarsController.RowPrice(SeededServerCatalog)(k, Some(optionId)) == OptionPrices[optionId - 1]
  {
  }

  /** A seeded option id passes the server's lookup under the name of its own feature. */
  lemma SeededResolves(optionId: int)
    requires 1 <= optionId <= 17
    ensures CarsController.Resolves(SeededServerCatalog, Required[FeatureOfOption(optionId) - 1], Some(optionId))
  {
  }

  /** A full body whose four ids are options of their own categories passes the server's checks. */
  lemma ServerAccepts(sel: Selection, exterior: int, wheels: int, interior: int, engine: int)
    requires sel == Body(exterior, wheels, interior, engine)
    requires 1 <= exterior <= 5 && 6 <= wheels <= 9 && 10 <= interior <= 13 && 14 <= engine <= 17
    ensures CarsController.Accepts(SeededServerCatalog, sel)
  {
    FullBodyComplete(exterior, wheels, interior, engine);
    BodyEntries(exterior, wheels, interior, engine);
    KeysCover(exterior, wheels, interior, engine);
    SeededResolves(exterior);
    SeededResolves(wheels);
    SeededResolves(interior);
    SeededResolves(engine);
    assert forall k :: k in sel ==> k == Required[0] || k == Required[1] || k == Required[2] || k == Required[3];
  }

  /** A full body passes the server's completeness check, whatever its ids. */
  lemma FullBodyComplete(exterior: int, wheels: int, interior: int, engine: int)
    ensures CarsController.FirstIncomplete(Body(exterior, wheels, interior, engine), |Required|).None?
  {
    BodyEntries(exterior, wheels, interior, engine);
    CarsController.FirstIncompleteSpec(Body(exterior, wheels, interior, engine), |Required|);
  }

  /** Red paint, sport wheels, white interior and the standard engine resolve to those names on the client. */
  lemma RedWhiteNames(sel: Selection, data: FeaturesData)
    requires sel == Body(1, 7, 12, 14) && data == ClientCatalog
    ensures Validation.Resolve(sel, data) ==
            Validation.ResolvedNames(Some("red"), Some("sport"), Some("white"), Some("standard"))
  {
    ExteriorChoice(sel, data, 1, 7, 12, 14, 0);
    WheelsChoice(sel, data, 1, 7, 12, 14, 1);
    InteriorChoice(sel, data, 1, 7, 12, 14, 2);
    EngineChoice(sel, data, 1, 7, 12, 14, 0);
  }

  /**
   * Red paint with the white interior: the client reports the red/white
   * rule and nothing else, while the server, which has no pair rules,
   * accepts the body.
   */
  lemma RedWithWhiteOnlyOnClient(sel: Selection, data: FeaturesData)
    requires sel == Body(1, 7, 12, 14) && data == ClientCatalog
    ensures Validation.CombinationViolations(sel, data) == [Validation.RedWithWhite]
    ensures CarsController.Accepts(SeededServerCatalog, sel)
  {
    RedWhiteNames(sel, data);
    BodyEntries(1, 7, 12, 14);
    Validation.CompleteIff(sel);
    ServerAccepts(sel, 1, 7, 12, 14);
  }

  /** An exterior id the catalog does not know resolves to nothing on the client. */
  lemma UnknownExteriorNames(sel: Selection, data: FeaturesData)
    requires sel == Body(99, 7, 12, 14) && data == ClientCatalog
    ensures Validation.Resolve(sel, data) ==
            Validation.ResolvedNames(None, Some("sport"), Some("white"), Some("standard"))
  {
    BodyEntries(99, 7, 12, 14);
    FeatureAt(data, "exterior", 0);
    NoOption(Exterior.options, 99);
    WheelsChoice(sel, data, 99, 7, 12, 14, 1);
    InteriorChoice(sel, data, 99, 7, 12, 14, 2);
    EngineChoice(sel, data, 99, 7, 12, 14, 0);
  }

  /**
   * The unknown exterior silences the red/white rule on the client, while
   * the server rejects the same body with "Invalid option 99 for feature exterior".
   */
  lemma UnknownExteriorSilencesRule(sel: Selection, data: FeaturesData)
    requires sel == Body(99, 7, 12, 14) && data == ClientCatalog
    ensures Validation.CombinationViolations(sel, data) == []
    ensures !CarsController.Accepts(SeededServerCatalog, sel)
    ensures CarsController.Rejects(SeededServerCatalog, sel, CarsController.InvalidOption(Some(99), "exterior"))
  {
    UnknownExteriorNames(sel, data);
    BodyEntries(99, 7, 12, 14);
    Validation.ValidIff(sel, Validation.Resolve(sel, data));
    CarsController.FirstIncompleteSpec(sel, |Required|);
    assert !CarsController.Resolves(SeededServerCatalog, "exterior", sel["exterior"]);
  }

  /**
   * An exterior id past the INTEGER range: the server rejects the body with
   * PostgreSQL's range error, not with "Invalid option".
   */
  lemma HugeExteriorId(sel: Selection)
    requires sel == Body(3000000000, 7, 12, 14)
    ensures !CarsController.Accepts(SeededServerCatalog, sel)
    ensures CarsController.Rejects(SeededServerCatalog, sel, CarsController.IdOutOfRange(3000000000))
  {
    BodyEntries(3000000000, 7, 12, 14);
    CarsController.FirstIncompleteSpec(sel, |Required|);
    assert !CarsController.Resolves(SeededServerCatalog, "exterior", sel["exterior"]);
  }

  /** The decimal text of that id, digit after digit. */
  lemma HugeIdText()
    ensures CarsController.NatToString(3000000000) == "3000000000"
  {
    assert CarsController.NatToString(3) == "3";
    assert CarsController.NatToString(30) == "30";
    assert CarsController.NatToString(300) == "300";
    assert CarsController.NatToString(3000) == "3000";
    assert CarsController.NatToString(30000) == "30000";
    assert CarsController.NatToString(300000) == "300000";
    assert CarsController.NatToString(3000000) == "3000000";
    assert CarsController.NatToString(30000000) == "30000000";
    assert CarsController.NatToString(300000000) == "300000000";
  }

  /** The text of that error, as the 400 answer carries it. */
  lemma HugeExteriorIdMessage()
    ensures CarsController.ErrorMessage(CarsController.IdOutOfRange(3000000000)) ==
            "value \"3000000000" + "\" is out of range for type integer"
  {
    HugeIdText();
    CarsController.OutOfRangeText(3000000000);
  }

  /**
   * With the seeded tables, whose only feature names are the four required
   * ones, an accepted body has exactly those four keys and gives its car
   * exactly one `car_features` row per required feature.
   */
  lemma OneRowPerRequiredFeature(sel: Selection, carId: int)
    requires CarsController.Accepts(SeededServerCatalog, sel)
    ensures forall k :: k in sel <==> k in Required
    ensures forall c :: c in Required ==>
              exists r :: r in CarsController.FeatureRows(SeededServerCatalog, carId, sel) && SeededServerCatalog.features[r.featureId] == c
    ensures forall r, s ::
              (r in CarsController.FeatureRows(SeededServerCatalog, carId, sel) &&
               s in CarsController.FeatureRows(SeededServerCatalog, carId, sel) && r.featureId == s.featureId) ==> r == s
    ensures forall r :: r in CarsController.FeatureRows(SeededServerCatalog, carId, sel) ==>
              r.carId == carId && r.featureId in SeededServerCatalog.features && SeededServerCatalog.features[r.featureId] in Required
  {
    CarsController.FirstIncompleteSpec(sel, |Required|);
    CarsController.ChoicesUniquePerFeature(SeededServerCatalog, sel);
    forall k | k in sel ensures k in Required {
      assert CarsController.Resolves(SeededServerCatalog, k, sel[k]);
    }
    forall c | c in Required
      ensures exists r :: r in CarsController.FeatureRows(SeededServerCatalog, carId, sel) && SeededServerCatalog.features[r.featureId] == c
    {
      var j :| 0 <= j < |Required| && Required[j] == c;
      assert Chosen(sel, Required[j]);
      assert CarsController.Resolves(SeededServerCatalog, c, sel[c]);
      var choice := CarsController.ChoiceOf(SeededServerCatalog, sel[c].value);
      assert choice in CarsController.Choices(SeededServerCatalog, sel);
      assert CarsController.CarFeature(carId, choice.featureId, choice.optionId) in CarsController.FeatureRows(SeededServerCatalog, carId, sel);
    }
  }
}
