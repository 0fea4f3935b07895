# Car configurator: selection rules, pricing and the car store

This project models the core of a car configurator web application. A
customer picks one option for each of four categories: `exterior`, `wheels`,
`interior` and `engine`. The client checks the choice and shows a running
price. The server then checks the request again before it stores the car.

The model has three parts.

* **Client rules** (`validation.dfy`, `price_calculator.dfy`).
  - `validateFeatureCombination` reports every category that is not chosen.
  - It then reports three "not recommended" pairs: red exterior with white
    interior, black exterior with white interior, and standard engine with
    performance wheels.
  - `getSelectedOption` looks an option up by category name and option id.
  - `validateCarName` checks the length of the trimmed name.
  - `getAvailableOptions` drops white interiors after a red or black
    exterior. After a standard engine it marks the wheel options
    `recommended`, and performance wheels are not recommended.
  - `calculateTotalPrice` and `getOptionPrice` sum and look up option prices.
* **Server write path** (`cars_controller.dfy`). The PostgreSQL tables
  become the class `CarStore`:
  - a read-only catalog of features and options;
  - a map of `cars` rows;
  - a set of `car_features` rows;
  - the `cars.id` sequence.

  `CreateCar` and `UpdateCar` validate the body in the controller's order:
  first completeness, stopping at the first problem, then one catalog
  lookup per entry. Either every change of the transaction is committed or
  the store is left exactly as it was. `DeleteCar` cascades to the car's
  rows. `GetCarById` answers "Car not found" for an unknown id. The class
  invariant `Valid` holds the schema's constraints:
  - the foreign keys of `car_features`;
  - `UNIQUE(car_id, feature_id)`.

  It also holds two facts that the schema does not enforce:
  - each row's feature agrees with its option's feature, which the
    handlers keep because they insert `option.feature_id`
    (`ChoicesInCatalog`);
  - every car id is below the next sequence value.

  Every handler preserves `Valid`. Ids are bound to INTEGER columns, so the
  model also covers PostgreSQL's own errors:
  - an id outside −2^31..2^31−1 fails its query;
  - the `cars.id` sequence stops at 2^31−1.
* **Seeded catalog** (`seed.dfy`). These are the four features and
  seventeen options that the reset script inserts, in two forms: the array
  the client receives, with options ordered by price, and the server's
  tables keyed by id. Scenario lemmas run both sides' rules on concrete
  bodies.

Money is integer cents: the `DECIMAL(10,2)` prices times 100. A request body
or a client selection is a `map<string, Option<int>>`. `None` is JSON
`null`. A key that is absent means the category is missing. The shared
modules are:
- `wrappers.dfy`: `Option`, `Result`;
- `js_array.dfy`: `Array.prototype.find`, `Array.prototype.filter`;
- `selection.dfy`: selections, and sums over a map;
- `catalog.dfy`: the `getAllFeatures` shape.

### Where the two sides differ

Each difference below is proved in the model rather than assumed.

- The client collects every error. The server stops at the first one.
  `CompletenessAgrees` shows that both sides agree on whether the body is
  complete, and on which category comes first.
- The server's "Please select a … option" text equals the client's text
  (`NotSelectedMatchesClient`).
- The client tests pair rules on truthy ids. Id `0` counts as unselected for
  the pair rules but as chosen for completeness.
- The server has no pair rules. A red/white car is flagged by the client and
  accepted by the server (`Seed.RedWithWhiteOnlyOnClient`).
- An unknown option id silences a client pair rule but makes the server
  reject the body (`Seed.UnknownExteriorSilencesRule`).
- The name check rejects more than 50 trimmed characters. Its message says
  "less than 50 characters", but a name of exactly 50 is accepted.
  `ValidateCarName` models the code, which checks `> 50`.
- Length is counted in UTF-16 code units, as JavaScript does.

## Model

Some definitions have no row of their own. They are the specification side of the rows that cite them:
- `Validation.CompletenessViolations`: the completeness loop (validation.js:6-13).
- `Validation.PairViolations`: the pair rules (validation.js:17-45).
- `Validation.Violations` and `Validation.CombinationViolations`: the two parts in push order (validation.js:2-51).
- `Validation.IsJsWhitespace`: the code points `trim` removes (validation.js:66-70).
- `Validation.WithoutName`: the `filter` of validation.js:95 and :98.
- `CarsController.OptionIdText`: the `${optionId}` rendering of carsController.js:116.
- `CarsController.RowPrice` and `CarsController.ServerTotal`: the price sum of carsController.js:120.
- `CarsController.FeatureRows`: the rows the insert loop adds (carsController.js:137-142).
- `CarsController.CarStore.Valid`: the schema (server/config/reset.js:47-54) together with the two handler-kept facts above.
- `CarsController.CarStore.View`: the joined row `getCarById` returns (carsController.js:45-70).

| member | source | states |
|---|---|---|
| JsArray.Find | client/src/utilities/validation.js:55-57 | a found element is in the array and satisfies the predicate |
| JsArray.FindSpec | client/src/utilities/validation.js:55-57 | `find` returns nothing exactly when no element satisfies the predicate; otherwise it returns the first element that does |
| JsArray.Filter | client/src/utilities/validation.js:95 | the result is no longer than the input |
| JsArray.FilterAppend | client/src/utilities/validation.js:95 | filtering a concatenation is the concatenation of the filtered parts, so the kept elements keep their relative order |
| JsArray.FilterSpec | client/src/utilities/validation.js:95 | the elements kept are exactly those that satisfy the predicate; filtering with a predicate every element satisfies changes nothing |
| Selections.MapSumPick | client/src/utilities/priceCalculator.js:5-13 | a sum over the entries splits into any one entry plus the sum over the rest, so entry order does not matter |
| Selections.SeqSumIsMapSum | client/src/utilities/priceCalculator.js:5-13 | summing along any duplicate-free enumeration of the keys gives the order-free sum |
| Selections.MapSumBounds | client/src/utilities/priceCalculator.js:10 | with non-negative weights, the sum is non-negative and at least every single weight |
| Selections.MapSumDropZero | client/src/utilities/priceCalculator.js:9-11 | an entry of weight zero does not change the sum |
| Catalog.FindFeature | client/src/utilities/validation.js:55 | a found feature is in the data and has the requested name |
| Catalog.FindFeatureSpec | client/src/utilities/validation.js:55 | not found exactly when no feature has that name; otherwise the first feature with that name |
| Catalog.FindOption | client/src/utilities/validation.js:57 | a found option is in the list and its id equals the requested id (`===`) |
| Catalog.FindOptionSpec | client/src/utilities/validation.js:57 | not found exactly when no option has that id; otherwise the first one that does |
| Validation.GetSelectedOption | client/src/utilities/validation.js:54-60 | a returned option carries the requested id |
| Validation.GetSelectedOptionSpec | client/src/utilities/validation.js:54-60 | an option is returned exactly when the first feature with that name has an option with that id, and it is that option |
| Validation.FirstNamedUnique | client/src/utilities/validation.js:55 | the "first feature with this name" index is unique |
| Validation.ResolvedName | client/src/utilities/validation.js:17-21 | a category resolves to a name exactly when its id is truthy and the lookup finds an option; the name is that option's name |
| Validation.Message | client/src/utilities/validation.js:11-42 | the text pushed for each violation; exactly the completeness messages start with "Please select a " |
| Validation.MessageInjective | client/src/utilities/validation.js:11-42 | two violations have the same error text exactly when they are the same violation |
| Validation.Messages | client/src/utilities/validation.js:11-42 | one error string per violation, in the same order |
| Validation.MessagesFaithful | client/src/utilities/validation.js:11-42 | a violation's text is among the errors exactly when the violation was found |
| Validation.CheckRequiredFeatures | client/src/utilities/validation.js:6-13 | the loop reports, in the fixed category order, exactly the categories that are absent or null |
| Validation.ValidateFeatureCombination | client/src/utilities/validation.js:2-51 | the errors are the texts of the completeness violations followed by the pair violations; `isValid` holds exactly when there are none |
| Validation.CompletenessRanked | client/src/utilities/validation.js:9-13 | completeness errors follow the order of the required categories |
| Validation.ViolationsRanked | client/src/utilities/validation.js:5-45 | violations are in strictly increasing rank, and every completeness error comes before every pair error |
| Validation.CompletenessContains | client/src/utilities/validation.js:9-13 | a category is reported exactly when it is among those checked and is absent or null |
| Validation.CompletenessIff | client/src/utilities/validation.js:9-13 | "please select c" is reported exactly when c is required and not chosen |
| Validation.CompleteIff | client/src/utilities/validation.js:9-13 | no completeness error exactly when every required category is chosen |
| Validation.PairIff | client/src/utilities/validation.js:17-45 | each pair warning is reported exactly when both categories resolve to the offending names |
| Validation.UnresolvedNeverClashes | client/src/utilities/validation.js:17-21 | a falsy or unknown exterior or interior disables both colour rules; a falsy or unknown engine or wheels disables the engine rule |
| Validation.ValidIff | client/src/utilities/validation.js:47-50 | valid exactly when all four categories are chosen and no pair rule fires |
| Validation.ViolationCountBound | client/src/utilities/validation.js:5-45 | at most six errors: four completeness errors and two pair errors, since the two colour rules exclude each other |
| Validation.CompletenessLength | client/src/utilities/validation.js:9-13 | at most one completeness error per checked category |
| Validation.LeadingWhitespace | client/src/utilities/validation.js:66 | counts the longest all-whitespace prefix, using JavaScript's whitespace set |
| Validation.WithoutTrailingWhitespace | client/src/utilities/validation.js:66 | marks where the all-whitespace suffix begins |
| Validation.Trim | client/src/utilities/validation.js:66 | the result is a slice of the input with whitespace only outside it and no whitespace at either end; it is empty exactly when the input is all whitespace |
| Validation.Utf16Length | client/src/utilities/validation.js:66-70 | `.length` counts between one and two units per code point |
| Validation.ValidateCarName | client/src/utilities/validation.js:63-78 | at most one error; valid exactly when the trimmed length is 2..50; each of the three messages is given exactly under its own condition |
| Validation.Unannotated | client/src/utilities/validation.js:87 | copies the options in order, without a `recommended` flag |
| Validation.WithoutNameSpec | client/src/utilities/validation.js:95-98 | dropping a name keeps exactly the options with another name; it changes nothing when no option has that name |
| Validation.GetAvailableOptions | client/src/utilities/validation.js:81-115 | an unknown category gives `[]`; interior drops exactly the white options after a red or black exterior; wheels after a standard engine are flagged `recommended` exactly when they are not performance; otherwise the options are returned unchanged |
| Validation.FilterUnannotated | client/src/utilities/validation.js:87-98 | filtering the copied list equals copying the filtered options |
| PriceCalculator.GetOptionPrice | client/src/utilities/priceCalculator.js:19-26 | null gives 0; otherwise the matched option's price, or 0 when the category or option is unknown |
| PriceCalculator.GetOptionPriceSpec | client/src/utilities/priceCalculator.js:19-26 | the price is that of the first option with the id in the first feature with the name, or 0 when there is none |
| PriceCalculator.CalculateTotalPrice | client/src/utilities/priceCalculator.js:2-16 | the loop's total equals the order-free sum of every entry's option price; an empty selection costs 0 |
| PriceCalculator.TotalInAnyOrder | client/src/utilities/priceCalculator.js:5 | summing along any enumeration order of the entries gives the same total |
| PriceCalculator.TotalBounds | client/src/utilities/priceCalculator.js:2-16 | with non-negative prices, the total is non-negative and at least each entry's price |
| PriceCalculator.UnresolvedAddsNothing | client/src/utilities/priceCalculator.js:7-11 | a null or unknown entry does not change the total |
| CarsController.DigitChar | server/controllers/carsController.js:116 | a digit's character has that digit's value |
| CarsController.NatToString | server/controllers/carsController.js:116 | a number's decimal text is non-empty and all digits |
| CarsController.NatToStringRoundTrip | server/controllers/carsController.js:116 | parsing a number's decimal text gives the number back |
| CarsController.NatToStringInjective | server/controllers/carsController.js:116 | different numbers have different texts |
| CarsController.OptionIdTextNoSpace | server/controllers/carsController.js:116 | an interpolated option id contains no space |
| CarsController.NegativeRoundTrip | server/controllers/carsController.js:116 | a negative id's text parses back to the id |
| CarsController.NonNegativeRoundTrip | server/controllers/carsController.js:116 | a non-negative id's text parses back to the id |
| CarsController.OptionIdTextRoundTrip | server/controllers/carsController.js:116 | the interpolated id text (`null`, or a signed decimal) parses back to the id |
| CarsController.OptionIdTextInjective | server/controllers/carsController.js:116 | different ids give different texts |
| CarsController.ErrorMessage | server/controllers/carsController.js:73-117 | the `error` text of every failed answer, never empty: "Car not found", the three body errors, PostgreSQL's range and sequence errors, and the 500 texts of lines 79 and 255 |
| CarsController.ErrorMessageHead | server/controllers/carsController.js:72-117 | each error kind's text starts with its own letter; only the two 500 texts share one |
| CarsController.InvalidOptionText | server/controllers/carsController.js:116 | the unknown-option text is "Invalid option ", then the id, then " for feature ", then the name |
| CarsController.InvalidOptionInjective | server/controllers/carsController.js:116 | the unknown-option text determines both the id and the feature |
| CarsController.OutOfRangeInjective | server/controllers/carsController.js:110-113 | PostgreSQL's text for an id outside INTEGER determines the id |
| CarsController.ErrorMessageInjective | server/controllers/carsController.js:72-117 | an error's message identifies the error, so a client can tell apart every error modelled: "Car not found", the three body errors, PostgreSQL's range and sequence errors, and the 500 texts |
| CarsController.NotSelectedMatchesClient | server/controllers/carsController.js:101 | the server's null-value text is the client's completeness text |
| CarsController.FirstIncomplete | server/controllers/carsController.js:96-103 | the first error of the completeness loop over `Required`: a missing key or a null value, naming a category the loop has reached |
| CarsController.FirstIncompleteStable | server/controllers/carsController.js:96-103 | once a category fails, the later categories cannot change the reported error |
| CarsController.FirstIncompleteSpec | server/controllers/carsController.js:93-103 | no error exactly when every required key is present and non-null; otherwise the error of the first category that fails, telling "missing" apart from "null" |
| CarsController.CompletenessAgrees | server/controllers/carsController.js:93-103 | the server rejects for completeness exactly when the client reports a completeness error, and it names the client's first such category |
| CarsController.ChoicesAdd | server/controllers/carsController.js:121-125 | a resolved entry adds exactly its own (feature, option) pair |
| CarsController.ChoicesUniquePerFeature | server/controllers/carsController.js:109-126 | at most one pair per feature, so the rows can never break `UNIQUE(car_id, feature_id)` |
| CarsController.ChoicesInCatalog | server/controllers/carsController.js:110-125 | each pair names a catalog option of that feature |
| CarsController.CheckRequired | server/controllers/carsController.js:93-103 | the loop returns the first failing category's error, or nothing |
| CarsController.Resolves | server/controllers/carsController.js:110-117 | the entry's lookup returns a row: a non-null in-range id of a catalog option whose feature is named by the key, so the key names a catalog feature |
| CarsController.EntryError | server/controllers/carsController.js:110-117 | an entry whose lookup fails gives PostgreSQL's range error exactly when its id does not fit INTEGER, and otherwise "Invalid option" with the entry's own id and feature |
| CarsController.CheckEntries | server/controllers/carsController.js:105-126 | succeeds exactly when every entry's id fits INTEGER and names an option of its feature; a failure reports the entry error of an entry that does not; the total is the sum of the matched prices; the pairs are exactly the entries' pairs |
| CarsController.CheckSelection | server/controllers/carsController.js:92-126 | succeeds exactly when the body is accepted; a failure is an error the checks may report; gives the total and the pairs |
| CarsController.CarStore.constructor | server/config/reset.js:35-54 | an empty store whose sequence starts at 1, satisfying the schema |
| CarsController.CarStore.GetCarById | server/controllers/carsController.js:41-81 | an id outside INTEGER gives the 500 "Failed to get car"; otherwise "Car not found" exactly when no car has the id, and else the car with all its rows |
| CarsController.CarStore.InsertFeatures | server/controllers/carsController.js:136-142 | adds one row per pair and changes nothing else |
| CarsController.CarStore.AddingRowsKeepsValid | server/controllers/carsController.js:136-142 | inserted rows are the body's feature rows, and adding them to rows of other cars keeps the schema's constraints |
| CarsController.CarStore.CreateCar | server/controllers/carsController.js:84-156 | accepted exactly when the body passes the checks and the sequence has a value left; a body that fails the checks gets an error the checks report, and an accepted one can fail only with the sequence error; on failure the store is unchanged; on success the new id is the sequence value, the row holds the name and the server total, the car's rows are inserted, and the answer is the stored car |
| CarsController.CarStore.UpdateCar | server/controllers/carsController.js:159-239 | an id outside INTEGER gives PostgreSQL's range error; an unknown id gives "Car not found"; a rejected body changes nothing; an accepted one replaces the name, total and rows of that car only; the sequence never moves |
| CarsController.CarStore.DeleteCar | server/controllers/carsController.js:242-257 | an id outside INTEGER gives the 500 "Failed to delete car" and an unknown id gives "Car not found", both changing nothing; otherwise the car and, by cascade, its rows are removed |
| CarsController.ReplacedRowsAreNew | server/controllers/carsController.js:216-225 | after an update, the car's rows are exactly the new ones and every other car's row survives |
| Seed.CategoriesFound | server/controllers/featuresController.js:4-24 | each seeded category is found under its own name |
| Seed.ResolvesTo | client/src/utilities/validation.js:54-60 | a truthy id found at a given position resolves to that option's name and price |
| Seed.SeededOption | client/src/utilities/validation.js:54-60 | in the seeded catalog, a category's truthy id found at position j of its options resolves to that option's name and price |
| Seed.SeededResolves | server/config/reset.js:73-109 | every seeded option id passes the server's lookup under its own feature's name |
| Seed.SeededPrice | server/config/reset.js:73-109 | the server prices a seeded option at the price the reset script inserts |
| Seed.FullBodyComplete | server/controllers/carsController.js:93-103 | a body with all four keys and non-null ids passes the completeness check |
| Seed.BlueLuxuryTurboOnClient | server/config/reset.js:73-98 | blue, luxury, black leather and turbo pass the client's rules and cost 7,500.00 |
| Seed.BlueLuxuryTurboOnServer | server/config/reset.js:73-98 | the server accepts the same body and totals 7,500.00 |
| Seed.ServerAccepts | server/config/reset.js:58-98 | any body with one seeded option id per category, each in its own category's range, is accepted by the server |
| Seed.RedWithWhiteOnlyOnClient | client/src/utilities/validation.js:23-25 | red exterior with white leather gives exactly the red/white warning on the client, and the server accepts it |
| Seed.UnknownExteriorSilencesRule | client/src/utilities/validation.js:21 | exterior id 99 passes the client rules without any error, but the server rejects it as "Invalid option 99 for feature exterior" |
| Seed.HugeExteriorId | server/controllers/carsController.js:109-117 | exterior id 3000000000 is rejected with PostgreSQL's range error, not with "Invalid option" |
| Seed.HugeExteriorIdMessage | server/controllers/carsController.js:149-152 | the 400 answer for that id carries `value "3000000000" is out of range for type integer` |
| Seed.OneRowPerRequiredFeature | server/controllers/carsController.js:93-142 | an accepted body has exactly the four required keys, and yields one row per required feature and no other rows |

## Left out

- `formatPrice` (priceCalculator.js): `Intl.NumberFormat` is display formatting only.
- `parseFloat(price) || 0`: prices are integer cents, so floating-point rounding and the `NaN` fallback are not modelled.
- SQL text, `json_agg` and display columns: the joined view is the car row with its `car_features` rows, without display names or image URLs.
- Database limits other than the INTEGER range of ids are not modelled: `VARCHAR(100)` on the name, `NOT NULL`, and `DECIMAL(10,2)` overflow of the total. Such failures surface as a 400 after ROLLBACK.
- Ids are integers in the model. JavaScript renders an id of 10^21 or more in exponent form, and `JSON.parse` rounds integers past 2^53; neither is modelled.
- `created_at` and `updated_at` timestamps, and the SERIAL id of `car_features` rows.
- In `updateCar`, the "Car not found" return happens inside the open transaction, and the connection is released with that transaction still open. The model treats it as a step that changes nothing.
- CarsController.CheckEntries: when several entries fail, which one is reported depends on the insertion order of the JSON object, which a map does not keep. The contract says only that the reported entry is one that fails.
- CarsController.CheckSelection: the same weakening as `CheckEntries`, for its per-entry failures.
- CarsController.CarStore.CreateCar: the same weakening as `CheckEntries`, for its per-entry failures.
- CarsController.CarStore.UpdateCar: the same weakening as `CheckEntries`, for its per-entry failures.
- The handlers' `console.error` logging (carsController.js:151, 234, 254): a side effect on the server log only.
- A missing `features` body (a `TypeError` from `Object.keys`) and a `null` name: each ends in a 400 after ROLLBACK, but the model's inputs are typed.
- Ids are integers in the model, and a numeric string stands for the integer PostgreSQL reads from it. Express always passes the route id as a string, and node-postgres sends a string body id as text. PostgreSQL reads a canonical decimal string such as `"5"` or `"-5"` as that integer, and the server's texts render it as JavaScript renders the number, so such a request behaves as the model says.
- A numeric string with leading zeros, a `+` sign or surrounding spaces, such as `"05"`, `"+5"` or `" 5"`, reads as the same integer. The error texts, however, quote the value as sent: "Invalid option 05 for feature exterior" (carsController.js:116), and PostgreSQL's `value "03000000000" is out of range for type integer`. The model renders the integer itself, so it does not capture those texts.
- Ids that PostgreSQL cannot read as an integer are not modelled. These are non-numeric strings, fractions such as `2.5` and booleans. They fail with `invalid input syntax for type integer`, which is a 400 after ROLLBACK in `createCar` and `updateCar` and a 500 in `getCarById` and `deleteCar`.
- The client and the server diverge on numeric-string body ids, and the model does not capture it because its selection values are integers on both sides. Take the body `{"exterior":"2","wheels":"8","interior":"10","engine":"15"}`. The server accepts and prices it. On the client `o.id === optionId` (validation.js:57, priceCalculator.js:8) never matches a string, so nothing resolves: no pair rule fires and each entry adds 0 to the total.
- Selections of `undefined`: JSON has no `undefined`, so a value is either an id or `null`.
- The pool, `BEGIN`, `COMMIT` and `ROLLBACK` as messages, and concurrent requests. Each handler is one atomic step.
- The 500 answers of `getCarById` and `deleteCar` are modelled only for ids outside INTEGER. Other database failures are not modelled, because the database is assumed reachable.
- React pages, `fetch` wrappers and the routes: the UI and I/O around the core.
- `getAllCars` and the features controller, apart from the order in which `getAllFeatures` returns options, which the seed catalog follows.
