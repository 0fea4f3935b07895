/**
 * The authoritative write path of the server: `createCar`, `updateCar`,
 * `deleteCar` and the not-found branch of `getCarById`.
 *
 * The PostgreSQL tables become an in-memory store. `features` and
 * `feature_options` form a read-only catalog. `cars` is a map from id to row.
 * `car_features` is a set of (car, feature, option) triples. A request runs
 * inside BEGIN ... COMMIT/ROLLBACK, so each handler is modelled as one step
 * that either commits every change or leaves the store exactly as it was.
 */
module CarsController {
  import opened Wrappers
  import opened Selections
  import Validation

  /** A `feature_options` row: the feature it belongs to and its price in cents. */
  datatype OptionRow = OptionRow(featureId: int, price: int)

  /** The read-only tables: feature id to feature name, and option id to option row. */
  datatype ServerCatalog = ServerCatalog(features: map<int, string>, options: map<int, OptionRow>)

  /** A `cars` row; `totalPrice` is in cents. */
  datatype CarRow = CarRow(name: string, totalPrice: int)

  /** A `car_features` row. */
  datatype CarFeature = CarFeature(carId: int, featureId: int, optionId: int)

  /** One element of the handlers' `featureOptions` list. */
  datatype FeatureChoice = FeatureChoice(featureId: int, optionId: int)

  /** What a successful validation yields: the summed price and the rows to insert. */
  datatype Priced = Priced(totalPrice: int, choices: seq<FeatureChoice>)

  /** What `getCarById` answers with: the car and its joined feature rows. */
  datatype CarView = CarView(id: int, name: string, totalPrice: int, features: set<CarFeature>)

  /**
   * The errors a handler reports. `CarNotFound` is a 404; `GetFailed` and
   * `DeleteFailed` are the 500 answers of `getCarById` and `deleteCar`; the
   * rest are 400 answers after ROLLBACK. `IdOutOfRange` is PostgreSQL's own
   * error for an id that does not fit an INTEGER column, and
   * `SequenceExhausted` its error when the `cars.id` sequence has no value left.
   */
  datatype ServerError =
    | CarNotFound
    | MissingFeature(feature: string)
    | NotSelected(feature: string)
    | InvalidOption(optionId: Option<int>, feature: string)
    | IdOutOfRange(value: int)
    | SequenceExhausted
    | GetFailed
    | DeleteFailed

  /** The range of PostgreSQL's INTEGER type, which the SERIAL ids have. */
  const MinInteger: int := -0x8000_0000
  const MaxInteger: int := 0x7fff_ffff

  predicate InInteger(n: int)
  {
    MinInteger <= n <= MaxInteger
  }

  // ---------------------------------------------------------------------
  // Error texts
  // ---------------------------------------------------------------------

  function DigitChar(d: nat): (c: char)
    requires d < 10
    ensures '0' <= c <= '9' && c as int - '0' as int == d
  {
    ('0' as int + d) as char
  }

  /** The decimal digits of `n`, without leading zeros. */
  function NatToString(n: nat): (s: string)
    ensures 1 <= |s|
    ensures forall i :: 0 <= i < |s| ==> '0' <= s[i] <= '9'
    decreases n
  {
    if n < 10 then [DigitChar(n)] else NatToString(n / 10) + [DigitChar(n % 10)]
  }

  /** Reads a string of decimal digits as a number. */
  function ParseDigits(s: string): (n: int)
  {
    if s == [] then 0 else ParseDigits(s[..|s| - 1]) * 10 + (s[|s| - 1] as int - '0' as int)
  }

  lemma {:induction false} NatToStringRoundTrip(n: nat)
    ensures ParseDigits(NatToString(n)) == n
    decreases n
  {
    if n < 10 {
      assert NatToString(n)[..0] == [];
    } else {
      NatToStringRoundTrip(n / 10);
      var s := NatToString(n);
      assert s[..|s| - 1] == NatToString(n / 10);
    }
  }

  /** How a JavaScript template literal renders an option id: a number, or `null`. */
  function OptionIdText(optionId: Option<int>): (t: string)
  {
    match optionId
    case None => "null"
    case Some(n) => if n < 0 then "-" + NatToString(-n) else NatToString(n)
  }

  /** The `error` field of the JSON body a failed request answers with. */
  function ErrorMessage(e: ServerError): (r: string)
    ensures |r| > 0
  {
    match e
    case CarNotFound => "Car not found"
    case MissingFeature(f) => "Missing required feature: " + f
    case NotSelected(f) => "Please select a " + f + " option"
    case InvalidOption(id, f) => "Invalid option " + OptionIdText(id) + " for feature " + f
    case IdOutOfRange(n) => "value \"" + OptionIdText(Some(n)) + OutOfRangeTail
    case SequenceExhausted => "nextval: reached maximum value of sequence " + "\"cars_id_seq\" (2147483647)"
    case GetFailed => "Failed to get car"
    case DeleteFailed => "Failed to delete car"
  }

  /** The end of PostgreSQL's message for an INTEGER parameter out of range. */
  const OutOfRangeTail: string := "\" is out of range for type integer"


  lemma NatToStringInjective(m: nat, n: nat)
    requires NatToString(m) == NatToString(n)
    ensures m == n
  {
    NatToStringRoundTrip(m);
    NatToStringRoundTrip(n);
  }

  predicate NoSpace(t: string)
  {
    forall i :: 0 <= i < |t| ==> t[i] != ' '
  }

  lemma OptionIdTextNoSpace(a: Option<int>)
    ensures NoSpace(OptionIdText(a))
  {
  }

  /** Reads back what `OptionIdText` renders. */
  function ParseOptionId(s: string): (id: Option<int>)
  {
    if s == "null" then None
    else if s != [] && s[0] == '-' then Some(-ParseDigits(s[1..]))
    else Some(ParseDigits(s))
  }

  lemma NegativeRoundTrip(n: int)
    requires n < 0
    ensures ParseOptionId("-" + NatToString(-n)) == Some(n)
  {
    var s := "-" + NatToString(-n);
    assert s != "null" by {
      assert s[0] == '-';
    }
    assert s[1..] == NatToString(-n);
    NatToStringRoundTrip(-n);
  }

  lemma NonNegativeRoundTrip(n: nat)
    ensures ParseOptionId(NatToString(n)) == Some(n)
  {
    var s := NatToString(n);
    assert s != "null" && s[0] != '-' by {
      assert '0' <= s[0] <= '9';
    }
    NatToStringRoundTrip(n);
  }

  lemma OptionIdTextRoundTrip(a: Option<int>)
    ensures ParseOptionId(OptionIdText(a)) == a
  {
    if a.Some? {
      if a.value < 0 {
        NegativeRoundTrip(a.value);
      } else {
        NonNegativeRoundTrip(a.value);
      }
    }
  }

  lemma OptionIdTextInjective(a: Option<int>, b: Option<int>)
    requires OptionIdText(a) == OptionIdText(b)
    ensures a == b
  {
    OptionIdTextRoundTrip(a);
    OptionIdTextRoundTrip(b);
  }

  /** The index of the first space, or the length when there is none. */
  function FirstSpace(s: string): (i: nat)
  {
    if s == [] || s[0] == ' ' then 0 else 1 + FirstSpace(s[1..])
  }

  lemma {:induction false} FirstSpaceAfterWord(t: string, r: string)
    requires NoSpace(t)
    ensures FirstSpace(t + " " + r) == |t|
  {
    if t != [] {
      assert (t + " " + r)[1..] == t[1..] + " " + r;
      FirstSpaceAfterWord(t[1..], r);
    }
  }

  /** Two space-free words followed by a space split a string the same way. */
  lemma SplitAtSpace(t: string, u: string, r: string, q: string)
    requires NoSpace(t) && NoSpace(u)
    requires t + " " + r == u + " " + q
    ensures t == u && r == q
  {
    FirstSpaceAfterWord(t, r);
    FirstSpaceAfterWord(u, q);
    var whole := t + " " + r;
    assert t == whole[..|t|] && u == (u + " " + q)[..|u|];
    assert r == whole[|t| + 1..] && q == (u + " " + q)[|u| + 1..];
  }

  lemma DropPrefix(p: string, x: string, y: string)
    requires p + x == p + y
    ensures x == y
  {
    assert x == (p + x)[|p|..];
    assert y == (p + y)[|p|..];
  }

  /** The first letter of a message tells the kind of error; only the two 500 texts share one. */
  lemma ErrorMessageHead(e: ServerError)
    ensures |ErrorMessage(e)| > 0
    ensures ErrorMessage(e)[0] == match e
              case CarNotFound => 'C'
              case MissingFeature(_) => 'M'
              case NotSelected(_) => 'P'
              case InvalidOption(_, _) => 'I'
              case IdOutOfRange(_) => 'v'
              case SequenceExhausted => 'n'
              case GetFailed => 'F'
              case DeleteFailed => 'F'
  {
    match e
    case IdOutOfRange(n) => OutOfRangeText(n);
    case SequenceExhausted =>
      assert ErrorMessage(e)[0] == "nextval: reached maximum value of sequence "[0];
    case _ =>
  }

  lemma OutOfRangeText(n: int)
    ensures ErrorMessage(IdOutOfRange(n)) == "value \"" + (OptionIdText(Some(n)) + OutOfRangeTail)
  {
  }

  lemma InvalidOptionText(id: Option<int>, f: string)
    ensures ErrorMessage(InvalidOption(id, f)) == "Invalid option " + (OptionIdText(id) + " " + ("for feature " + f))
  {
    assert " for feature " == " " + "for feature ";
  }

  lemma InvalidOptionInjective(id: Option<int>, f: string, id': Option<int>, f': string)
    requires ErrorMessage(InvalidOption(id, f)) == ErrorMessage(InvalidOption(id', f'))
    ensures id == id' && f == f'
  {
    InvalidOptionText(id, f);
    InvalidOptionText(id', f');
    DropPrefix("Invalid option ", OptionIdText(id) + " " + ("for feature " + f), OptionIdText(id') + " " + ("for feature " + f'));
    OptionIdTextNoSpace(id);
    OptionIdTextNoSpace(id');
    SplitAtSpace(OptionIdText(id), OptionIdText(id'), "for feature " + f, "for feature " + f');
    OptionIdTextInjective(id, id');
    DropPrefix("for feature ", f, f');
  }

  lemma DropSuffix(x: string, y: string, q: string)
    requires x + q == y + q
    ensures x == y
  {
    assert x == (x + q)[..|x|];
    assert y == (y + q)[..|y|];
  }

  lemma OutOfRangeInjective(n: int, m: int)
    requires ErrorMessage(IdOutOfRange(n)) == ErrorMessage(IdOutOfRange(m))
    ensures n == m
  {
    var t, u := OptionIdText(Some(n)), OptionIdText(Some(m));
    OutOfRangeText(n);
    OutOfRangeText(m);
    DropPrefix("value \"", t + OutOfRangeTail, u + OutOfRangeTail);
    DropSuffix(t, u, OutOfRangeTail);
    OptionIdTextInjective(Some(n), Some(m));
  }

  /** Different errors never produce the same text. */
  lemma ErrorMessageInjective(e: ServerError, d: ServerError)
    requires ErrorMessage(e) == ErrorMessage(d)
    ensures e == d
  {
    ErrorMessageHead(e);
    ErrorMessageHead(d);
    var m := ErrorMessage(e);
    if e.MissingFeature? && d.MissingFeature? {
      assert e.feature == m[26..] == d.feature;
    } else if e.NotSelected? && d.NotSelected? {
      assert e.feature == m[16..|m| - 7] == d.feature;
    } else if e.InvalidOption? && d.InvalidOption? {
      InvalidOptionInjective(e.optionId, e.feature, d.optionId, d.feature);
    } else if e.IdOutOfRange? && d.IdOutOfRange? {
      OutOfRangeInjective(e.value, d.value);
    }
  }

  /** The server's null-value message is word for word the client's completeness message. */
  lemma NotSelectedMatchesClient(c: string)
    ensures ErrorMessage(NotSelected(c)) == Validation.Message(Validation.Incomplete(c))
  {
  }

  // ---------------------------------------------------------------------
  // Validation of a request body
  // ---------------------------------------------------------------------

  /** The problem the server reports for one required category, if any. */
  function Problem(sel: Selection, c: string): (p: Option<ServerError>)
  {
    if c !in sel then Some(MissingFeature(c))
    else if sel[c].None? then Some(NotSelected(c))
    else None
  }

  /** The first problem among the categories `Required[..n]`, in that order. */
  function FirstIncomplete(sel: Selection, n: nat): (r: Option<ServerError>)
    requires n <= |Required|
    ensures r.Some? ==> (r.value.MissingFeature? || r.value.NotSelected?) && r.value.feature in Required[..n]
  {
    if n == 0 then None
    else if FirstIncomplete(sel, n - 1).Some? then FirstIncomplete(sel, n - 1)
    else Problem(sel, Required[n - 1])
  }

  /** Once a problem is found, later categories cannot change it. */
  lemma {:induction false} FirstIncompleteStable(sel: Selection, n: nat, m: nat)
    requires n <= m <= |Required|
    requires FirstIncomplete(sel, n).Some?
    ensures FirstIncomplete(sel, m) == FirstIncomplete(sel, n)
    decreases m - n
  {
    if n < m {
      FirstIncompleteStable(sel, n, m - 1);
    }
  }

  /**
   * What the first-failure check reports, in full: nothing exactly when every
   * category is present and non-null, and otherwise the problem of the first
   * category that is not, telling a missing key apart from a null value.
   */
  lemma {:induction false} FirstIncompleteSpec(sel: Selection, n: nat)
    requires n <= |Required|
    ensures FirstIncomplete(sel, n).None? <==> forall j :: 0 <= j < n ==> Chosen(sel, Required[j])
    ensures FirstIncomplete(sel, n).Some? ==>
              exists j :: 0 <= j < n && FirstIncomplete(sel, n) == Problem(sel, Required[j]) &&
                !Chosen(sel, Required[j]) && forall i :: 0 <= i < j ==> Chosen(sel, Required[i])
  {
    if n > 0 {
      FirstIncompleteSpec(sel, n - 1);
      if FirstIncomplete(sel, n - 1).None? && !Chosen(sel, Required[n - 1]) {
        assert FirstIncomplete(sel, n) == Problem(sel, Required[n - 1]);
      }
    }
  }

  /**
   * The server and the client agree on completeness: the server finds a
   * problem exactly when the client reports a missing category, and the
   * category it names is the one the client reports first.
   */
  lemma {:induction false} CompletenessAgrees(sel: Selection, n: nat)
    requires n <= |Required|
    ensures FirstIncomplete(sel, n).None? <==> Validation.CompletenessViolations(sel, n) == []
    ensures FirstIncomplete(sel, n).Some? ==>
              (FirstIncomplete(sel, n).value.MissingFeature? || FirstIncomplete(sel, n).value.NotSelected?) && Validation.CompletenessViolations(sel, n) != [] &&
              Validation.CompletenessViolations(sel, n)[0] == Validation.Incomplete(FirstIncomplete(sel, n).value.feature)
  {
    if n > 0 {
      CompletenessAgrees(sel, n - 1);
    }
  }

  /** The catalog query of the referential check returns a row for this entry. */
  predicate Resolves(cat: ServerCatalog, k: string, v: Option<int>)
    ensures Resolves(cat, k, v) ==> k in cat.features.Values
  {
    v.Some? && InInteger(v.value) && v.value in cat.options && cat.options[v.value].featureId in cat.features &&
    cat.features[cat.options[v.value].featureId] == k
  }

  predicate AllResolve(cat: ServerCatalog, sel: Selection)
  {
    forall k :: k in sel ==> Resolves(cat, k, sel[k])
  }

  /** The request body passes both checks of `createCar` and `updateCar`. */
  predicate Accepts(cat: ServerCatalog, sel: Selection)
  {
    FirstIncomplete(sel, |Required|).None? && AllResolve(cat, sel)
  }

  /**
   * The errors the checks may report for a rejected body: the first
   * completeness problem, or else an invalid entry. Which invalid entry is
   * reported depends on the insertion order of the JSON object, which a map
   * does not keep.
   */
  predicate Rejects(cat: ServerCatalog, sel: Selection, e: ServerError)
  {
    match FirstIncomplete(sel, |Required|)
    case Some(first) => e == first
    case None => exists k :: k in sel && !Resolves(cat, k, sel[k]) && e == EntryError(k, sel[k])
  }

  /**
   * The error raised for an entry whose lookup finds no row: PostgreSQL's
   * own range error when the id does not fit INTEGER, which stops the query
   * before any row is looked at, and otherwise the handler's "Invalid option".
   */
  function EntryError(k: string, v: Option<int>): (e: ServerError)
    ensures e.InvalidOption? <==> v.None? || InInteger(v.value)
    ensures e.InvalidOption? ==> e == InvalidOption(v, k)
    ensures e.IdOutOfRange? ==> Some(e.value) == v
  {
    if v.Some? && !InInteger(v.value) then IdOutOfRange(v.value) else InvalidOption(v, k)
  }

  /** The weight of one entry in the server's total: the matched option's price. */
  function RowPrice(cat: ServerCatalog): (price: (string, Option<int>) -> int)
  {
    (k: string, v: Option<int>) => if v.Some? && v.value in cat.options then cat.options[v.value].price else 0
  }

  ghost function ServerTotal(cat: ServerCatalog, sel: Selection): (total: int)
  {
    MapSum(sel, RowPrice(cat))
  }

  function ChoiceOf(cat: ServerCatalog, optionId: int): (choice: FeatureChoice)
    requires optionId in cat.options
  {
    FeatureChoice(cat.options[optionId].featureId, optionId)
  }

  /** The (feature, option) pairs of the entries that resolve. */
  function Choices(cat: ServerCatalog, sel: Selection): (cs: set<FeatureChoice>)
  {
    set k | k in sel && Resolves(cat, k, sel[k]) :: ChoiceOf(cat, sel[k].value)
  }

  function ChoiceSet(s: seq<FeatureChoice>): (cs: set<FeatureChoice>)
  {
    set c | c in s
  }

  lemma ChoiceSetAppend(s: seq<FeatureChoice>, c: FeatureChoice)
    ensures ChoiceSet(s + [c]) == ChoiceSet(s) + {c}
  {
    assert forall d :: d in s + [c] <==> d in s || d == c;
  }

  lemma ChoicesAdd(cat: ServerCatalog, done: Selection, k: string, v: Option<int>)
    requires k !in done && Resolves(cat, k, v)
    ensures Choices(cat, done[k := v]) == Choices(cat, done) + {ChoiceOf(cat, v.value)}
  {
    var big := done[k := v];
    forall c | c in Choices(cat, big) ensures c in Choices(cat, done) + {ChoiceOf(cat, v.value)} {
      var j :| j in big && Resolves(cat, j, big[j]) && c == ChoiceOf(cat, big[j].value);
      if j != k {
        assert j in done && done[j] == big[j];
      }
    }
    forall c | c in Choices(cat, done) ensures c in Choices(cat, big) {
      var j :| j in done && Resolves(cat, j, done[j]) && c == ChoiceOf(cat, done[j].value);
      assert j in big && big[j] == done[j];
    }
    assert k in big && big[k] == v;
  }

  /**
   * Distinct entries never give two pairs for the same feature, because a
   * feature id determines its name: the UNIQUE(car_id, feature_id) constraint
   * of `car_features` can never be violated by a validated body.
   */
  lemma ChoicesUniquePerFeature(cat: ServerCatalog, sel: Selection)
    ensures forall c, d :: c in Choices(cat, sel) && d in Choices(cat, sel) && c.featureId == d.featureId ==> c == d
  {
    forall c, d | c in Choices(cat, sel) && d in Choices(cat, sel) && c.featureId == d.featureId
      ensures c == d
    {
      var j :| j in sel && Resolves(cat, j, sel[j]) && c == ChoiceOf(cat, sel[j].value);
      var k :| k in sel && Resolves(cat, k, sel[k]) && d == ChoiceOf(cat, sel[k].value);
      assert j == cat.features[c.featureId] == k;
    }
  }

  /** Every pair names an option of the catalog whose feature is the pair's feature. */
  lemma ChoicesInCatalog(cat: ServerCatalog, sel: Selection)
    ensures forall c :: c in Choices(cat, sel) ==>
              c.optionId in cat.options && cat.options[c.optionId].featureId == c.featureId && c.featureId in cat.features
  {
  }

  /** The first-failure loop over the required categories. */
  method CheckRequired(sel: Selection) returns (r: Option<ServerError>)
    ensures r == FirstIncomplete(sel, |Required|)
  {
    var i := 0;
    while i < |Required|
      invariant 0 <= i <= |Required|
      invariant FirstIncomplete(sel, i).None?
    {
      var feature := Required[i];
      if feature !in sel {
        FirstIncompleteStable(sel, i + 1, |Required|);
        return Some(MissingFeature(feature));
      }
      if sel[feature].None? {
        FirstIncompleteStable(sel, i + 1, |Required|);
        return Some(NotSelected(feature));
      }
      i := i + 1;
    }
    return None;
  }

  /** The entries of `sel` split into the validated `done` and the unvisited `rest`. */
  ghost predicate Visited(cat: ServerCatalog, sel: Selection, done: Selection, rest: Selection)
  {
    (forall k :: k in sel <==> k in done || k in rest) &&
    (forall k :: k in rest ==> k !in done && rest[k] == sel[k]) &&
    (forall k :: k in done ==> done[k] == sel[k] && Resolves(cat, k, sel[k]))
  }

  lemma VisitedStep(cat: ServerCatalog, sel: Selection, done: Selection, rest: Selection, k: string)
    requires Visited(cat, sel, done, rest) && k in rest && Resolves(cat, k, rest[k])
    ensures Visited(cat, sel, done[k := rest[k]], rest - {k})
  {
  }

  lemma VisitedAll(cat: ServerCatalog, sel: Selection, done: Selection)
    requires Visited(cat, sel, done, map[])
    ensures done == sel
  {
  }

  /**
   * The per-entry loop: each entry must name an option of a feature with that
   * name; the prices are summed and the rows to insert collected.
   */
  method CheckEntries(cat: ServerCatalog, sel: Selection) returns (r: Result<Priced, ServerError>)
    ensures r.Success? <==> AllResolve(cat, sel)
    ensures r.Failure? ==> exists k :: k in sel && !Resolves(cat, k, sel[k]) && r.error == EntryError(k, sel[k])
    ensures r.Success? ==> r.value.totalPrice == ServerTotal(cat, sel)
    ensures r.Success? ==> ChoiceSet(r.value.choices) == Choices(cat, sel)
  {
    var totalPrice := 0;
    var choices: seq<FeatureChoice> := [];
    var rest := sel;
    ghost var done: Selection := map[];
    while rest != map[]
      invariant Visited(cat, sel, done, rest)
      invariant totalPrice + MapSum(rest, RowPrice(cat)) == ServerTotal(cat, sel)
      invariant ChoiceSet(choices) == Choices(cat, done)
      decreases |rest|
    {
      var featureName :| featureName in rest;
      var optionId := rest[featureName];
      assert sel[featureName] == optionId;
      if optionId.Some? && !(MinInteger <= optionId.value <= MaxInteger) {
        return Failure(IdOutOfRange(optionId.value));
      }
      if !Resolves(cat, featureName, optionId) {
        return Failure(InvalidOption(optionId, featureName));
      }
      var option := cat.options[optionId.value];
      MapSumPick(rest, RowPrice(cat), featureName);
      totalPrice := totalPrice + option.price;
      ChoicesAdd(cat, done, featureName, optionId);
      var choice := FeatureChoice(option.featureId, optionId.value);
      ChoiceSetAppend(choices, choice);
      choices := choices + [choice];
      VisitedStep(cat, sel, done, rest, featureName);
      done := done[featureName := optionId];
      rest := rest - {featureName};
    }
    VisitedAll(cat, sel, done);
    return Success(Priced(totalPrice, choices));
  }

  /** The shared checks of `createCar` and `updateCar`, completeness first. */
  method CheckSelection(cat: ServerCatalog, sel: Selection) returns (r: Result<Priced, ServerError>)
    ensures r.Success? <==> Accepts(cat, sel)
    ensures r.Failure? ==> Rejects(cat, sel, r.error)
    ensures r.Success? ==> r.value.totalPrice == ServerTotal(cat, sel)
    ensures r.Success? ==> ChoiceSet(r.value.choices) == Choices(cat, sel)
  {
    var problem := CheckRequired(sel);
    if problem.Some? {
      return Failure(problem.value);
    }
    r := CheckEntries(cat, sel);
  }

  /** The `car_features` rows a car gets from a validated body. */
  function FeatureRows(cat: ServerCatalog, carId: int, sel: Selection): (rows: set<CarFeature>)
  {
    set c | c in Choices(cat, sel) :: CarFeature(carId, c.featureId, c.optionId)
  }

  /** The rows `getCarById` joins for one car. */
  function RowsOf(rows: set<CarFeature>, carId: int): (own: set<CarFeature>)
  {
    set r | r in rows && r.carId == carId
  }

  // ---------------------------------------------------------------------
  // The store
  // ---------------------------------------------------------------------

  class CarStore {
    const catalog: ServerCatalog
    var cars: map<int, CarRow>
    var carFeatures: set<CarFeature>
    /** The next value of the `cars.id` SERIAL sequence. */
    var nextId: int

    /** The row's foreign keys hold, and its feature is its option's feature (kept by the handlers). */
    ghost predicate RowConsistent(r: CarFeature)
      reads this
    {
      r.carId in cars && r.featureId in catalog.features && r.optionId in catalog.options &&
      catalog.options[r.optionId].featureId == r.featureId
    }

    /**
     * The schema's constraints, namely the foreign keys of `car_features` and
     * its UNIQUE(car_id, feature_id), together with two facts the schema does
     * not enforce but the handlers maintain: each row's feature is its
     * option's feature, because the handlers insert `option.feature_id`
     * (see `ChoicesInCatalog`), and every car id lies below the next value of
     * the sequence, which SERIAL keeps within INTEGER.
     */
    ghost predicate Valid()
      reads this
    {
      1 <= nextId <= MaxInteger + 1 &&
      (forall id :: id in cars ==> 1 <= id < nextId) &&
      (forall r :: r in carFeatures ==> RowConsistent(r)) &&
      (forall r, s :: r in carFeatures && s in carFeatures && r.carId == s.carId && r.featureId == s.featureId ==> r == s)
    }

    /** The store right after the schema is created: no cars and no rows. */
    constructor (catalog: ServerCatalog)
      ensures Valid()
      ensures this.catalog == catalog && cars == map[] && carFeatures == {} && nextId == 1
    {
      this.catalog := catalog;
      cars := map[];
      carFeatures := {};
      nextId := 1;
    }

    ghost function View(id: int): (view: CarView)
      reads this
      requires id in cars
    {
      CarView(id, cars[id].name, cars[id].totalPrice, RowsOf(carFeatures, id))
    }

    /** `getCarById`: the car with its rows, or "Car not found" when no row has that id. */
    method GetCarById(id: int) returns (r: Result<CarView, ServerError>)
      ensures !InInteger(id) ==> r == Failure(GetFailed)
      ensures InInteger(id) ==> (r.Failure? <==> id !in cars)
      ensures InInteger(id) && r.Failure? ==> r.error == CarNotFound
      ensures r.Success? ==> r.value == View(id)
    {
      if !(MinInteger <= id <= MaxInteger) {
        return Failure(GetFailed);
      }
      if id !in cars {
        return Failure(CarNotFound);
      }
      var row := cars[id];
      return Success(CarView(id, row.name, row.totalPrice, set f | f in carFeatures && f.carId == id));
    }

    /** The insertion loop over `featureOptions` shared by create and update. */
    method InsertFeatures(carId: int, choices: seq<FeatureChoice>)
      modifies this
      ensures cars == old(cars) && nextId == old(nextId)
      ensures carFeatures == old(carFeatures) + set c | c in choices :: CarFeature(carId, c.featureId, c.optionId)
    {
      var i := 0;
      while i < |choices|
        invariant 0 <= i <= |choices|
        invariant cars == old(cars) && nextId == old(nextId)
        invariant carFeatures == old(carFeatures) + set c | c in choices[..i] :: CarFeature(carId, c.featureId, c.optionId)
      {
        assert choices[..i + 1] == choices[..i] + [choices[i]];
        carFeatures := carFeatures + {CarFeature(carId, choices[i].featureId, choices[i].optionId)};
        i := i + 1;
      }
      assert choices[..i] == choices;
    }

    /** The validated rows are exactly `FeatureRows`, and adding them to a car with no rows keeps `Valid`. */
    lemma AddingRowsKeepsValid(id: int, sel: Selection, choices: seq<FeatureChoice>, before: set<CarFeature>)
      requires ChoiceSet(choices) == Choices(catalog, sel)
      requires id in cars
      requires forall r :: r in before ==> RowConsistent(r)
      requires forall r, s :: r in before && s in before && r.carId == s.carId && r.featureId == s.featureId ==> r == s
      requires forall r :: r in before ==> r.carId != id
      ensures (set c | c in choices :: CarFeature(id, c.featureId, c.optionId)) == FeatureRows(catalog, id, sel)
      ensures var after := before + FeatureRows(catalog, id, sel);
        (forall r :: r in after ==> RowConsistent(r)) &&
        (forall r, s :: r in after && s in after && r.carId == s.carId && r.featureId == s.featureId ==> r == s)
    {
      ChoicesUniquePerFeature(catalog, sel);
      ChoicesInCatalog(catalog, sel);
      var inserted := set c | c in choices :: CarFeature(id, c.featureId, c.optionId);
      forall r ensures r in inserted <==> r in FeatureRows(catalog, id, sel) {
        if r in inserted {
          var c :| c in choices && r == CarFeature(id, c.featureId, c.optionId);
          assert c in ChoiceSet(choices);
        }
        if r in FeatureRows(catalog, id, sel) {
          var c :| c in Choices(catalog, sel) && r == CarFeature(id, c.featureId, c.optionId);
          assert c in ChoiceSet(choices);
        }
      }
    }

    /**
     * `createCar`: a body that passes both checks adds one car, under the next
     * sequence value, with the summed price and one row per entry; any other
     * body is rejected with the error the checks report and nothing changes.
     * An accepted body fails only when the sequence has no value left.
     */
    method CreateCar(name: string, sel: Selection) returns (r: Result<CarView, ServerError>)
      requires Valid()
      modifies this
      ensures Valid()
      ensures r.Success? <==> Accepts(catalog, sel) && old(nextId) <= MaxInteger
      ensures r.Failure? && !Accepts(catalog, sel) ==> Rejects(catalog, sel, r.error)
      ensures r.Failure? && Accepts(catalog, sel) ==> r.error == SequenceExhausted
      ensures r.Failure? ==> cars == old(cars) && carFeatures == old(carFeatures) && nextId == old(nextId)
      ensures r.Success? ==>
                r.value.id == old(nextId) && r.value.id !in old(cars) && nextId == old(nextId) + 1 &&
                cars == old(cars)[r.value.id := CarRow(name, ServerTotal(catalog, sel))] &&
                carFeatures == old(carFeatures) + FeatureRows(catalog, r.value.id, sel) &&
                r.value == View(r.value.id)
    {
      var checked := CheckSelection(catalog, sel);
      if checked.Failure? {
        return Failure(checked.error);
      }
      if nextId > MaxInteger {
        return Failure(SequenceExhausted);
      }
      var id := nextId;
      cars := cars[id := CarRow(name, checked.value.totalPrice)];
      nextId := nextId + 1;
      AddingRowsKeepsValid(id, sel, checked.value.choices, carFeatures);
      InsertFeatures(id, checked.value.choices);
      r := GetCarById(id);
    }

    /**
     * `updateCar`: an id outside INTEGER makes the existence query itself fail;
     * an unknown id answers "Car not found" before the body is looked at; a
     * rejected body changes nothing; an accepted body replaces the car's
     * name, total and rows, and leaves every other car and row alone.
     */
    method UpdateCar(id: int, name: string, sel: Selection) returns (r: Result<CarView, ServerError>)
      requires Valid()
      modifies this
      ensures Valid()
      ensures nextId == old(nextId)
      ensures !InInteger(id) ==> r == Failure(IdOutOfRange(id))
      ensures InInteger(id) && id !in old(cars) ==> r == Failure(CarNotFound)
      ensures id in old(cars) ==> (r.Success? <==> Accepts(catalog, sel))
      ensures id in old(cars) && r.Failure? ==> Rejects(catalog, sel, r.error)
      ensures r.Failure? ==> cars == old(cars) && carFeatures == old(carFeatures)
      ensures r.Success? ==>
                cars == old(cars)[id := CarRow(name, ServerTotal(catalog, sel))] &&
                carFeatures == (old(carFeatures) - RowsOf(old(carFeatures), id)) + FeatureRows(catalog, id, sel) &&
                r.value == View(id)
    {
      if !(MinInteger <= id <= MaxInteger) {
        return Failure(IdOutOfRange(id));
      }
      if id !in cars {
        return Failure(CarNotFound);
      }
      var checked := CheckSelection(catalog, sel);
      if checked.Failure? {
        return Failure(checked.error);
      }
      cars := cars[id := CarRow(name, checked.value.totalPrice)];
      carFeatures := set f | f in carFeatures && f.carId != id;
      assert carFeatures == old(carFeatures) - RowsOf(old(carFeatures), id);
      AddingRowsKeepsValid(id, sel, checked.value.choices, carFeatures);
      InsertFeatures(id, checked.value.choices);
      r := GetCarById(id);
    }

    /**
     * `deleteCar`: an unknown id answers "Car not found" and changes nothing;
     * a known one removes the car and, by ON DELETE CASCADE, its rows.
     */
    method DeleteCar(id: int) returns (r: Result<(), ServerError>)
      requires Valid()
      modifies this
      ensures Valid()
      ensures nextId == old(nextId)
      ensures !InInteger(id) ==> r == Failure(DeleteFailed)
      ensures r.Failure? <==> !InInteger(id) || id !in old(cars)
      ensures InInteger(id) && r.Failure? ==> r.error == CarNotFound
      ensures r.Failure? ==> cars == old(cars) && carFeatures == old(carFeatures)
      ensures r.Success? ==> cars == old(cars) - {id} && carFeatures == old(carFeatures) - RowsOf(old(carFeatures), id)
    {
      if !(MinInteger <= id <= MaxInteger) {
        return Failure(DeleteFailed);
      }
      if id !in cars {
        return Failure(CarNotFound);
      }
      cars := cars - {id};
      carFeatures := set f | f in carFeatures && f.carId != id;
      return Success(());
    }
  }

  /** After an accepted update, no row of the car's previous selection survives unless the new selection chose it again. */
  lemma ReplacedRowsAreNew(cat: ServerCatalog, before: set<CarFeature>, id: int, sel: Selection)
    ensures RowsOf((before - RowsOf(before, id)) + FeatureRows(cat, id, sel), id) == FeatureRows(cat, id, sel)
    ensures forall r :: r in before && r.carId != id ==> r in (before - RowsOf(before, id)) + FeatureRows(cat, id, sel)
  {
  }
}
