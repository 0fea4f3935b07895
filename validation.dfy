/**
 * The client-side rule engine: completeness and pairwise checks on a
 * selection, the car-name check, and the per-category option list with its
 * filtering and "recommended" annotation.
 */
module Validation {
  import opened Wrappers
  import opened JsArray
  import opened Selections
  import opened Catalog

  /** The `{ isValid, errors }` object every validator returns. */
  datatype ValidationResult = ValidationResult(isValid: bool, errors: seq<string>)

  // ---------------------------------------------------------------------
  // Option lookup

  /** `getSelectedOption`: the option with that id in the first feature with that name. */
  function GetSelectedOption(featureName: string, optionId: int, data: FeaturesData): (r: Option<FeatureOption>)
    ensures r.Some? ==> r.value.id == optionId
  {
    match FindFeature(data, featureName)
    case None => None
    case Some(f) => FindOption(f.options, Some(optionId))
  }

  /**
   * An id resolves exactly when the first feature with that name has an
   * option with that id, and what it resolves to is the first such option.
   */
  lemma GetSelectedOptionSpec(featureName: string, optionId: int, data: FeaturesData)
    ensures GetSelectedOption(featureName, optionId, data).Some? ==>
              exists i, j :: FirstNamed(data, featureName, i) && 0 <= j < |data[i].options| &&
                data[i].options[j] == GetSelectedOption(featureName, optionId, data).value &&
                forall k :: 0 <= k < j ==> data[i].options[k].id != optionId
    ensures GetSelectedOption(featureName, optionId, data).Some? <==>
              exists i, j :: FirstNamed(data, featureName, i) && 0 <= j < |data[i].options| && data[i].options[j].id == optionId
  {
    FirstNamedUnique(data, featureName);
    FindFeatureSpec(data, featureName);
    var f := FindFeature(data, featureName);
    if f.Some? {
      FindOptionSpec(f.value.options, Some(optionId));
    }
  }

  /** At most one index is the first feature with a given name. */
  lemma FirstNamedUnique(data: FeaturesData, name: string)
    ensures forall i, i' :: FirstNamed(data, name, i) && FirstNamed(data, name, i') ==> i == i'
  {
  }

  /**
   * The machine name of the option chosen for `c`, when the choice is truthy
   * and resolves in the catalog; the guard every pairwise rule starts with.
   */
  function ResolvedName(sel: Selection, data: FeaturesData, c: string): (r: Option<string>)
    ensures r.Some? <==> Truthy(sel, c) && GetSelectedOption(c, sel[c].value, data).Some?
    ensures r.Some? ==> r.value == GetSelectedOption(c, sel[c].value, data).value.name
  {
    if !Truthy(sel, c) then None
    else match GetSelectedOption(c, sel[c].value, data)
      case None => None
      case Some(o) => Some(o.name)
  }

  // ---------------------------------------------------------------------
  // validateFeatureCombination

  /** The violations `validateFeatureCombination` can report. */
  datatype Violation =
    | Incomplete(category: string)
    | RedWithWhite
    | BlackWithWhite
    | StandardWithPerformance

  const NotRecommended: string := " is not recommended. Please choose a different combination."

  /** The start shared by the completeness messages, and by no pair message. */
  const SelectPrefix: string := "Please select a "

  /** A pair message: the clashing pair, then the advice. */
  function WithAdvice(pair: string, advice: string): (r: string)
    requires |pair| > 0
    ensures |r| == |pair| + |advice| && r[0] == pair[0]
  {
    pair + advice
  }

  /** The text pushed onto `errors` for each violation. */
  function Message(v: Violation): (r: string)
    ensures v.Incomplete? <==> |r| >= |SelectPrefix| && r[..|SelectPrefix|] == SelectPrefix
  {
    match v
    case Incomplete(c) => SelectPrefix + c + " option"
    case RedWithWhite => WithAdvice("Red exterior with white interior", NotRecommended)
    case BlackWithWhite => WithAdvice("Black exterior with white interior", NotRecommended)
    case StandardWithPerformance =>
      WithAdvice("Standard engine with performance wheels", " is not optimal. Consider upgrading to a turbo or electric engine.")
  }

  /** Distinct violations have distinct messages, so the text identifies the violation. */
  lemma MessageInjective(v: Violation, w: Violation)
    ensures Message(v) == Message(w) <==> v == w
  {
    if Message(v) == Message(w) {
      var m := Message(v);
      assert m[0] == Message(w)[0];
      if v.Incomplete? && w.Incomplete? {
        assert v.category == m[16..|m| - 7];
        assert w.category == Message(w)[16..|Message(w)| - 7];
      }
    }
  }

  function Messages(vs: seq<Violation>): (r: seq<string>)
    ensures |r| == |vs|
    ensures forall i :: 0 <= i < |vs| ==> r[i] == Message(vs[i])
  {
    seq(|vs|, i requires 0 <= i < |vs| => Message(vs[i]))
  }

  /** A violation is reported exactly when its message is among the errors. */
  lemma MessagesFaithful(vs: seq<Violation>, v: Violation)
    ensures Message(v) in Messages(vs) <==> v in vs
  {
    if Message(v) in Messages(vs) {
      var i :| 0 <= i < |vs| && Messages(vs)[i] == Message(v);
      MessageInjective(vs[i], v);
    }
  }

  /**
   * What the pairwise rules look at: the resolved machine name of each
   * category's choice (`None` when falsy or unknown to the catalog).
   */
  datatype ResolvedNames = ResolvedNames(exterior: Option<string>, wheels: Option<string>,
                                         interior: Option<string>, engine: Option<string>)

  function Resolve(sel: Selection, data: FeaturesData): (names: ResolvedNames)
  {
    ResolvedNames(ResolvedName(sel, data, "exterior"), ResolvedName(sel, data, "wheels"),
                  ResolvedName(sel, data, "interior"), ResolvedName(sel, data, "engine"))
  }

  /** The exterior named `exterior` is chosen together with the white interior. */
  predicate ExteriorInteriorClash(n: ResolvedNames, exterior: string)
  {
    n.exterior == Some(exterior) && n.interior == Some("white")
  }

  /** The standard engine is chosen together with the performance wheels. */
  predicate EngineWheelsClash(n: ResolvedNames)
  {
    n.engine == Some("standard") && n.wheels == Some("performance")
  }

  /** One violation per category of `Required[..n]` that is absent or null, in that order. */
  function CompletenessViolations(sel: Selection, n: nat): (vs: seq<Violation>)
    requires n <= |Required|
  {
    if n == 0 then []
    else CompletenessViolations(sel, n - 1) + (if Chosen(sel, Required[n - 1]) then [] else [Incomplete(Required[n - 1])])
  }

  /** The violations of the three forbidden pairs, in rule order. */
  function PairViolations(n: ResolvedNames): (vs: seq<Violation>)
  {
    (if ExteriorInteriorClash(n, "red") then [RedWithWhite] else []) +
    (if ExteriorInteriorClash(n, "black") then [BlackWithWhite] else []) +
    (if EngineWheelsClash(n) then [StandardWithPerformance] else [])
  }

  /** The rule table applied to a selection whose choices resolve to the names `n`. */
  function Violations(sel: Selection, n: ResolvedNames): (vs: seq<Violation>)
  {
    CompletenessViolations(sel, |Required|) + PairViolations(n)
  }

  /** Everything `validateFeatureCombination` reports: completeness first, then the pairs. */
  function CombinationViolations(sel: Selection, data: FeaturesData): (vs: seq<Violation>)
  {
    Violations(sel, Resolve(sel, data))
  }

  /** The first loop of `validateFeatureCombination`: one message per required category that is absent or null. */
  method CheckRequiredFeatures(sel: Selection) returns (errors: seq<Violation>)
    ensures errors == CompletenessViolations(sel, |Required|)
  {
    errors := [];
    var i := 0;
    while i < |Required|
      invariant 0 <= i <= |Required|
      invariant errors == CompletenessViolations(sel, i)
    {
      var featureName := Required[i];
      if !(featureName in sel) || sel[featureName].None? {
        errors := errors + [Incomplete(featureName)];
      }
      i := i + 1;
    }
  }

  /** `validateFeatureCombination`: collects every violation, without stopping at the first. */
  method ValidateFeatureCombination(sel: Selection, data: FeaturesData) returns (result: ValidationResult)
    ensures result.errors == Messages(CombinationViolations(sel, data))
    ensures result.isValid <==> CombinationViolations(sel, data) == []
  {
    var errors := CheckRequiredFeatures(sel);
    ghost var complete := errors;
    ghost var names := Resolve(sel, data);

    if Truthy(sel, "exterior") && Truthy(sel, "interior") {
      var exteriorOption := GetSelectedOption("exterior", sel["exterior"].value, data);
      var interiorOption := GetSelectedOption("interior", sel["interior"].value, data);
      assert names.exterior == if exteriorOption.Some? then Some(exteriorOption.value.name) else None;
      assert names.interior == if interiorOption.Some? then Some(interiorOption.value.name) else None;
      if exteriorOption.Some? && interiorOption.Some? {
        if exteriorOption.value.name == "red" && interiorOption.value.name == "white" {
          errors := errors + [RedWithWhite];
        }
        if exteriorOption.value.name == "black" && interiorOption.value.name == "white" {
          errors := errors + [BlackWithWhite];
        }
      }
    } else {
      assert names.exterior.None? || names.interior.None?;
    }
    assert errors == complete + (if ExteriorInteriorClash(names, "red") then [RedWithWhite] else []) +
                                (if ExteriorInteriorClash(names, "black") then [BlackWithWhite] else []);
    ghost var colours := errors;

    if Truthy(sel, "engine") && Truthy(sel, "wheels") {
      var engineOption := GetSelectedOption("engine", sel["engine"].value, data);
      var wheelOption := GetSelectedOption("wheels", sel["wheels"].value, data);
      assert names.engine == if engineOption.Some? then Some(engineOption.value.name) else None;
      assert names.wheels == if wheelOption.Some? then Some(wheelOption.value.name) else None;
      if engineOption.Some? && wheelOption.Some? {
        if engineOption.value.name == "standard" && wheelOption.value.name == "performance" {
          errors := errors + [StandardWithPerformance];
        }
      }
    } else {
      assert names.engine.None? || names.wheels.None?;
    }
    assert errors == colours + (if EngineWheelsClash(names) then [StandardWithPerformance] else []);
    assert errors == complete + PairViolations(names);
    result := ValidationResult(|errors| == 0, Messages(errors));
  }

  // ---------------------------------------------------------------------
  // Properties of the combination rules

  /** The place of each check in the fixed order of the checks. */
  function Rank(v: Violation): (rank: nat)
  {
    match v
    case Incomplete(c) =>
      if c == "exterior" then 0 else if c == "wheels" then 1 else if c == "interior" then 2 else 3
    case RedWithWhite => 4
    case BlackWithWhite => 5
    case StandardWithPerformance => 6
  }

  /** The violations for the categories `Required[..n]` are ranked below `n`, increasing. */
  lemma {:induction false} CompletenessRanked(n: nat, sel: Selection)
    requires n <= |Required|
    ensures forall p :: 0 <= p < |CompletenessViolations(sel, n)| ==>
              CompletenessViolations(sel, n)[p].Incomplete? && Rank(CompletenessViolations(sel, n)[p]) < n
    ensures forall p, q :: 0 <= p < q < |CompletenessViolations(sel, n)| ==>
              Rank(CompletenessViolations(sel, n)[p]) < Rank(CompletenessViolations(sel, n)[q])
  {
    if n > 0 {
      CompletenessRanked(n - 1, sel);
    }
  }

  /**
   * The violations come in the fixed order of the checks, without repetition:
   * exterior, wheels, interior, engine, then red/white, black/white, engine/wheels.
   * In particular every completeness violation precedes every pair violation.
   */
  lemma ViolationsRanked(sel: Selection, n: ResolvedNames)
    ensures forall p, q :: 0 <= p < q < |Violations(sel, n)| ==>
              Rank(Violations(sel, n)[p]) < Rank(Violations(sel, n)[q])
    ensures forall p, q :: 0 <= p < q < |Violations(sel, n)| && !Violations(sel, n)[p].Incomplete? ==>
              !Violations(sel, n)[q].Incomplete?
  {
    CompletenessRanked(|Required|, sel);
  }

  lemma {:induction false} CompletenessContains(n: nat, sel: Selection, c: string)
    requires n <= |Required|
    ensures Incomplete(c) in CompletenessViolations(sel, n) <==>
              (exists j :: 0 <= j < n && Required[j] == c) && !Chosen(sel, c)
  {
    if n > 0 {
      CompletenessContains(n - 1, sel, c);
    }
  }

  /** "Please select a X option" is reported exactly for the required categories that are absent or null. */
  lemma CompletenessIff(sel: Selection, n: ResolvedNames, c: string)
    ensures Incomplete(c) in Violations(sel, n) <==> c in Required && !Chosen(sel, c)
  {
    CompletenessContains(|Required|, sel, c);
  }

  /** No completeness violation is reported exactly when every required category is chosen. */
  lemma CompleteIff(sel: Selection)
    ensures CompletenessViolations(sel, |Required|) == [] <==> forall c :: c in Required ==> Chosen(sel, c)
  {
    forall c | c in Required ensures Incomplete(c) in CompletenessViolations(sel, |Required|) <==> !Chosen(sel, c) {
      CompletenessContains(|Required|, sel, c);
    }
    CompletenessRanked(|Required|, sel);
    if CompletenessViolations(sel, |Required|) != [] {
      var v := CompletenessViolations(sel, |Required|)[0];
      CompletenessContains(|Required|, sel, v.category);
    }
  }

  /** Each pair violation is reported exactly when its rule fires. */
  lemma PairIff(sel: Selection, n: ResolvedNames)
    ensures RedWithWhite in Violations(sel, n) <==> ExteriorInteriorClash(n, "red")
    ensures BlackWithWhite in Violations(sel, n) <==> ExteriorInteriorClash(n, "black")
    ensures StandardWithPerformance in Violations(sel, n) <==> EngineWheelsClash(n)
  {
    CompletenessRanked(|Required|, sel);
    var comp := CompletenessViolations(sel, |Required|);
    assert RedWithWhite !in comp && BlackWithWhite !in comp && StandardWithPerformance !in comp by {
      forall p | 0 <= p < |comp| ensures comp[p].Incomplete? { }
    }
  }

  /** A pair rule never fires when one side's id is falsy or does not resolve in the catalog. */
  lemma UnresolvedNeverClashes(sel: Selection, data: FeaturesData, c: string)
    requires c in Required
    requires !Truthy(sel, c) || GetSelectedOption(c, sel[c].value, data).None?
    ensures c == "exterior" || c == "interior" ==> RedWithWhite !in CombinationViolations(sel, data) &&
                                                   BlackWithWhite !in CombinationViolations(sel, data)
    ensures c == "engine" || c == "wheels" ==> StandardWithPerformance !in CombinationViolations(sel, data)
  {
    PairIff(sel, Resolve(sel, data));
  }

  /** The selection is valid exactly when it is complete and no forbidden pair is chosen. */
  lemma ValidIff(sel: Selection, n: ResolvedNames)
    ensures Violations(sel, n) == [] <==>
              (forall c :: c in Required ==> Chosen(sel, c)) &&
              !ExteriorInteriorClash(n, "red") &&
              !ExteriorInteriorClash(n, "black") &&
              !EngineWheelsClash(n)
  {
    PairIff(sel, n);
    forall c | c in Required ensures Incomplete(c) in Violations(sel, n) <==> !Chosen(sel, c) {
      CompletenessIff(sel, n, c);
    }
    if Violations(sel, n) != [] && (forall c :: c in Required ==> Chosen(sel, c)) {
      var v := Violations(sel, n)[0];
      if v.Incomplete? {
        CompletenessIff(sel, n, v.category);
      }
    }
  }

  /** At most four completeness violations and, since red and black exclude each other, at most two pair violations. */
  lemma ViolationCountBound(sel: Selection, n: ResolvedNames)
    ensures |Violations(sel, n)| <= 6
  {
    CompletenessLength(|Required|, sel);
  }

  lemma {:induction false} CompletenessLength(n: nat, sel: Selection)
    requires n <= |Required|
    ensures |CompletenessViolations(sel, n)| <= n
  {
    if n > 0 {
      CompletenessLength(n - 1, sel);
    }
  }

  // ---------------------------------------------------------------------
  // validateCarName

  /** ECMAScript's WhiteSpace and LineTerminator characters, the ones `String.prototype.trim` removes. */
  predicate IsJsWhitespace(c: char)
  {
    c == '\t' || c == '\n' || c == '\U{000B}' || c == '\U{000C}' || c == '\r' || c == ' ' ||
    c == '\U{00A0}' || c == '\U{1680}' || ('\U{2000}' <= c <= '\U{200A}') ||
    c == '\U{2028}' || c == '\U{2029}' || c == '\U{202F}' || c == '\U{205F}' ||
    c == '\U{3000}' || c == '\U{FEFF}'
  }

  /** The number of whitespace characters `s` starts with. */
  function LeadingWhitespace(s: string): (n: nat)
    ensures n <= |s|
    ensures forall k :: 0 <= k < n ==> IsJsWhitespace(s[k])
    ensures n < |s| ==> !IsJsWhitespace(s[n])
  {
    if s != [] && IsJsWhitespace(s[0]) then 1 + LeadingWhitespace(s[1..]) else 0
  }

  /** The length of `s` without its trailing whitespace. */
  function WithoutTrailingWhitespace(s: string): (n: nat)
    ensures n <= |s|
    ensures forall k :: n <= k < |s| ==> IsJsWhitespace(s[k])
    ensures 0 < n ==> !IsJsWhitespace(s[n - 1])
  {
    if s != [] && IsJsWhitespace(s[|s| - 1]) then WithoutTrailingWhitespace(s[..|s| - 1]) else |s|
  }

  /** `String.prototype.trim`: the middle of `s` between leading and trailing whitespace. */
  function Trim(s: string): (r: string)
    ensures exists i, j :: 0 <= i <= j <= |s| && r == s[i..j] &&
                          (forall k :: 0 <= k < i ==> IsJsWhitespace(s[k])) &&
                          (forall k :: j <= k < |s| ==> IsJsWhitespace(s[k]))
    ensures r != [] ==> !IsJsWhitespace(r[0]) && !IsJsWhitespace(r[|r| - 1])
    ensures r == [] <==> forall k :: 0 <= k < |s| ==> IsJsWhitespace(s[k])
  {
    var i := LeadingWhitespace(s);
    var j := WithoutTrailingWhitespace(s);
    if i < j then s[i..j]
    else
      assert s[i..i] == [];
      []
  }

  /** JavaScript's `length`: UTF-16 code units, two for a character outside the Basic Multilingual Plane. */
  function Utf16Length(s: string): (n: nat)
    ensures |s| <= n <= 2 * |s|
  {
    if s == [] then 0 else (if s[0] as int >= 0x1_0000 then 2 else 1) + Utf16Length(s[1..])
  }

  /** `name.trim().length`. */
  function TrimmedLength(name: string): (len: nat)
  {
    Utf16Length(Trim(name))
  }

  const NameRequiredMessage: string := "Car name is required"
  const NameTooShortMessage: string := "Car name must be at least 2 characters long"
  const NameTooLongMessage: string := "Car name must be less than 50 characters"

  /**
   * `validateCarName`: at most one error. A trimmed length of exactly 50 is
   * accepted, although the message speaks of "less than 50".
   */
  function ValidateCarName(name: string): (r: ValidationResult)
    ensures |r.errors| <= 1
    ensures r.isValid <==> r.errors == []
    ensures r.isValid <==> 2 <= TrimmedLength(name) <= 50
    ensures r.errors == [NameRequiredMessage] <==> forall k :: 0 <= k < |name| ==> IsJsWhitespace(name[k])
    ensures r.errors == [NameTooShortMessage] <==> TrimmedLength(name) == 1
    ensures r.errors == [NameTooLongMessage] <==> TrimmedLength(name) > 50
  {
    var n := TrimmedLength(name);
    var errors :=
      if name == [] || n == 0 then [NameRequiredMessage]
      else if n < 2 then [NameTooShortMessage]
      else if n > 50 then [NameTooLongMessage]
      else [];
    ValidationResult(|errors| == 0, errors)
  }

  // ---------------------------------------------------------------------
  // getAvailableOptions

  /**
   * An option as listed for the form. `recommended` is `None` when the list
   * was not annotated (the UI then treats the option as recommended).
   */
  datatype AvailableOption = AvailableOption(option: FeatureOption, recommended: Option<bool>)

  function Unannotated(options: seq<FeatureOption>): (r: seq<AvailableOption>)
    ensures |r| == |options|
    ensures forall i :: 0 <= i < |r| ==> r[i] == AvailableOption(options[i], None)
  {
    seq(|options|, i requires 0 <= i < |options| => AvailableOption(options[i], None))
  }

  /** The options of `options` not named `name`, in their original order. */
  function WithoutName(options: seq<FeatureOption>, name: string): (kept: seq<FeatureOption>)
  {
    Filter(options, (o: FeatureOption) => o.name != name)
  }

  /** Exactly the options called `name` are removed; a list without such options is unchanged. */
  lemma WithoutNameSpec(options: seq<FeatureOption>, name: string)
    ensures forall o :: o in WithoutName(options, name) <==> o in options && o.name != name
    ensures (forall i :: 0 <= i < |options| ==> options[i].name != name) ==> WithoutName(options, name) == options
  {
    FilterSpec(options, (o: FeatureOption) => o.name != name);
  }

  /** `getAvailableOptions`. */
  method GetAvailableOptions(featureName: string, sel: Selection, data: FeaturesData) returns (available: seq<AvailableOption>)
    ensures FindFeature(data, featureName).None? ==> available == []
    ensures FindFeature(data, featureName).Some? ==>
      var options := FindFeature(data, featureName).value.options;
      if featureName == "interior" && ResolvedName(sel, data, "exterior") in {Some("red"), Some("black")} then
        available == Unannotated(WithoutName(options, "white"))
      else if featureName == "wheels" && ResolvedName(sel, data, "engine") == Some("standard") then
        |available| == |options| &&
        forall i :: 0 <= i < |options| ==>
          available[i] == AvailableOption(options[i], Some(options[i].name != "performance"))
      else
        available == Unannotated(options)
  {
    var feature := FindFeature(data, featureName);
    if feature.None? {
      return [];
    }
    available := Unannotated(feature.value.options);

    if featureName == "interior" && Truthy(sel, "exterior") {
      var exteriorOption := GetSelectedOption("exterior", sel["exterior"].value, data);
      if exteriorOption.Some? {
        if exteriorOption.value.name == "red" {
          available := Filter(available, (a: AvailableOption) => a.option.name != "white");
        }
        if exteriorOption.value.name == "black" {
          available := Filter(available, (a: AvailableOption) => a.option.name != "white");
        }
      }
    }

    if featureName == "wheels" && Truthy(sel, "engine") {
      var engineOption := GetSelectedOption("engine", sel["engine"].value, data);
      if engineOption.Some? && engineOption.value.name == "standard" {
        available := seq(|available|, i requires 0 <= i < |available| =>
          AvailableOption(available[i].option, Some(available[i].option.name != "performance")));
      }
    }
    FilterUnannotated(feature.value.options, "white");
  }

  /** Filtering the annotated list is filtering the options, then annotating. */
  lemma {:induction false} FilterUnannotated(options: seq<FeatureOption>, name: string)
    ensures Filter(Unannotated(options), (a: AvailableOption) => a.option.name != name) ==
            Unannotated(WithoutName(options, name))
  {
    var p := (a: AvailableOption) => a.option.name != name;
    var q := (o: FeatureOption) => o.name != name;
    if options != [] {
      var u := Unannotated(options);
      assert u[0] == AvailableOption(options[0], None);
      assert u[1..] == Unannotated(options[1..]);
      FilterUnannotated(options[1..], name);
      assert Filter(u, p) == (if p(u[0]) then [u[0]] else []) + Filter(u[1..], p);
      assert Filter(options, q) == (if q(options[0]) then [options[0]] else []) + Filter(options[1..], q);
      if q(options[0]) {
        assert Unannotated([options[0]] + Filter(options[1..], q)) ==
               [u[0]] + Unannotated(Filter(options[1..], q));
      }
    }
  }
}
