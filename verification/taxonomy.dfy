/**
 * The era and region buckets shared by the four adapters. Every adapter
 * carries an identical copy of `getEraFromYear`, so it is defined once here;
 * the region classifiers are ordered first-match cascades of substring rules,
 * defined once as `Classify` over a per-source rule list.
 */
module Taxonomy {
  import opened Wrappers
  import opened JsStrings
  import opened JsParseInt

  datatype Era =
    | Ancient | Medieval
    | Century16 | Century17 | Century18 | Century19 | Century20 | Century21
    | Traditional

  /** The label an adapter stores in `FolkMusicEntry.era`. */
  function EraName(e: Era): string
  {
    match e
    case Ancient => "Ancient"
    case Medieval => "Medieval"
    case Century16 => "16th Century"
    case Century17 => "17th Century"
    case Century18 => "18th Century"
    case Century19 => "19th Century"
    case Century20 => "20th Century"
    case Century21 => "21st Century"
    case Traditional => "Traditional"
  }

  /** `getEraFromYear(year)`: `!year` holds for an absent year and for 0, and both give Traditional. */
  function EraFromYear(year: Option<int>): (e: Era)
    ensures e == Traditional <==> year.None? || year.value == 0
  {
    if year.None? || year.value == 0 then Traditional
    else
      var y := year.value;
      if y < 1000 then Ancient
      else if y < 1500 then Medieval
      else if y < 1600 then Century16
      else if y < 1700 then Century17
      else if y < 1800 then Century18
      else if y < 1900 then Century19
      else if y < 2000 then Century20
      else Century21
  }

  /** Position of a dated era in time; Traditional (no date) is not on the scale. */
  function EraRank(e: Era): int
  {
    match e
    case Ancient => 0
    case Medieval => 1
    case Century16 => 16
    case Century17 => 17
    case Century18 => 18
    case Century19 => 19
    case Century20 => 20
    case Century21 => 21
    case Traditional => -1
  }

  /**
   * The named centuries are the ordinal century of the year (`y / 100 + 1`)
   * from 1500 on, with everything from 2000 on counted as the 21st; below
   * 1000 (negative years included) is Ancient, and 1000..1499 Medieval.
   */
  lemma EraIsCentury(y: int)
    requires y != 0
    ensures y < 1000 ==> EraFromYear(Some(y)) == Ancient
    ensures 1000 <= y < 1500 ==> EraFromYear(Some(y)) == Medieval
    ensures 1500 <= y < 2000 ==> EraRank(EraFromYear(Some(y))) == y / 100 + 1
    ensures 2000 <= y ==> EraFromYear(Some(y)) == Century21
  {
  }

  /** A later year never falls in an earlier era. */
  lemma EraMonotone(y1: int, y2: int)
    requires y1 != 0 && y2 != 0 && y1 <= y2
    ensures EraRank(EraFromYear(Some(y1))) <= EraRank(EraFromYear(Some(y2)))
  {
  }

  /** The labels `getEraFromYear` can return. */
  const EraLabels: set<string> := {
    "Ancient", "Medieval", "16th Century", "17th Century", "18th Century",
    "19th Century", "20th Century", "21st Century", "Traditional"
  }

  lemma EraNameInjective(e1: Era, e2: Era)
    ensures EraName(e1) in EraLabels
    ensures EraName(e1) == EraName(e2) ==> e1 == e2
  {
  }

  /** The year of a date field: `date ? parseInt(date) : undefined`, NaN being None. */
  function YearOfDate(date: Option<string>): Option<int>
  {
    if Truthy(date) then ParseInt(date.value) else None
  }

  datatype Region =
    | WesternEurope | SubSaharanAfrica | NorthAfrica | SouthAsia | EastAsia
    | NorthAmerica | CentralAmerica | SouthAmerica | Oceania | Global

  /** The label an adapter stores in `FolkMusicEntry.region`. */
  function RegionName(r: Region): string
  {
    match r
    case WesternEurope => "Western Europe"
    case SubSaharanAfrica => "Sub-Saharan Africa"
    case NorthAfrica => "North Africa"
    case SouthAsia => "South Asia"
    case EastAsia => "East Asia"
    case NorthAmerica => "North America"
    case CentralAmerica => "Central America"
    case SouthAmerica => "South America"
    case Oceania => "Oceania"
    case Global => "Global"
  }

  /** The labels the region classifiers can return. */
  const RegionLabels: set<string> := {
    "Western Europe", "Sub-Saharan Africa", "North Africa", "South Asia", "East Asia",
    "North America", "Central America", "South America", "Oceania", "Global"
  }

  lemma RegionNameInjective(r1: Region, r2: Region)
    ensures RegionName(r1) in RegionLabels
    ensures RegionName(r1) == RegionName(r2) ==> r1 == r2
  {
  }

  /** One line of a cascade: some `anyOf` keyword occurs and no `noneOf` keyword does. */
  datatype Rule = Rule(anyOf: seq<string>, noneOf: seq<string>, region: Region)

  predicate ContainsAny(text: string, keys: seq<string>)
  {
    exists k :: 0 <= k < |keys| && Contains(text, keys[k])
  }

  predicate Matches(rule: Rule, text: string)
  {
    ContainsAny(text, rule.anyOf) && !ContainsAny(text, rule.noneOf)
  }

  /** The index of the first rule matching `text`. */
  function FirstMatch(rules: seq<Rule>, text: string): (r: Option<nat>)
    ensures r.None? <==> forall i :: 0 <= i < |rules| ==> !Matches(rules[i], text)
    ensures r.Some? ==> r.value < |rules| && Matches(rules[r.value], text)
    ensures r.Some? ==> forall j :: 0 <= j < r.value ==> !Matches(rules[j], text)
  {
    if rules == [] then None
    else if Matches(rules[0], text) then Some(0)
    else
      match FirstMatch(rules[1..], text)
      case None => None
      case Some(i) => Some(i + 1)
  }

  /** An ordered cascade: the region of the first matching rule, Global when none matches. */
  function Classify(rules: seq<Rule>, text: string): (r: Region)
    ensures (forall i :: 0 <= i < |rules| ==> !Matches(rules[i], text)) ==> r == Global
    ensures forall i :: 0 <= i < |rules| && Matches(rules[i], text) && (forall j :: 0 <= j < i ==> !Matches(rules[j], text))
              ==> r == rules[i].region
  {
    match FirstMatch(rules, text)
    case None => Global
    case Some(i) => rules[i].region
  }

  /** The cascade only ever answers Global or the region of one of its rules. */
  lemma ClassifyAnswers(rules: seq<Rule>, text: string)
    ensures Classify(rules, text) == Global || exists i :: 0 <= i < |rules| && Classify(rules, text) == rules[i].region
  {
  }

  /** Empty text contains no non-empty keyword, so no rule matches it. */
  lemma EmptyTextIsGlobal(rules: seq<Rule>)
    requires forall i :: 0 <= i < |rules| ==> forall k :: 0 <= k < |rules[i].anyOf| ==> rules[i].anyOf[k] != []
    ensures Classify(rules, []) == Global
  {
    forall i | 0 <= i < |rules|
      ensures !Matches(rules[i], [])
    {
      forall k | 0 <= k < |rules[i].anyOf|
        ensures !Contains([], rules[i].anyOf[k])
      {
        assert rules[i].anyOf[k] != [];
      }
    }
  }

  /** When rule `i` matches, the cascade stops at rule `i` or earlier. */
  lemma ClassifyStopsBy(rules: seq<Rule>, text: string, i: nat)
    requires i < |rules| && Matches(rules[i], text)
    ensures FirstMatch(rules, text).Some? && FirstMatch(rules, text).value <= i
    ensures Classify(rules, text) == rules[FirstMatch(rules, text).value].region
  {
  }

  /** Of two keywords, when some occurs and the second does not, the first does. */
  lemma FirstKeyMatched(text: string, keys: seq<string>)
    requires |keys| == 2 && ContainsAny(text, keys) && !Contains(text, keys[1])
    ensures Contains(text, keys[0])
  {
  }

  /** Of three keywords, when some occurs and the last does not, one of the first two does. */
  lemma FirstTwoKeysMatched(text: string, keys: seq<string>)
    requires |keys| == 3 && ContainsAny(text, keys) && !Contains(text, keys[2])
    ensures Contains(text, keys[0]) || Contains(text, keys[1])
  {
  }

  /** A text holding a phrase that contains "america" holds "america". */
  lemma NamesAmerica(text: string, phrase: string, at: nat)
    requires Contains(text, phrase) && OccursAt(phrase, "america", at)
    ensures Contains(text, "america")
  {
    ContainsTrans(text, phrase, "america");
  }

  lemma CentralAmericaNamesAmerica(text: string)
    ensures Contains(text, "central america") ==> Contains(text, "america")
  {
    if Contains(text, "central america") {
      NamesAmerica(text, "central america", 8);
    }
  }

  lemma SouthAmericaNamesAmerica(text: string)
    ensures Contains(text, "south america") ==> Contains(text, "america")
  {
    if Contains(text, "south america") {
      NamesAmerica(text, "south america", 6);
    }
  }
}
