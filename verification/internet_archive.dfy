/**
 * The Internet Archive adapter: keep the docs that have both a title and an
 * identifier, and build every URL of the entry from the identifier. The
 * adapter is complete but the aggregator does not call it.
 */
module InternetArchive {
  import opened Wrappers
  import opened JsStrings
  import opened JsParseInt
  import opened Seqs
  import opened Taxonomy
  import opened Music

  /** `ArchiveDoc`; a missing `identifier` or `title` is the empty string (both are falsy). */
  datatype Doc = Doc(
    identifier: string,
    title: string,
    creator: Option<string>,
    date: Option<string>,
    description: Option<string>,
    subject: Option<seq<string>>,
    coverage: Option<string>,
    collection: Option<seq<string>>)

  const MaxTags := 5

  /** The doc filter of `fetchInternetArchiveMusic`. */
  predicate Keep(d: Doc)
  {
    d.title != "" && d.identifier != ""
  }

  /** The rules of `getRegionFromCoverage`, in the order they are tried, on the lower-cased coverage. */
  const CoverageRules: seq<Rule> := [
    Rule(["europe", "british", "ireland", "france"], [], WesternEurope),
    Rule(["africa"], ["north"], SubSaharanAfrica),
    Rule(["egypt", "morocco", "algeria"], [], NorthAfrica),
    Rule(["india", "pakistan", "bangladesh"], [], SouthAsia),
    Rule(["china", "japan", "korea"], [], EastAsia),
    Rule(["united states", "canada", "america"], [], NorthAmerica),
    Rule(["mexico", "guatemala", "central"], [], CentralAmerica),
    Rule(["brazil", "argentina", "south america"], [], SouthAmerica),
    Rule(["australia", "new zealand", "pacific"], [], Oceania)
  ]

  /** `getRegionFromCoverage`: Global for a missing or empty coverage, otherwise the cascade's answer. */
  function RegionFromCoverage(coverage: Option<string>): (r: Region)
    ensures !Truthy(coverage) ==> r == Global
    ensures Truthy(coverage) && (forall i :: 0 <= i < |CoverageRules| ==> !Matches(CoverageRules[i], Lower(coverage.value))) ==> r == Global
    ensures Truthy(coverage) ==>
      forall i :: 0 <= i < |CoverageRules| && Matches(CoverageRules[i], Lower(coverage.value))
                  && (forall j :: 0 <= j < i ==> !Matches(CoverageRules[j], Lower(coverage.value)))
        ==> r == CoverageRules[i].region
  {
    if !Truthy(coverage) then Global else Classify(CoverageRules, Lower(coverage.value))
  }

  predicate IsCoverageSeparator(c: char)
  {
    c == ',' || c == ';'
  }

  /**
   * `extractCountry`: the trimmed text before the first `,` or `;`, or
   * "Unknown" when the coverage is missing or that text is blank.
   */
  function CountryFromCoverage(coverage: Option<string>): (r: string)
    ensures !Truthy(coverage) ==> r == "Unknown"
    ensures Truthy(coverage) && r != "Unknown" ==>
      && r != []
      && !IsJsSpace(r[0]) && !IsJsSpace(r[|r| - 1])
      && (forall i :: 0 <= i < |r| ==> !IsCoverageSeparator(r[i]))
      && Contains(coverage.value, r)
  {
    if !Truthy(coverage) then "Unknown"
    else
      var t := Trim(PrefixBefore(coverage.value, IsCoverageSeparator));
      FirstSegmentFacts(coverage.value, t);
      if t == "" then "Unknown" else t
  }

  lemma FirstSegmentFacts(c: string, t: string)
    requires t == Trim(PrefixBefore(c, IsCoverageSeparator))
    ensures t != [] ==>
      && !IsJsSpace(t[0]) && !IsJsSpace(t[|t| - 1])
      && (forall i :: 0 <= i < |t| ==> !IsCoverageSeparator(t[i]))
      && Contains(c, t)
  {
    var head := PrefixBefore(c, IsCoverageSeparator);
    ContainsAvoids(head, t, IsCoverageSeparator);
    ContainsInPrefix(c, head, t);
  }

  /** The country is the trimmed text before the first "," or ";" of the coverage. */
  lemma CountryIsFirstSegment(p: string, c: char, q: string)
    requires IsCoverageSeparator(c) && forall i :: 0 <= i < |p| ==> !IsCoverageSeparator(p[i])
    ensures CountryFromCoverage(Some(p + [c] + q)) == (if Trim(p) == [] then "Unknown" else Trim(p))
  {
    assert p + [c] + q == p + ([c] + q);
    PrefixBeforeFirst(p, [c] + q, IsCoverageSeparator);
  }

  /** Coverage with neither "," nor ";" is trimmed as a whole; blank coverage gives "Unknown". */
  lemma CountryWithoutSeparator(p: string)
    requires forall i :: 0 <= i < |p| ==> !IsCoverageSeparator(p[i])
    ensures CountryFromCoverage(Some(p)) == (if Trim(p) == [] then "Unknown" else Trim(p))
  {
    assert p + [] == p;
    PrefixBeforeFirst(p, [], IsCoverageSeparator);
  }

  /** The URL of a doc's audio file, built from its identifier. */
  function AudioUrl(identifier: string): string
  {
    "https://archive.org/download/" + identifier + "/" + identifier + ".mp3"
  }

  /** `mapArchiveToEntry`. */
  function DocToEntry(d: Doc): (e: Entry)
    ensures e.id == "archive-" + d.identifier && e.title == d.title
    ensures e.artist == (if Truthy(d.creator) then d.creator.value else "Traditional Artists")
    ensures e.year == YearOfDate(d.date) && e.era == EraName(EraFromYear(e.year))
    ensures e.region == RegionName(RegionFromCoverage(d.coverage))
    ensures e.country == CountryFromCoverage(d.coverage)
    ensures e.tags == (if d.subject.Some? then Take(d.subject.value, MaxTags) else ["folk", "traditional"])
    ensures e.description == (if Truthy(d.description) then d.description.value
                              else "Traditional folk recording from the Internet Archive collection.")
    ensures e.audio == Some(AudioUrl(d.identifier)) && e.media == [AudioUrl(d.identifier)]
    ensures e.imageUrl == Some("https://archive.org/services/img/" + d.identifier)
    ensures Classified(e)
  {
    var year := YearOfDate(d.date);
    var region := RegionFromCoverage(d.coverage);
    var era := EraFromYear(year);
    var audio := AudioUrl(d.identifier);
    var e := Entry(
      id := "archive-" + d.identifier,
      title := d.title,
      artist := StrOr(d.creator, "Traditional Artists"),
      region := RegionName(region),
      country := CountryFromCoverage(d.coverage),
      era := EraName(era),
      year := year,
      tags := if d.subject.Some? then Take(d.subject.value, MaxTags) else ["folk", "traditional"],
      description := StrOr(d.description, "Traditional folk recording from the Internet Archive collection."),
      audio := Some(audio),
      media := [audio],
      imageUrl := Some("https://archive.org/services/img/" + d.identifier));
    LabelledIsClassified(e, region, era);
    e
  }

  /** The successful path of `fetchInternetArchiveMusic`: the kept docs mapped in order, each with a non-empty id and title. */
  function ProcessDocs(docs: seq<Doc>): (r: seq<Entry>)
    ensures var kept := Filter(docs, Keep);
      |r| == |kept| && forall i :: 0 <= i < |r| ==> r[i] == DocToEntry(kept[i])
    ensures forall i :: 0 <= i < |r| ==> r[i].id != "" && r[i].title != "" && Classified(r[i])
  {
    MapSeq(Filter(docs, Keep), DocToEntry)
  }

  /** `fetchInternetArchiveMusic`: a failed request or a body without docs yields no entries. */
  function FetchInternetArchiveMusic(response: Response<Doc>): (r: seq<Entry>)
    ensures response.Failed? ==> r == []
    ensures response.Received? ==> r == ProcessDocs(response.records)
  {
    match response
    case Received(docs) => ProcessDocs(docs)
    case Failed(_) => []
  }

  /** The cascade index at which each region sits in `CoverageRules`. */
  lemma CoverageRuleAt(i: nat)
    requires i < |CoverageRules|
    ensures CoverageRules[i].region == WesternEurope ==> i == 0
    ensures CoverageRules[i].region == SubSaharanAfrica ==> i == 1
    ensures CoverageRules[i].region == CentralAmerica ==> i == 6
    ensures CoverageRules[i].region == SouthAmerica ==> i == 7
  {
  }

  /** A sub-Saharan answer means the coverage mentions Africa and does not mention "north". */
  lemma SubSaharanMeansAfricaNotNorth(coverage: Option<string>)
    requires RegionFromCoverage(coverage) == SubSaharanAfrica
    ensures Truthy(coverage)
    ensures Contains(Lower(coverage.value), "africa") && !Contains(Lower(coverage.value), "north")
  {
    var text := Lower(coverage.value);
    var i := FirstMatch(CoverageRules, text).value;
    CoverageRuleAt(i);
    var rule := CoverageRules[1];
    assert rule.anyOf == ["africa"] && rule.noneOf == ["north"];
    assert Matches(rule, text);
    assert !Contains(text, rule.noneOf[0]);
  }

  /**
   * The word "america" is claimed by the North America rule, so a Central or
   * South American answer never comes from a coverage that mentions it.
   */
  lemma AmericaGoesNorth(coverage: Option<string>)
    requires RegionFromCoverage(coverage) in {CentralAmerica, SouthAmerica}
    ensures Truthy(coverage) && !Contains(Lower(coverage.value), "america")
  {
    var text := Lower(coverage.value);
    var i := FirstMatch(CoverageRules, text).value;
    CoverageRuleAt(i);
    assert !Matches(CoverageRules[5], text);
    assert CoverageRules[5].anyOf[2] == "america";
  }

  /** Hence the "south america" keyword never fires: a South American answer needs Brazil or Argentina. */
  lemma SouthAmericaNeedsBrazilOrArgentina(coverage: Option<string>)
    requires RegionFromCoverage(coverage) == SouthAmerica
    ensures Contains(Lower(coverage.value), "brazil") || Contains(Lower(coverage.value), "argentina")
  {
    AmericaGoesNorth(coverage);
    SouthRuleNeedsBrazilOrArgentina(Lower(coverage.value));
  }

  lemma SouthRuleNeedsBrazilOrArgentina(text: string)
    requires Classify(CoverageRules, text) == SouthAmerica && !Contains(text, "america")
    ensures Contains(text, "brazil") || Contains(text, "argentina")
  {
    var i := FirstMatch(CoverageRules, text).value;
    CoverageRuleAt(i);
    var rule := CoverageRules[7];
    assert Matches(rule, text);
    SouthAmericaNamesAmerica(text);
    FirstTwoKeysMatched(text, rule.anyOf);
  }

  /** Conversely, once the Western Europe rule has passed, "africa" without "north" is sub-Saharan, whatever else the coverage names. */
  lemma AfricaWithoutNorthIsSubSaharan(coverage: Option<string>)
    requires Truthy(coverage)
    requires Contains(Lower(coverage.value), "africa") && !Contains(Lower(coverage.value), "north")
    requires !Matches(CoverageRules[0], Lower(coverage.value))
    ensures RegionFromCoverage(coverage) == SubSaharanAfrica
  {
    var text := Lower(coverage.value);
    assert Contains(text, CoverageRules[1].anyOf[0]);
    assert !ContainsAny(text, CoverageRules[1].noneOf);
    assert Matches(CoverageRules[1], text);
  }

  /** Once the rules before it have passed, any coverage mentioning "america" is North American. */
  lemma AmericaIsNorthAmerica(coverage: Option<string>)
    requires Truthy(coverage) && Contains(Lower(coverage.value), "america")
    requires forall j :: 0 <= j < 5 ==> !Matches(CoverageRules[j], Lower(coverage.value))
    ensures RegionFromCoverage(coverage) == NorthAmerica
  {
    var text := Lower(coverage.value);
    assert Contains(text, CoverageRules[5].anyOf[2]);
    assert Matches(CoverageRules[5], text);
  }
}
