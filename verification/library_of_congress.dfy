/**
 * The Library of Congress adapter: drop untitled results and whole
 * collections, classify the first location, and take the country from the
 * last `--` segment of it.
 */
module LibraryOfCongress {
  import opened Wrappers
  import opened JsStrings
  import opened Seqs
  import opened Taxonomy
  import opened Music

  /** `LOCResult`; a missing `title` is the empty string. */
  datatype LocResult = LocResult(
    id: string,
    title: string,
    description: Option<seq<string>>,
    subject: Option<seq<string>>,
    contributor: Option<seq<string>>,
    date: Option<string>,
    originalFormat: Option<seq<string>>,
    location: Option<seq<string>>,
    imageUrl: Option<seq<string>>,
    url: Option<string>)

  const MaxTags := 5

  /** The result filter of `fetchLibraryOfCongressMusic`: titled, and not a collection in any letter case. */
  predicate Keep(r: LocResult)
  {
    r.title != "" && !Contains(Lower(r.title), "collection")
  }

  /** The rules of `getRegionFromLocation`, in order; only five regions can come out. */
  const LocationRules: seq<Rule> := [
    Rule(["europe"], [], WesternEurope),
    Rule(["africa"], [], SubSaharanAfrica),
    Rule(["asia"], [], SouthAsia),
    Rule(["america"], [], NorthAmerica),
    Rule(["united states"], [], NorthAmerica)
  ]

  /** `getRegionFromLocation`, on the location string (the empty string when there is none). */
  function RegionFromLocation(location: string): (r: Region)
    ensures r in {WesternEurope, SubSaharanAfrica, SouthAsia, NorthAmerica, Global}
    ensures location == [] ==> r == Global
    ensures (forall i :: 0 <= i < |LocationRules| ==> !Matches(LocationRules[i], Lower(location))) ==> r == Global
    ensures forall i :: 0 <= i < |LocationRules| && Matches(LocationRules[i], Lower(location))
                        && (forall j :: 0 <= j < i ==> !Matches(LocationRules[j], Lower(location)))
              ==> r == LocationRules[i].region
  {
    LocationCascadeFacts(Lower(location));
    Classify(LocationRules, Lower(location))
  }

  lemma LocationCascadeFacts(text: string)
    ensures Classify(LocationRules, text) in {WesternEurope, SubSaharanAfrica, SouthAsia, NorthAmerica, Global}
    ensures text == [] ==> Classify(LocationRules, text) == Global
  {
    LocationRegions(text);
    if text == [] {
      EmptyLocationIsGlobal();
    }
  }

  lemma LocationRegions(text: string)
    ensures Classify(LocationRules, text) in {WesternEurope, SubSaharanAfrica, SouthAsia, NorthAmerica, Global}
  {
    ClassifyAnswers(LocationRules, text);
  }

  lemma EmptyLocationIsGlobal()
    ensures Classify(LocationRules, []) == Global
  {
    EmptyTextIsGlobal(LocationRules);
  }

  /** Every location mentioning Africa, "north africa" included, is sub-Saharan unless it mentions Europe. */
  lemma AnyAfricaIsSubSaharan(location: string)
    requires Contains(Lower(location), "africa") && !Contains(Lower(location), "europe")
    ensures RegionFromLocation(location) == SubSaharanAfrica
  {
    var text := Lower(location);
    assert Contains(text, LocationRules[1].anyOf[0]);
    assert Matches(LocationRules[1], text);
    assert !Contains(text, LocationRules[0].anyOf[0]);
    assert !Matches(LocationRules[0], text);
  }

  /** Every location mentioning Asia is South Asian unless an earlier rule (Europe, Africa) fired. */
  lemma AnyAsiaIsSouthAsia(location: string)
    requires Contains(Lower(location), "asia")
    requires !Contains(Lower(location), "europe") && !Contains(Lower(location), "africa")
    ensures RegionFromLocation(location) == SouthAsia
  {
    var text := Lower(location);
    assert Contains(text, LocationRules[2].anyOf[0]);
    assert Matches(LocationRules[2], text);
    assert !Contains(text, LocationRules[0].anyOf[0]) && !Contains(text, LocationRules[1].anyOf[0]);
    assert !Matches(LocationRules[0], text) && !Matches(LocationRules[1], text);
  }

  /**
   * `extractCountry`: the trimmed last `--` segment, or "Unknown" when the
   * location is empty or that segment is blank.
   */
  function CountryFromLocation(location: string): (r: string)
    ensures location == [] ==> r == "Unknown"
    ensures r != "Unknown" ==>
      && r != [] && !IsJsSpace(r[0]) && !IsJsSpace(r[|r| - 1])
      && !Contains(r, "--")
    ensures !Contains(location, "--") ==> r == (if Trim(location) == [] then "Unknown" else Trim(location))
  {
    if location == [] then "Unknown"
    else
      var parts := Split(location, "--");
      var last := parts[|parts| - 1];
      var t := Trim(last);
      if t == [] then "Unknown"
      else
        NotContainedInPiece(last, t, "--");
        t
  }

  /**
   * The country is the trimmed piece after the last "--": here the location
   * is split as `p`, "--", `q` with no "--" in `q` and no "-" ending `p`, so
   * that no occurrence of "--" overlaps the cut.
   */
  lemma CountryIsLastSegment(p: string, q: string)
    requires !Contains(q, "--") && (p == [] || p[|p| - 1] != '-')
    ensures CountryFromLocation(p + "--" + q) == (if Trim(q) == [] then "Unknown" else Trim(q))
  {
    var loc := p + "--" + q;
    assert Last(Split(loc, "--")) == q by {
      DashesDoNotStraddle(p, q);
      SplitLastPiece(p, "--", q);
    }
    assert |loc| >= 2;
  }

  /** When `p` does not end with "-", no "--" in `p + "--" + q` starts inside `p` and runs past it. */
  lemma DashesDoNotStraddle(p: string, q: string)
    requires p == [] || p[|p| - 1] != '-'
    ensures NoStraddle(p + "--" + q, "--", |p|)
  {
    var loc := p + "--" + q;
    forall j | |p| - 2 < j < |p|
      ensures !OccursAt(loc, "--", j)
    {
      if 0 <= j {
        assert loc[j] == p[|p| - 1];
        assert loc[j..j + 2][0] == loc[j];
      }
    }
  }

  /** `result.description?.join(" ") || …`: the joined segments, unless that join is empty. */
  function Description(description: Option<seq<string>>): (r: string)
    ensures r != []
    ensures description.None? || description.value in {[], [[]]} ==>
              r == "Traditional folk recording from the Library of Congress collection."
    ensures description.Some? && description.value !in {[], [[]]} ==> r == Join(description.value, " ")
    ensures description.Some? && |description.value| == 1 && description.value[0] != [] ==> r == description.value[0]
  {
    if description.Some? && Join(description.value, " ") != "" then
      Join(description.value, " ")
    else
      JoinEmpty(description.GetOr([]), " ");
      "Traditional folk recording from the Library of Congress collection."
  }

  /** Two description segments are joined with one space between them. */
  lemma DescriptionOfTwo(a: string, b: string)
    ensures Description(Some([a, b])) == a + " " + b
  {
    assert [a, b][1..] == [b];
    assert Join([a, b], " ") == a + " " + b;
  }

  /** `mapLOCToEntry`. */
  function ResultToEntry(res: LocResult): (e: Entry)
    ensures e.id == "loc-" + res.id && e.title == res.title
    ensures e.artist == (var c := FirstOf(res.contributor); if Truthy(c) then c.value else "Unknown Artist")
    ensures e.year == YearOfDate(res.date) && e.era == EraName(EraFromYear(e.year))
    ensures var location := FirstOf(res.location);
      && e.region == RegionName(RegionFromLocation(if Truthy(location) then location.value else ""))
      && e.country == CountryFromLocation(if Truthy(location) then location.value else "")
    ensures e.tags == (if res.subject.Some? then Take(res.subject.value, MaxTags) else ["folk", "traditional"])
    ensures e.description == Description(res.description)
    ensures e.audio == res.url
    ensures e.media == (if Truthy(res.url) then [res.url.value] else [])
    ensures e.imageUrl == (var i := FirstOf(res.imageUrl); if Truthy(i) then i else None)
    ensures Classified(e)
  {
    var year := YearOfDate(res.date);
    var location := StrOr(FirstOf(res.location), "");
    var region := RegionFromLocation(location);
    var era := EraFromYear(year);
    var e := Entry(
      id := "loc-" + res.id,
      title := res.title,
      artist := StrOr(FirstOf(res.contributor), "Unknown Artist"),
      region := RegionName(region),
      country := CountryFromLocation(location),
      era := EraName(era),
      year := year,
      tags := if res.subject.Some? then Take(res.subject.value, MaxTags) else ["folk", "traditional"],
      description := Description(res.description),
      audio := res.url,
      media := if Truthy(res.url) then [res.url.value] else [],
      imageUrl := if Truthy(FirstOf(res.imageUrl)) then FirstOf(res.imageUrl) else None);
    LabelledIsClassified(e, region, era);
    e
  }

  /** The successful path of `fetchLibraryOfCongressMusic`: the kept results mapped in order; no entry's title mentions a collection. */
  function ProcessResults(results: seq<LocResult>): (r: seq<Entry>)
    ensures var kept := Filter(results, Keep);
      |r| == |kept| && forall i :: 0 <= i < |r| ==> r[i] == ResultToEntry(kept[i])
    ensures forall i :: 0 <= i < |r| ==>
      r[i].title != "" && !Contains(Lower(r[i].title), "collection") && Classified(r[i])
  {
    MapSeq(Filter(results, Keep), ResultToEntry)
  }

  /** `fetchLibraryOfCongressMusic`: any failure yields no entries. */
  function FetchLibraryOfCongressMusic(response: Response<LocResult>): (r: seq<Entry>)
    ensures response.Failed? ==> r == []
    ensures response.Received? ==> r == ProcessResults(response.records)
  {
    match response
    case Received(results) => ProcessResults(results)
    case Failed(_) => []
  }
}
