/**
 * The Smithsonian Folkways adapter: without an API key nothing is fetched;
 * otherwise keep the rows typed as sound or audio and classify each from its
 * first place and first culture together.
 */
module Smithsonian {
  import opened Wrappers
  import opened JsStrings
  import opened Seqs
  import opened Taxonomy
  import opened Music

  /** `{ content?: string }`, the element type of the free-text arrays and the descriptive title. */
  datatype TextItem = TextItem(content: Option<string>)

  /** `content.descriptiveNonRepeating`; only the title is read. */
  datatype Descriptive = Descriptive(title: Option<TextItem>)

  /** `content.indexedStructured`. */
  datatype Indexed = Indexed(
    date: Option<seq<string>>,
    place: Option<seq<string>>,
    topic: Option<seq<string>>,
    culture: Option<seq<string>>,
    objectType: Option<seq<string>>)

  /** `content.freetext`. */
  datatype Freetext = Freetext(notes: Option<seq<TextItem>>, physicalDescription: Option<seq<TextItem>>)

  datatype Content = Content(
    descriptive: Option<Descriptive>,
    indexed: Option<Indexed>,
    freetext: Option<Freetext>)

  /** `SmithsonianRow`. */
  datatype Row = Row(id: string, title: string, content: Option<Content>)

  const MaxTags := 5

  /** One `object_type` value names a recording. */
  predicate IsAudioType(t: string)
  {
    Contains(Lower(t), "sound") || Contains(Lower(t), "audio")
  }

  /** `row.content?.indexedStructured?.object_type`, absent at any missing level. */
  function ObjectTypes(row: Row): Option<seq<string>>
  {
    if row.content.Some? && row.content.value.indexed.Some? then row.content.value.indexed.value.objectType
    else None
  }

  /** The row filter of `fetchSmithsonianFolkways`: some object type is a sound or audio type; no types, no row. */
  predicate Keep(row: Row)
  {
    var types := ObjectTypes(row);
    types.Some? && exists i :: 0 <= i < |types.value| && IsAudioType(types.value[i])
  }

  /** `content?.indexedStructured` with every array absent when the level itself is. */
  function IndexedOf(row: Row): Indexed
  {
    if row.content.Some? && row.content.value.indexed.Some? then row.content.value.indexed.value
    else Indexed(None, None, None, None, None)
  }

  /** `xs?.[0]?.content` for an optional array of text items. */
  function FirstContent(items: Option<seq<TextItem>>): Option<string>
  {
    if items.Some? && |items.value| > 0 then items.value[0].content else None
  }

  /** The rules of `getRegionFromPlace`, in order, on the lower-cased `place + " " + culture`. */
  const PlaceRules: seq<Rule> := [
    Rule(["europe", "british", "irish", "french"], [], WesternEurope),
    Rule(["africa"], ["north"], SubSaharanAfrica),
    Rule(["north africa", "egypt", "morocco"], [], NorthAfrica),
    Rule(["india", "pakistan", "nepal"], [], SouthAsia),
    Rule(["china", "japan", "korea"], [], EastAsia),
    Rule(["america", "united states", "canada"], [], NorthAmerica),
    Rule(["mexico", "central america"], [], CentralAmerica),
    Rule(["brazil", "argentina", "south america"], [], SouthAmerica),
    Rule(["australia", "oceania", "pacific"], [], Oceania)
  ]

  /** The text `getRegionFromPlace` searches. */
  function PlaceText(place: string, culture: string): string
  {
    Lower(place + " " + culture)
  }

  /** `getRegionFromPlace`: the first matching rule's region, Global when none matches. */
  function RegionFromPlace(place: string, culture: string): (r: Region)
    ensures (forall i :: 0 <= i < |PlaceRules| ==> !Matches(PlaceRules[i], PlaceText(place, culture))) ==> r == Global
    ensures forall i :: 0 <= i < |PlaceRules| && Matches(PlaceRules[i], PlaceText(place, culture))
                        && (forall j :: 0 <= j < i ==> !Matches(PlaceRules[j], PlaceText(place, culture)))
              ==> r == PlaceRules[i].region
  {
    Classify(PlaceRules, PlaceText(place, culture))
  }

  /** The cascade index at which each region sits in `PlaceRules`. */
  lemma PlaceRuleAt(i: nat)
    requires i < |PlaceRules|
    ensures PlaceRules[i].region == WesternEurope ==> i == 0
    ensures PlaceRules[i].region == SubSaharanAfrica ==> i == 1
    ensures PlaceRules[i].region == CentralAmerica ==> i == 6
    ensures PlaceRules[i].region == SouthAmerica ==> i == 7
  {
  }

  /** The Western Europe keywords are tried before any African rule: "french" wins over "africa". */
  lemma WesternEuropeFirst(place: string, culture: string)
    requires Matches(PlaceRules[0], PlaceText(place, culture))
    ensures RegionFromPlace(place, culture) == WesternEurope
  {
    ClassifyStopsBy(PlaceRules, PlaceText(place, culture), 0);
  }

  /**
   * Once the Western Europe rule has passed, "africa" without "north" is
   * sub-Saharan, even when "egypt" or "morocco" also occur.
   */
  lemma AfricaBeatsEgypt(place: string, culture: string)
    requires !Matches(PlaceRules[0], PlaceText(place, culture))
    requires Contains(PlaceText(place, culture), "africa") && !Contains(PlaceText(place, culture), "north")
    ensures RegionFromPlace(place, culture) == SubSaharanAfrica
  {
    var text := PlaceText(place, culture);
    assert Contains(text, PlaceRules[1].anyOf[0]);
    assert !ContainsAny(text, PlaceRules[1].noneOf);
    assert Matches(PlaceRules[1], text);
  }

  /** A sub-Saharan answer means "africa" occurs and "north" does not. */
  lemma SubSaharanMeansAfricaNotNorth(place: string, culture: string)
    requires RegionFromPlace(place, culture) == SubSaharanAfrica
    ensures Contains(PlaceText(place, culture), "africa") && !Contains(PlaceText(place, culture), "north")
  {
    var text := PlaceText(place, culture);
    var i := FirstMatch(PlaceRules, text).value;
    PlaceRuleAt(i);
    var rule := PlaceRules[1];
    assert rule.anyOf == ["africa"] && rule.noneOf == ["north"];
    assert Matches(rule, text);
    assert !Contains(text, rule.noneOf[0]);
  }

  /**
   * "india" is tried before "america": once the European and African rules
   * have passed, a text naming India is South Asian whatever else it names,
   * so "American Indian" lands in South Asia.
   */
  lemma IndiaBeforeAmerica(place: string, culture: string)
    requires forall j :: 0 <= j < 3 ==> !Matches(PlaceRules[j], PlaceText(place, culture))
    requires Contains(PlaceText(place, culture), "india")
    ensures RegionFromPlace(place, culture) == SouthAsia
  {
    var text := PlaceText(place, culture);
    assert Contains(text, PlaceRules[3].anyOf[0]);
    assert Matches(PlaceRules[3], text);
  }

  /** The word "america" is claimed by the North America rule: a Central or South American answer never comes from a text naming it. */
  lemma AmericaGoesNorth(place: string, culture: string)
    requires RegionFromPlace(place, culture) in {CentralAmerica, SouthAmerica}
    ensures !Contains(PlaceText(place, culture), "america")
  {
    var text := PlaceText(place, culture);
    var i := FirstMatch(PlaceRules, text).value;
    PlaceRuleAt(i);
    assert !Matches(PlaceRules[5], text);
    assert PlaceRules[5].anyOf[0] == "america";
  }

  /** So the "central america" keyword never fires: a Central American answer needs "mexico". */
  lemma CentralAmericaNeedsMexico(place: string, culture: string)
    requires RegionFromPlace(place, culture) == CentralAmerica
    ensures Contains(PlaceText(place, culture), "mexico")
  {
    AmericaGoesNorth(place, culture);
    CentralRuleNeedsMexico(PlaceText(place, culture));
  }

  lemma CentralRuleNeedsMexico(text: string)
    requires Classify(PlaceRules, text) == CentralAmerica && !Contains(text, "america")
    ensures Contains(text, "mexico")
  {
    var i := FirstMatch(PlaceRules, text).value;
    PlaceRuleAt(i);
    var rule := PlaceRules[6];
    assert Matches(rule, text);
    CentralAmericaNamesAmerica(text);
    FirstKeyMatched(text, rule.anyOf);
  }

  /** Likewise the "south america" keyword never fires: a South American answer needs Brazil or Argentina. */
  lemma SouthAmericaNeedsBrazilOrArgentina(place: string, culture: string)
    requires RegionFromPlace(place, culture) == SouthAmerica
    ensures Contains(PlaceText(place, culture), "brazil") || Contains(PlaceText(place, culture), "argentina")
  {
    AmericaGoesNorth(place, culture);
    SouthRuleNeedsBrazilOrArgentina(PlaceText(place, culture));
  }

  lemma SouthRuleNeedsBrazilOrArgentina(text: string)
    requires Classify(PlaceRules, text) == SouthAmerica && !Contains(text, "america")
    ensures Contains(text, "brazil") || Contains(text, "argentina")
  {
    var i := FirstMatch(PlaceRules, text).value;
    PlaceRuleAt(i);
    var rule := PlaceRules[7];
    assert Matches(rule, text);
    SouthAmericaNamesAmerica(text);
    FirstTwoKeysMatched(text, rule.anyOf);
  }

  /** `const description = notes || physicalDesc || …`. */
  function Description(notes: string, physical: string): (r: string)
    ensures r != []
    ensures notes != [] ==> r == notes
    ensures notes == [] && physical != [] ==> r == physical
    ensures notes == [] && physical == [] ==> r == "Traditional music from the Smithsonian Folkways collection."
  {
    if notes != [] then notes
    else if physical != [] then physical
    else "Traditional music from the Smithsonian Folkways collection."
  }

  /** `indexed?.place?.[0] || ""`. */
  function Place(row: Row): string
  {
    StrOr(FirstOf(IndexedOf(row).place), "")
  }

  /** `indexed?.culture?.[0] || ""`. */
  function Culture(row: Row): string
  {
    StrOr(FirstOf(IndexedOf(row).culture), "")
  }

  /** `content?.descriptiveNonRepeating?.title?.content`. */
  function DescriptiveTitle(row: Row): Option<string>
  {
    var content := row.content;
    if content.Some? && content.value.descriptive.Some? && content.value.descriptive.value.title.Some?
    then content.value.descriptive.value.title.value.content
    else None
  }

  /** `content?.freetext?.notes?.[0]?.content || ""` and the same for `physicalDescription`. */
  function Notes(row: Row): string
  {
    var freetext := if row.content.Some? then row.content.value.freetext else None;
    StrOr(if freetext.Some? then FirstContent(freetext.value.notes) else None, "")
  }

  function PhysicalDescription(row: Row): string
  {
    var freetext := if row.content.Some? then row.content.value.freetext else None;
    StrOr(if freetext.Some? then FirstContent(freetext.value.physicalDescription) else None, "")
  }

  /** `mapSmithsonianToEntry`. */
  function RowToEntry(row: Row): (e: Entry)
    ensures e.id == "smithsonian-" + row.id
    ensures e.title == (if Truthy(DescriptiveTitle(row)) then DescriptiveTitle(row).value else row.title)
    ensures e.artist == (if Culture(row) != [] then Culture(row) else "Traditional Artists")
    ensures e.country == (if Place(row) != [] then Place(row) else "Unknown")
    ensures e.region == RegionName(RegionFromPlace(Place(row), Culture(row)))
    ensures e.year == YearOfDate(FirstOf(IndexedOf(row).date)) && e.era == EraName(EraFromYear(e.year))
    ensures e.tags == (if IndexedOf(row).topic.Some? then Take(IndexedOf(row).topic.value, MaxTags)
                       else ["folk", "traditional"])
    ensures e.description == Description(Notes(row), PhysicalDescription(row))
    ensures e.media == [] && e.audio.None? && e.imageUrl.None?
    ensures Classified(e)
  {
    var indexed := IndexedOf(row);
    var year := YearOfDate(FirstOf(indexed.date));
    var region := RegionFromPlace(Place(row), Culture(row));
    var era := EraFromYear(year);
    var e := Entry(
      id := "smithsonian-" + row.id,
      title := StrOr(DescriptiveTitle(row), row.title),
      artist := StrOr(Some(Culture(row)), "Traditional Artists"),
      region := RegionName(region),
      country := StrOr(Some(Place(row)), "Unknown"),
      era := EraName(era),
      year := year,
      tags := if indexed.topic.Some? then Take(indexed.topic.value, MaxTags) else ["folk", "traditional"],
      description := Description(Notes(row), PhysicalDescription(row)),
      audio := None,
      media := [],
      imageUrl := None);
    LabelledIsClassified(e, region, era);
    e
  }

  /** The successful path of `fetchSmithsonianFolkways`: the rows typed as recordings, mapped in order. */
  function ProcessRows(rows: seq<Row>): (r: seq<Entry>)
    ensures var kept := Filter(rows, Keep);
      |r| == |kept| && forall i :: 0 <= i < |r| ==> r[i] == RowToEntry(kept[i]) && Keep(kept[i])
    ensures forall i :: 0 <= i < |r| ==> r[i].media == [] && Classified(r[i])
  {
    MapSeq(Filter(rows, Keep), RowToEntry)
  }

  /** `fetchSmithsonianFolkways`: with no API key nothing is requested and nothing returned; any failure yields no entries. */
  function FetchSmithsonianFolkways(apiKey: string, response: Response<Row>): (r: seq<Entry>)
    ensures apiKey == [] ==> r == []
    ensures apiKey != [] && response.Failed? ==> r == []
    ensures apiKey != [] && response.Received? ==> r == ProcessRows(response.records)
  {
    if apiKey == [] then []
    else
      match response
      case Received(rows) => ProcessRows(rows)
      case Failed(_) => []
  }
}
