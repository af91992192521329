/**
 * The MusicBrainz adapter: keep the artists that are not aggregate
 * identities, cap them at 50, and map each to an Entry keyed by its own
 * MusicBrainz id; on any failure fall back to the bundled sample entries.
 */
module MusicBrainz {
  import opened Wrappers
  import opened JsStrings
  import opened JsParseInt
  import opened Seqs
  import opened Taxonomy
  import opened Music

  datatype LifeSpan = LifeSpan(begin: Option<string>, end: Option<string>)

  datatype Tag = Tag(name: string, count: int)

  /** `MusicBrainzArtist`; `type` is renamed `artistType`. */
  datatype Artist = Artist(
    id: string,
    name: string,
    artistType: Option<string>,
    country: Option<string>,
    lifeSpan: Option<LifeSpan>,
    tags: Option<seq<Tag>>,
    disambiguation: Option<string>)

  /** The MusicBrainz id of the "Various Artists" pseudo-artist. */
  const VariousArtistsId := "89ad4ac3-39f7-470e-963a-56509c546377"

  const MaxArtists := 50

  const MaxTags := 5

  /** The artist filter of `fetchFolkMusic`. */
  predicate Keep(a: Artist)
  {
    && a.id != VariousArtistsId
    && !Contains(Lower(a.name), "various")
    && !Contains(Lower(a.name), "compilation")
    && a.artistType != Some("Other")
  }

  /**
   * `parseInt(begin.split("-")[0])` when the life span has a non-empty begin
   * date. Only the text before the first `-` is read, so a begin year is
   * never negative.
   */
  function BeginYear(a: Artist): (y: Option<int>)
    ensures y.Some? ==> y.value >= 0
    ensures a.lifeSpan.None? || !Truthy(a.lifeSpan.value.begin) ==> y.None?
  {
    if a.lifeSpan.Some? && Truthy(a.lifeSpan.value.begin) then
      var head := Split(a.lifeSpan.value.begin.value, "-")[0];
      UnsignedWithoutMinus(head);
      ParseInt(head)
    else None
  }

  lemma UnsignedWithoutMinus(head: string)
    requires !Contains(head, "-")
    ensures ParseInt(head).Some? ==> ParseInt(head).value >= 0
  {
    assert '-' !in head by {
      forall i | 0 <= i < |head|
        ensures head[i] != '-'
      {
        assert !OccursAt(head, "-", i);
        assert head[i..i + 1] == [head[i]];
      }
    }
    NegativeNeedsMinus(head);
  }

  lemma DigitsHaveNoMinus(s: string)
    requires forall i :: 0 <= i < |s| ==> IsDecimalDigit(s[i])
    ensures !Contains(s, "-")
  {
    forall i | 0 <= i < |s|
      ensures !OccursAt(s, "-", i)
    {
      assert s[i..i + 1][0] == s[i];
    }
  }

  /** A begin date that is only a year, such as "1965", yields that year. */
  lemma BeginYearOfBareYear(a: Artist, n: nat)
    requires a.lifeSpan.Some? && a.lifeSpan.value.begin == Some(ShowNat(n))
    ensures BeginYear(a) == Some(n)
  {
    DigitsHaveNoMinus(ShowNat(n));
    assert Split(ShowNat(n), "-") == [ShowNat(n)];
    ParseIntShowNat(n);
  }

  /** An ISO date `YYYY-MM-DD` (any text after the first `-`) yields its year. */
  lemma BeginYearOfIsoDate(a: Artist, n: nat, rest: string)
    requires a.lifeSpan.Some? && a.lifeSpan.value.begin == Some(ShowNat(n) + "-" + rest)
    ensures BeginYear(a) == Some(n)
  {
    var digits := ShowNat(n);
    DigitsHaveNoMinus(digits);
    SplitFirstPiece(digits, "-", rest);
    assert Split(a.lifeSpan.value.begin.value, "-")[0] == digits;
    ParseIntShowNat(n);
  }

  /** A begin date written with a leading minus (a year before the common era) gives no year at all. */
  lemma BeginYearOfNegativeDate(a: Artist, rest: string)
    requires a.lifeSpan.Some? && a.lifeSpan.value.begin == Some("-" + rest)
    ensures BeginYear(a) == None
  {
    SplitFirstPiece("", "-", rest);
    assert "" + "-" + rest == "-" + rest;
    assert ParseInt("") == None;
  }

  /** The country-code table of `getRegionFromCountry`: exact, case-sensitive ISO codes. */
  const CountryRegions: map<string, Region> := map[
    "IE" := WesternEurope, "GB" := WesternEurope, "FR" := WesternEurope,
    "DE" := WesternEurope, "ES" := WesternEurope, "IT" := WesternEurope,
    "US" := NorthAmerica, "CA" := NorthAmerica,
    "MX" := CentralAmerica,
    "BR" := SouthAmerica, "AR" := SouthAmerica,
    "IN" := SouthAsia, "PK" := SouthAsia, "NP" := SouthAsia,
    "CN" := EastAsia, "JP" := EastAsia, "KR" := EastAsia,
    "ZA" := SubSaharanAfrica, "NG" := SubSaharanAfrica,
    "EG" := NorthAfrica, "MA" := NorthAfrica,
    "AU" := Oceania, "NZ" := Oceania
  ]

  /** `getRegionFromCountry`: a region other than Global exactly for the codes in the table. */
  function RegionFromCountry(country: Option<string>): (r: Region)
    ensures r != Global <==> Truthy(country) && country.value in CountryRegions
    ensures Truthy(country) && country.value in CountryRegions ==> r == CountryRegions[country.value]
  {
    if !Truthy(country) then Global
    else if country.value in CountryRegions then CountryRegions[country.value]
    else Global
  }

  /** The table is keyed by upper-case codes only: a lower-case code, or an empty one, is Global. */
  lemma RegionFromCountryExact()
    ensures RegionFromCountry(Some("IE")) == WesternEurope
    ensures RegionFromCountry(Some("ie")) == Global
    ensures RegionFromCountry(Some("")) == Global
  {
  }

  function TagName(t: Tag): string
  {
    t.name
  }

  /** `artist.tags?.slice(0, 5).map((t) => t.name) || ["folk"]` (an empty array is truthy). */
  function ArtistTags(a: Artist): (tags: seq<string>)
    ensures a.tags.None? ==> tags == ["folk"]
    ensures a.tags.Some? ==> |tags| == (if |a.tags.value| <= MaxTags then |a.tags.value| else MaxTags)
    ensures a.tags.Some? ==> forall i :: 0 <= i < |tags| ==> tags[i] == a.tags.value[i].name
  {
    if a.tags.Some? then MapSeq(Take(a.tags.value, MaxTags), TagName) else ["folk"]
  }

  /** An artist with an empty tag array gets no tags at all: an empty array is truthy, so `["folk"]` is not used. */
  lemma EmptyTagArrayGivesNoTags(a: Artist)
    requires a.tags == Some([])
    ensures ArtistTags(a) == []
  {
  }

  /** The sentence used when an artist has no disambiguation. */
  function FallbackDescription(a: Artist): string
  {
    a.name + " - Folk and traditional music artist from " + StrOr(a.country, "various regions") + "."
  }

  /** `mapArtistToEntry`; `encode` stands for `encodeURIComponent`. */
  function ArtistToEntry(a: Artist, encode: string -> string): (e: Entry)
    ensures e.id == a.id && e.title == a.name && e.artist == a.name
    ensures e.country == (if Truthy(a.country) then a.country.value else "Unknown")
    ensures e.year == BeginYear(a) && e.era == EraName(EraFromYear(BeginYear(a)))
    ensures e.region == RegionName(RegionFromCountry(a.country))
    ensures e.tags == ArtistTags(a)
    ensures e.description == (if Truthy(a.disambiguation) then a.disambiguation.value else FallbackDescription(a))
    ensures e.audio.None? && e.media == []
    ensures Classified(e)
  {
    var region := RegionFromCountry(a.country);
    var era := EraFromYear(BeginYear(a));
    var e := Entry(
      id := a.id,
      title := a.name,
      artist := a.name,
      region := RegionName(region),
      country := StrOr(a.country, "Unknown"),
      era := EraName(era),
      year := BeginYear(a),
      tags := ArtistTags(a),
      description := StrOr(a.disambiguation, FallbackDescription(a)),
      audio := None,
      media := [],
      imageUrl := Some("https://commons.wikimedia.org/wiki/Special:FilePath/" + encode(a.name) + ".jpg?width=300"));
    LabelledIsClassified(e, region, era);
    e
  }

  /**
   * The successful path of `fetchFolkMusic`: the first 50 kept artists,
   * mapped in order. No entry is the Various Artists identity or carries
   * "various"/"compilation" in its name, whatever the case.
   */
  function ProcessArtists(artists: seq<Artist>, encode: string -> string): (r: seq<Entry>)
    ensures |r| <= MaxArtists
    ensures var kept := Filter(artists, Keep);
      && |r| == (if |kept| <= MaxArtists then |kept| else MaxArtists)
      && forall i :: 0 <= i < |r| ==> r[i] == ArtistToEntry(kept[i], encode)
    ensures forall i :: 0 <= i < |r| ==> Classified(r[i])
  {
    MapSeq(Take(Filter(artists, Keep), MaxArtists), (a: Artist) => ArtistToEntry(a, encode))
  }

  /** No processed entry is the Various Artists identity or names "various" or "compilation", in any case. */
  lemma NoAggregateArtists(artists: seq<Artist>, encode: string -> string)
    ensures forall e :: e in ProcessArtists(artists, encode) ==>
      && e.id != VariousArtistsId
      && !Contains(Lower(e.title), "various")
      && !Contains(Lower(e.title), "compilation")
  {
    var kept := Filter(artists, Keep);
    var r := ProcessArtists(artists, encode);
    forall e | e in r
      ensures e.id != VariousArtistsId && !Contains(Lower(e.title), "various") && !Contains(Lower(e.title), "compilation")
    {
      var i :| 0 <= i < |r| && r[i] == e;
      assert Keep(kept[i]);
    }
  }

  /** `fetchFolkMusic`: any failure yields the bundled sample entries instead of an empty list. */
  function FetchFolkMusic(response: Response<Artist>, sample: seq<Entry>, encode: string -> string): (r: seq<Entry>)
    ensures response.Failed? ==> r == sample
    ensures response.Received? ==> r == ProcessArtists(response.records, encode)
  {
    match response
    case Received(artists) => ProcessArtists(artists, encode)
    case Failed(_) => sample
  }
}
