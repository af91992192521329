/** The common record every source normalises into, and the browse page's filter state. */
module Music {
  import opened Wrappers
  import opened Taxonomy

  /** `FolkMusicEntry`; `year` is None both when absent and when parseInt gave NaN. */
  datatype Entry = Entry(
    id: string,
    title: string,
    artist: string,
    region: string,
    country: string,
    era: string,
    year: Option<int>,
    tags: seq<string>,
    description: string,
    audio: Option<string>,
    media: seq<string>,
    imageUrl: Option<string>)

  /** What every adapter guarantees of its entries: bucket labels from the fixed enumerations, at most five tags. */
  predicate Classified(e: Entry)
  {
    e.region in RegionLabels && e.era in EraLabels && |e.tags| <= 5
  }

  /** An entry whose labels name a region and an era and that has at most five tags is classified. */
  lemma LabelledIsClassified(e: Entry, region: Region, era: Era)
    requires e.region == RegionName(region) && e.era == EraName(era) && |e.tags| <= 5
    ensures Classified(e)
  {
    RegionNameInjective(region, region);
    EraNameInjective(era, era);
  }

  /** `FilterState.sortBy`. */
  datatype SortBy = Relevance | Newest | EraOrder | RegionOrder

  /** `FilterState`. */
  datatype FilterState = FilterState(
    query: string,
    region: string,
    era: string,
    tags: seq<string>,
    sortBy: SortBy)

  /** Why a request produced no decoded body: transport, HTTP status, or JSON shape. */
  datatype FetchError = NetworkError | HttpStatus(code: int) | MalformedBody

  /** The outcome of one request to a source, with the body already decoded into records. */
  datatype Response<T> = Received(records: seq<T>) | Failed(error: FetchError)
}
