/**
 * The browse page's pure logic: the `filteredEntries` memo (query, region,
 * era and tag filters, then an optional sort), tag toggling and filter reset.
 */
module Browse {
  import opened Wrappers
  import opened JsStrings
  import opened Seqs
  import opened StableSort
  import opened Music

  const AllRegions := "All Regions"
  const AllEras := "All Eras"

  /** The initial `FilterState` of the page. */
  const DefaultFilters := FilterState("", AllRegions, AllEras, [], Relevance)

  /** The query test on an already lower-cased query: a substring of a lower-cased title, artist, country, region or tag. */
  predicate MatchesQuery(e: Entry, q: string)
  {
    || Contains(Lower(e.title), q)
    || Contains(Lower(e.artist), q)
    || Contains(Lower(e.country), q)
    || Contains(Lower(e.region), q)
    || exists i :: 0 <= i < |e.tags| && Contains(Lower(e.tags[i]), q)
  }

  /** `filters.tags.some((tag) => entry.tags.includes(tag))`. */
  predicate SharesTag(e: Entry, selected: seq<string>)
  {
    exists i :: 0 <= i < |selected| && selected[i] in e.tags
  }

  /** The four filters as one condition, each switched off by its default value. */
  predicate Passes(f: FilterState, e: Entry)
  {
    && (f.query == "" || MatchesQuery(e, Lower(f.query)))
    && (f.region == AllRegions || e.region == f.region)
    && (f.era == AllEras || e.era == f.era)
    && (|f.tags| == 0 || SharesTag(e, f.tags))
  }

  /** `if (filters.query) result = result.filter(…)`. */
  function QueryStep(xs: seq<Entry>, f: FilterState): seq<Entry>
  {
    if f.query != "" then Filter(xs, (e: Entry) => MatchesQuery(e, Lower(f.query))) else xs
  }

  /** `if (filters.region !== "All Regions") result = result.filter(…)`. */
  function RegionStep(xs: seq<Entry>, f: FilterState): seq<Entry>
  {
    if f.region != AllRegions then Filter(xs, (e: Entry) => e.region == f.region) else xs
  }

  /** `if (filters.era !== "All Eras") result = result.filter(…)`. */
  function EraStep(xs: seq<Entry>, f: FilterState): seq<Entry>
  {
    if f.era != AllEras then Filter(xs, (e: Entry) => e.era == f.era) else xs
  }

  /** `if (filters.tags.length > 0) result = result.filter(…)`. */
  function TagStep(xs: seq<Entry>, f: FilterState): seq<Entry>
  {
    if |f.tags| > 0 then Filter(xs, (e: Entry) => SharesTag(e, f.tags)) else xs
  }

  /** The four filter steps of the memo, in the page's order; the result is an order-preserving selection. */
  function Prefilter(entries: seq<Entry>, f: FilterState): (r: seq<Entry>)
    ensures IsSubseq(r, entries)
  {
    var r := TagStep(EraStep(RegionStep(QueryStep(entries, f), f), f), f);
    PrefilterIsOneFilter(entries, f);
    r
  }

  /** A guarded filter step is a plain filter by "switched off, or the test holds". */
  lemma GuardedStep(xs: seq<Entry>, on: bool, test: Entry -> bool, pass: Entry -> bool)
    requires forall e :: pass(e) == (!on || test(e))
    ensures (if on then Filter(xs, test) else xs) == Filter(xs, pass)
  {
    if on {
      FilterExt(xs, test, pass);
    } else {
      FilterAll(xs, pass);
    }
  }

  /** The four steps together keep exactly the entries passing all four filters, in order. */
  lemma PrefilterIsOneFilter(entries: seq<Entry>, f: FilterState)
    ensures TagStep(EraStep(RegionStep(QueryStep(entries, f), f), f), f) == Filter(entries, (e: Entry) => Passes(f, e))
  {
    var p1 := (e: Entry) => f.query == "" || MatchesQuery(e, Lower(f.query));
    var p2 := (e: Entry) => f.region == AllRegions || e.region == f.region;
    var p3 := (e: Entry) => f.era == AllEras || e.era == f.era;
    var p4 := (e: Entry) => |f.tags| == 0 || SharesTag(e, f.tags);
    var s1 := QueryStep(entries, f);
    var s2 := RegionStep(s1, f);
    var s3 := EraStep(s2, f);
    GuardedStep(entries, f.query != "", (e: Entry) => MatchesQuery(e, Lower(f.query)), p1);
    GuardedStep(s1, f.region != AllRegions, (e: Entry) => e.region == f.region, p2);
    GuardedStep(s2, f.era != AllEras, (e: Entry) => e.era == f.era, p3);
    GuardedStep(s3, |f.tags| > 0, (e: Entry) => SharesTag(e, f.tags), p4);
    FilterFour(entries, p1, p2, p3, p4, (e: Entry) => Passes(f, e));
  }

  /** The sort key of "newest": larger years first, a missing year counting as 0 (`b.year || 0`). */
  function NewestKey(e: Entry): int
  {
    -(e.year.GetOr(0))
  }

  /** The sort key of "era": the collation rank of the era label. */
  function EraKey(rank: string -> int): Entry -> int
  {
    (e: Entry) => rank(e.era)
  }

  /** The sort key of "region": the collation rank of the region label. */
  function RegionKey(rank: string -> int): Entry -> int
  {
    (e: Entry) => rank(e.region)
  }

  /**
   * The `switch (filters.sortBy)` of the memo: "relevance" keeps the order,
   * the others sort stably. `rank` stands for the order `localeCompare` puts
   * on era and region labels.
   */
  function SortStep(xs: seq<Entry>, sortBy: SortBy, rank: string -> int): (r: seq<Entry>)
    ensures multiset(r) == multiset(xs)
    ensures sortBy == Relevance ==> r == xs
    ensures sortBy == Newest ==> forall i, j :: 0 <= i < j < |r| ==> r[i].year.GetOr(0) >= r[j].year.GetOr(0)
    ensures sortBy == Newest ==> forall k :: WithKey(r, NewestKey, k) == WithKey(xs, NewestKey, k)
    ensures sortBy == EraOrder ==> forall i, j :: 0 <= i < j < |r| ==> rank(r[i].era) <= rank(r[j].era)
    ensures sortBy == EraOrder ==> forall k :: WithKey(r, EraKey(rank), k) == WithKey(xs, EraKey(rank), k)
    ensures sortBy == RegionOrder ==> forall i, j :: 0 <= i < j < |r| ==> rank(r[i].region) <= rank(r[j].region)
    ensures sortBy == RegionOrder ==> forall k :: WithKey(r, RegionKey(rank), k) == WithKey(xs, RegionKey(rank), k)
  {
    match sortBy
    case Newest =>
      var r := SortByKey(xs, NewestKey);
      assert SortedBy(r, NewestKey);
      SortByKeyStableAll(xs, NewestKey);
      r
    case EraOrder =>
      var r := SortByKey(xs, EraKey(rank));
      assert SortedBy(r, EraKey(rank));
      SortByKeyStableAll(xs, EraKey(rank));
      r
    case RegionOrder =>
      var r := SortByKey(xs, RegionKey(rank));
      assert SortedBy(r, RegionKey(rank));
      SortByKeyStableAll(xs, RegionKey(rank));
      r
    case Relevance => xs
  }

  /** The `filteredEntries` memo: the four filters, then the sort. */
  function FilteredEntries(entries: seq<Entry>, f: FilterState, rank: string -> int): (r: seq<Entry>)
    ensures multiset(r) == multiset(Prefilter(entries, f))
    ensures f.sortBy == Relevance ==> r == Prefilter(entries, f)
  {
    SortStep(Prefilter(entries, f), f.sortBy, rank)
  }

  /** Membership: an entry is shown exactly when it is loaded and passes all four filters, whatever the sort. */
  lemma ShownIffPasses(entries: seq<Entry>, f: FilterState, rank: string -> int, e: Entry)
    ensures e in FilteredEntries(entries, f, rank) <==> e in entries && Passes(f, e)
  {
    var r := FilteredEntries(entries, f, rank);
    var pre := Prefilter(entries, f);
    PrefilterIsOneFilter(entries, f);
    assert e in r <==> e in multiset(r);
    assert e in pre <==> e in multiset(pre);
    if e in entries && Passes(f, e) {
      var i :| 0 <= i < |entries| && entries[i] == e;
    }
  }

  /** With the default filter state the page shows the loaded entries unchanged. */
  lemma DefaultShowsAll(entries: seq<Entry>, rank: string -> int)
    ensures FilteredEntries(entries, DefaultFilters, rank) == entries
  {
  }

  /** The filter predicate `t !== tag`. */
  function Other(tag: string): string -> bool
  {
    t => t != tag
  }

  /** `handleTagToggle`: remove every occurrence of a selected tag, or append an unselected one. */
  function ToggleTag(f: FilterState, tag: string): (g: FilterState)
    ensures g.query == f.query && g.region == f.region && g.era == f.era && g.sortBy == f.sortBy
    ensures tag in g.tags <==> tag !in f.tags
    ensures forall t :: t != tag ==> (t in g.tags <==> t in f.tags)
  {
    if tag in f.tags then
      var tags := Filter(f.tags, Other(tag));
      assert forall t :: t != tag && t in f.tags ==> t in tags by {
        forall t | t != tag && t in f.tags
          ensures t in tags
        {
          var i :| 0 <= i < |f.tags| && f.tags[i] == t;
        }
      }
      f.(tags := tags)
    else f.(tags := f.tags + [tag])
  }

  /** Toggling an unselected tag twice restores the state. */
  lemma ToggleTwiceAbsent(f: FilterState, tag: string)
    requires tag !in f.tags
    ensures ToggleTag(ToggleTag(f, tag), tag) == f
  {
    FilterAppend(f.tags, [tag], Other(tag));
    FilterAll(f.tags, Other(tag));
    FilterNone([tag], Other(tag));
  }

  /** Toggling a selected tag twice collapses its occurrences into one, moved to the end. */
  lemma ToggleTwicePresent(f: FilterState, tag: string)
    requires tag in f.tags
    ensures ToggleTag(ToggleTag(f, tag), tag).tags == Filter(f.tags, Other(tag)) + [tag]
  {
  }

  /** `handleResetFilters`: the default state, whatever the current one. */
  function ResetFilters(f: FilterState): (g: FilterState)
    ensures g.query == "" && g.region == AllRegions && g.era == AllEras && g.tags == [] && g.sortBy == Relevance
  {
    DefaultFilters
  }

  /** After a reset the page shows the loaded entries unchanged. */
  lemma ResetShowsAll(entries: seq<Entry>, f: FilterState, rank: string -> int)
    ensures FilteredEntries(entries, ResetFilters(f), rank) == entries
  {
    DefaultShowsAll(entries, rank);
  }
}
