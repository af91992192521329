/**
 * The aggregator: concatenate the MusicBrainz, Library of Congress and
 * Smithsonian lists in that order, then drop every entry whose normalised
 * title-and-artist key was already seen.
 */
module UnifiedFetcher {
  import opened Wrappers
  import opened JsStrings
  import opened Seqs
  import opened Music
  import opened Dedupe
  import MusicBrainz
  import LibraryOfCongress
  import Smithsonian

  /** The characters `normalizeForDedup` keeps: `[a-z0-9]`. */
  predicate IsKeyChar(c: char)
  {
    ('a' <= c <= 'z') || ('0' <= c <= '9')
  }

  predicate IsKeyString(s: string)
  {
    forall i :: 0 <= i < |s| ==> IsKeyChar(s[i])
  }

  /** The inner `normalize` of `normalizeForDedup`: lower-case, drop everything outside `[a-z0-9]`, trim. */
  function Normalize(s: string): (r: string)
    ensures IsKeyString(r)
    ensures |r| <= |s|
  {
    var kept := Filter(Lower(s), IsKeyChar);
    KeyStringTrimmed(kept);
    Trim(kept)
  }

  /** Key characters are never whitespace, so the final `trim` changes nothing. */
  lemma KeyStringTrimmed(s: string)
    requires IsKeyString(s)
    ensures Trim(s) == s
  {
    if s != [] {
      assert IsKeyChar(s[0]) && IsKeyChar(s[|s| - 1]);
    }
  }

  /** A string of key characters is its own normal form. */
  lemma {:induction false} NormalizeKeyString(s: string)
    requires IsKeyString(s)
    ensures Normalize(s) == s
  {
    assert Lower(s) == s by {
      forall i | 0 <= i < |s|
        ensures Lower(s)[i] == s[i]
      {
        assert IsKeyChar(s[i]);
      }
    }
    FilterAll(s, IsKeyChar);
    KeyStringTrimmed(s);
  }

  /** The normal forms are exactly the strings over `[a-z0-9]`. */
  lemma NormalizeFixedPoints(s: string)
    ensures Normalize(s) == s <==> IsKeyString(s)
  {
    if IsKeyString(s) {
      NormalizeKeyString(s);
    }
  }

  /** Normalising twice is normalising once. */
  lemma NormalizeIdempotent(s: string)
    ensures Normalize(Normalize(s)) == Normalize(s)
  {
    NormalizeKeyString(Normalize(s));
  }

  /** Letter case does not matter to the normal form. */
  lemma NormalizeIgnoresCase(s: string)
    ensures Normalize(Lower(s)) == Normalize(s)
  {
    LowerIdempotent(s);
  }

  /**
   * `normalizeForDedup(title, artist)`: the two normal forms around a `-`.
   * Neither normal form holds a `-`, so the key's only dash marks where the
   * title ends.
   */
  function DedupKey(title: string, artist: string): (k: string)
    ensures |k| == |Normalize(title)| + 1 + |Normalize(artist)|
    ensures k[|Normalize(title)|] == '-'
    ensures forall i :: 0 <= i < |k| && k[i] == '-' ==> i == |Normalize(title)|
  {
    var k := Normalize(title) + "-" + Normalize(artist);
    OnlyDashBetween(Normalize(title), Normalize(artist));
    k
  }

  lemma OnlyDashBetween(x: string, y: string)
    requires IsKeyString(x) && IsKeyString(y)
    ensures forall i :: 0 <= i < |x + "-" + y| && (x + "-" + y)[i] == '-' ==> i == |x|
  {
    var k := x + "-" + y;
    forall i | 0 <= i < |k| && i != |x|
      ensures IsKeyChar(k[i])
    {
      if i < |x| {
        assert k[i] == x[i];
      } else {
        assert k[i] == y[i - |x| - 1];
      }
    }
    assert !IsKeyChar('-');
  }

  /** Around a separator that occurs in neither left part, equal joins have equal parts. */
  lemma SeparatedPartsEqual(x: string, y: string, u: string, v: string, c: char)
    requires c !in x && c !in u && x + [c] + y == u + [c] + v
    ensures x == u && y == v
  {
    var s := x + [c] + y;
    assert s[|x|] == c;
    assert (u + [c] + v)[|u|] == c;
    assert forall i :: 0 <= i < |x| ==> s[i] == x[i];
    assert forall i :: 0 <= i < |u| ==> s[i] == u[i];
    assert |x| == |u|;
    assert x == s[..|x|] && u == s[..|u|];
    assert y == s[|x| + 1..] && v == s[|u| + 1..];
  }

  /** Neither part can hold `-`, so the key determines both normalised parts. */
  lemma DedupKeyInjective(t1: string, a1: string, t2: string, a2: string)
    requires DedupKey(t1, a1) == DedupKey(t2, a2)
    ensures Normalize(t1) == Normalize(t2) && Normalize(a1) == Normalize(a2)
  {
    NoDash(Normalize(t1));
    NoDash(Normalize(t2));
    SeparatedPartsEqual(Normalize(t1), Normalize(a1), Normalize(t2), Normalize(a2), '-');
  }

  lemma NoDash(s: string)
    requires IsKeyString(s)
    ensures '-' !in s
  {
    assert !IsKeyChar('-');
  }

  /** An ASCII letter or digit: the characters that survive normalisation in some letter case. */
  predicate IsAsciiAlnum(c: char)
  {
    IsKeyChar(c) || IsAsciiUpper(c)
  }

  /** Characters other than ASCII letters and digits are dropped wherever they are appended. */
  lemma NormalizeDropsPunctuation(s: string, p: string)
    requires forall i :: 0 <= i < |p| ==> !IsAsciiAlnum(p[i])
    ensures Normalize(s + p) == Normalize(s)
  {
    LowerAppend(s, p);
    forall i | 0 <= i < |Lower(p)|
      ensures !IsKeyChar(Lower(p)[i])
    {
      assert Lower(p)[i] == LowerChar(p[i]) == p[i];
    }
    FilterNone(Lower(p), IsKeyChar);
    FilterAppend(Lower(s), Lower(p), IsKeyChar);
    assert Filter(Lower(s + p), IsKeyChar) == Filter(Lower(s), IsKeyChar);
  }

  /** The normal form depends on the lower-cased text only. */
  lemma NormalizeSameLower(s: string, t: string)
    requires Lower(s) == Lower(t)
    ensures Normalize(s) == Normalize(t)
  {
  }

  /**
   * Letter case and trailing punctuation do not change the key: so
   * ("Song", "X") and ("SONG!", "x") share one.
   */
  lemma KeyIgnoresCaseAndPunctuation(t1: string, a1: string, t2: string, a2: string, p: string)
    requires Lower(t1) == Lower(t2) && Lower(a1) == Lower(a2)
    requires forall i :: 0 <= i < |p| ==> !IsAsciiAlnum(p[i])
    ensures DedupKey(t1, a1) == DedupKey(t2 + p, a2)
  {
    NormalizeDropsPunctuation(t2, p);
    NormalizeSameLower(t1, t2);
    NormalizeSameLower(a1, a2);
  }

  function EntryKey(e: Entry): string
  {
    DedupKey(e.title, e.artist)
  }

  /** `deduplicateEntries`: keep the first entry of each key, in order; every key survives exactly once. */
  function DedupEntries(xs: seq<Entry>): (r: seq<Entry>)
    ensures IsSubseq(r, xs)
    ensures DistinctBy(r, EntryKey)
    ensures KeySet(r, EntryKey) == KeySet(xs, EntryKey)
    ensures FirstOccurrencesOnly(r, xs, EntryKey)
  {
    Dedup(xs, EntryKey)
  }

  /** The `allEntries` spread: MusicBrainz, then Library of Congress, then Smithsonian. */
  function Combine(mb: seq<Entry>, loc: seq<Entry>, sm: seq<Entry>): (r: seq<Entry>)
    ensures |r| == |mb| + |loc| + |sm|
    ensures r[..|mb|] == mb && r[|mb|..|mb| + |loc|] == loc && r[|mb| + |loc|..] == sm
  {
    mb + loc + sm
  }

  /** The pure part of `fetchAllFolkMusic`: combine, then deduplicate. */
  function Aggregate(mb: seq<Entry>, loc: seq<Entry>, sm: seq<Entry>): (r: seq<Entry>)
    ensures mb == [] && loc == [] && sm == [] ==> r == []
    ensures DistinctBy(r, EntryKey)
    ensures KeySet(r, EntryKey) == KeySet(mb, EntryKey) + KeySet(loc, EntryKey) + KeySet(sm, EntryKey)
    ensures IsSubseq(r, mb + loc + sm)
  {
    KeySetAppend(mb, loc, EntryKey);
    KeySetAppend(mb + loc, sm, EntryKey);
    DedupEntries(Combine(mb, loc, sm))
  }

  /**
   * MusicBrainz comes first: its deduplicated entries open the result
   * whatever the other sources return, and no later entry repeats one of
   * its keys.
   */
  lemma MusicBrainzWins(mb: seq<Entry>, loc: seq<Entry>, sm: seq<Entry>)
    ensures |DedupEntries(mb)| <= |Aggregate(mb, loc, sm)|
    ensures Aggregate(mb, loc, sm)[..|DedupEntries(mb)|] == DedupEntries(mb)
    ensures forall e :: e in Aggregate(mb, loc, sm)[|DedupEntries(mb)|..] ==> EntryKey(e) !in KeySet(mb, EntryKey)
  {
    assert Combine(mb, loc, sm) == mb + (loc + sm);
    DedupPrefixWins(mb, loc + sm, EntryKey);
  }

  /**
   * `fetchAllFolkMusic` from the three raw responses. The Internet Archive
   * adapter is not among them: the aggregator never calls it.
   */
  function FetchAllFolkMusic(
    mbResponse: Response<MusicBrainz.Artist>, sample: seq<Entry>, encode: string -> string,
    locResponse: Response<LibraryOfCongress.LocResult>,
    apiKey: string, smResponse: Response<Smithsonian.Row>): (r: seq<Entry>)
    ensures DistinctBy(r, EntryKey)
    ensures apiKey == [] ==> r == Aggregate(
      MusicBrainz.FetchFolkMusic(mbResponse, sample, encode),
      LibraryOfCongress.FetchLibraryOfCongressMusic(locResponse), [])
  {
    Aggregate(
      MusicBrainz.FetchFolkMusic(mbResponse, sample, encode),
      LibraryOfCongress.FetchLibraryOfCongressMusic(locResponse),
      Smithsonian.FetchSmithsonianFolkways(apiKey, smResponse))
  }

  /** When MusicBrainz and the Library of Congress fail and there is no Smithsonian key, only the sample remains, deduplicated. */
  lemma AllFailedGivesSample(
    mbError: FetchError, sample: seq<Entry>, encode: string -> string,
    locError: FetchError, smResponse: Response<Smithsonian.Row>)
    ensures FetchAllFolkMusic(Failed(mbError), sample, encode, Failed(locError), "", smResponse) == DedupEntries(sample)
  {
    assert sample + [] + [] == sample;
  }

  predicate AllClassified(xs: seq<Entry>)
  {
    forall i :: 0 <= i < |xs| ==> Classified(xs[i])
  }

  lemma AppendClassified(a: seq<Entry>, b: seq<Entry>)
    requires AllClassified(a) && AllClassified(b)
    ensures AllClassified(a + b)
  {
    forall i | 0 <= i < |a + b|
      ensures Classified((a + b)[i])
    {
      if i >= |a| {
        assert (a + b)[i] == b[i - |a|];
      }
    }
  }

  /** Deduplication keeps only input entries, so it keeps their classification. */
  lemma DedupClassified(xs: seq<Entry>)
    requires AllClassified(xs)
    ensures AllClassified(DedupEntries(xs))
  {
    DedupKeeps(xs, EntryKey, Classified);
  }

  lemma AggregateClassified(mb: seq<Entry>, loc: seq<Entry>, sm: seq<Entry>)
    requires AllClassified(mb) && AllClassified(loc) && AllClassified(sm)
    ensures AllClassified(Aggregate(mb, loc, sm))
  {
    AppendClassified(mb, loc);
    AppendClassified(mb + loc, sm);
    DedupClassified(mb + loc + sm);
  }

  /** Every aggregated entry carries a known region label, a known era label and at most five tags, provided the sample does. */
  lemma AggregatedEntriesClassified(
    mbResponse: Response<MusicBrainz.Artist>, sample: seq<Entry>, encode: string -> string,
    locResponse: Response<LibraryOfCongress.LocResult>,
    apiKey: string, smResponse: Response<Smithsonian.Row>)
    requires AllClassified(sample)
    ensures AllClassified(FetchAllFolkMusic(mbResponse, sample, encode, locResponse, apiKey, smResponse))
  {
    var mb := MusicBrainz.FetchFolkMusic(mbResponse, sample, encode);
    var loc := LibraryOfCongress.FetchLibraryOfCongressMusic(locResponse);
    var sm := Smithsonian.FetchSmithsonianFolkways(apiKey, smResponse);
    assert AllClassified(mb);
    assert AllClassified(loc);
    assert AllClassified(sm);
    AggregateClassified(mb, loc, sm);
  }
}
