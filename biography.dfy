/** The biography text of `loadWikipediaBio`: the truncation applied to a
    fetched extract, the session-storage key it is cached under, what a
    cache lookup finds, and what the modal shows. */
module Biography {
  import opened Text

  /** The character budget of a biography. */
  const BioLimit := 600

  const CachePrefix := "wikipedia_bio_"

  /** What the summary request delivers: the `extract` field of a successful
      response (possibly absent), or a failure of the request, the status or
      the JSON body. */
  datatype FetchOutcome = Success(extract: Option<string>) | Failure

  /** What the biography paragraph shows. */
  datatype BioView = Blank | Loading | Loaded(text: string) | Error(link: string)

  /** `data.extract || ''` */
  function ExtractText(extract: Option<string>): (t: string)
    ensures extract.None? ==> t == []
    ensures extract.Some? ==> t == extract.value
  {
    extract.GetOr([])
  }

  /** `extract.length > 600 ? extract.substring(0, 600).split('.').slice(0, -1).join('.') + '.' : extract`.
      A short extract is kept; a long one is cut to its first 600 characters
      and then just after the last '.' in them, or becomes "." when they hold
      no '.'. */
  function Truncate(extract: string): (r: string)
    ensures |r| <= BioLimit
    ensures |extract| <= BioLimit ==> r == extract
    ensures |extract| > BioLimit && '.' in extract[..BioLimit] ==>
      && 0 < |r|
      && r == extract[..|r|]
      && r[|r| - 1] == '.'
      && '.' !in extract[|r|..BioLimit]
    ensures |extract| > BioLimit && '.' !in extract[..BioLimit] ==> r == "."
  {
    if |extract| > BioLimit then
      var window := extract[..BioLimit];
      var parts := Split(window, '.');
      SplitSingle(window, '.');
      SplitDropLast(window, '.');
      var r := Join(parts[..|parts| - 1], ".") + ".";
      assert |parts| > 1 ==> window == r + parts[|parts| - 1];
      r
    else
      extract
  }

  /** A truncated text is empty only when the extract was. */
  lemma TruncateEmpty(extract: string)
    ensures Truncate(extract) == [] <==> extract == []
  {
  }

  /** `wikipedia_bio_<page_id>` */
  function CacheKey(pageId: string): (k: string)
    ensures |k| == |CachePrefix| + |pageId|
    ensures k[..|CachePrefix|] == CachePrefix && k[|CachePrefix|..] == pageId
  {
    CachePrefix + pageId
  }

  predicate IsBioKey(key: string) {
    |key| >= |CachePrefix| && key[..|CachePrefix|] == CachePrefix
  }

  /** Different pages never share a cache entry. */
  lemma CacheKeyInjective(a: string, b: string)
    ensures CacheKey(a) == CacheKey(b) <==> a == b
    ensures IsBioKey(CacheKey(a))
  {
    if CacheKey(a) == CacheKey(b) {
      assert a == CacheKey(a)[|CachePrefix|..];
    }
  }

  /** `if (cached)`: a stored non-empty string is a hit; a missing key and a
      stored empty string are both misses. */
  function CachedBio(items: map<string, string>, pageId: string): (r: Option<string>)
    ensures r.Some? <==> CacheKey(pageId) in items && items[CacheKey(pageId)] != []
    ensures r.Some? ==> r.value == items[CacheKey(pageId)]
  {
    var key := CacheKey(pageId);
    if key in items && items[key] != [] then Some(items[key]) else None
  }

  /** Every biography in the cache fits the budget. */
  predicate BioCacheBounded(items: map<string, string>) {
    forall key :: key in items && IsBioKey(key) ==> |items[key]| <= BioLimit
  }

  /** What a successful fetch leaves in the cache. */
  function CacheAfterSuccess(items: map<string, string>, pageId: string, extract: Option<string>): (m: map<string, string>)
    ensures m.Keys == items.Keys + {CacheKey(pageId)}
    ensures m[CacheKey(pageId)] == Truncate(ExtractText(extract))
    ensures forall key :: key in items && key != CacheKey(pageId) ==> m[key] == items[key]
    ensures BioCacheBounded(items) ==> BioCacheBounded(m)
  {
    items[CacheKey(pageId) := Truncate(ExtractText(extract))]
  }

  /** Warm cache: after a successful fetch the next lookup for the same page
      hits and yields the cached truncation, unless the extract was empty,
      in which case the empty entry is a miss and the page is fetched again. */
  lemma WarmCacheHit(items: map<string, string>, pageId: string, extract: Option<string>)
    ensures var text := Truncate(ExtractText(extract));
      CachedBio(CacheAfterSuccess(items, pageId, extract), pageId)
        == if ExtractText(extract) == [] then None else Some(text)
  {
    TruncateEmpty(ExtractText(extract));
  }

  /** A fetch for one page leaves the cached biography of every other page as it was. */
  lemma OtherPagesUnaffected(items: map<string, string>, pageId: string, other: string, extract: Option<string>)
    requires other != pageId
    ensures CachedBio(CacheAfterSuccess(items, pageId, extract), other) == CachedBio(items, other)
  {
    CacheKeyInjective(pageId, other);
  }
}
