/** The state of the author-cards module: the loaded datasets, the author
    whose modal is open, the biography paragraph, and the browser's session
    storage. Opening, closing, the Escape key, the related-author loop and
    the biography cache flow are methods on it. */
module AuthorCards {
  import opened Text
  import opened Categories
  import opened Ranking
  import opened Biography

  /** An entry of the authors dataset. */
  datatype Author = Author(fullName: string, wikipediaUrl: string, pageId: string)

  /** A related-author card: key, shown name and reasons. */
  datatype Card = Card(key: string, name: string, reasons: seq<string>)

  /** What the modal body shows for an author with category data. */
  datatype Body = Body(works: seq<string>, domains: seq<Domain>, related: seq<Connection>, cards: seq<Card>)

  /** What opening the modal did: nothing for an unknown key; otherwise the
      author, the body (none without category data) and whether a biography
      request was sent. */
  datatype Opened = NotFound | Shown(author: Author, body: Option<Body>, fetchStarted: bool)

  /** How many related authors the modal lists. */
  const RelatedShown := 3

  /** `authorsData[key]?.full_name || key` */
  function DisplayName(authors: map<string, Author>, key: string): (name: string)
    ensures key in authors && authors[key].fullName != [] ==> name == authors[key].fullName
    ensures !(key in authors && authors[key].fullName != []) ==> name == key
  {
    if key in authors && authors[key].fullName != [] then authors[key].fullName else key
  }

  /** The first three entries of the ranking as cards. */
  function RelatedCards(authors: map<string, Author>, ranking: seq<Connection>): (cards: seq<Card>)
    ensures |cards| == if |ranking| < RelatedShown then |ranking| else RelatedShown
    ensures forall i :: 0 <= i < |cards| ==>
      cards[i] == Card(ranking[i].key, DisplayName(authors, ranking[i].key), ranking[i].reasons)
  {
    var n := if |ranking| < RelatedShown then |ranking| else RelatedShown;
    seq(n, i requires 0 <= i < n => Card(ranking[i].key, DisplayName(authors, ranking[i].key), ranking[i].reasons))
  }

  /** `if (currentAuthor)`: JavaScript truthiness of the open author's key. */
  predicate Truthy(key: Option<string>) {
    key.Some? && key.value != []
  }

  /** One pass of the loop of `calculateRelatedAuthors`: the score and the
      reasons of one other author, rule by rule. */
  method ScoreCandidate(current: CategoryData, authorKey: string, authorData: RawCategory)
    returns (candidate: Connection)
    ensures candidate == Candidate(authorKey, current, Normalize(authorData))
  {
    ghost var other := Normalize(authorData);
    var score := 0;
    var connections: seq<string> := [];
    var otherPrimary := authorData.primary;
    var otherBridges := authorData.bridges.GetOr([]);
    assert otherPrimary == other.primary && otherBridges == other.bridges;
    if otherPrimary == current.primary {
      score := score + 3;
      connections := connections + [BothWorkIn(otherPrimary)];
    }
    assert connections == PrimaryReason(current, other);
    var sharedBridges := SharedBridges(current.bridges, otherBridges);
    assert score == if other.primary == current.primary then 3 else 0;
    score := score + |sharedBridges| * 2;
    if |sharedBridges| > 0 {
      connections := connections + [BridgeTo(sharedBridges)];
    }
    assert connections == PrimaryReason(current, other) + SharedReason(current, other);
    if current.primary in otherBridges {
      score := score + 2;
      connections := connections + [BridgesTo(current.primary)];
    }
    assert connections == EarlyReasons(current, other);
    if otherPrimary in current.bridges {
      score := score + 2;
      if !AnyIncludes(connections, otherPrimary) {
        connections := connections + [ConnectedVia(otherPrimary)];
      }
    }
    assert score == Score(current, other);
    assert connections == Reasons(current, other);
    candidate := Connection(authorKey, score, connections);
  }

  /** The browser's `sessionStorage`. */
  class SessionStorage {
    var items: map<string, string>

    constructor ()
      ensures items == map[]
    {
      items := map[];
    }
  }

  class AuthorCards {
    var authorsData: map<string, Author>
    var problemCategories: Entries
    var currentAuthor: Option<string>
    var biography: BioView
    const storage: SessionStorage

    ghost predicate Valid()
      reads this, storage
    {
      UniqueKeys(problemCategories) && BioCacheBounded(storage.items)
    }

    /** The module after both datasets have loaded. */
    constructor (authors: map<string, Author>, categories: Entries, storage: SessionStorage)
      requires UniqueKeys(categories) && BioCacheBounded(storage.items)
      ensures Valid()
      ensures authorsData == authors && problemCategories == categories && this.storage == storage
      ensures currentAuthor == None && biography == Blank
    {
      authorsData := authors;
      problemCategories := categories;
      currentAuthor := None;
      biography := Blank;
      this.storage := storage;
    }

    /** What the modal body shows for `authorKey`, if it has category data. */
    function ModalBody(authorKey: string): (r: Option<Body>)
      reads this
      ensures r.None? <==> !HasKey(problemCategories, authorKey)
      ensures r.Some? ==> var c := FindAuthorCategory(problemCategories, authorKey).value;
        && r.value.works == c.works
        && r.value.domains == Domains(c)
        && r.value.related == Ranked(authorKey, Some(c), problemCategories)
        && r.value.cards == RelatedCards(authorsData, r.value.related)
    {
      match FindAuthorCategory(problemCategories, authorKey)
      case None => None
      case Some(c) =>
        var related := Ranked(authorKey, Some(c), problemCategories);
        Some(Body(c.works, Domains(c), related, RelatedCards(authorsData, related)))
    }

    /** What the biography paragraph shows once the cache has been consulted. */
    function BioOnOpen(author: Author): (v: BioView)
      reads this, storage
      ensures v.Loading? || v.Loaded?
      ensures v.Loading? <==> CachedBio(storage.items, author.pageId).None?
      ensures v.Loaded? ==> v.text != [] && v.text == storage.items[CacheKey(author.pageId)]
      ensures v.Loaded? && BioCacheBounded(storage.items) ==> |v.text| <= BioLimit
    {
      match CachedBio(storage.items, author.pageId)
      case Some(text) => Loaded(text)
      case None => Loading
    }

    /** `calculateRelatedAuthors`: scores every other entry of the dataset on
        the four rules, keeps the positive ones and sorts them by score. */
    method CalculateRelatedAuthors(currentAuthorKey: string, currentCategoryData: Option<CategoryData>)
      returns (related: seq<Connection>)
      ensures related == Ranked(currentAuthorKey, currentCategoryData, problemCategories)
    {
      if currentCategoryData.None? {
        return [];
      }
      var current := currentCategoryData.value;
      var scores: seq<Connection> := [];
      var i := 0;
      while i < |problemCategories|
        invariant 0 <= i <= |problemCategories|
        invariant scores == Candidates(currentAuthorKey, current, problemCategories[..i])
      {
        var (authorKey, authorData) := problemCategories[i];
        ghost var before := scores;
        if authorKey != currentAuthorKey {
          var candidate := ScoreCandidate(current, authorKey, authorData);
          if candidate.score > 0 {
            scores := scores + [candidate];
          }
        }
        assert scores == before + Step(currentAuthorKey, current, problemCategories[i]);
        CandidatesSnoc(currentAuthorKey, current, problemCategories, i);
        i := i + 1;
      }
      assert problemCategories[..i] == problemCategories;
      related := SortByScore(scores);
    }

    /** `loadWikipediaBio` up to the request: a non-empty cached biography is
        shown and nothing is requested; otherwise "Loading" is shown and the
        request goes out, to be finished by `CompleteBioFetch`. */
    method LoadWikipediaBio(author: Author) returns (fetchStarted: bool)
      requires Valid()
      modifies this`biography
      ensures Valid()
      ensures fetchStarted <==> CachedBio(storage.items, author.pageId).None?
      ensures biography == BioOnOpen(author)
      ensures biography.Loaded? ==> |biography.text| <= BioLimit
    {
      var cacheKey := CacheKey(author.pageId);
      var cached := if cacheKey in storage.items then Some(storage.items[cacheKey]) else None;
      if cached.Some? && cached.value != [] {
        biography := Loaded(cached.value);
        return false;
      }
      biography := Loading;
      fetchStarted := true;
    }

    /** `loadWikipediaBio` after the request: on success the truncated
        extract is cached under the page's key and shown; on failure the
        error with the author's Wikipedia link is shown and the cache is left
        alone. The open author is not consulted: a late answer is shown even
        after the modal was closed or another author was opened. */
    method CompleteBioFetch(author: Author, outcome: FetchOutcome)
      requires Valid()
      modifies this`biography, storage
      ensures Valid()
      ensures currentAuthor == old(currentAuthor)
      ensures outcome.Success? ==>
        && storage.items == CacheAfterSuccess(old(storage.items), author.pageId, outcome.extract)
        && biography == Loaded(Truncate(ExtractText(outcome.extract)))
      ensures outcome.Failure? ==>
        storage.items == old(storage.items) && biography == Error(author.wikipediaUrl)
    {
      var cacheKey := CacheKey(author.pageId);
      match outcome
      case Success(extract) =>
        var truncated := Truncate(ExtractText(extract));
        storage.items := storage.items[cacheKey := truncated];
        biography := Loaded(truncated);
      case Failure =>
        biography := Error(author.wikipediaUrl);
    }

    /** `openAuthorModal`: an unknown key changes nothing; a known key
        becomes the open author, the body is computed and the biography
        lookup starts. */
    method OpenAuthorModal(authorKey: string) returns (r: Opened)
      requires Valid()
      modifies this`currentAuthor, this`biography
      ensures Valid()
      ensures authorKey !in authorsData ==>
        r == NotFound && currentAuthor == old(currentAuthor) && biography == old(biography)
      ensures authorKey in authorsData ==>
        && currentAuthor == Some(authorKey)
        && r == Shown(authorsData[authorKey], ModalBody(authorKey), CachedBio(storage.items, authorsData[authorKey].pageId).None?)
        && biography == BioOnOpen(authorsData[authorKey])
    {
      if authorKey !in authorsData {
        return NotFound;
      }
      var author := authorsData[authorKey];
      currentAuthor := Some(authorKey);
      var categoryData := FindAuthorCategory(problemCategories, authorKey);
      var body: Option<Body> := None;
      if categoryData.Some? {
        var c := categoryData.value;
        var related := CalculateRelatedAuthors(authorKey, categoryData);
        body := Some(Body(c.works, Domains(c), related, RelatedCards(authorsData, related)));
      }
      var fetchStarted := LoadWikipediaBio(author);
      r := Shown(author, body, fetchStarted);
    }

    /** `closeAuthorModal` */
    method CloseAuthorModal()
      requires Valid()
      modifies this`currentAuthor
      ensures Valid()
      ensures currentAuthor == None
    {
      currentAuthor := None;
    }

    /** The keydown listener: Escape closes the modal only while an author
        (with a non-empty key) is open. */
    method OnKeyDown(key: string)
      requires Valid()
      modifies this`currentAuthor
      ensures Valid()
      ensures currentAuthor == if key == "Escape" && Truthy(old(currentAuthor)) then None else old(currentAuthor)
    {
      if key == "Escape" && Truthy(currentAuthor) {
        CloseAuthorModal();
      }
    }
  }

  /** Opening an author, receiving its extract, closing and opening it again
      does not request the biography a second time when the extract was not
      empty: the second opening shows the cached truncation. */
  method ReopenUsesCache(cards: AuthorCards, authorKey: string, extract: string)
    returns (first: Opened, second: Opened)
    requires cards.Valid() && authorKey in cards.authorsData && extract != []
    modifies cards`currentAuthor, cards`biography, cards.storage
    ensures cards.Valid()
    ensures second.Shown? && !second.fetchStarted
    ensures first.Shown? && first.fetchStarted ==> cards.biography == Loaded(Truncate(extract))
    ensures cards.currentAuthor == Some(authorKey)
  {
    first := cards.OpenAuthorModal(authorKey);
    var author := cards.authorsData[authorKey];
    if first.Shown? && first.fetchStarted {
      cards.CompleteBioFetch(author, Success(Some(extract)));
      WarmCacheHit(old(cards.storage.items), author.pageId, Some(extract));
    }
    cards.CloseAuthorModal();
    second := cards.OpenAuthorModal(authorKey);
  }
}
