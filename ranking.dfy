/** The related-author ranking of `calculateRelatedAuthors`, as functions:
    the score of one candidate and its reasons, the candidate list in
    dataset order, the stable sort by score descending, and the properties
    of the ranking they make up. The loop that computes it is
    `AuthorCards.AuthorCards.CalculateRelatedAuthors`. */
module Ranking {
  import opened Text
  import opened Categories

  /** One entry of the ranking; `reasons` are the strings the page joins
      with its separator. */
  datatype Connection = Connection(key: string, score: int, reasons: seq<string>)

  /** `subject.filter(b => other.includes(b))`: the subject's bridge labels
      that the other author also has, each occurrence in the subject's list
      kept. */
  function SharedBridges(subject: seq<string>, other: seq<string>): (r: seq<string>)
    ensures forall b :: b in r <==> b in subject && b in other
    ensures forall b :: multiset(r)[b] == if b in other then multiset(subject)[b] else 0
  {
    if subject == [] then []
    else
      var rest := SharedBridges(subject[1..], other);
      assert subject == [subject[0]] + subject[1..];
      (if subject[0] in other then [subject[0]] else []) + rest
  }

  /** The four scoring rules. */
  function Score(subject: CategoryData, other: CategoryData): (r: int)
    ensures r >= 0
  {
    (if other.primary == subject.primary then 3 else 0)
    + 2 * |SharedBridges(subject.bridges, other.bridges)|
    + (if subject.primary in other.bridges then 2 else 0)
    + (if other.primary in subject.bridges then 2 else 0)
  }

  function BothWorkIn(primary: string): string { "Both work in " + primary }
  function BridgeTo(shared: seq<string>): string { "Bridge to " + Join(shared, ", ") }
  function BridgesTo(primary: string): string { "Bridges to " + primary }
  function ConnectedVia(primary: string): string { "Connected via " + primary }

  function PrimaryReason(subject: CategoryData, other: CategoryData): seq<string> {
    if other.primary == subject.primary then [BothWorkIn(other.primary)] else []
  }

  function SharedReason(subject: CategoryData, other: CategoryData): seq<string> {
    var shared := SharedBridges(subject.bridges, other.bridges);
    if |shared| > 0 then [BridgeTo(shared)] else []
  }

  function BridgesReason(subject: CategoryData, other: CategoryData): seq<string> {
    if subject.primary in other.bridges then [BridgesTo(subject.primary)] else []
  }

  /** The reasons of the first three rules, in the order they are pushed. */
  function EarlyReasons(subject: CategoryData, other: CategoryData): (r: seq<string>)
    ensures |r| <= 3
    ensures r == [] <==>
      && other.primary != subject.primary
      && SharedBridges(subject.bridges, other.bridges) == []
      && subject.primary !in other.bridges
  {
    PrimaryReason(subject, other) + SharedReason(subject, other) + BridgesReason(subject, other)
  }

  /** All reasons: the fourth rule's reason only when no earlier reason
      includes the other author's primary label. */
  function Reasons(subject: CategoryData, other: CategoryData): (r: seq<string>)
    ensures var early := EarlyReasons(subject, other);
      |early| <= |r| <= |early| + 1 && r[..|early|] == early
  {
    var early := EarlyReasons(subject, other);
    early
    + (if other.primary in subject.bridges && !AnyIncludes(early, other.primary)
       then [ConnectedVia(other.primary)] else [])
  }

  function Candidate(key: string, subject: CategoryData, other: CategoryData): Connection {
    Connection(key, Score(subject, other), Reasons(subject, other))
  }

  /** What the loop pushes for one dataset entry. */
  function Step(subjectKey: string, subject: CategoryData, entry: (string, RawCategory)): (r: seq<Connection>)
    ensures |r| <= 1
    ensures r != [] ==> entry.0 != subjectKey && r[0].key == entry.0 && r[0].score > 0
  {
    if entry.0 == subjectKey then []
    else
      var c := Candidate(entry.0, subject, Normalize(entry.1));
      if c.score > 0 then [c] else []
  }

  /** The unsorted `scores` list after the loop has visited `entries`. */
  function Candidates(subjectKey: string, subject: CategoryData, entries: Entries): seq<Connection> {
    if entries == [] then []
    else Candidates(subjectKey, subject, entries[..|entries| - 1]) + Step(subjectKey, subject, entries[|entries| - 1])
  }

  lemma CandidatesSnoc(subjectKey: string, subject: CategoryData, entries: Entries, i: int)
    requires 0 <= i < |entries|
    ensures Candidates(subjectKey, subject, entries[..i + 1])
      == Candidates(subjectKey, subject, entries[..i]) + Step(subjectKey, subject, entries[i])
  {
    assert entries[..i + 1][..i] == entries[..i];
  }

  /** `c` is what the loop pushes for `entry`. */
  predicate Scores(subjectKey: string, subject: CategoryData, entry: (string, RawCategory), c: Connection) {
    entry.0 != subjectKey && c == Candidate(entry.0, subject, Normalize(entry.1)) && c.score > 0
  }

  /** `scores.sort((a, b) => b.score - a.score)`, a stable sort: insertion
      sort that puts `c` before the first element whose score is not larger. */
  function InsertByScore(c: Connection, s: seq<Connection>): (r: seq<Connection>)
    ensures |r| == |s| + 1
  {
    if s == [] then [c]
    else if c.score >= s[0].score then [c] + s
    else [s[0]] + InsertByScore(c, s[1..])
  }

  function SortByScore(s: seq<Connection>): (r: seq<Connection>)
    ensures |r| == |s|
  {
    if s == [] then [] else InsertByScore(s[0], SortByScore(s[1..]))
  }

  /** `calculateRelatedAuthors`: nothing without category data for the
      subject, otherwise the candidates sorted by score. */
  function Ranked(subjectKey: string, subject: Option<CategoryData>, entries: Entries): seq<Connection> {
    match subject
    case None => []
    case Some(s) => SortByScore(Candidates(subjectKey, s, entries))
  }

  predicate SortedByScore(s: seq<Connection>) {
    forall i, j :: 0 <= i < j < |s| ==> s[i].score >= s[j].score
  }

  /** The entries of `s` with score `v`, in order. */
  function WithScore(s: seq<Connection>, v: int): seq<Connection> {
    if s == [] then []
    else (if s[0].score == v then [s[0]] else []) + WithScore(s[1..], v)
  }

  // ----- the score -----

  /** The filter works label by label: the shared labels of a concatenation
      are those of each part, in the subject's order. */
  lemma {:induction false} SharedBridgesAppend(a: seq<string>, b: seq<string>, other: seq<string>)
    ensures SharedBridges(a + b, other) == SharedBridges(a, other) + SharedBridges(b, other)
  {
    if a == [] {
      assert a + b == b;
    } else {
      var head := if a[0] in other then [a[0]] else [];
      var ab := a + b;
      assert ab != [] && ab[0] == a[0] && ab[1..] == a[1..] + b;
      SharedBridgesAppend(a[1..], b, other);
      assert SharedBridges(ab, other) == head + SharedBridges(ab[1..], other);
      assert SharedBridges(a, other) == head + SharedBridges(a[1..], other);
      AppendAssoc(head, SharedBridges(a[1..], other), SharedBridges(b, other));
    }
  }

  lemma AppendAssoc<T>(x: seq<T>, y: seq<T>, z: seq<T>)
    ensures x + (y + z) == (x + y) + z
  {
  }

  /** One label is kept exactly when the other author also has it. */
  lemma SharedBridgesSingle(x: string, other: seq<string>)
    ensures SharedBridges([x], other) == if x in other then [x] else []
  {
    assert [x][1..] == [];
  }

  lemma {:induction false} SharedBridgesEmpty(subject: seq<string>, other: seq<string>)
    ensures SharedBridges(subject, other) == [] <==> forall b :: b in subject ==> b !in other
  {
    var r := SharedBridges(subject, other);
    if r != [] {
      assert r[0] in r;
    }
  }

  /** A candidate scores at all exactly when one of the four rules applies;
      when the fourth rule applies the score is at least 2 plus 2 per shared
      label. */
  lemma ScorePositive(subject: CategoryData, other: CategoryData)
    ensures Score(subject, other) >= 0
    ensures Score(subject, other) > 0 <==>
      || other.primary == subject.primary
      || (exists b :: b in subject.bridges && b in other.bridges)
      || subject.primary in other.bridges
      || other.primary in subject.bridges
    ensures other.primary in subject.bridges ==>
      Score(subject, other) >= 2 + 2 * |SharedBridges(subject.bridges, other.bridges)|
  {
    SharedBridgesEmpty(subject.bridges, other.bridges);
  }

  /** The score is odd exactly when the primaries agree, which alone is
      worth 3 points; every other rule adds an even amount. */
  lemma ScoreParity(subject: CategoryData, other: CategoryData)
    ensures Score(subject, other) % 2 == 1 <==> other.primary == subject.primary
    ensures other.primary == subject.primary ==> Score(subject, other) >= 3
  {
    var k := |SharedBridges(subject.bridges, other.bridges)|
      + (if subject.primary in other.bridges then 1 else 0)
      + (if other.primary in subject.bridges then 1 else 0);
    var base := if other.primary == subject.primary then 3 else 0;
    assert Score(subject, other) == base + 2 * k;
    OddPlusEven(base, k);
  }

  lemma OddPlusEven(base: int, k: nat)
    requires base == 0 || base == 3
    ensures (base + 2 * k) % 2 == 1 <==> base == 3
  {
  }

  // ----- the reasons -----

  lemma ConnectedViaNotEarly(subject: CategoryData, other: CategoryData)
    ensures ConnectedVia(other.primary) !in EarlyReasons(subject, other)
  {
    var cv := ConnectedVia(other.primary);
    assert cv[0] == 'C';
    var primary, shared, bridges := PrimaryReason(subject, other), SharedReason(subject, other), BridgesReason(subject, other);
    assert cv !in primary by {
      if primary != [] { assert primary[0][0] == 'B'; }
    }
    assert cv !in shared by {
      if shared != [] { assert shared[0][0] == 'B'; }
    }
    assert cv !in bridges by {
      if bridges != [] { assert bridges[0][0] == 'B'; }
    }
  }

  /** The "Connected via" reason is listed exactly when the fourth rule
      applies and no earlier reason includes the label. */
  lemma ConnectedViaListed(subject: CategoryData, other: CategoryData)
    ensures ConnectedVia(other.primary) in Reasons(subject, other) <==>
      other.primary in subject.bridges && !AnyIncludes(EarlyReasons(subject, other), other.primary)
  {
    ConnectedViaNotEarly(subject, other);
  }

  /** When the primaries agree and the other's primary is also one of the
      subject's bridges, "Both work in X" already includes X: the fourth
      rule's reason is dropped while its points are still counted. */
  lemma ConnectedViaSuppressedBySharedPrimary(subject: CategoryData, other: CategoryData)
    requires other.primary == subject.primary && other.primary in subject.bridges
    ensures ConnectedVia(other.primary) !in Reasons(subject, other)
    ensures Score(subject, other) >= 5
  {
    var early := EarlyReasons(subject, other);
    IncludesSuffix("Both work in ", other.primary);
    assert BothWorkIn(other.primary) in early;
    ConnectedViaListed(subject, other);
  }

  /** A candidate has at least one reason exactly when it scores. */
  lemma ReasonsIffScore(subject: CategoryData, other: CategoryData)
    ensures |Reasons(subject, other)| > 0 <==> Score(subject, other) > 0
    ensures |Reasons(subject, other)| <= 4
  {
    var early := EarlyReasons(subject, other);
    var shared := SharedBridges(subject.bridges, other.bridges);
    SharedBridgesEmpty(subject.bridges, other.bridges);
    if other.primary in subject.bridges && AnyIncludes(early, other.primary) {
      var c :| c in early && Includes(c, other.primary);
      assert |early| > 0;
    }
  }

  // ----- the candidates -----

  /** One entry pushes `c` exactly when `c` is its positive scoring and the
      entry is not the subject. */
  lemma StepScores(subjectKey: string, subject: CategoryData, entry: (string, RawCategory), c: Connection)
    ensures c in Step(subjectKey, subject, entry) <==> Scores(subjectKey, subject, entry, c)
  {
  }

  /** A connection is a candidate exactly when it is the scoring of some
      dataset entry other than the subject, with a positive score. */
  lemma CandidatesMembership(subjectKey: string, subject: CategoryData, entries: Entries, c: Connection)
    ensures c in Candidates(subjectKey, subject, entries) <==>
      exists i :: 0 <= i < |entries| && Scores(subjectKey, subject, entries[i], c)
  {
    if c in Candidates(subjectKey, subject, entries) {
      CandidatesSound(subjectKey, subject, entries, c);
    }
    if exists i :: 0 <= i < |entries| && Scores(subjectKey, subject, entries[i], c) {
      var i :| 0 <= i < |entries| && Scores(subjectKey, subject, entries[i], c);
      CandidatesComplete(subjectKey, subject, entries, i, c);
    }
  }

  /** Every candidate comes from some entry. */
  lemma {:induction false} CandidatesSound(subjectKey: string, subject: CategoryData, entries: Entries, c: Connection)
    requires c in Candidates(subjectKey, subject, entries)
    ensures exists i :: 0 <= i < |entries| && Scores(subjectKey, subject, entries[i], c)
  {
    var n := |entries| - 1;
    var init := entries[..n];
    var before := Candidates(subjectKey, subject, init);
    var step := Step(subjectKey, subject, entries[n]);
    assert Candidates(subjectKey, subject, entries) == before + step;
    if c in before {
      CandidatesSound(subjectKey, subject, init, c);
      var i :| 0 <= i < n && Scores(subjectKey, subject, init[i], c);
      assert init[i] == entries[i];
      assert Scores(subjectKey, subject, entries[i], c);
    } else {
      assert c in step;
      StepScores(subjectKey, subject, entries[n], c);
      assert Scores(subjectKey, subject, entries[n], c);
    }
  }

  /** Every entry that scores is a candidate. */
  lemma {:induction false} CandidatesComplete(subjectKey: string, subject: CategoryData, entries: Entries, i: int, c: Connection)
    requires 0 <= i < |entries| && Scores(subjectKey, subject, entries[i], c)
    ensures c in Candidates(subjectKey, subject, entries)
  {
    var n := |entries| - 1;
    if i < n {
      var init := entries[..n];
      assert init[i] == entries[i];
      CandidatesComplete(subjectKey, subject, init, i, c);
      CandidatesExtend(subjectKey, subject, entries, c);
    } else {
      CandidatesLast(subjectKey, subject, entries, c);
    }
  }

  lemma CandidatesExtend(subjectKey: string, subject: CategoryData, entries: Entries, c: Connection)
    requires entries != [] && c in Candidates(subjectKey, subject, entries[..|entries| - 1])
    ensures c in Candidates(subjectKey, subject, entries)
  {
  }

  lemma CandidatesLast(subjectKey: string, subject: CategoryData, entries: Entries, c: Connection)
    requires entries != [] && Scores(subjectKey, subject, entries[|entries| - 1], c)
    ensures c in Candidates(subjectKey, subject, entries)
  {
    StepScores(subjectKey, subject, entries[|entries| - 1], c);
  }

  lemma {:induction false} CandidatesLength(subjectKey: string, subject: CategoryData, entries: Entries)
    ensures |Candidates(subjectKey, subject, entries)| <= |entries|
  {
    if entries != [] {
      CandidatesLength(subjectKey, subject, entries[..|entries| - 1]);
    }
  }

  // ----- the sort -----

  lemma {:induction false} InsertPermutation(c: Connection, s: seq<Connection>)
    ensures multiset(InsertByScore(c, s)) == multiset(s) + multiset{c}
  {
    if s == [] || c.score >= s[0].score {
      assert InsertByScore(c, s) == [c] + s;
      MultisetCons(c, s);
    } else {
      var rest := s[1..];
      InsertPermutation(c, rest);
      assert InsertByScore(c, s) == [s[0]] + InsertByScore(c, rest);
      MultisetCons(s[0], InsertByScore(c, rest));
      MultisetCons(s[0], rest);
      assert s == [s[0]] + rest;
    }
  }

  lemma MultisetCons<T>(x: T, s: seq<T>)
    ensures multiset([x] + s) == multiset(s) + multiset{x}
  {
  }

  lemma {:induction false} SortPermutation(s: seq<Connection>)
    ensures multiset(SortByScore(s)) == multiset(s)
  {
    if s != [] {
      SortPermutation(s[1..]);
      InsertPermutation(s[0], SortByScore(s[1..]));
      assert s == [s[0]] + s[1..];
    }
  }

  /** Inserting below a bound keeps every score below it. */
  lemma {:induction false} InsertBounded(c: Connection, s: seq<Connection>, bound: int)
    requires c.score <= bound
    requires forall j :: 0 <= j < |s| ==> s[j].score <= bound
    ensures forall j :: 0 <= j < |InsertByScore(c, s)| ==> InsertByScore(c, s)[j].score <= bound
  {
    if s != [] && c.score < s[0].score {
      InsertBounded(c, s[1..], bound);
    }
  }

  lemma {:induction false} InsertSorted(c: Connection, s: seq<Connection>)
    requires SortedByScore(s)
    ensures SortedByScore(InsertByScore(c, s))
  {
    if s != [] && c.score < s[0].score {
      var rest := s[1..];
      InsertSorted(c, rest);
      assert forall j :: 0 <= j < |rest| ==> rest[j].score <= s[0].score by {
        forall j | 0 <= j < |rest| ensures rest[j].score <= s[0].score {
          assert rest[j] == s[j + 1];
        }
      }
      InsertBounded(c, rest, s[0].score);
      var t := InsertByScore(c, rest);
      var r := [s[0]] + t;
      forall i, j | 0 <= i < j < |r| ensures r[i].score >= r[j].score {
        assert r[j] == t[j - 1];
        if i > 0 {
          assert r[i] == t[i - 1];
        }
      }
    }
  }

  lemma {:induction false} SortSorted(s: seq<Connection>)
    ensures SortedByScore(SortByScore(s))
  {
    if s != [] {
      SortSorted(s[1..]);
      InsertSorted(s[0], SortByScore(s[1..]));
    }
  }

  lemma {:induction false} InsertWithScore(c: Connection, s: seq<Connection>, v: int)
    ensures WithScore(InsertByScore(c, s), v) == (if c.score == v then [c] else []) + WithScore(s, v)
  {
    var own := if c.score == v then [c] else [];
    if s == [] || c.score >= s[0].score {
      WithScoreCons(c, s, v);
    } else {
      var rest := InsertByScore(c, s[1..]);
      var head := if s[0].score == v then [s[0]] else [];
      InsertWithScore(c, s[1..], v);
      WithScoreCons(s[0], rest, v);
      WithScoreCons(s[0], s[1..], v);
      assert [s[0]] + s[1..] == s;
      assert InsertByScore(c, s) == [s[0]] + rest;
      SwapEmpty(head, own, WithScore(s[1..], v));
    }
  }

  lemma WithScoreCons(c: Connection, s: seq<Connection>, v: int)
    ensures WithScore([c] + s, v) == (if c.score == v then [c] else []) + WithScore(s, v)
  {
    assert ([c] + s)[1..] == s;
  }

  lemma SwapEmpty<T>(a: seq<T>, b: seq<T>, x: seq<T>)
    requires a == [] || b == []
    ensures a + (b + x) == b + (a + x)
  {
  }

  /** Stability: for every score, the entries with that score come out in
      the order they went in. */
  lemma {:induction false} SortWithScore(s: seq<Connection>, v: int)
    ensures WithScore(SortByScore(s), v) == WithScore(s, v)
  {
    if s != [] {
      SortWithScore(s[1..], v);
      InsertWithScore(s[0], SortByScore(s[1..]), v);
    }
  }

  // ----- the ranking -----

  /** Without category data for the subject there is no ranking. */
  lemma RankedWithoutCategory(subjectKey: string, entries: Entries)
    ensures Ranked(subjectKey, None, entries) == []
  {
  }

  /** The ranking is a permutation of the positive-score candidates, sorted
      by score, highest first, with ties in dataset order. */
  lemma RankedSortedPermutation(subjectKey: string, subject: CategoryData, entries: Entries)
    ensures var r, cs := Ranked(subjectKey, Some(subject), entries), Candidates(subjectKey, subject, entries);
      && multiset(r) == multiset(cs)
      && SortedByScore(r)
      && (forall v :: WithScore(r, v) == WithScore(cs, v))
  {
    var cs := Candidates(subjectKey, subject, entries);
    SortPermutation(cs);
    SortSorted(cs);
    forall v ensures WithScore(SortByScore(cs), v) == WithScore(cs, v) {
      SortWithScore(cs, v);
    }
  }

  /** A connection is in the ranking exactly when it scores some dataset
      entry other than the subject positively; so the subject never appears
      and every score is at least 1. */
  lemma RankedMembership(subjectKey: string, subject: CategoryData, entries: Entries, c: Connection)
    ensures c in Ranked(subjectKey, Some(subject), entries) <==>
      exists i :: 0 <= i < |entries| && Scores(subjectKey, subject, entries[i], c)
    ensures c in Ranked(subjectKey, Some(subject), entries) ==> c.key != subjectKey && c.score >= 1
  {
    var cs := Candidates(subjectKey, subject, entries);
    SortPermutation(cs);
    assert c in Ranked(subjectKey, Some(subject), entries) <==> c in multiset(cs);
    CandidatesMembership(subjectKey, subject, entries, c);
  }

  /** Primary-domain symmetry: two authors of the dataset with the same
      primary label appear in each other's ranking with at least 3 points. */
  lemma SamePrimaryRanked(entries: Entries, i: int, j: int)
    requires UniqueKeys(entries)
    requires 0 <= i < |entries| && 0 <= j < |entries| && i != j
    requires entries[i].1.primary == entries[j].1.primary
    ensures exists c :: (c in Ranked(entries[i].0, FindAuthorCategory(entries, entries[i].0), entries)
      && c.key == entries[j].0 && c.score >= 3)
  {
    var subject := Normalize(entries[i].1);
    assert FindAuthorCategory(entries, entries[i].0) == Some(subject);
    assert entries[i].0 != entries[j].0 by {
      if i < j { assert entries[i].0 != entries[j].0; } else { assert entries[j].0 != entries[i].0; }
    }
    var c := Candidate(entries[j].0, subject, Normalize(entries[j].1));
    ScoreParity(subject, Normalize(entries[j].1));
    RankedMembership(entries[i].0, subject, entries, c);
  }

  lemma PrimarySymmetry(entries: Entries, i: int, j: int)
    requires UniqueKeys(entries)
    requires 0 <= i < |entries| && 0 <= j < |entries| && i != j
    requires entries[i].1.primary == entries[j].1.primary
    ensures exists c :: (c in Ranked(entries[i].0, FindAuthorCategory(entries, entries[i].0), entries)
      && c.key == entries[j].0 && c.score >= 3)
    ensures exists c :: (c in Ranked(entries[j].0, FindAuthorCategory(entries, entries[j].0), entries)
      && c.key == entries[i].0 && c.score >= 3)
  {
    SamePrimaryRanked(entries, i, j);
    SamePrimaryRanked(entries, j, i);
  }

  // ----- examples -----

  /** Two authors with the same primary label and different bridges that
      name neither primary: only the primary rule applies, so the first
      author's ranking is the second alone, with 3 points and the single
      reason "Both work in p". */
  lemma SamePrimaryOnlyExample(k1: string, k2: string, p: string, b1: string, b2: string)
    requires k1 != k2 && b1 != b2 && b1 != p && b2 != p
    ensures var entries: Entries := [
        (k1, RawCategory(p, Some([b1]), None)),
        (k2, RawCategory(p, Some([b2]), None))];
      Ranked(k1, FindAuthorCategory(entries, k1), entries)
        == [Connection(k2, 3, [BothWorkIn(p)])]
  {
    var entries: Entries := [
      (k1, RawCategory(p, Some([b1]), None)),
      (k2, RawCategory(p, Some([b2]), None))];
    var first := CategoryData(p, [b1], []);
    var c := Connection(k2, 3, [BothWorkIn(p)]);
    assert Normalize(entries[0].1) == first;
    assert FindAuthorCategory(entries, k1) == Some(first);
    SamePrimaryOnlyCandidates(k1, k2, p, b1, b2);
    assert SortByScore([c]) == InsertByScore(c, []);
  }

  lemma SamePrimaryOnlyCandidates(k1: string, k2: string, p: string, b1: string, b2: string)
    requires k1 != k2 && b1 != b2 && b1 != p && b2 != p
    ensures var entries: Entries := [
        (k1, RawCategory(p, Some([b1]), None)),
        (k2, RawCategory(p, Some([b2]), None))];
      Candidates(k1, CategoryData(p, [b1], []), entries) == [Connection(k2, 3, [BothWorkIn(p)])]
  {
    var entries: Entries := [
      (k1, RawCategory(p, Some([b1]), None)),
      (k2, RawCategory(p, Some([b2]), None))];
    var first := CategoryData(p, [b1], []);
    var c := Connection(k2, 3, [BothWorkIn(p)]);
    SamePrimaryOnlyCandidate(k2, p, b1, b2);
    assert Normalize(entries[1].1) == CategoryData(p, [b2], []);
    assert Step(k1, first, entries[1]) == [c];
    assert Step(k1, first, entries[0]) == [];
    CandidatesSnoc(k1, first, entries, 0);
    assert entries[..0] == [];
    assert Candidates(k1, first, entries[..1]) == [];
    CandidatesSnoc(k1, first, entries, 1);
    assert entries[..2] == entries;
  }

  lemma SamePrimaryOnlyCandidate(k: string, p: string, b1: string, b2: string)
    requires b1 != b2 && b1 != p && b2 != p
    ensures Candidate(k, CategoryData(p, [b1], []), CategoryData(p, [b2], []))
      == Connection(k, 3, [BothWorkIn(p)])
  {
    var first, second := CategoryData(p, [b1], []), CategoryData(p, [b2], []);
    assert [b1][1..] == [];
    assert SharedBridges(first.bridges, second.bridges) == [];
    assert p !in first.bridges && p !in second.bridges;
    assert EarlyReasons(first, second) == [BothWorkIn(p)];
  }

  /** A bridge label the subject lists twice earns its 2 points twice, so
      the score is not symmetric in general. */
  lemma DuplicateBridgesCounted(p: string, q: string, b: string)
    requires p != q && p != b && q != b
    ensures var x, y := CategoryData(p, [b, b], []), CategoryData(q, [b], []);
      Score(x, y) == 4 && Score(y, x) == 2
  {
    var x, y := CategoryData(p, [b, b], []), CategoryData(q, [b], []);
    assert [b, b][1..] == [b] && [b][1..] == [];
    assert SharedBridges([b], [b]) == [b];
    assert SharedBridges(x.bridges, y.bridges) == [b, b];
    assert SharedBridges(y.bridges, x.bridges) == [b];
    assert p !in y.bridges && q !in x.bridges;
  }
}
