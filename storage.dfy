/** The in-memory screenshot catalogue `MemStorage` of server/storage.ts. */
module Storage {

  import opened Schema
  import opened Text
  import opened Seqs

  /** The record `createScreenshot` builds: a copy of the input's fields with
      the new id and the creation time added, and with a missing or empty
      description replaced by null. */
  function NewRecord(input: NewScreenshot, id: int, now: Timestamp): (r: Screenshot)
    ensures r.id == id && r.uploadedAt == now
    ensures r.title == input.title && r.imagePath == input.imagePath && r.app == input.app
    ensures r.genre == input.genre && r.screenTask == input.screenTask
    ensures r.uiElements == input.uiElements && r.tags == input.tags && r.aiTags == input.aiTags
    ensures r.description == None <==> (input.description == None || input.description == Some(""))
    ensures r.description != None ==> r.description == input.description
  {
    Screenshot(
      id, input.title, input.imagePath,
      if Truthy(input.description) then input.description else None,
      input.app, input.genre, input.screenTask,
      input.uiElements, input.tags, input.aiTags, now)
  }

  /** Ids of a record list rise strictly from left to right. */
  ghost predicate IdsIncreasing(rs: seq<Screenshot>)
  {
    forall i, j :: 0 <= i < j < |rs| ==> rs[i].id < rs[j].id
  }

  /** Deleting records from a list sorted by id leaves it sorted by id. */
  lemma {:induction false} SubsequenceKeepsIdsIncreasing(r: seq<Screenshot>, s: seq<Screenshot>)
    requires IsSubsequence(r, s) && IdsIncreasing(s)
    ensures IdsIncreasing(r)
  {
    if r != [] {
      assert IdsIncreasing(s[1..]);
      if r[0] == s[0] && IsSubsequence(r[1..], s[1..]) {
        SubsequenceKeepsIdsIncreasing(r[1..], s[1..]);
        SubsequenceMembers(r[1..], s[1..]);
        forall j | 0 < j < |r| ensures r[0].id < r[j].id {
          assert r[j] == r[1..][j - 1];
          assert r[j] in s[1..];
          var m :| 0 <= m < |s[1..]| && s[1..][m] == r[j];
          assert s[m + 1] == r[j];
        }
      } else {
        SubsequenceKeepsIdsIncreasing(r, s[1..]);
      }
    }
  }

  /** A list sorted by id holds no record twice. */
  lemma IdsIncreasingDistinct(rs: seq<Screenshot>)
    requires IdsIncreasing(rs)
    ensures Distinct(rs)
  {
  }

  // ---------------------------------------------------------------------------
  // searchScreenshots

  /** The callback of `searchScreenshots` for an already lower-cased query: some
      of title, description, app, a tag or an AI tag contains it, ignoring case.
      A null description takes no part. */
  predicate SearchHit(s: Screenshot, lowercaseQuery: string)
  {
    || Includes(Lower(s.title), lowercaseQuery)
    || (s.description.Some? && Includes(Lower(s.description.value), lowercaseQuery))
    || Includes(Lower(s.app), lowercaseQuery)
    || (exists tag :: tag in s.tags && Includes(Lower(tag), lowercaseQuery))
    || (exists tag :: tag in s.aiTags && Includes(Lower(tag), lowercaseQuery))
  }

  /** Closed form of a search match: the lower-cased query is a substring of a
      lower-cased searchable field. */
  ghost predicate MatchesQuery(s: Screenshot, query: string)
  {
    var q := Lower(query);
    || Substring(q, Lower(s.title))
    || (s.description.Some? && Substring(q, Lower(s.description.value)))
    || Substring(q, Lower(s.app))
    || (exists tag :: tag in s.tags && Substring(q, Lower(tag)))
    || (exists tag :: tag in s.aiTags && Substring(q, Lower(tag)))
  }

  /** The scan the callback performs decides the closed-form match. */
  lemma SearchHitMeans(s: Screenshot, query: string)
    ensures SearchHit(s, Lower(query)) <==> MatchesQuery(s, query)
  {
    var q := Lower(query);
    assert (exists tag :: tag in s.tags && Includes(Lower(tag), q))
       <==> (exists tag :: tag in s.tags && Substring(q, Lower(tag)));
    assert (exists tag :: tag in s.aiTags && Includes(Lower(tag), q))
       <==> (exists tag :: tag in s.aiTags && Substring(q, Lower(tag)));
  }

  /** `records.filter(...)` of `searchScreenshots`, over any record list. */
  function Search(records: seq<Screenshot>, query: string): (r: seq<Screenshot>)
    ensures IsSubsequence(r, records)
    ensures forall s :: s in r ==> s in records && MatchesQuery(s, query)
    ensures forall s :: s in records && MatchesQuery(s, query) ==> s in r
    ensures forall s :: s in records ==>
      multiset(r)[s] == if MatchesQuery(s, query) then multiset(records)[s] else 0
    ensures query == "" ==> r == records
  {
    var lowercaseQuery := Lower(query);
    SearchHitMeansAll(query);
    EmptyQueryHitsAll(records, query);
    Filter(records, s => SearchHit(s, lowercaseQuery))
  }

  lemma SearchHitMeansAll(query: string)
    ensures forall s :: SearchHit(s, Lower(query)) <==> MatchesQuery(s, query)
  {
    forall s: Screenshot { SearchHitMeans(s, query); }
  }

  /** The empty query hits every record: "" is contained in every title. */
  lemma EmptyQueryHitsAll(records: seq<Screenshot>, query: string)
    ensures query == "" ==> forall s :: s in records ==> SearchHit(s, Lower(query))
  {
    forall s | s in records {
      EmptyIsSubstring(Lower(s.title));
    }
  }

  /** The case of the query does not matter: a query and its lower-cased form
      give the same result. */
  lemma SearchIgnoresQueryCase(records: seq<Screenshot>, query: string)
    ensures Search(records, Lower(query)) == Search(records, query)
  {
    LowerIdempotent(query);
    assert forall s :: MatchesQuery(s, Lower(query)) == MatchesQuery(s, query);
  }

  /** Over a list sorted by id, the search result is the only order-preserving
      sublist holding exactly the matching records. */
  lemma SearchUnique(records: seq<Screenshot>, query: string, r: seq<Screenshot>)
    requires IdsIncreasing(records)
    requires IsSubsequence(r, records)
    requires forall s :: s in r ==> s in records && MatchesQuery(s, query)
    requires forall s :: s in records && MatchesQuery(s, query) ==> s in r
    ensures r == Search(records, query)
  {
    var p := s => MatchesQuery(s, query);
    IdsIncreasingDistinct(records);
    FilterUnique(r, records, p);
    FilterUnique(Search(records, query), records, p);
  }

  // ---------------------------------------------------------------------------
  // filterScreenshots

  /** The `filters` argument; `None` is an absent key. There is no `tags` key. */
  datatype Filters = Filters(
    app: Option<string>,
    genre: Option<string>,
    screenTask: Option<string>,
    uiElements: Option<seq<string>>)

  /** Closed form of a filter match: every dimension that is given and not
      empty holds. `app` matches by substring, `genre` and `screenTask` by
      equality, and `uiElements` needs every listed element on the record. */
  ghost predicate SatisfiesFilters(s: Screenshot, f: Filters)
  {
    && (f.app == None || f.app == Some("") || Substring(f.app.value, s.app))
    && (f.genre == None || f.genre == Some("") || f.genre.value == s.genre)
    && (f.screenTask == None || f.screenTask == Some("") || f.screenTask.value == s.screenTask)
    && (f.uiElements == None || forall e :: e in f.uiElements.value ==> e in s.uiElements)
  }

  /** The callback of `filterScreenshots`: the first failing test rejects the record. */
  predicate KeepForFilters(s: Screenshot, f: Filters): (keep: bool)
    ensures keep <==> SatisfiesFilters(s, f)
  {
    if Truthy(f.app) && !Includes(s.app, f.app.value) then false
    else if Truthy(f.genre) && s.genre != f.genre.value then false
    else if Truthy(f.screenTask) && s.screenTask != f.screenTask.value then false
    else if f.uiElements.Some? && |f.uiElements.value| > 0
         && !(forall e :: e in f.uiElements.value ==> e in s.uiElements) then false
    else true
  }

  /** No dimension of `f` constrains anything, as with `filterScreenshots({})`. */
  predicate NoFilters(f: Filters)
  {
    !Truthy(f.app) && !Truthy(f.genre) && !Truthy(f.screenTask)
    && (f.uiElements == None || f.uiElements == Some([]))
  }

  /** `records.filter(...)` of `filterScreenshots`, over any record list. */
  function FilterBy(records: seq<Screenshot>, f: Filters): (r: seq<Screenshot>)
    ensures IsSubsequence(r, records)
    ensures forall s :: s in r ==> s in records && SatisfiesFilters(s, f)
    ensures forall s :: s in records && SatisfiesFilters(s, f) ==> s in r
    ensures forall s :: s in records ==>
      multiset(r)[s] == if SatisfiesFilters(s, f) then multiset(records)[s] else 0
    ensures NoFilters(f) ==> r == records
  {
    Filter(records, s => KeepForFilters(s, f))
  }

  /** Over a list sorted by id, the filter result is the only order-preserving
      sublist holding exactly the records that satisfy the filters. */
  lemma FilterByUnique(records: seq<Screenshot>, f: Filters, r: seq<Screenshot>)
    requires IdsIncreasing(records)
    requires IsSubsequence(r, records)
    requires forall s :: s in r ==> s in records && SatisfiesFilters(s, f)
    requires forall s :: s in records && SatisfiesFilters(s, f) ==> s in r
    ensures r == FilterBy(records, f)
  {
    var p := s => SatisfiesFilters(s, f);
    IdsIncreasingDistinct(records);
    FilterUnique(r, records, p);
    FilterUnique(FilterBy(records, f), records, p);
  }

  /** Giving a filter dimension a value can only drop records: a filter with
      more dimensions set keeps a sublist of what a filter with fewer keeps. */
  lemma FilterByNarrows(records: seq<Screenshot>, f: Filters, g: Filters)
    requires g.app == None || g.app == f.app
    requires g.genre == None || g.genre == f.genre
    requires g.screenTask == None || g.screenTask == f.screenTask
    requires g.uiElements == None || g.uiElements == f.uiElements
    ensures forall s :: s in FilterBy(records, f) ==> s in FilterBy(records, g)
  {
  }

  // ---------------------------------------------------------------------------
  // The store

  /** The two sample records the constructor adds. */
  function SampleScreenshots(): seq<NewScreenshot>
  {
    [ NewScreenshot(
        "Minimalist Dashboard", "/placeholder-dashboard.svg",
        Some("Clean dashboard interface with charts and stats"),
        "Analytics Pro", "Business", "Dashboard",
        ["Chart", "Card", "Navigation"],
        ["minimal", "dashboard", "analytics"],
        ["data-visualization", "metrics", "business-intelligence"]),
      NewScreenshot(
        "Social Feed", "/placeholder-feed.svg",
        Some("Modern social media feed layout"),
        "SocialConnect", "Social", "Navigation",
        ["Card", "List"],
        ["social", "feed", "modern"],
        ["social-media", "content-feed", "user-engagement"]) ]
  }

  /** The records of a freshly constructed store whose clock read `now`. */
  function Seeded(now: Timestamp): seq<Screenshot>
  {
    [NewRecord(SampleScreenshots()[0], 1, now), NewRecord(SampleScreenshots()[1], 2, now)]
  }

  /** The `i`-th seeded record is the `i`-th sample with id `i + 1`. */
  lemma SeededAt(now: Timestamp, i: int)
    requires 0 <= i < 2
    ensures |SampleScreenshots()| == |Seeded(now)| == 2
    ensures Seeded(now)[i] == NewRecord(SampleScreenshots()[i], i + 1, now)
  {
  }

  /** On the seeded records, filtering by the UI elements Card and Navigation
      keeps only the dashboard: every listed element must be present, and the
      feed has Card but not Navigation. */
  lemma SeedFilterNeedsEveryUiElement(now: Timestamp)
    ensures FilterBy(Seeded(now), Filters(None, None, None, Some(["Card", "Navigation"])))
         == [Seeded(now)[0]]
  {
    var f := Filters(None, None, None, Some(["Card", "Navigation"]));
    var seeded := Seeded(now);
    SeededAt(now, 0);
    SeededAt(now, 1);
    assert SatisfiesFilters(seeded[0], f);
    assert "Navigation" !in seeded[1].uiElements;
    FilterByUnique(seeded, f, [seeded[0]]);
  }

  /** On the seeded records, the app filter "Pro" keeps the record of
      "Analytics Pro": the app dimension matches by substring, not equality. */
  lemma SeedAppFilterIsSubstring(now: Timestamp)
    ensures Seeded(now)[0].app != "Pro"
    ensures FilterBy(Seeded(now), Filters(Some("Pro"), None, None, None)) == [Seeded(now)[0]]
  {
    var f := Filters(Some("Pro"), None, None, None);
    var seeded := Seeded(now);
    SeededAt(now, 0);
    SeededAt(now, 1);
    assert OccursAt("Pro", seeded[0].app, 10);
    MissingChar("Pro", seeded[1].app, 0);
    FilterByUnique(seeded, f, [seeded[0]]);
  }

  /** "dash" occurs in "Minimalist Dashboard" once both are lower-cased. */
  lemma DashInDashboardTitle()
    ensures Substring(Lower("dash"), Lower("Minimalist Dashboard"))
  {
    var title := "Minimalist Dashboard";
    assert title[11..15] == "Dash";
    assert OccursAt("Dash", title, 11);
    LowerKeepsOccurrence("Dash", title, 11);
    assert Lower("Dash") == Lower("dash") by {
      assert LowerChar('D') == 'd';
    }
  }

  /** On the seeded records, searching "dash" finds the record titled
      "Minimalist Dashboard", whose title has "Dash" with a capital D. */
  lemma SeedSearchDash(now: Timestamp)
    ensures Seeded(now)[0] in Search(Seeded(now), "dash")
  {
    SeededAt(now, 0);
    DashInDashboardTitle();
    assert MatchesQuery(Seeded(now)[0], "dash");
  }

  /** The values of `m` for `keys`, in that order. */
  function ValuesInOrder(m: map<int, Screenshot>, keys: seq<int>): (r: seq<Screenshot>)
    requires forall i :: 0 <= i < |keys| ==> keys[i] in m
    ensures |r| == |keys|
    ensures forall i :: 0 <= i < |keys| ==> r[i] == m[keys[i]]
  {
    seq(|keys|, i requires 0 <= i < |keys| => m[keys[i]])
  }

  /** The shape of the store's state: `keys` lists every key of `m` once, in
      increasing order, every key is an id below `next`, and every record is
      stored under its own id. */
  ghost predicate Consistent(m: map<int, Screenshot>, keys: seq<int>, next: int)
  {
    && 1 <= next
    && |keys| == |m|
    && (forall i :: 0 <= i < |keys| ==> keys[i] in m)
    && (forall id :: id in m ==> id in keys)
    && (forall i, j :: 0 <= i < j < |keys| ==> keys[i] < keys[j])
    && (forall id :: id in m ==> 1 <= id < next && m[id].id == id)
  }

  /** What the values of a consistent state are: every stored record once, in
      increasing id order. */
  lemma ConsistentValues(m: map<int, Screenshot>, keys: seq<int>, next: int)
    requires Consistent(m, keys, next)
    ensures var r := ValuesInOrder(m, keys);
      && |r| == |m|
      && (forall i :: 0 <= i < |r| ==> r[i].id in m && m[r[i].id] == r[i])
      && (forall id :: id in m ==> m[id] in r)
      && IdsIncreasing(r)
  {
    var r := ValuesInOrder(m, keys);
    forall id | id in m ensures m[id] in r {
      var i :| 0 <= i < |keys| && keys[i] == id;
      assert r[i] == m[id];
    }
  }

  /** Storing a record under the next id keeps the state consistent and
      appends the record to the values. */
  lemma ConsistentAfterCreate(m: map<int, Screenshot>, keys: seq<int>, next: int, r: Screenshot)
    requires Consistent(m, keys, next) && r.id == next
    ensures next !in m && |m[next := r]| == |m| + 1
    ensures Consistent(m[next := r], keys + [next], next + 1)
    ensures ValuesInOrder(m[next := r], keys + [next]) == ValuesInOrder(m, keys) + [r]
  {
    var m', keys' := m[next := r], keys + [next];
    forall i | 0 <= i < |keys'| ensures keys'[i] in m' {
      if i < |keys| { assert keys'[i] == keys[i]; }
    }
    forall id | id in m' ensures id in keys' {
      if id != next { assert id in keys; }
    }
    forall i, j | 0 <= i < j < |keys'| ensures keys'[i] < keys'[j] {
      assert keys'[i] == keys[i] && keys[i] in m;
      if j < |keys| { assert keys'[j] == keys[j]; }
    }
    var a, b := ValuesInOrder(m', keys'), ValuesInOrder(m, keys) + [r];
    forall i | 0 <= i < |a| ensures a[i] == b[i] {
      if i < |keys| {
        assert keys'[i] == keys[i] && keys[i] in m;
      }
    }
  }

  class MemStorage {
    /** The `Map<number, Screenshot>`, split into its entries and the order in
        which their keys were first set (the order `values()` yields). */
    var screenshots: map<int, Screenshot>
    var order: seq<int>
    /** The id the next created record receives. */
    var currentId: int

    ghost predicate Valid()
      reads this
    {
      Consistent(screenshots, order, currentId)
    }

    /** Creates the store and adds the sample records one by one (the `forEach`). */
    constructor (now: Timestamp)
      ensures Valid()
      ensures currentId == 3
      ensures |GetAllScreenshots()| == 2
      ensures forall k :: 0 <= k < 2 ==> GetAllScreenshots()[k] == NewRecord(SampleScreenshots()[k], k + 1, now)
    {
      screenshots := map[];
      order := [];
      currentId := 1;
      new;
      var samples := SampleScreenshots();
      for i := 0 to |samples|
        invariant Valid()
        invariant currentId == i + 1
        invariant |GetAllScreenshots()| == i
        invariant forall k :: 0 <= k < i ==> GetAllScreenshots()[k] == NewRecord(samples[k], k + 1, now)
      {
        var _ := CreateScreenshot(samples[i], now);
      }
    }

    /** `getAllScreenshots`: the map's values in the order their keys were set. */
    function GetAllScreenshots(): (r: seq<Screenshot>)
      reads this
      requires Valid()
      ensures |r| == |screenshots|
      ensures forall i :: 0 <= i < |r| ==> r[i].id in screenshots && screenshots[r[i].id] == r[i]
      ensures forall id :: id in screenshots ==> screenshots[id] in r
      ensures IdsIncreasing(r)
    {
      ConsistentValues(screenshots, order, currentId);
      ValuesInOrder(screenshots, order)
    }

    /** `getScreenshot`: the record stored under `id`, or `undefined` (`None`). */
    function GetScreenshot(id: int): (r: Option<Screenshot>)
      reads this
      requires Valid()
      ensures r == None <==> forall s :: s in GetAllScreenshots() ==> s.id != id
      ensures r != None ==> r.value in GetAllScreenshots() && r.value.id == id
    {
      if id in screenshots then Some(screenshots[id]) else None
    }

    /** Stamps the input with the next id and `now`, and stores it. */
    method CreateScreenshot(input: NewScreenshot, now: Timestamp) returns (r: Screenshot)
      requires Valid()
      modifies this
      ensures Valid()
      ensures r == NewRecord(input, old(currentId), now)
      ensures currentId == old(currentId) + 1
      ensures forall s :: s in old(GetAllScreenshots()) ==> s.id < r.id
      ensures screenshots == old(screenshots)[r.id := r] && |screenshots| == old(|screenshots|) + 1
      ensures GetAllScreenshots() == old(GetAllScreenshots()) + [r]
      ensures GetScreenshot(r.id) == Some(r)
      ensures forall id :: id != r.id ==> GetScreenshot(id) == old(GetScreenshot(id))
    {
      var id := currentId;
      currentId := currentId + 1;
      r := NewRecord(input, id, now);
      ConsistentAfterCreate(screenshots, order, id, r);
      screenshots := screenshots[id := r];
      order := order + [id];
      forall k | k != id ensures GetScreenshot(k) == old(GetScreenshot(k)) {
      }
    }

    /** `searchScreenshots(query)`. */
    function SearchScreenshots(query: string): (r: seq<Screenshot>)
      reads this
      requires Valid()
      ensures IsSubsequence(r, GetAllScreenshots()) && IdsIncreasing(r)
      ensures forall s :: s in r <==> s in GetAllScreenshots() && MatchesQuery(s, query)
      ensures query == "" ==> r == GetAllScreenshots()
    {
      var all := GetAllScreenshots();
      var r := Search(all, query);
      SubsequenceKeepsIdsIncreasing(r, all);
      r
    }

    /** `filterScreenshots(filters)`. */
    function FilterScreenshots(f: Filters): (r: seq<Screenshot>)
      reads this
      requires Valid()
      ensures IsSubsequence(r, GetAllScreenshots()) && IdsIncreasing(r)
      ensures forall s :: s in r <==> s in GetAllScreenshots() && SatisfiesFilters(s, f)
      ensures NoFilters(f) ==> r == GetAllScreenshots()
    {
      var all := GetAllScreenshots();
      var r := FilterBy(all, f);
      SubsequenceKeepsIdsIncreasing(r, all);
      r
    }
  }
}
