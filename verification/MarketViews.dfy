/** What the marketplace reports: download totals, averages, pages of ratings; and how its data is written and read back. */
module MarketViews {
  import opened MarketData
  import Strings

  // --- download totals

  function SumDownloads(vs: seq<Version>): nat {
    if vs == [] then 0 else SumDownloads(vs[..|vs| - 1]) + vs[|vs| - 1].downloads
  }

  function Ids(vs: seq<Version>): set<string> {
    set v | v in vs :: v.id
  }

  /** The download events of any of the versions, from a time on. */
  function Events(downloads: seq<Download>, ids: set<string>): nat {
    if downloads == [] then 0
    else Events(downloads[..|downloads| - 1], ids) + if downloads[|downloads| - 1].versionId in ids then 1 else 0
  }

  function Since(downloads: seq<Download>, after: int): seq<Download> {
    if downloads == [] then []
    else
      var d := downloads[|downloads| - 1];
      Since(downloads[..|downloads| - 1], after) + if d.at > after then [d] else []
  }

  /** The positions of the elements with a property. */
  ghost function Where<T(!new)>(xs: seq<T>, has: T -> bool): set<int> {
    set i | 0 <= i < |xs| && has(xs[i])
  }

  lemma WhereLast<T(!new)>(xs: seq<T>, has: T -> bool)
    requires xs != []
    ensures |Where(xs, has)| == |Where(xs[..|xs| - 1], has)| + if has(xs[|xs| - 1]) then 1 else 0
  {
    var n := |xs| - 1;
    var before := Where(xs[..n], has);
    if has(xs[n]) {
      assert Where(xs, has) == before + {n};
    } else {
      assert Where(xs, has) == before;
    }
  }

  ghost function OfIds(ids: set<string>): Download -> bool {
    (d: Download) => d.versionId in ids
  }

  ghost function OfIdsAfter(ids: set<string>, after: int): Download -> bool {
    (d: Download) => d.versionId in ids && d.at > after
  }

  ghost function OfScore(score: int): Rating -> bool {
    (r: Rating) => r.score == score
  }

  /** Events counts the positions of the downloads of these versions. */
  lemma {:induction false} EventsAreCounted(downloads: seq<Download>, ids: set<string>)
    ensures Events(downloads, ids) == |Where(downloads, OfIds(ids))|
  {
    hide Where;
    if downloads == [] {
      NowhereAtAll(downloads, OfIds(ids));
    } else {
      EventsAreCounted(downloads[..|downloads| - 1], ids);
      WhereLast(downloads, OfIds(ids));
    }
  }

  lemma NowhereAtAll<T(!new)>(xs: seq<T>, has: T -> bool)
    requires xs == []
    ensures |Where(xs, has)| == 0
  {
  }

  /** Likewise for those after a time. */
  lemma {:induction false} RecentAreCounted(downloads: seq<Download>, after: int, ids: set<string>)
    ensures Events(Since(downloads, after), ids) == |Where(downloads, OfIdsAfter(ids, after))|
  {
    hide Where;
    if downloads == [] {
      NowhereAtAll(downloads, OfIdsAfter(ids, after));
    } else {
      var n := |downloads| - 1;
      RecentAreCounted(downloads[..n], after, ids);
      WhereLast(downloads, OfIdsAfter(ids, after));
      EventsLast(Since(downloads[..n], after), downloads[n], ids);
    }
  }

  lemma EventsLast(downloads: seq<Download>, d: Download, ids: set<string>)
    ensures Events(downloads + [d], ids) == Events(downloads, ids) + if d.versionId in ids then 1 else 0
    ensures downloads + [] == downloads
  {
    assert (downloads + [d])[..|downloads|] == downloads;
  }

  lemma {:induction false} EventsOfNone(downloads: seq<Download>)
    ensures Events(downloads, {}) == 0
  {
    if downloads != [] { EventsOfNone(downloads[..|downloads| - 1]); }
  }

  lemma {:induction false} EventsOfOneMore(downloads: seq<Download>, ids: set<string>, id: string)
    requires id !in ids
    ensures Events(downloads, ids + {id}) == Events(downloads, ids) + CountOf(downloads, id)
  {
    if downloads != [] { EventsOfOneMore(downloads[..|downloads| - 1], ids, id); }
  }

  /** The counters of versions that count their events add up to the events of those versions. */
  lemma {:induction false} SumIsEvents(vs: seq<Version>, downloads: seq<Download>)
    requires DistinctBy(vs, VersionId()) && forall v :: v in vs ==> v.downloads == CountOf(downloads, v.id)
    ensures SumDownloads(vs) == Events(downloads, Ids(vs))
  {
    if vs == [] {
      assert Ids(vs) == {};
      EventsOfNone(downloads);
    } else {
      var front, v := vs[..|vs| - 1], vs[|vs| - 1];
      SumIsEvents(front, downloads);
      assert v.id !in Ids(front) by {
        forall j | 0 <= j < |front| ensures front[j].id != v.id { assert VersionId()(vs[j]) != VersionId()(v); }
      }
      assert Ids(vs) == Ids(front) + {v.id};
      EventsOfOneMore(downloads, Ids(front), v.id);
    }
  }

  /** The total that search shows for an artifact is the total of its download statistics. */
  lemma SearchTotalIsStats(m: Market, artifactId: string)
    requires Inv(m)
    ensures var vs := ListAt(m.versions, artifactId); SumDownloads(vs) == Events(m.downloads, Ids(vs))
  {
    hide NamesInv, RatingsInv, Grouped, Has;
    SumIsEvents(ListAt(m.versions, artifactId), m.downloads);
  }

  // --- averages

  const CONFIDENCE := 10.0
  const PRIOR := 4.0

  function SumScores(rs: seq<Rating>): int {
    if rs == [] then 0 else SumScores(rs[..|rs| - 1]) + rs[|rs| - 1].score
  }

  function WithScore(rs: seq<Rating>, score: int): nat {
    if rs == [] then 0 else WithScore(rs[..|rs| - 1], score) + if rs[|rs| - 1].score == score then 1 else 0
  }

  function Mean(rs: seq<Rating>): real
    requires rs != []
  {
    SumScores(rs) as real / |rs| as real
  }

  function Bayes(rs: seq<Rating>): real
    requires rs != []
  {
    (CONFIDENCE * PRIOR + SumScores(rs) as real) / (CONFIDENCE + |rs| as real)
  }

  /** The average is that of the scores and ten more of four each. */
  lemma BayesIs(rs: seq<Rating>)
    requires rs != []
    ensures Bayes(rs) * (10.0 + |rs| as real) == 40.0 + SumScores(rs) as real
  {
    var n := 10.0 + |rs| as real;
    var sum := 40.0 + SumScores(rs) as real;
    assert (sum / n) * n == sum;
  }

  /** WithScore counts the positions of a score. */
  lemma {:induction false} ScoresAreCounted(rs: seq<Rating>, score: int)
    ensures WithScore(rs, score) == |Where(rs, OfScore(score))|
  {
    hide Where;
    if rs == [] {
      NowhereAtAll(rs, OfScore(score));
    } else {
      ScoresAreCounted(rs[..|rs| - 1], score);
      WhereLast(rs, OfScore(score));
    }
  }

  /** The Bayesian average lies between the plain mean and the prior, and strictly so unless they agree. */
  lemma BayesIsBetween(rs: seq<Rating>)
    requires rs != []
    ensures Mean(rs) <= PRIOR ==> Mean(rs) <= Bayes(rs) <= PRIOR
    ensures PRIOR <= Mean(rs) ==> PRIOR <= Bayes(rs) <= Mean(rs)
    ensures Bayes(rs) == PRIOR <==> Mean(rs) == PRIOR
    ensures Bayes(rs) == Mean(rs) <==> Mean(rs) == PRIOR
  {
    Weighted(SumScores(rs) as real, |rs| as real);
  }

  lemma Weighted(sum: real, n: real)
    requires n > 0.0
    ensures var mean, bayes := sum / n, (CONFIDENCE * PRIOR + sum) / (CONFIDENCE + n);
            (bayes - PRIOR) * (CONFIDENCE + n) == (mean - PRIOR) * n && (mean - bayes) * (CONFIDENCE + n) == (mean - PRIOR) * CONFIDENCE
    ensures var mean, bayes := sum / n, (CONFIDENCE * PRIOR + sum) / (CONFIDENCE + n);
            (mean <= PRIOR ==> mean <= bayes <= PRIOR) && (PRIOR <= mean ==> PRIOR <= bayes <= mean)
            && (bayes == PRIOR <==> mean == PRIOR) && (bayes == mean <==> mean == PRIOR)
  {
    var mean, bayes := sum / n, (CONFIDENCE * PRIOR + sum) / (CONFIDENCE + n);
    assert mean * n == sum;
    assert bayes * (CONFIDENCE + n) == CONFIDENCE * PRIOR + sum;
    SignOf(bayes - PRIOR, CONFIDENCE + n, mean - PRIOR, n);
    SignOf(mean - bayes, CONFIDENCE + n, mean - PRIOR, CONFIDENCE);
  }

  lemma SignOf(a: real, p: real, b: real, q: real)
    requires p > 0.0 && q > 0.0 && a * p == b * q
    ensures (a > 0.0 <==> b > 0.0) && (a < 0.0 <==> b < 0.0)
  {
    if a > 0.0 { assert a * p > 0.0; }
    if a < 0.0 { assert a * p < 0.0; }
    if b > 0.0 { assert b * q > 0.0; }
    if b < 0.0 { assert b * q < 0.0; }
  }

  /** The distribution accounts for every rating once. */
  lemma {:induction false} ScoresAddUp(rs: seq<Rating>)
    requires forall r :: r in rs ==> 1 <= r.score <= 5
    ensures WithScore(rs, 1) + WithScore(rs, 2) + WithScore(rs, 3) + WithScore(rs, 4) + WithScore(rs, 5) == |rs|
    ensures WithScore(rs, 1) + 2 * WithScore(rs, 2) + 3 * WithScore(rs, 3) + 4 * WithScore(rs, 4) + 5 * WithScore(rs, 5) == SumScores(rs)
  {
    if rs != [] { ScoresAddUp(rs[..|rs| - 1]); }
  }

  // --- pages

  /** The page of a list; a page or page size of zero or less means the first page or 20 a page. */
  function Page<T>(xs: seq<T>, page: int, perPage: int): seq<T> {
    var size := if perPage <= 0 then 20 else perPage;
    var at := if page <= 0 then 1 else page;
    var offset := Offset(at, size);
    if offset >= |xs| then []
    else xs[offset..if offset + size < |xs| then offset + size else |xs|]
  }

  function Offset(page: int, size: int): (offset: int)
    requires page >= 1 && size >= 1
    ensures offset >= 0
  {
    (page - 1) * size
  }

  /** Pages 1 to n, one after the other. */
  function Pages<T>(xs: seq<T>, n: nat, perPage: int): seq<T> {
    if n == 0 then [] else Pages(xs, n - 1, perPage) + Page(xs, n, perPage)
  }

  function UpTo<T>(xs: seq<T>, n: nat): seq<T> {
    if n < |xs| then xs[..n] else xs
  }

  /** Any page up to the first is the first, and twenty is the usual size. */
  lemma FirstPage<T>(xs: seq<T>, page: int, perPage: int)
    requires page <= 1
    ensures Page(xs, page, perPage) == UpTo(xs, if perPage <= 0 then 20 else perPage)
    ensures Page(xs, page, perPage) <= xs
  {
  }

  lemma UpToMore<T>(xs: seq<T>, n: nat, size: nat)
    ensures UpTo(xs, n + size) ==
            UpTo(xs, n) + if n >= |xs| then [] else xs[n..if n + size < |xs| then n + size else |xs|]
  {
  }

  lemma NextOffset(page: int, size: int)
    requires page >= 1 && size >= 1
    ensures Offset(1, size) == 0 && Offset(page + 1, size) == Offset(page, size) + size
  {
  }

  /** Pages 1 to n are the list's first n times the page size elements: no element is skipped or shown twice. */
  lemma {:induction false} PagesConcatenate<T>(xs: seq<T>, n: nat, perPage: int)
    ensures Pages(xs, n, perPage) == UpTo(xs, Offset(n + 1, if perPage <= 0 then 20 else perPage))
  {
    hide Offset, UpTo, Page;
    if n == 0 {
      NextOffset(1, if perPage <= 0 then 20 else perPage);
      UpToNone(xs);
    } else {
      PagesConcatenate(xs, n - 1, perPage);
      PageFollows(xs, n, perPage);
    }
  }

  /** A page is what comes between the ends of the page before it and its own. */
  lemma PageFollows<T>(xs: seq<T>, n: nat, perPage: int)
    requires n >= 1
    ensures var size := if perPage <= 0 then 20 else perPage;
            UpTo(xs, Offset(n, size)) + Page(xs, n, perPage) == UpTo(xs, Offset(n + 1, size))
  {
    hide Offset, UpTo;
    var size := if perPage <= 0 then 20 else perPage;
    NextOffset(n, size);
    UpToMore(xs, Offset(n, size), size);
  }

  lemma UpToNone<T>(xs: seq<T>)
    ensures UpTo(xs, 0) == []
  {
  }

  /** As many pages as there are elements are enough to see them all. */
  lemma AllPages<T>(xs: seq<T>, perPage: int)
    ensures Pages(xs, |xs|, perPage) == xs
  {
    var size := if perPage <= 0 then 20 else perPage;
    PagesConcatenate(xs, |xs|, perPage);
    AtLeast(|xs|, size);
  }

  lemma AtLeast(n: nat, size: nat)
    requires size >= 1
    ensures Offset(n + 1, size) >= n
  {
    assert n * size == n + n * (size - 1);
  }

  // --- arrangements

  /** No element comes after one that it should come before; elements that tie may come in any order. */
  ghost predicate Ordered<T(!new)>(xs: seq<T>, less: (T, T) -> bool) {
    forall i, j :: 0 <= i < j < |xs| ==> !less(xs[j], xs[i])
  }

  /** A sort, stable or not: the same elements, in order. */
  ghost predicate Sorts<T(!new)>(sort: seq<T> -> seq<T>, less: (T, T) -> bool) {
    forall xs :: multiset(sort(xs)) == multiset(xs) && Ordered(sort(xs), less)
  }

  /** Ratings come by helpful votes when asked for, else the latest first. */
  function RatingLess(sortBy: string): (Rating, Rating) -> bool {
    if sortBy == "helpful" then (a: Rating, b: Rating) => a.helpful > b.helpful
    else (a: Rating, b: Rating) => a.createdAt > b.createdAt
  }

  /** Artifacts come by downloads or by name when asked for, else the last updated first. */
  function ResultLess(sortBy: string): (SearchResult, SearchResult) -> bool {
    if sortBy == "downloads" then (a: SearchResult, b: SearchResult) => a.totalDownloads > b.totalDownloads
    else if sortBy == "name" then
      (a: SearchResult, b: SearchResult) => a.artifact.name != b.artifact.name && Strings.Leq(a.artifact.name, b.artifact.name)
    else (a: SearchResult, b: SearchResult) => a.artifact.updatedAt > b.artifact.updatedAt
  }

  function NewestFirst(): (Version, Version) -> bool {
    (a: Version, b: Version) => a.publishedAt > b.publishedAt
  }

  /** What the orders mean for the ratings and results they sort. */
  lemma RatingsOrdered(rs: seq<Rating>, sortBy: string, i: int, j: int)
    requires Ordered(rs, RatingLess(sortBy)) && 0 <= i < j < |rs|
    ensures if sortBy == "helpful" then rs[i].helpful >= rs[j].helpful else rs[i].createdAt >= rs[j].createdAt
  {
    assert !RatingLess(sortBy)(rs[j], rs[i]);
  }

  lemma ResultsOrdered(rs: seq<SearchResult>, sortBy: string, i: int, j: int)
    requires Ordered(rs, ResultLess(sortBy)) && 0 <= i < j < |rs|
    ensures if sortBy == "downloads" then rs[i].totalDownloads >= rs[j].totalDownloads
            else if sortBy == "name" then Strings.Leq(rs[i].artifact.name, rs[j].artifact.name)
            else rs[i].artifact.updatedAt >= rs[j].artifact.updatedAt
  {
    assert !ResultLess(sortBy)(rs[j], rs[i]);
    Strings.LeqTotal(rs[i].artifact.name, rs[j].artifact.name);
  }

  lemma PageInOrder<T(!new)>(xs: seq<T>, less: (T, T) -> bool, page: int, perPage: int)
    requires Ordered(xs, less)
    ensures Ordered(Page(xs, page, perPage), less)
  {
    hide Offset;
  }

  /** Nothing on a later page should come before anything on an earlier one. */
  lemma PagesInOrder<T(!new)>(xs: seq<T>, less: (T, T) -> bool, p: int, q: int, perPage: int, i: nat, j: nat)
    requires Ordered(xs, less) && 1 <= p < q && i < |Page(xs, p, perPage)| && j < |Page(xs, q, perPage)|
    ensures !less(Page(xs, q, perPage)[j], Page(xs, p, perPage)[i])
  {
    var size := if perPage <= 0 then 20 else perPage;
    OffsetsApart(p, q, size);
    PageAt(xs, p, perPage, i);
    PageAt(xs, q, perPage, j);
    hide Offset, Page;
  }

  lemma PageAt<T>(xs: seq<T>, page: int, perPage: int, i: nat)
    requires page >= 1 && i < |Page(xs, page, perPage)|
    ensures var size := if perPage <= 0 then 20 else perPage;
            i < size && Offset(page, size) + i < |xs| && Page(xs, page, perPage)[i] == xs[Offset(page, size) + i]
  {
    hide Offset;
  }

  lemma OffsetsApart(p: int, q: int, size: int)
    requires 1 <= p < q && size >= 1
    ensures Offset(p, size) + size <= Offset(q, size)
  {
    assert (q - 1) * size == p * size + (q - 1 - p) * size;
    assert (q - 1 - p) * size >= 0;
    assert p * size == (p - 1) * size + size;
  }

  /** The version shown for an artifact is one of its newest. */
  ghost predicate ShowsNewest(m: Market, sr: SearchResult) {
    var vs := ListAt(m.versions, sr.artifact.id);
    if vs == [] then sr.latestVersion == ""
    else exists v :: v in vs && v.version == sr.latestVersion && forall w :: w in vs ==> w.publishedAt <= v.publishedAt
  }

  lemma LatestIsNewest(m: Market, art: Artifact, newest: seq<Version> -> seq<Version>)
    requires Sorts(newest, NewestFirst())
    ensures ShowsNewest(m, ResultFor(m, art, newest))
  {
    var vs := ListAt(m.versions, art.id);
    var sorted := newest(vs);
    assert multiset(sorted) == multiset(vs) && Ordered(sorted, NewestFirst());
    SameElements(sorted, vs);
    if vs != [] {
      assert vs[0] in sorted;
      var v := sorted[0];
      assert v in vs;
      forall w | w in vs ensures w.publishedAt <= v.publishedAt {
        var i :| 0 <= i < |sorted| && sorted[i] == w;
        if i > 0 { assert !NewestFirst()(sorted[i], v); }
      }
    }
  }

  lemma SameElements<T(!new)>(xs: seq<T>, ys: seq<T>)
    requires multiset(xs) == multiset(ys)
    ensures |xs| == |ys| && forall x :: x in xs <==> x in ys
  {
    assert |multiset(xs)| == |multiset(ys)|;
    forall x ensures x in xs <==> x in ys {
      assert x in multiset(xs) <==> x in multiset(ys);
    }
  }

  // --- written and read back

  /** The lists of the given keys, one after the other. */
  function Flat<T>(lists: map<string, seq<T>>, order: seq<string>): seq<T> {
    if order == [] then [] else Flat(lists, order[..|order| - 1]) + ListAt(lists, order[|order| - 1])
  }

  /** The records filed into lists by owner, in the order they come. */
  function Filing<T>(xs: seq<T>, owner: T -> string): map<string, seq<T>> {
    if xs == [] then map[]
    else
      var x := xs[|xs| - 1];
      Append(Filing(xs[..|xs| - 1], owner), owner(x), x)
  }

  lemma {:induction false} FilingGroup<T>(front: seq<T>, xs: seq<T>, owner: T -> string, k: string)
    requires xs != [] && forall x :: x in xs ==> owner(x) == k
    ensures Filing(front + xs, owner) == Filing(front, owner)[k := ListAt(Filing(front, owner), k) + xs]
  {
    hide Filing;
    var n := |xs| - 1;
    var had := ListAt(Filing(front, owner), k);
    assert front + xs == (front + xs[..n]) + [xs[n]];
    FilingSnoc(front + xs[..n], xs[n], owner);
    if n == 0 {
      assert front + xs[..0] == front;
      assert xs == [xs[0]];
    } else {
      FilingGroup(front, xs[..n], owner, k);
      assert had + xs[..n] + [xs[n]] == had + xs;
    }
  }

  lemma FilingSnoc<T>(xs: seq<T>, x: T, owner: T -> string)
    ensures Filing(xs + [x], owner) == Append(Filing(xs, owner), owner(x), x)
  {
    assert (xs + [x])[..|xs|] == xs;
  }

  ghost predicate Order(order: seq<string>, keys: set<string>) {
    (forall k :: k in order <==> k in keys) && forall i, j :: 0 <= i < j < |order| ==> order[i] != order[j]
  }

  lemma OrderOfNone(order: seq<string>, keys: set<string>)
    requires Order(order, keys)
    ensures order == [] ==> keys == {}
  {
    assert forall k :: k in keys ==> k in order;
  }

  lemma OrderFront(order: seq<string>, keys: set<string>)
    requires Order(order, keys) && order != []
    ensures Order(order[..|order| - 1], keys - {order[|order| - 1]}) && order[|order| - 1] in keys
  {
    var n := |order| - 1;
    assert order[n] in order;
    forall l ensures l in order[..n] <==> l in keys - {order[n]} {
      if l in order[..n] { assert l in order; }
      if l in keys - {order[n]} { assert l in order; }
    }
  }

  /** Whatever order the lists were written in, filing the records gives each list back. */
  lemma {:induction false} FilingFlat<T(!new)>(lists: map<string, seq<T>>, owner: T -> string, order: seq<string>, keys: set<string>)
    requires Grouped(lists, owner) && Order(order, keys) && keys <= lists.Keys
    ensures Filing(Flat(lists, order), owner) == map k | k in keys :: lists[k]
  {
    hide Order, Filing, Grouped;
    if order == [] {
      OrderOfNone(order, keys);
      FilingNone(owner);
    } else {
      var n := |order| - 1;
      var front, k := order[..n], order[n];
      OrderFront(order, keys);
      FilingFlat(lists, owner, front, keys - {k});
      GroupOf(lists, owner, k);
      FilingGroup(Flat(lists, front), lists[k], owner, k);
      assert [] + lists[k] == lists[k];
    }
  }

  lemma GroupOf<T(!new)>(lists: map<string, seq<T>>, owner: T -> string, k: string)
    requires Grouped(lists, owner) && k in lists
    ensures lists[k] != [] && forall x :: x in lists[k] ==> owner(x) == k
  {
  }

  lemma FilingNone<T>(owner: T -> string)
    ensures Filing([], owner) == map[]
  {
  }

  /** The data as it is written: a list of each kind, in whatever order the maps are walked. */
  datatype StoreData = StoreData(publishers: seq<Publisher>, artifacts: seq<Artifact>, versions: seq<Version>,
                                 ratings: seq<Rating>, downloads: seq<Download>)

  ghost predicate WrittenAs<T(!new)>(records: map<string, T>, xs: seq<T>) {
    exists order :: Order(order, records.Keys) && xs == Records(records, order)
  }

  function Records<T>(records: map<string, T>, order: seq<string>): seq<T> {
    if order == [] then []
    else
      var k := order[|order| - 1];
      Records(records, order[..|order| - 1]) + if k in records then [records[k]] else []
  }

  ghost predicate ListsWrittenAs<T(!new)>(lists: map<string, seq<T>>, xs: seq<T>) {
    exists order :: Order(order, lists.Keys) && xs == Flat(lists, order)
  }

  ghost predicate Written(m: Market, data: StoreData) {
    && WrittenAs(m.publishers, data.publishers) && WrittenAs(m.artifacts, data.artifacts)
    && ListsWrittenAs(m.versions, data.versions) && ListsWrittenAs(m.ratings, data.ratings)
    && data.downloads == m.downloads
  }

  /** The records under their ids. */
  function ById<T>(xs: seq<T>, id: T -> string): map<string, T> {
    if xs == [] then map[]
    else ById(xs[..|xs| - 1], id)[id(xs[|xs| - 1]) := xs[|xs| - 1]]
  }

  function PublisherId(): Publisher -> string { (p: Publisher) => p.id }
  function ArtifactId(): Artifact -> string { (a: Artifact) => a.id }

  function Loaded(data: StoreData): Market {
    Market(ById(data.publishers, PublisherId()), ById(data.artifacts, ArtifactId()),
           Filing(data.versions, VersionOwner()), Filing(data.ratings, RatingOwner()), data.downloads)
  }

  lemma {:induction false} ByIdRecords<T(!new)>(records: map<string, T>, id: T -> string, order: seq<string>, keys: set<string>)
    requires (forall k :: k in records ==> id(records[k]) == k) && Order(order, keys) && keys <= records.Keys
    ensures ById(Records(records, order), id) == map k | k in keys :: records[k]
  {
    hide Order;
    assert order == [] ==> keys == {} by { OrderOfNone(order, keys); }
    if order != [] {
      var n := |order| - 1;
      OrderFront(order, keys);
      ByIdRecords(records, id, order[..n], keys - {order[n]});
      var xs := Records(records, order);
      assert xs[..|xs| - 1] == Records(records, order[..n]);
    }
  }

  /** Data written and read back is the same data, each artifact's versions and ratings in their old order. */
  lemma LoadWritten(m: Market, data: StoreData)
    requires Inv(m) && Written(m, data)
    ensures Loaded(data) == m
  {
    hide WrittenAs, ListsWrittenAs, UniqueInEach, UniqueOverall, NamesUnique, ArtifactsUnique, Counted, Fair, Filing, ById;
    RecordsBack(m.publishers, PublisherId(), data.publishers);
    RecordsBack(m.artifacts, ArtifactId(), data.artifacts);
    ListsBack(m.versions, VersionOwner(), data.versions);
    ListsBack(m.ratings, RatingOwner(), data.ratings);
  }

  lemma RecordsBack<T(!new)>(records: map<string, T>, id: T -> string, xs: seq<T>)
    requires (forall k :: k in records ==> id(records[k]) == k) && WrittenAs(records, xs)
    ensures ById(xs, id) == records
  {
    var order :| Order(order, records.Keys) && xs == Records(records, order);
    ByIdRecords(records, id, order, records.Keys);
  }

  lemma ListsBack<T(!new)>(lists: map<string, seq<T>>, owner: T -> string, xs: seq<T>)
    requires Grouped(lists, owner) && ListsWrittenAs(lists, xs)
    ensures Filing(xs, owner) == lists
  {
    hide Grouped;
    var order :| Order(order, lists.Keys) && xs == Flat(lists, order);
    FilingFlat(lists, owner, order, lists.Keys);
  }

  // --- search

  datatype SearchResult = SearchResult(artifact: Artifact, latestVersion: string, totalDownloads: nat,
                                       rating: real, ratingCount: nat)

  /** The aggregates shown for an artifact, given how its versions are ordered. */
  function ResultFor(m: Market, art: Artifact, newest: seq<Version> -> seq<Version>): SearchResult {
    var vs, rs := newest(ListAt(m.versions, art.id)), ListAt(m.ratings, art.id);
    SearchResult(art, if vs == [] then "" else vs[0].version, SumDownloads(vs),
                 if rs == [] then 0.0 else Bayes(rs), |rs|)
  }

  lemma {:induction false} SumWithout(vs: seq<Version>, i: nat)
    requires i < |vs|
    ensures SumDownloads(vs) == SumDownloads(vs[..i] + vs[i + 1..]) + vs[i].downloads
  {
    var n := |vs| - 1;
    var rest := vs[..i] + vs[i + 1..];
    if i == n {
      assert rest == vs[..n];
    } else {
      SumWithout(vs[..n], i);
      assert rest[..n - 1] == vs[..n][..i] + vs[..n][i + 1..];
    }
  }

  /** Rearranging versions does not change the total. */
  lemma {:induction false} SumRearranged(vs: seq<Version>, ws: seq<Version>)
    requires multiset(vs) == multiset(ws)
    ensures SumDownloads(vs) == SumDownloads(ws)
  {
    assert |vs| == |multiset(vs)| == |multiset(ws)| == |ws|;
    if vs != [] {
      var i := SameElsewhere(vs, ws);
      SumRearranged(vs[..|vs| - 1], ws[..i] + ws[i + 1..]);
      SumWithout(ws, i);
    }
  }

  /** Without its last element, a sequence rearranges what a rearrangement is without that element. */
  lemma SameElsewhere<T>(xs: seq<T>, ys: seq<T>) returns (i: nat)
    requires xs != [] && multiset(xs) == multiset(ys)
    ensures i < |ys| && ys[i] == xs[|xs| - 1]
    ensures multiset(xs[..|xs| - 1]) == multiset(ys[..i] + ys[i + 1..])
  {
    var n, x := |xs| - 1, xs[|xs| - 1];
    assert x in multiset(xs);
    assert x in multiset(ys);
    i :| 0 <= i < |ys| && ys[i] == x;
    OneRemoved(ys, i);
    OneRemoved(xs, n);
    assert xs[..n] + xs[n + 1..] == xs[..n];
  }

  lemma OneRemoved<T>(xs: seq<T>, i: nat)
    requires i < |xs|
    ensures multiset(xs[..i] + xs[i + 1..]) == multiset(xs) - multiset{xs[i]}
  {
    assert xs == xs[..i] + [xs[i]] + xs[i + 1..];
  }

  /** What search shows for an artifact is what its statistics and its rating page show. */
  lemma SearchAgreesWithStats(m: Market, art: Artifact, newest: seq<Version> -> seq<Version>)
    requires Inv(m) && forall vs: seq<Version> :: multiset(newest(vs)) == multiset(vs)
    ensures ResultFor(m, art, newest).totalDownloads == Events(m.downloads, Ids(ListAt(m.versions, art.id)))
    ensures ResultFor(m, art, newest).artifact == art && ResultFor(m, art, newest).ratingCount == |ListAt(m.ratings, art.id)|
    ensures ListAt(m.ratings, art.id) == [] ==> ResultFor(m, art, newest).rating == 0.0
    ensures ListAt(m.ratings, art.id) != [] ==>
              ResultFor(m, art, newest).rating == Bayes(ListAt(m.ratings, art.id))
              && 1.0 <= ResultFor(m, art, newest).rating <= 5.0
  {
    hide Bayes, VersionsInv;
    var vs, rs := ListAt(m.versions, art.id), ListAt(m.ratings, art.id);
    SumRearranged(newest(vs), vs);
    SearchTotalIsStats(m, art.id);
    if rs != [] {
      BayesIsAScore(rs) by { assert forall r :: r in rs ==> FairRating(r); }
    }
  }

  lemma {:induction false} SumOfScores(rs: seq<Rating>)
    requires forall r :: r in rs ==> 1 <= r.score <= 5
    ensures |rs| <= SumScores(rs) <= 5 * |rs|
  {
    if rs != [] { SumOfScores(rs[..|rs| - 1]); }
  }

  /** With scores of one to five, the average shown is a score from one to five. */
  lemma BayesIsAScore(rs: seq<Rating>)
    requires rs != [] && forall r :: r in rs ==> 1 <= r.score <= 5
    ensures 1.0 <= Bayes(rs) <= 5.0
  {
    SumOfScores(rs);
    var total, n := CONFIDENCE * PRIOR + SumScores(rs) as real, CONFIDENCE + |rs| as real;
    assert n <= total <= 5.0 * n;
    Quotient(total, n);
  }

  lemma Quotient(total: real, n: real)
    requires n > 0.0 && n <= total <= 5.0 * n
    ensures 1.0 <= total / n <= 5.0
  {
    var q := total / n;
    assert q * n == total;
  }
}
