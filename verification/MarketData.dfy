/** The marketplace's records, what each operation of its store does to them, and what stays true of them. */
module MarketData {
  datatype Publisher = Publisher(id: string, name: string, verified: bool)

  datatype Artifact = Artifact(id: string, publisherId: string, publisherName: string, name: string, kind: string,
                               verified: bool, deprecated: bool, createdAt: int, updatedAt: int)

  datatype Version = Version(id: string, artifactId: string, version: string, downloads: nat, publishedAt: int)

  datatype Rating = Rating(id: string, artifactId: string, userId: string, score: int, helpful: nat,
                           voters: seq<string>, createdAt: int, updatedAt: int)

  datatype Download = Download(versionId: string, platform: string, at: int)

  /** Versions and ratings are listed per artifact, in the order they were added. */
  datatype Market = Market(publishers: map<string, Publisher>, artifacts: map<string, Artifact>,
                           versions: map<string, seq<Version>>, ratings: map<string, seq<Rating>>,
                           downloads: seq<Download>)

  const NO_DATA := Market(map[], map[], map[], map[], [])

  function ListAt<T>(lists: map<string, seq<T>>, key: string): seq<T> {
    if key in lists then lists[key] else []
  }

  // --- what holds of the data

  /** No two publishers share a name. */
  ghost predicate NamesUnique(publishers: map<string, Publisher>) {
    forall i, j :: i in publishers && j in publishers && publishers[i].name == publishers[j].name ==> i == j
  }

  predicate SameArtifact(a: Artifact, b: Artifact) {
    a.publisherId == b.publisherId && a.name == b.name && a.kind == b.kind
  }

  /** No publisher has two artifacts of one name and type. */
  ghost predicate ArtifactsUnique(artifacts: map<string, Artifact>) {
    forall i, j :: i in artifacts && j in artifacts && SameArtifact(artifacts[i], artifacts[j]) ==> i == j
  }

  /** Publishers and artifacts are filed under their own, non-empty ids. */
  ghost predicate Filed(publishers: map<string, Publisher>, artifacts: map<string, Artifact>) {
    && (forall k :: k in publishers ==> publishers[k].id == k != "")
    && (forall k :: k in artifacts ==> artifacts[k].id == k != "")
  }

  /** Every list has an element, and all its elements belong to its artifact. */
  ghost predicate Grouped<T(!new)>(lists: map<string, seq<T>>, owner: T -> string) {
    forall k :: k in lists ==> lists[k] != [] && forall x :: x in lists[k] ==> owner(x) == k
  }

  ghost predicate DistinctBy<T(!new)>(xs: seq<T>, key: T -> string) {
    forall i, j :: 0 <= i < j < |xs| ==> key(xs[i]) != key(xs[j])
  }

  /** Within each list the key is unique. */
  ghost predicate UniqueInEach<T(!new)>(lists: map<string, seq<T>>, key: T -> string) {
    forall k :: k in lists ==> DistinctBy(lists[k], key)
  }

  ghost predicate Has<T(!new)>(lists: map<string, seq<T>>, key: T -> string, k: string, id: string) {
    k in lists && exists x :: x in lists[k] && key(x) == id
  }

  /** The key is unique in each list and found in one list only. */
  ghost predicate UniqueOverall<T(!new)>(lists: map<string, seq<T>>, key: T -> string) {
    && UniqueInEach(lists, key)
    && forall k, l, id :: Has(lists, key, k, id) && Has(lists, key, l, id) ==> k == l
  }

  function VersionOwner(): Version -> string { (v: Version) => v.artifactId }
  function VersionId(): Version -> string { (v: Version) => v.id }
  function VersionName(): Version -> string { (v: Version) => v.version }
  function RatingOwner(): Rating -> string { (r: Rating) => r.artifactId }
  function RatingId(): Rating -> string { (r: Rating) => r.id }
  function RatingUser(): Rating -> string { (r: Rating) => r.userId }

  /** How often a version was downloaded. */
  function CountOf(downloads: seq<Download>, versionId: string): nat {
    if downloads == [] then 0
    else CountOf(downloads[..|downloads| - 1], versionId) + if downloads[|downloads| - 1].versionId == versionId then 1 else 0
  }

  /** Every version's counter is the number of its download events, and every event is of some version. */
  ghost predicate Counted(versions: map<string, seq<Version>>, downloads: seq<Download>) {
    && (forall k, v :: k in versions && v in versions[k] ==> v.downloads == CountOf(downloads, v.id))
    && forall d :: d in downloads ==> exists k :: Has(versions, VersionId(), k, d.versionId)
  }

  /** Votes count at least the voters on record; scores are one to five. */
  predicate FairRating(r: Rating) {
    r.helpful >= |r.voters| && (forall i, j :: 0 <= i < j < |r.voters| ==> r.voters[i] != r.voters[j]) && 1 <= r.score <= 5
  }

  ghost predicate Fair(ratings: map<string, seq<Rating>>) {
    forall k, r :: k in ratings && r in ratings[k] ==> FairRating(r)
  }

  ghost predicate NamesInv(publishers: map<string, Publisher>, artifacts: map<string, Artifact>) {
    NamesUnique(publishers) && ArtifactsUnique(artifacts) && Filed(publishers, artifacts)
  }

  ghost predicate VersionsInv(versions: map<string, seq<Version>>, downloads: seq<Download>) {
    && Grouped(versions, VersionOwner()) && UniqueInEach(versions, VersionName())
    && UniqueOverall(versions, VersionId()) && Counted(versions, downloads)
  }

  ghost predicate RatingsInv(ratings: map<string, seq<Rating>>) {
    Grouped(ratings, RatingOwner()) && UniqueInEach(ratings, RatingUser()) && UniqueOverall(ratings, RatingId()) && Fair(ratings)
  }

  ghost predicate Inv(m: Market) {
    NamesInv(m.publishers, m.artifacts) && VersionsInv(m.versions, m.downloads) && RatingsInv(m.ratings)
  }

  // --- what the operations do

  predicate NameTaken(publishers: map<string, Publisher>, name: string) {
    exists k :: k in publishers && publishers[k].name == name
  }

  function AddPublisher(m: Market, pub: Publisher): Market {
    if NameTaken(m.publishers, pub.name) then m else m.(publishers := m.publishers[pub.id := pub])
  }

  predicate ArtifactTaken(artifacts: map<string, Artifact>, art: Artifact) {
    art.id in artifacts || exists k :: k in artifacts && SameArtifact(artifacts[k], art)
  }

  function AddArtifact(m: Market, art: Artifact): Market {
    if ArtifactTaken(m.artifacts, art) then m
    else
      var name := if art.publisherId in m.publishers then m.publishers[art.publisherId].name else art.publisherName;
      m.(artifacts := m.artifacts[art.id := art.(updatedAt := art.createdAt, publisherName := name)])
  }

  function Append<T>(lists: map<string, seq<T>>, key: string, x: T): map<string, seq<T>> {
    lists[key := ListAt(lists, key) + [x]]
  }

  predicate VersionTaken(versions: seq<Version>, version: string) {
    exists i :: 0 <= i < |versions| && versions[i].version == version
  }

  function AddVersion(m: Market, v: Version, now: int): Market {
    if VersionTaken(ListAt(m.versions, v.artifactId), v.version) then m
    else
      m.(versions := Append(m.versions, v.artifactId, v),
         artifacts := if v.artifactId in m.artifacts
                      then m.artifacts[v.artifactId := m.artifacts[v.artifactId].(updatedAt := now)] else m.artifacts)
  }

  /** The first position whose key is id, or the length. */
  function FirstBy<T>(xs: seq<T>, key: T -> string, id: string): (i: nat)
    ensures i <= |xs|
    ensures i < |xs| ==> key(xs[i]) == id
    ensures forall j :: 0 <= j < i ==> key(xs[j]) != id
  {
    if xs == [] || key(xs[0]) == id then 0 else 1 + FirstBy(xs[1..], key, id)
  }

  /** A user's rating takes the place of an earlier one of theirs and keeps its creation time and votes. */
  function AddRating(m: Market, r: Rating): Market {
    var rs := ListAt(m.ratings, r.artifactId);
    var i := FirstBy(rs, RatingUser(), r.userId);
    if i < |rs| then
      m.(ratings := m.ratings[r.artifactId := rs[i := r.(createdAt := rs[i].createdAt, helpful := rs[i].helpful)]])
    else m.(ratings := Append(m.ratings, r.artifactId, r))
  }

  function Bumped(vs: seq<Version>, versionId: string): seq<Version> {
    var i := FirstBy(vs, VersionId(), versionId);
    if i < |vs| then vs[i := vs[i].(downloads := vs[i].downloads + 1)] else vs
  }

  function AddDownload(m: Market, d: Download): Market {
    m.(downloads := m.downloads + [d], versions := map k | k in m.versions :: Bumped(m.versions[k], d.versionId))
  }

  function AddVote(m: Market, k: string, i: nat, voter: string): Market
    requires k in m.ratings && i < |m.ratings[k]|
  {
    var r := m.ratings[k][i];
    if voter in r.voters then m
    else m.(ratings := m.ratings[k := m.ratings[k][i := r.(voters := r.voters + [voter], helpful := r.helpful + 1)]])
  }

  // --- runs

  /** One operation as the request handlers issue it. */
  datatype Op =
    | NewPublisher(pub: Publisher)
    | VerifyRequested(id: string)
    | NewArtifact(art: Artifact)
    | NewVersion(v: Version, now: int)
    | Rated(r: Rating)
    | Voted(artifactId: string, at: nat, voter: string)
    | Downloaded(d: Download)

  /** Ids given to new records are new, new versions start uncounted, and only existing versions are downloaded. */
  ghost predicate Handled(m: Market, op: Op) {
    match op
    case NewPublisher(pub) => pub.id != "" && pub.id !in m.publishers
    case VerifyRequested(id) => id in m.publishers
    case NewArtifact(art) => art.id != ""
    case NewVersion(v, now) => v.downloads == 0 && forall k :: !Has(m.versions, VersionId(), k, v.id)
    case Rated(r) => 1 <= r.score <= 5 && r.voters == [] && r.helpful == 0 && forall k :: !Has(m.ratings, RatingId(), k, r.id)
    case Voted(k, i, voter) => k in m.ratings && i < |m.ratings[k]|
    case Downloaded(d) => exists k :: Has(m.versions, VersionId(), k, d.versionId)
  }

  ghost function Do(m: Market, op: Op): Market
    requires Handled(m, op)
  {
    match op
    case NewPublisher(pub) => AddPublisher(m, pub)
    case VerifyRequested(id) => m.(publishers := m.publishers[id := m.publishers[id].(verified := false)])
    case NewArtifact(art) => AddArtifact(m, art)
    case NewVersion(v, now) => AddVersion(m, v, now)
    case Rated(r) => AddRating(m, r)
    case Voted(k, i, voter) => AddVote(m, k, i, voter)
    case Downloaded(d) => AddDownload(m, d)
  }

  ghost predicate IsRun(states: seq<Market>, ops: seq<Op>) {
    && |states| == |ops| + 1 && states[0] == NO_DATA
    && forall i :: 0 <= i < |ops| ==> Handled(states[i], ops[i]) && states[i + 1] == Do(states[i], ops[i])
  }

  /** Two collections of lists with the same keys, place by place. */
  ghost predicate SameKeys<T(!new)>(lists: map<string, seq<T>>, lists': map<string, seq<T>>, key: T -> string) {
    && lists'.Keys == lists.Keys
    && forall k :: k in lists ==> SameKeysIn(lists[k], lists'[k], key)
  }

  ghost predicate SameKeysIn<T(!new)>(xs: seq<T>, ys: seq<T>, key: T -> string) {
    |xs| == |ys| && forall i :: 0 <= i < |xs| ==> key(ys[i]) == key(xs[i])
  }

  lemma SameKeysHas<T(!new)>(lists: map<string, seq<T>>, lists': map<string, seq<T>>, key: T -> string, k: string, id: string)
    requires SameKeys(lists, lists', key)
    ensures Has(lists', key, k, id) <==> Has(lists, key, k, id)
  {
    if k in lists {
      assert SameKeysIn(lists[k], lists'[k], key);
      if Has(lists, key, k, id) {
        var i :| 0 <= i < |lists[k]| && key(lists[k][i]) == id;
        assert lists'[k][i] in lists'[k];
      }
    }
  }

  lemma SameKeysKeep<T(!new)>(lists: map<string, seq<T>>, lists': map<string, seq<T>>, key: T -> string)
    requires SameKeys(lists, lists', key)
    ensures UniqueInEach(lists, key) ==> UniqueInEach(lists', key)
    ensures UniqueOverall(lists, key) ==> UniqueOverall(lists', key)
    ensures Grouped(lists, key) ==> Grouped(lists', key)
  {
    forall k | k in lists ensures SameKeysIn(lists[k], lists'[k], key) {}
    forall k, id ensures Has(lists', key, k, id) <==> Has(lists, key, k, id) { SameKeysHas(lists, lists', key, k, id); }
  }

  lemma AppendKeeps<T(!new)>(lists: map<string, seq<T>>, key: T -> string, k: string, x: T)
    ensures UniqueInEach(lists, key) && (forall y :: y in ListAt(lists, k) ==> key(y) != key(x)) ==>
              UniqueInEach(Append(lists, k, x), key)
    ensures Grouped(lists, key) && key(x) == k ==> Grouped(Append(lists, k, x), key)
  {
  }

  lemma AppendHas<T(!new)>(lists: map<string, seq<T>>, key: T -> string, k: string, x: T, l: string, id: string)
    ensures Has(Append(lists, k, x), key, l, id) <==> Has(lists, key, l, id) || (l == k && id == key(x))
  {
    if Has(lists, key, l, id) {
      var y :| y in lists[l] && key(y) == id;
      assert y in Append(lists, k, x)[l];
    }
    if l == k && id == key(x) { assert x in Append(lists, k, x)[k]; }
  }

  lemma AppendFresh<T(!new)>(lists: map<string, seq<T>>, key: T -> string, k: string, x: T)
    requires UniqueOverall(lists, key) && forall l :: !Has(lists, key, l, key(x))
    ensures UniqueOverall(Append(lists, k, x), key)
  {
    hide Has;
    forall l, id ensures Has(Append(lists, k, x), key, l, id) <==> Has(lists, key, l, id) || (l == k && id == key(x)) {
      AppendHas(lists, key, k, x, l, id);
    }
    assert forall y :: y in ListAt(lists, k) ==> key(y) != key(x) by {
      forall y | y in ListAt(lists, k) ensures key(y) != key(x) { InListHas(lists, key, k, y); }
    }
    AppendKeeps(lists, key, k, x);
  }

  lemma InListHas<T(!new)>(lists: map<string, seq<T>>, key: T -> string, k: string, y: T)
    requires y in ListAt(lists, k)
    ensures Has(lists, key, k, key(y))
  {
  }

  lemma {:induction false} NotCounted(downloads: seq<Download>, versionId: string)
    requires forall d :: d in downloads ==> d.versionId != versionId
    ensures CountOf(downloads, versionId) == 0
  {
    if downloads != [] { NotCounted(downloads[..|downloads| - 1], versionId); }
  }

  lemma AddVersionKeeps(m: Market, v: Version, now: int)
    requires Inv(m) && Handled(m, NewVersion(v, now))
    ensures Inv(AddVersion(m, v, now))
  {
    if VersionTaken(ListAt(m.versions, v.artifactId), v.version) { return; }
    hide VersionsInv, RatingsInv, NamesInv, Has, Append;
    AppendVersionKeeps(m.versions, m.downloads, v);
    if v.artifactId in m.artifacts { TouchKeeps(m.publishers, m.artifacts, v.artifactId, now); }
  }

  lemma TouchKeeps(publishers: map<string, Publisher>, artifacts: map<string, Artifact>, id: string, now: int)
    requires NamesInv(publishers, artifacts) && id in artifacts
    ensures NamesInv(publishers, artifacts[id := artifacts[id].(updatedAt := now)])
  {
  }

  lemma AppendVersionKeeps(versions: map<string, seq<Version>>, downloads: seq<Download>, v: Version)
    requires VersionsInv(versions, downloads) && v.downloads == 0 && forall k :: !Has(versions, VersionId(), k, v.id)
    requires !VersionTaken(ListAt(versions, v.artifactId), v.version)
    ensures VersionsInv(Append(versions, v.artifactId, v), downloads)
  {
    hide Has, Grouped, UniqueInEach, UniqueOverall;
    AppendKeeps(versions, VersionOwner(), v.artifactId, v);
    AppendKeeps(versions, VersionName(), v.artifactId, v);
    AppendFresh(versions, VersionId(), v.artifactId, v);
    NotCounted(downloads, v.id);
    forall d | d in downloads ensures exists k :: Has(Append(versions, v.artifactId, v), VersionId(), k, d.versionId) {
      var k :| Has(versions, VersionId(), k, d.versionId);
      AppendHas(versions, VersionId(), v.artifactId, v, k, d.versionId);
    }
  }

  /** Replacing an element by one with a new key. */
  lemma ReplaceFresh<T(!new)>(lists: map<string, seq<T>>, key: T -> string, k: string, i: nat, x: T)
    requires k in lists && i < |lists[k]|
    requires UniqueOverall(lists, key) && forall l :: !Has(lists, key, l, key(x))
    ensures UniqueOverall(lists[k := lists[k][i := x]], key)
  {
    var lists' := lists[k := lists[k][i := x]];
    forall l, id | Has(lists', key, l, id) ensures if id == key(x) then l == k else Has(lists, key, l, id) {
      var y :| y in lists'[l] && key(y) == id;
      assert l != k ==> Has(lists, key, l, id);
    }
    forall j | 0 <= j < |lists[k]| ensures key(lists[k][j]) != key(x) { InListHas(lists, key, k, lists[k][j]); }
  }

  lemma NewRatingIsFair(r: Rating)
    requires r.voters == [] && 1 <= r.score <= 5
    ensures FairRating(r)
  {
  }

  lemma AddRatingKeeps(m: Market, r: Rating)
    requires Inv(m) && Handled(m, Rated(r))
    ensures Inv(AddRating(m, r))
  {
    hide NamesInv, VersionsInv, RatingsInv, Has;
    var k := r.artifactId;
    var rs := ListAt(m.ratings, k);
    var i := FirstBy(rs, RatingUser(), r.userId);
    if i < |rs| {
      ReplaceRatingKeeps(m.ratings, k, i, r.(createdAt := rs[i].createdAt, helpful := rs[i].helpful));
    } else {
      AppendRatingKeeps(m.ratings, r);
    }
  }

  lemma ReplaceRatingKeeps(ratings: map<string, seq<Rating>>, k: string, i: nat, x: Rating)
    requires RatingsInv(ratings) && k in ratings && i < |ratings[k]|
    requires x.artifactId == k && x.userId == ratings[k][i].userId && x.voters == [] && 1 <= x.score <= 5
    requires forall l :: !Has(ratings, RatingId(), l, x.id)
    ensures RatingsInv(ratings[k := ratings[k][i := x]])
  {
    hide Has, FairRating, UniqueOverall, UniqueInEach;
    var ratings' := ratings[k := ratings[k][i := x]];
    assert ratings[k][i] in ratings[k];
    forall l | l in ratings
      ensures SameKeysIn(ratings[l], ratings'[l], RatingUser()) && SameKeysIn(ratings[l], ratings'[l], RatingOwner()) {}
    SameKeysKeep(ratings, ratings', RatingUser());
    SameKeysKeep(ratings, ratings', RatingOwner());
    ReplaceFresh(ratings, RatingId(), k, i, x);
    NewRatingIsFair(x);
  }

  lemma AppendRatingKeeps(ratings: map<string, seq<Rating>>, r: Rating)
    requires RatingsInv(ratings) && r.voters == [] && 1 <= r.score <= 5
    requires FirstBy(ListAt(ratings, r.artifactId), RatingUser(), r.userId) == |ListAt(ratings, r.artifactId)|
    requires forall l :: !Has(ratings, RatingId(), l, r.id)
    ensures RatingsInv(Append(ratings, r.artifactId, r))
  {
    hide Has, FairRating, UniqueOverall, UniqueInEach, Grouped;
    AppendKeeps(ratings, RatingOwner(), r.artifactId, r);
    AppendKeeps(ratings, RatingUser(), r.artifactId, r);
    AppendFresh(ratings, RatingId(), r.artifactId, r);
    NewRatingIsFair(r);
  }

  lemma VoteIsFair(r: Rating, voter: string)
    requires FairRating(r) && voter !in r.voters
    ensures FairRating(r.(voters := r.voters + [voter], helpful := r.helpful + 1))
  {
  }

  lemma AddVoteKeeps(m: Market, k: string, i: nat, voter: string)
    requires Inv(m) && k in m.ratings && i < |m.ratings[k]|
    ensures Inv(AddVote(m, k, i, voter))
  {
    hide NamesInv, VersionsInv, FairRating, Has, Grouped, UniqueInEach, UniqueOverall;
    var r := m.ratings[k][i];
    if voter !in r.voters {
      var ratings' := AddVote(m, k, i, voter).ratings;
      forall l | l in m.ratings
        ensures SameKeysIn(m.ratings[l], ratings'[l], RatingUser()) && SameKeysIn(m.ratings[l], ratings'[l], RatingOwner())
                && SameKeysIn(m.ratings[l], ratings'[l], RatingId()) {}
      SameKeysKeep(m.ratings, ratings', RatingUser());
      SameKeysKeep(m.ratings, ratings', RatingOwner());
      SameKeysKeep(m.ratings, ratings', RatingId());
      VoteIsFair(r, voter);
    }
  }

  /** Among versions with different ids, exactly those with the downloaded id count one more. */
  lemma BumpedEach(vs: seq<Version>, id: string)
    requires DistinctBy(vs, VersionId())
    ensures |Bumped(vs, id)| == |vs|
    ensures forall j :: 0 <= j < |vs| ==>
      Bumped(vs, id)[j] == vs[j].(downloads := vs[j].downloads + if vs[j].id == id then 1 else 0)
  {
    var i := FirstBy(vs, VersionId(), id);
    forall j | 0 <= j < |vs|
      ensures Bumped(vs, id)[j] == vs[j].(downloads := vs[j].downloads + if vs[j].id == id then 1 else 0)
    {
      if i < j { assert VersionId()(vs[i]) != VersionId()(vs[j]); }
    }
  }

  lemma CountNext(downloads: seq<Download>, d: Download, id: string)
    ensures CountOf(downloads + [d], id) == CountOf(downloads, id) + if d.versionId == id then 1 else 0
  {
    assert (downloads + [d])[..|downloads|] == downloads;
  }

  lemma AddDownloadKeeps(m: Market, d: Download)
    requires Inv(m) && Handled(m, Downloaded(d))
    ensures Inv(AddDownload(m, d))
  {
    hide NamesInv, RatingsInv, Counted, UniqueInEach, UniqueOverall, Grouped, Has, Bumped, DistinctBy;
    EachDistinct(m.versions, VersionId());
    var m' := AddDownload(m, d);
    forall k | k in m.versions
      ensures SameKeysIn(m.versions[k], m'.versions[k], VersionOwner()) && SameKeysIn(m.versions[k], m'.versions[k], VersionId())
              && SameKeysIn(m.versions[k], m'.versions[k], VersionName())
    {
      BumpedEach(m.versions[k], d.versionId);
    }
    SameKeysKeep(m.versions, m'.versions, VersionOwner());
    SameKeysKeep(m.versions, m'.versions, VersionName());
    SameKeysKeep(m.versions, m'.versions, VersionId());
    AddDownloadCounts(m, d);
  }

  lemma EachDistinct<T(!new)>(lists: map<string, seq<T>>, key: T -> string)
    requires UniqueOverall(lists, key)
    ensures forall k :: k in lists ==> DistinctBy(lists[k], key)
  {
  }

  lemma AddDownloadCounts(m: Market, d: Download)
    requires UniqueOverall(m.versions, VersionId()) && Counted(m.versions, m.downloads) && Handled(m, Downloaded(d))
    requires SameKeys(m.versions, AddDownload(m, d).versions, VersionId())
    ensures Counted(AddDownload(m, d).versions, AddDownload(m, d).downloads)
  {
    hide Bumped, Has;
    var m' := AddDownload(m, d);
    forall k, v | k in m'.versions && v in m'.versions[k] ensures v.downloads == CountOf(m'.downloads, v.id) {
      BumpedEach(m.versions[k], d.versionId);
      var j :| 0 <= j < |m'.versions[k]| && m'.versions[k][j] == v;
      assert m.versions[k][j] in m.versions[k];
      CountNext(m.downloads, d, v.id);
    }
    forall e | e in m'.downloads ensures exists k :: Has(m'.versions, VersionId(), k, e.versionId) {
      var k :| Has(m.versions, VersionId(), k, e.versionId);
      SameKeysHas(m.versions, m'.versions, VersionId(), k, e.versionId);
    }
  }

  lemma AddArtifactKeeps(m: Market, art: Artifact)
    requires Inv(m) && Handled(m, NewArtifact(art))
    ensures Inv(AddArtifact(m, art))
  {
    hide VersionsInv, RatingsInv;
  }

  /** Every operation keeps the invariant. */
  lemma DoKeeps(m: Market, op: Op)
    requires Inv(m) && Handled(m, op)
    ensures Inv(Do(m, op))
  {
    hide Inv, AddArtifact, AddVersion, AddRating, AddVote, AddDownload;
    match op
    case NewPublisher(pub) => PublishersKeep(m, op);
    case VerifyRequested(id) => PublishersKeep(m, op);
    case NewArtifact(art) => AddArtifactKeeps(m, art);
    case NewVersion(v, now) => AddVersionKeeps(m, v, now);
    case Rated(r) => AddRatingKeeps(m, r);
    case Voted(k, i, voter) => AddVoteKeeps(m, k, i, voter);
    case Downloaded(d) => AddDownloadKeeps(m, d);
  }

  lemma PublishersKeep(m: Market, op: Op)
    requires Inv(m) && Handled(m, op) && (op.NewPublisher? || op.VerifyRequested?)
    ensures Inv(Do(m, op))
  {
    hide VersionsInv, RatingsInv;
  }

  lemma StartKeeps()
    ensures Inv(NO_DATA)
  {
  }

  /** In every run, after every step: all names unique, all counters true. */
  lemma {:induction false} RunsKeep(states: seq<Market>, ops: seq<Op>, n: nat)
    requires IsRun(states, ops) && n < |states|
    ensures Inv(states[n])
  {
    hide Inv, Do, Handled;
    if n == 0 {
      StartKeeps();
    } else {
      RunsKeep(states, ops, n - 1);
      DoKeeps(states[n - 1], ops[n - 1]);
    }
  }
}
