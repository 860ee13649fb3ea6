/** The marketplace's store: maps and lists in memory, updated in place. Clock readings and new ids are inputs. */
module Marketplace {
  import opened Wrappers
  import opened MarketData
  import opened MarketViews
  import Strings

  datatype Vote = Accepted | AlreadyVoted | NotFound

  class Store {
    var publishers: map<string, Publisher>
    var artifacts: map<string, Artifact>
    var versions: map<string, seq<Version>>
    var ratings: map<string, seq<Rating>>
    var downloads: seq<Download>

    function Data(): Market
      reads this
    {
      Market(publishers, artifacts, versions, ratings, downloads)
    }

    /** Reads back what was written; with nothing written, all is empty. */
    constructor (data: StoreData)
      ensures Data() == Loaded(data)
    {
      publishers, artifacts, versions, ratings := map[], map[], map[], map[];
      downloads := data.downloads;
      new;
      for i := 0 to |data.publishers|
        invariant publishers == ById(data.publishers[..i], PublisherId())
        invariant artifacts == map[] && versions == map[] && ratings == map[] && downloads == data.downloads
      {
        ByIdNext(data.publishers, PublisherId(), i);
        publishers := publishers[data.publishers[i].id := data.publishers[i]];
      }
      assert data.publishers[..|data.publishers|] == data.publishers;
      for i := 0 to |data.artifacts|
        invariant artifacts == ById(data.artifacts[..i], ArtifactId())
        invariant publishers == ById(data.publishers, PublisherId())
        invariant versions == map[] && ratings == map[] && downloads == data.downloads
      {
        ByIdNext(data.artifacts, ArtifactId(), i);
        artifacts := artifacts[data.artifacts[i].id := data.artifacts[i]];
      }
      assert data.artifacts[..|data.artifacts|] == data.artifacts;
      for i := 0 to |data.versions|
        invariant versions == Filing(data.versions[..i], VersionOwner())
        invariant publishers == ById(data.publishers, PublisherId()) && artifacts == ById(data.artifacts, ArtifactId())
        invariant ratings == map[] && downloads == data.downloads
      {
        FilingNext(data.versions, VersionOwner(), i);
        versions := Append(versions, data.versions[i].artifactId, data.versions[i]);
      }
      assert data.versions[..|data.versions|] == data.versions;
      for i := 0 to |data.ratings|
        invariant ratings == Filing(data.ratings[..i], RatingOwner())
        invariant publishers == ById(data.publishers, PublisherId()) && artifacts == ById(data.artifacts, ArtifactId())
        invariant versions == Filing(data.versions, VersionOwner()) && downloads == data.downloads
      {
        FilingNext(data.ratings, RatingOwner(), i);
        ratings := Append(ratings, data.ratings[i].artifactId, data.ratings[i]);
      }
      assert data.ratings[..|data.ratings|] == data.ratings;
    }

    /** Writes every list, in whatever order the maps are walked. */
    method Flush() returns (data: StoreData)
      ensures Written(Data(), data)
    {
      var ps := WriteRecords(publishers);
      var arts := WriteRecords(artifacts);
      var vs := WriteLists(versions);
      var rs := WriteLists(ratings);
      data := StoreData(ps, arts, vs, rs, downloads);
    }

    /** Refused exactly if the name is taken. */
    method CreatePublisher(pub: Publisher, newId: string) returns (ok: bool)
      modifies this`publishers
      ensures ok <==> forall k :: k in old(publishers) ==> old(publishers)[k].name != pub.name
      ensures var id := if pub.id == "" then newId else pub.id;
              publishers == if ok then old(publishers)[id := pub.(id := id)] else old(publishers)
      ensures Data() == AddPublisher(old(Data()), pub.(id := if pub.id == "" then newId else pub.id))
    {
      var id := if pub.id == "" then newId else pub.id;
      var todo := publishers.Keys;
      while todo != {}
        invariant todo <= publishers.Keys
        invariant forall k :: k in publishers && k !in todo ==> publishers[k].name != pub.name
      {
        var k :| k in todo;
        todo := todo - {k};
        if publishers[k].name == pub.name {
          return false;
        }
      }
      publishers := publishers[id := pub.(id := id)];
      ok := true;
    }

    method GetPublisher(name: string) returns (r: Option<Publisher>)
      ensures r.Some? <==> exists k :: k in publishers && publishers[k].name == name
      ensures r.Some? ==> r.value in publishers.Values && r.value.name == name
    {
      var todo := publishers.Keys;
      while todo != {}
        invariant todo <= publishers.Keys
        invariant forall k :: k in publishers && k !in todo ==> publishers[k].name != name
      {
        var k :| k in todo;
        todo := todo - {k};
        if publishers[k].name == name {
          return Some(publishers[k]);
        }
      }
      return None;
    }

    /** Refused exactly if the id, or the publisher's name and type, is taken. */
    method CreateArtifact(art: Artifact, newId: string) returns (ok: bool)
      requires newId !in artifacts
      modifies this`artifacts
      ensures var a := art.(id := if art.id == "" then newId else art.id);
              (ok <==> !ArtifactTaken(old(artifacts), a)) && Data() == AddArtifact(old(Data()), a)
      ensures ok <==>
                && (art.id == "" || art.id !in old(artifacts))
                && forall k :: k in old(artifacts) ==>
                     var other := old(artifacts)[k];
                     other.publisherId != art.publisherId || other.name != art.name || other.kind != art.kind
      ensures !ok ==> artifacts == old(artifacts)
      ensures ok ==> IsAdded(publishers, old(artifacts), artifacts, art, if art.id == "" then newId else art.id)
    {
      var a := art;
      if a.id == "" {
        a := a.(id := newId);
      } else if a.id in artifacts {
        return false;
      }
      a := a.(updatedAt := a.createdAt);
      var todo := artifacts.Keys;
      while todo != {}
        invariant todo <= artifacts.Keys
        invariant forall k :: k in artifacts && k !in todo ==> !SameArtifact(artifacts[k], a)
      {
        var k :| k in todo;
        todo := todo - {k};
        if SameArtifact(artifacts[k], a) {
          return false;
        }
      }
      if a.publisherId in publishers {
        a := a.(publisherName := publishers[a.publisherId].name);
      }
      artifacts := artifacts[a.id := a];
      ok := true;
    }

    /** The one artifact of that publisher, name and type, if there is one. */
    method GetArtifact(publisher: string, name: string, kind: string) returns (r: Option<Artifact>)
      requires Inv(Data())
      ensures r.Some? ==> r.value in artifacts.Values && Named(Data(), publisher, name, r.value) && (kind == "" || r.value.kind == kind)
      ensures r.Some? ==>
                && r.value.name == name && r.value.publisherId in publishers
                && publishers[r.value.publisherId].name == publisher
      ensures kind != "" ==>
                forall k :: k in artifacts && Named(Data(), publisher, name, artifacts[k]) && artifacts[k].kind == kind ==>
                  r == Some(artifacts[k])
      ensures r == None ==> forall k :: k in artifacts && Named(Data(), publisher, name, artifacts[k]) ==>
                kind != "" && artifacts[k].kind != kind
    {
      hide VersionsInv, RatingsInv;
      var p := GetPublisher(publisher);
      if p == None {
        return None;
      }
      var todo := artifacts.Keys;
      while todo != {}
        invariant todo <= artifacts.Keys
        invariant forall k :: k in artifacts && k !in todo && artifacts[k].publisherId == p.value.id && artifacts[k].name == name ==>
          kind != "" && artifacts[k].kind != kind
      {
        var k :| k in todo;
        todo := todo - {k};
        if artifacts[k].publisherId == p.value.id && artifacts[k].name == name {
          if kind != "" && artifacts[k].kind != kind {
            continue;
          }
          return Some(artifacts[k]);
        }
      }
      return None;
    }

    /** Refused exactly if the artifact has the version already, or the id given is in use. */
    method CreateVersion(v: Version, newId: string, now: int) returns (ok: bool)
      modifies this`versions, this`artifacts
      ensures var v' := v.(id := if v.id == "" then newId else v.id);
              var refused := v.id != "" && exists k :: Has(old(versions), VersionId(), k, v.id);
              && (ok <==> !refused && !VersionTaken(ListAt(old(versions), v.artifactId), v.version))
              && Data() == if refused then old(Data()) else AddVersion(old(Data()), v', now)
      ensures ok <==>
                && (v.id == "" || forall k, x :: k in old(versions) && x in old(versions)[k] ==> x.id != v.id)
                && (v.artifactId in old(versions) ==> forall x :: x in old(versions)[v.artifactId] ==> x.version != v.version)
      ensures !ok ==> versions == old(versions) && artifacts == old(artifacts)
      ensures ok ==>
                && ListAt(versions, v.artifactId) == ListAt(old(versions), v.artifactId) + [v.(id := if v.id == "" then newId else v.id)]
                && (forall k :: k != v.artifactId ==> ListAt(versions, k) == ListAt(old(versions), k))
                && artifacts.Keys == old(artifacts).Keys
                && forall k :: k in artifacts ==>
                     artifacts[k] == if k == v.artifactId then old(artifacts)[k].(updatedAt := now) else old(artifacts)[k]
    {
      var v' := v;
      if v.id == "" {
        v' := v.(id := newId);
      } else {
        var used := IdInUse(versions, v.id);
        InUseMeans(versions, v.id);
        if used {
          return false;
        }
      }
      var listed := ListAt(versions, v.artifactId);
      for i := 0 to |listed|
        invariant forall j :: 0 <= j < i ==> listed[j].version != v.version
      {
        if listed[i].version == v.version {
          return false;
        }
      }
      assert forall x :: x in listed ==> x.version != v.version;
      versions := Append(versions, v.artifactId, v');
      if v.artifactId in artifacts {
        artifacts := artifacts[v.artifactId := artifacts[v.artifactId].(updatedAt := now)];
      }
      ok := true;
    }

    method CreateOrUpdateRating(r: Rating, newId: string, now: int)
      modifies this`ratings
      ensures Data() == AddRating(old(Data()), Stamped(r, newId, now))
      ensures IsRated(ListAt(old(ratings), r.artifactId), ListAt(ratings, r.artifactId), r, newId, now)
      ensures forall k :: k != r.artifactId ==> ListAt(ratings, k) == ListAt(old(ratings), k)
    {
      hide IsRated;
      var r' := Stamped(r, newId, now);
      var rs := ListAt(ratings, r.artifactId);
      for i := 0 to |rs|
        invariant forall j :: 0 <= j < i ==> rs[j].userId != r.userId
        invariant ratings == old(ratings)
      {
        if rs[i].userId == r.userId {
          FirstIs(rs, RatingUser(), r.userId, i);
          ReplacedIsRated(rs, r, newId, now, i);
          r' := r'.(createdAt := rs[i].createdAt, helpful := rs[i].helpful);
          ratings := ratings[r.artifactId := rs[i := r']];
          return;
        }
      }
      FirstIs(rs, RatingUser(), r.userId, |rs|);
      AppendedIsRated(rs, r, newId, now);
      ratings := Append(ratings, r.artifactId, r');
    }

    /** A voter counts once for a rating; an unknown rating changes nothing. */
    method IncrementHelpful(ratingId: string, voter: string) returns (vote: Vote)
      modifies this`ratings
      ensures vote.NotFound? <==> forall k :: !Has(old(ratings), RatingId(), k, ratingId)
      ensures vote.NotFound? ==> Data() == old(Data())
      ensures !vote.NotFound? ==>
                exists k, i :: VotedAt(old(ratings), ratingId, k, i)
                               && Data() == AddVote(old(Data()), k, i, voter)
                               && (vote.Accepted? <==> voter !in old(ratings)[k][i].voters)
                               && IsVoted(old(ratings), ratings, k, i, voter)
    {
      hide Has, VotedAt;
      NoneOutside(ratings, ratingId);
      var todo := ratings.Keys;
      while todo != {}
        invariant todo <= ratings.Keys && ratings == old(ratings)
        invariant forall k :: k !in todo ==> !Has(ratings, RatingId(), k, ratingId)
      {
        var k :| k in todo;
        todo := todo - {k};
        var rs := ratings[k];
        for i := 0 to |rs|
          invariant ratings == old(ratings) && rs == ratings[k]
          invariant forall j :: 0 <= j < i ==> rs[j].id != ratingId
        {
          if rs[i].id == ratingId {
            Found(ratings, ratingId, k, i);
            if voter in rs[i].voters {
              return AlreadyVoted;
            }
            ratings := ratings[k := rs[i := rs[i].(voters := rs[i].voters + [voter], helpful := rs[i].helpful + 1)]];
            return Accepted;
          }
        }
        NotFoundIn(ratings, ratingId, k);
      }
      vote := NotFound;
    }

    method RecordDownload(versionId: string, platform: string, now: int)
      modifies this`downloads, this`versions
      ensures Data() == AddDownload(old(Data()), Download(versionId, platform, now))
      ensures downloads == old(downloads) + [Download(versionId, platform, now)]
      ensures versions.Keys == old(versions).Keys
      ensures forall k :: k in versions ==> IsBumped(old(versions)[k], versions[k], versionId)
    {
      hide Bumped, IsBumped;
      downloads := downloads + [Download(versionId, platform, now)];
      var todo := versions.Keys;
      while todo != {}
        invariant todo <= versions.Keys == old(versions.Keys)
        invariant downloads == old(downloads) + [Download(versionId, platform, now)]
        invariant forall k :: k in todo ==> versions[k] == old(versions)[k]
        invariant forall k :: k in versions && k !in todo ==>
                    versions[k] == Bumped(old(versions)[k], versionId) && IsBumped(old(versions)[k], versions[k], versionId)
      {
        var k :| k in todo;
        todo := todo - {k};
        BumpedIs(versions[k], versionId);
        var bumped := BumpFirst(versions[k], versionId);
        versions := versions[k := bumped];
      }
    }

    /** All download events of the artifact's versions, and those after a time. */
    method GetDownloadStats(artifactId: string, monthAgo: int) returns (total: nat, monthly: nat)
      ensures total == Events(downloads, Ids(ListAt(versions, artifactId)))
      ensures monthly == Events(Since(downloads, monthAgo), Ids(ListAt(versions, artifactId)))
      ensures total == |set i | 0 <= i < |downloads| && IsOf(ListAt(versions, artifactId), downloads[i].versionId)|
      ensures monthly == |set i | 0 <= i < |downloads| && IsOf(ListAt(versions, artifactId), downloads[i].versionId)
                                  && downloads[i].at > monthAgo|
    {
      var versionIds := {};
      var vs := ListAt(versions, artifactId);
      for i := 0 to |vs|
        invariant versionIds == Ids(vs[..i])
      {
        versionIds := versionIds + {vs[i].id};
      }
      assert vs[..|vs|] == vs;
      total, monthly := 0, 0;
      for i := 0 to |downloads|
        invariant total == Events(downloads[..i], versionIds) && monthly == Events(Since(downloads[..i], monthAgo), versionIds)
      {
        EventsNext(downloads, i, versionIds, monthAgo);
        if downloads[i].versionId in versionIds {
          total := total + 1;
          if downloads[i].at > monthAgo {
            monthly := monthly + 1;
          }
        }
      }
      assert downloads[..|downloads|] == downloads;
      StatsAreCounted(downloads, vs, versionIds, monthAgo);
    }

    /** The weighted average, the number of ratings, and how many gave each score. */
    method GetRatingAggregation(artifactId: string) returns (avg: real, count: nat, dist: map<int, nat>)
      ensures var rs := ListAt(ratings, artifactId);
              && count == |rs| && avg == (if rs == [] then 0.0 else Bayes(rs))
              && dist == Distribution(rs)
      ensures var rs := ListAt(ratings, artifactId); rs != [] ==> avg * (10.0 + |rs| as real) == 40.0 + SumScores(rs) as real
      ensures CountsScores(ListAt(ratings, artifactId), dist)
    {
      hide Distribution, SumScores, WithScore, CountsScores;
      DistributionIs(ListAt(ratings, artifactId));
      var rs := ListAt(ratings, artifactId);
      count := |rs|;
      dist := map[1 := 0, 2 := 0, 3 := 0, 4 := 0, 5 := 0];
      NoScores(rs);
      avg := 0.0;
      if count == 0 {
        return;
      }
      var sum := 0.0;
      for i := 0 to |rs|
        invariant sum == SumScores(rs[..i]) as real
        invariant dist == Distribution(rs[..i])
      {
        ScoresNext(rs, i);
        sum := sum + rs[i].score as real;
        dist := dist[rs[i].score := 1 + if rs[i].score in dist then dist[rs[i].score] else 0];
      }
      assert rs[..|rs|] == rs;
      avg := (CONFIDENCE * PRIOR + sum) / (CONFIDENCE + count as real);
      BayesIs(rs);
    }

    /** One page of an artifact's ratings, sorted as asked, and how many there are in all. */
    method ListRatings(artifactId: string, page: int, perPage: int, sortBy: string, sort: seq<Rating> -> seq<Rating>)
      returns (result: seq<Rating>, total: nat)
      requires Sorts(sort, RatingLess(sortBy))
      ensures total == |ListAt(ratings, artifactId)|
      ensures result == Page(sort(ListAt(ratings, artifactId)), page, perPage) && Ordered(result, RatingLess(sortBy))
      ensures sortBy == "helpful" ==> forall i, j :: 0 <= i < j < |result| ==> result[i].helpful >= result[j].helpful
      ensures sortBy != "helpful" ==> forall i, j :: 0 <= i < j < |result| ==> result[i].createdAt >= result[j].createdAt
    {
      var rs := sort(ListAt(ratings, artifactId));
      assert Ordered(rs, RatingLess(sortBy));
      SameElements(rs, ListAt(ratings, artifactId));
      total := |rs|;
      result := Cut(rs, page, perPage);
      PageInOrder(rs, RatingLess(sortBy), page, perPage);
      forall i, j | 0 <= i < j < |result|
        ensures if sortBy == "helpful" then result[i].helpful >= result[j].helpful else result[i].createdAt >= result[j].createdAt
      {
        RatingsOrdered(result, sortBy, i, j);
      }
    }

    method Summarize(art: Artifact, newest: seq<Version> -> seq<Version>) returns (sr: SearchResult)
      ensures sr == ResultFor(Data(), art, newest)
    {
      sr := SearchResult(art, "", 0, 0.0, 0);
      var vs := newest(ListAt(versions, art.id));
      if |vs| > 0 {
        var sum := SumLoop(vs);
        sr := sr.(latestVersion := vs[0].version, totalDownloads := sum);
      }
      var rs := ListAt(ratings, art.id);
      if |rs| > 0 {
        var average := AverageLoop(rs);
        sr := sr.(ratingCount := |rs|, rating := average);
      }
    }

    /** The aggregates of all artifacts to show, walking the artifacts in any order. */
    method Matches(matches: Artifact -> bool, newest: seq<Version> -> seq<Version>)
      returns (found: seq<SearchResult>, ghost order: seq<string>)
      ensures Order(order, Shown(artifacts, matches)) && |found| == |Shown(artifacts, matches)|
      ensures found == Results(Data(), order, newest)
    {
      hide Order, Results, ResultFor;
      found, order := [], [];
      ghost var shown: set<string> := {};
      OrderNone();
      ResultsNone(Data(), newest);
      var todo := artifacts.Keys;
      while todo != {}
        invariant todo <= artifacts.Keys
        invariant Order(order, shown) && shown == Shown(artifacts, matches) - todo
        invariant found == Results(Data(), order, newest)
      {
        var k :| k in todo;
        todo := todo - {k};
        var art := artifacts[k];
        if art.deprecated {
          continue;
        }
        if !matches(art) {
          continue;
        }
        var sr := Summarize(art, newest);
        ResultsNext(Data(), order, newest, k);
        OrderNext(order, shown, k);
        order, shown := order + [k], shown + {k};
        found := found + [sr];
      }
      assert shown == Shown(artifacts, matches);
      ResultsSize(Data(), order, shown, newest);
    }

    /** One page of the artifacts that match, sorted as asked, with their aggregates, and how many match in all. */
    method Search(matches: Artifact -> bool, page: int, perPage: int, sortBy: string, newest: seq<Version> -> seq<Version>,
                  sort: seq<SearchResult> -> seq<SearchResult>)
      returns (results: seq<SearchResult>, total: nat)
      requires Sorts(sort, ResultLess(sortBy)) && Sorts(newest, NewestFirst())
      ensures total == |Shown(artifacts, matches)|
      ensures IsSearch(Data(), matches, newest, sort, page, perPage, results)
      ensures Ordered(results, ResultLess(sortBy)) && forall sr :: sr in results ==> ShowsNewest(Data(), sr)
      ensures total == |set k | k in artifacts && matches(artifacts[k]) && !artifacts[k].deprecated|
      ensures forall sr :: sr in results ==>
                sr.artifact in artifacts.Values && matches(sr.artifact) && !sr.artifact.deprecated
      ensures forall i, j :: 0 <= i < j < |results| ==> AreSorted(sortBy, results[i], results[j])
    {
      ShownIs(artifacts, matches);
      hide Order, Results, Page, Shown, Ordered, NewestFirst, ResultLess, ShowsNewest, AreSorted;
      var found;
      ghost var order;
      found, order := Matches(matches, newest);
      var sorted := sort(found);
      assert Ordered(sorted, ResultLess(sortBy));
      SameElements(sorted, found);
      total := |sorted|;
      results := Cut(sorted, page, perPage);
      PageInOrder(sorted, ResultLess(sortBy), page, perPage);
      PageIsPart(sorted, page, perPage);
      AllShowNewest(Data(), order, newest);
      AllOfThemShown(Data(), order, matches, newest);
      forall i, j | 0 <= i < j < |results| ensures AreSorted(sortBy, results[i], results[j]) {
        ResultsOrdered(results, sortBy, i, j);
        SortedIs(sortBy, results[i], results[j]);
      }
      SearchDone(Data(), matches, newest, sort, page, perPage, results, order);
    }
  }

  lemma InUseMeans(versions: map<string, seq<Version>>, id: string)
    ensures (exists k :: Has(versions, VersionId(), k, id)) <==> exists k, x :: k in versions && x in versions[k] && x.id == id
  {
    assert forall x: Version :: VersionId()(x) == x.id;
    if k, x :| k in versions && x in versions[k] && x.id == id {
      assert Has(versions, VersionId(), k, id);
    }
  }

  /** The artifact is filed under the id as it was given, last updated when created, with its publisher's name if that is known. */
  ghost predicate IsAdded(publishers: map<string, Publisher>, before: map<string, Artifact>, after: map<string, Artifact>,
                          art: Artifact, id: string) {
    && after.Keys == before.Keys + {id} && (forall k :: k in before && k != id ==> after[k] == before[k])
    && after[id].id == id && after[id].updatedAt == after[id].createdAt == art.createdAt
    && (art.publisherId in publishers ==> after[id].publisherName == publishers[art.publisherId].name)
    && (art.publisherId !in publishers ==> after[id].publisherName == art.publisherName)
    && after[id].publisherId == art.publisherId && after[id].name == art.name && after[id].kind == art.kind
    && after[id].verified == art.verified && after[id].deprecated == art.deprecated
  }

  /**
   The user's rating is in the list as it was given now. Where the user had one before, it stands in the place of the
   first such and keeps its creation time and votes; else it is new at the end. All other ratings are as before.
   */
  ghost predicate IsRated(before: seq<Rating>, after: seq<Rating>, r: Rating, newId: string, now: int) {
    exists i :: IsRatedAt(before, after, r, newId, now, i)
  }

  ghost predicate IsRatedAt(before: seq<Rating>, after: seq<Rating>, r: Rating, newId: string, now: int, i: int) {
    && 0 <= i < |after| && (forall j :: 0 <= j < i ==> j < |before| && before[j].userId != r.userId)
    && |after| == (if i < |before| then |before| else |before| + 1)
    && (i < |before| ==> before[i].userId == r.userId)
    && (forall j :: 0 <= j < |before| && j != i ==> after[j] == before[j])
    && after[i].score == r.score && after[i].userId == r.userId && after[i].artifactId == r.artifactId
    && after[i].voters == r.voters && after[i].updatedAt == now && after[i].id == (if r.id == "" then newId else r.id)
    && after[i].createdAt == (if i < |before| then before[i].createdAt else if r.createdAt == 0 then now else r.createdAt)
    && after[i].helpful == (if i < |before| then before[i].helpful else r.helpful)
  }

  lemma ReplacedIsRated(before: seq<Rating>, r: Rating, newId: string, now: int, i: nat)
    requires i < |before| && before[i].userId == r.userId && forall j :: 0 <= j < i ==> before[j].userId != r.userId
    ensures IsRated(before, before[i := Stamped(r, newId, now).(createdAt := before[i].createdAt, helpful := before[i].helpful)],
                    r, newId, now)
  {
    var after := before[i := Stamped(r, newId, now).(createdAt := before[i].createdAt, helpful := before[i].helpful)];
    assert IsRatedAt(before, after, r, newId, now, i);
  }

  lemma AppendedIsRated(before: seq<Rating>, r: Rating, newId: string, now: int)
    requires forall j :: 0 <= j < |before| ==> before[j].userId != r.userId
    ensures IsRated(before, before + [Stamped(r, newId, now)], r, newId, now)
  {
    assert IsRatedAt(before, before + [Stamped(r, newId, now)], r, newId, now, |before|);
  }

  /** One rating has one vote and one voter more, unless the voter was known; nothing else changed. */
  ghost predicate IsVoted(before: map<string, seq<Rating>>, after: map<string, seq<Rating>>, k: string, i: int, voter: string)
    requires k in before && 0 <= i < |before[k]|
  {
    && after.Keys == before.Keys && (forall l :: l in before && l != k ==> after[l] == before[l])
    && |after[k]| == |before[k]| && (forall j :: 0 <= j < |before[k]| && j != i ==> after[k][j] == before[k][j])
    && if voter in before[k][i].voters then after[k][i] == before[k][i]
       else
         && after[k][i].voters == before[k][i].voters + [voter] && after[k][i].helpful == before[k][i].helpful + 1
         && after[k][i].(voters := before[k][i].voters, helpful := before[k][i].helpful) == before[k][i]
  }

  /** The first version of that id counts one download more. */
  ghost predicate IsBumped(before: seq<Version>, after: seq<Version>, versionId: string) {
    && |after| == |before|
    && forall i :: 0 <= i < |before| ==>
         && after[i].(downloads := before[i].downloads) == before[i]
         && after[i].downloads == before[i].downloads +
              if before[i].id == versionId && (forall j :: 0 <= j < i ==> before[j].id != versionId) then 1 else 0
  }

  lemma BumpedIs(before: seq<Version>, versionId: string)
    ensures IsBumped(before, Bumped(before, versionId), versionId)
  {
    var i := FirstBy(before, VersionId(), versionId);
    assert forall j :: 0 <= j < |before| ==> VersionId()(before[j]) == before[j].id;
  }

  /** The artifact has that name and its publisher has that one. */
  predicate Named(m: Market, publisher: string, name: string, art: Artifact) {
    && art.name == name && art.publisherId in m.publishers && m.publishers[art.publisherId].name == publisher
  }

  function Stamped(r: Rating, newId: string, now: int): Rating {
    r.(id := if r.id == "" then newId else r.id, createdAt := if r.createdAt == 0 then now else r.createdAt, updatedAt := now)
  }

  ghost predicate VotedAt(ratings: map<string, seq<Rating>>, ratingId: string, k: string, i: int) {
    k in ratings && 0 <= i < |ratings[k]| && ratings[k][i].id == ratingId
  }

  lemma Found(ratings: map<string, seq<Rating>>, ratingId: string, k: string, i: nat)
    requires k in ratings && i < |ratings[k]| && ratings[k][i].id == ratingId
    ensures VotedAt(ratings, ratingId, k, i) && Has(ratings, RatingId(), k, ratingId)
  {
    InListHas(ratings, RatingId(), k, ratings[k][i]);
  }

  lemma NotFoundIn(ratings: map<string, seq<Rating>>, ratingId: string, k: string)
    requires k in ratings && forall j :: 0 <= j < |ratings[k]| ==> ratings[k][j].id != ratingId
    ensures !Has(ratings, RatingId(), k, ratingId)
  {
  }

  lemma NoneOutside(ratings: map<string, seq<Rating>>, ratingId: string)
    ensures forall k :: k !in ratings ==> !Has(ratings, RatingId(), k, ratingId)
  {
  }

  function Results(m: Market, order: seq<string>, newest: seq<Version> -> seq<Version>): seq<SearchResult> {
    if order == [] then []
    else
      var k := order[|order| - 1];
      Results(m, order[..|order| - 1], newest) + if k in m.artifacts then [ResultFor(m, m.artifacts[k], newest)] else []
  }

  function Shown(artifacts: map<string, Artifact>, matches: Artifact -> bool): set<string> {
    set k | k in artifacts && !artifacts[k].deprecated && matches(artifacts[k])
  }

  lemma PageIsPart<T>(xs: seq<T>, page: int, perPage: int)
    ensures forall x :: x in Page(xs, page, perPage) ==> x in xs
  {
    hide Offset;
  }

  /** The first of two results comes before the second in the order asked for, or ties with it. */
  ghost predicate AreSorted(sortBy: string, a: SearchResult, b: SearchResult) {
    if sortBy == "downloads" then a.totalDownloads >= b.totalDownloads
    else if sortBy == "name" then Strings.Leq(a.artifact.name, b.artifact.name)
    else a.artifact.updatedAt >= b.artifact.updatedAt
  }

  lemma SortedIs(sortBy: string, a: SearchResult, b: SearchResult)
    ensures AreSorted(sortBy, a, b) <==>
            if sortBy == "downloads" then a.totalDownloads >= b.totalDownloads
            else if sortBy == "name" then Strings.Leq(a.artifact.name, b.artifact.name)
            else a.artifact.updatedAt >= b.artifact.updatedAt
  {
  }

  /** One of the versions has the id. */
  predicate IsOf(vs: seq<Version>, id: string) {
    exists j :: 0 <= j < |vs| && vs[j].id == id
  }

  lemma StatsAreCounted(downloads: seq<Download>, vs: seq<Version>, ids: set<string>, after: int)
    requires ids == Ids(vs)
    ensures Events(downloads, ids) == |set i | 0 <= i < |downloads| && IsOf(vs, downloads[i].versionId)|
    ensures Events(Since(downloads, after), ids) ==
            |set i | 0 <= i < |downloads| && IsOf(vs, downloads[i].versionId) && downloads[i].at > after|
  {
    forall id ensures id in ids <==> IsOf(vs, id) {}
    EventsAreCounted(downloads, ids);
    RecentAreCounted(downloads, after, ids);
    assert Where(downloads, OfIds(ids)) ==
           (set i | 0 <= i < |downloads| && IsOf(vs, downloads[i].versionId));
    assert Where(downloads, OfIdsAfter(ids, after)) ==
           (set i | 0 <= i < |downloads| && IsOf(vs, downloads[i].versionId) && downloads[i].at > after);
  }

  lemma ShownIs(artifacts: map<string, Artifact>, matches: Artifact -> bool)
    ensures Shown(artifacts, matches) == set k | k in artifacts && matches(artifacts[k]) && !artifacts[k].deprecated
  {
  }

  lemma {:induction false} AllAreShown(m: Market, order: seq<string>, matches: Artifact -> bool, newest: seq<Version> -> seq<Version>)
    requires forall k :: k in order ==> k in m.artifacts && matches(m.artifacts[k]) && !m.artifacts[k].deprecated
    ensures forall sr :: sr in Results(m, order, newest) ==>
              sr.artifact in m.artifacts.Values && matches(sr.artifact) && !sr.artifact.deprecated
  {
    if order != [] {
      AllAreShown(m, order[..|order| - 1], matches, newest);
      assert order[|order| - 1] in order;
    }
  }

  lemma AllOfThemShown(m: Market, order: seq<string>, matches: Artifact -> bool, newest: seq<Version> -> seq<Version>)
    requires Order(order, Shown(m.artifacts, matches))
    ensures forall sr :: sr in Results(m, order, newest) ==>
              sr.artifact in m.artifacts.Values && matches(sr.artifact) && !sr.artifact.deprecated
  {
    AllAreShown(m, order, matches, newest);
  }

  /** Every score from one to five, and every other that was given, has the number of ratings with it. */
  ghost predicate CountsScores(rs: seq<Rating>, dist: map<int, nat>) {
    && (forall score :: 1 <= score <= 5 ==> score in dist) && (forall r :: r in rs ==> r.score in dist)
    && forall score :: score in dist ==> dist[score] == |set i | 0 <= i < |rs| && rs[i].score == score|
  }

  lemma DistributionIs(rs: seq<Rating>)
    ensures CountsScores(rs, Distribution(rs))
  {
    forall score | score in Distribution(rs) ensures Distribution(rs)[score] == |set i | 0 <= i < |rs| && rs[i].score == score| {
      ScoresAreCounted(rs, score);
      assert Where(rs, OfScore(score)) == set i | 0 <= i < |rs| && rs[i].score == score;
    }
  }

  lemma {:induction false} AllShowNewest(m: Market, order: seq<string>, newest: seq<Version> -> seq<Version>)
    requires Sorts(newest, NewestFirst())
    ensures forall sr :: sr in Results(m, order, newest) ==> ShowsNewest(m, sr)
  {
    hide Sorts, ShowsNewest, ResultFor;
    if order != [] {
      var k := order[|order| - 1];
      AllShowNewest(m, order[..|order| - 1], newest);
      if k in m.artifacts { LatestIsNewest(m, m.artifacts[k], newest); }
    }
  }

  /** The results are a page of the sorted aggregates of all artifacts to show, each once. */
  ghost predicate IsSearch(m: Market, matches: Artifact -> bool, newest: seq<Version> -> seq<Version>,
                           sort: seq<SearchResult> -> seq<SearchResult>, page: int, perPage: int, results: seq<SearchResult>) {
    exists order :: Order(order, Shown(m.artifacts, matches)) &&
                    results == Page(sort(Results(m, order, newest)), page, perPage)
  }

  lemma SearchDone(m: Market, matches: Artifact -> bool, newest: seq<Version> -> seq<Version>,
                   sort: seq<SearchResult> -> seq<SearchResult>, page: int, perPage: int, results: seq<SearchResult>,
                   order: seq<string>)
    requires Order(order, Shown(m.artifacts, matches))
    requires results == Page(sort(Results(m, order, newest)), page, perPage)
    ensures IsSearch(m, matches, newest, sort, page, perPage, results)
  {
  }

  lemma ResultsNext(m: Market, order: seq<string>, newest: seq<Version> -> seq<Version>, k: string)
    requires k in m.artifacts
    ensures Results(m, order + [k], newest) == Results(m, order, newest) + [ResultFor(m, m.artifacts[k], newest)]
  {
    assert (order + [k])[..|order|] == order;
  }

  lemma {:induction false} ResultsSize(m: Market, order: seq<string>, keys: set<string>, newest: seq<Version> -> seq<Version>)
    requires Order(order, keys) && keys <= m.artifacts.Keys
    ensures |Results(m, order, newest)| == |keys|
  {
    hide Order;
    if order == [] {
      OrderOfNone(order, keys);
    } else {
      OrderFront(order, keys);
      ResultsSize(m, order[..|order| - 1], keys - {order[|order| - 1]}, newest);
    }
  }

  lemma ResultsNone(m: Market, newest: seq<Version> -> seq<Version>)
    ensures Results(m, [], newest) == []
  {
  }

  lemma OrderNone()
    ensures Order([], {})
  {
  }

  lemma OrderNext(order: seq<string>, keys: set<string>, k: string)
    requires Order(order, keys) && k !in keys
    ensures Order(order + [k], keys + {k})
  {
  }

  /** The scores counted: one to five, and any other that was given. */
  function ScoreKeys(rs: seq<Rating>): set<int> {
    {1, 2, 3, 4, 5} + set r | r in rs :: r.score
  }

  /** How many ratings gave each score. */
  function Distribution(rs: seq<Rating>): map<int, nat> {
    map score | score in ScoreKeys(rs) :: WithScore(rs, score)
  }

  lemma NoScores(rs: seq<Rating>)
    ensures Distribution(rs[..0]) == map[1 := 0, 2 := 0, 3 := 0, 4 := 0, 5 := 0] && SumScores(rs[..0]) == 0
    ensures rs == [] ==> rs[..0] == rs
  {
    assert ScoreKeys(rs[..0]) == {1, 2, 3, 4, 5};
  }

  lemma {:induction false} NotGiven(rs: seq<Rating>, score: int)
    requires forall r :: r in rs ==> r.score != score
    ensures WithScore(rs, score) == 0
  {
    if rs != [] { NotGiven(rs[..|rs| - 1], score); }
  }

  lemma ScoresNext(rs: seq<Rating>, i: nat)
    requires i < |rs|
    ensures SumScores(rs[..i + 1]) == SumScores(rs[..i]) + rs[i].score
    ensures var before, score := Distribution(rs[..i]), rs[i].score;
            Distribution(rs[..i + 1]) == before[score := 1 + if score in before then before[score] else 0]
  {
    assert rs[..i + 1] == rs[..i] + [rs[i]];
    ScoreAdded(rs[..i], rs[i]);
  }

  lemma ScoreAdded(front: seq<Rating>, r: Rating)
    ensures SumScores(front + [r]) == SumScores(front) + r.score
    ensures var before := Distribution(front);
            Distribution(front + [r]) == before[r.score := 1 + if r.score in before then before[r.score] else 0]
  {
    var rs := front + [r];
    assert rs[..|front|] == front;
    KeysAdded(front, r);
    hide ScoreKeys, SumScores;
    forall score ensures WithScore(rs, score) == WithScore(front, score) + if r.score == score then 1 else 0 {}
    if r.score !in ScoreKeys(front) {
      NotGiven(front, r.score);
    }
  }

  lemma KeysAdded(front: seq<Rating>, r: Rating)
    ensures ScoreKeys(front + [r]) == ScoreKeys(front) + {r.score}
    ensures r.score !in ScoreKeys(front) ==> forall q :: q in front ==> q.score != r.score
  {
    assert r in front + [r];
  }

  lemma FirstIs<T>(xs: seq<T>, key: T -> string, id: string, i: nat)
    requires i <= |xs| && (i < |xs| ==> key(xs[i]) == id) && forall j :: 0 <= j < i ==> key(xs[j]) != id
    ensures FirstBy(xs, key, id) == i
  {
  }

  lemma EventsNext(downloads: seq<Download>, i: nat, ids: set<string>, after: int)
    requires i < |downloads|
    ensures Events(downloads[..i + 1], ids) == Events(downloads[..i], ids) + if downloads[i].versionId in ids then 1 else 0
    ensures Events(Since(downloads[..i + 1], after), ids) ==
            Events(Since(downloads[..i], after), ids) + if downloads[i].at > after && downloads[i].versionId in ids then 1 else 0
  {
    assert downloads[..i + 1][..i] == downloads[..i];
    var before := Since(downloads[..i], after);
    assert before + [] == before && (before + [downloads[i]])[..|before|] == before;
  }

  method IdInUse(versions: map<string, seq<Version>>, id: string) returns (used: bool)
    ensures used <==> exists k :: Has(versions, VersionId(), k, id)
  {
    var todo := versions.Keys;
    while todo != {}
      invariant todo <= versions.Keys
      invariant forall k :: k !in todo ==> !Has(versions, VersionId(), k, id)
    {
      var k :| k in todo;
      todo := todo - {k};
      for i := 0 to |versions[k]|
        invariant forall j :: 0 <= j < i ==> versions[k][j].id != id
      {
        if versions[k][i].id == id {
          InListHas(versions, VersionId(), k, versions[k][i]);
          return true;
        }
      }
    }
    used := false;
  }

  method BumpFirst(vs: seq<Version>, versionId: string) returns (bumped: seq<Version>)
    ensures bumped == Bumped(vs, versionId)
  {
    for i := 0 to |vs|
      invariant forall j :: 0 <= j < i ==> vs[j].id != versionId
    {
      if vs[i].id == versionId {
        FirstIs(vs, VersionId(), versionId, i);
        return vs[i := vs[i].(downloads := vs[i].downloads + 1)];
      }
    }
    FirstIs(vs, VersionId(), versionId, |vs|);
    bumped := vs;
  }

  method Cut<T>(xs: seq<T>, page: int, perPage: int) returns (result: seq<T>)
    ensures result == Page(xs, page, perPage)
  {
    var per := if perPage <= 0 then 20 else perPage;
    var at := if page <= 0 then 1 else page;
    var offset := Offset(at, per);
    if offset >= |xs| {
      return [];
    }
    var end := if offset + per < |xs| then offset + per else |xs|;
    result := xs[offset..end];
  }

  method SumLoop(vs: seq<Version>) returns (sum: nat)
    ensures sum == SumDownloads(vs)
  {
    sum := 0;
    for i := 0 to |vs|
      invariant sum == SumDownloads(vs[..i])
    {
      assert vs[..i + 1][..i] == vs[..i];
      sum := sum + vs[i].downloads;
    }
    assert vs[..|vs|] == vs;
  }

  method AverageLoop(rs: seq<Rating>) returns (average: real)
    requires rs != []
    ensures average == Bayes(rs)
  {
    var sum := 0.0;
    for i := 0 to |rs|
      invariant sum == SumScores(rs[..i]) as real
    {
      assert rs[..i + 1][..i] == rs[..i];
      sum := sum + rs[i].score as real;
    }
    assert rs[..|rs|] == rs;
    average := (CONFIDENCE * PRIOR + sum) / (CONFIDENCE + |rs| as real);
  }

  lemma ByIdNext<T>(xs: seq<T>, id: T -> string, i: nat)
    requires i < |xs|
    ensures ById(xs[..i + 1], id) == ById(xs[..i], id)[id(xs[i]) := xs[i]]
  {
    assert xs[..i + 1][..i] == xs[..i];
  }

  lemma FilingNext<T>(xs: seq<T>, owner: T -> string, i: nat)
    requires i < |xs|
    ensures Filing(xs[..i + 1], owner) == Append(Filing(xs[..i], owner), owner(xs[i]), xs[i])
  {
    assert xs[..i + 1][..i] == xs[..i];
  }

  method WriteRecords<T(!new)>(records: map<string, T>) returns (xs: seq<T>)
    ensures WrittenAs(records, xs)
  {
    xs := [];
    ghost var order := [];
    var todo := records.Keys;
    while todo != {}
      invariant todo <= records.Keys
      invariant Order(order, records.Keys - todo) && xs == Records(records, order)
    {
      var k :| k in todo;
      assert (order + [k])[..|order|] == order;
      todo := todo - {k};
      order := order + [k];
      xs := xs + [records[k]];
    }
    assert records.Keys - todo == records.Keys;
  }

  method WriteLists<T(!new)>(lists: map<string, seq<T>>) returns (xs: seq<T>)
    ensures ListsWrittenAs(lists, xs)
  {
    xs := [];
    ghost var order := [];
    var todo := lists.Keys;
    while todo != {}
      invariant todo <= lists.Keys
      invariant Order(order, lists.Keys - todo) && xs == Flat(lists, order)
    {
      var k :| k in todo;
      assert (order + [k])[..|order|] == order;
      todo := todo - {k};
      order := order + [k];
      xs := xs + lists[k];
    }
    assert lists.Keys - todo == lists.Keys;
  }
}
