/** Seeding a store from a bundle, and the round trip across the air gap. */
module AirgapImport {
  import Strings
  import opened Wrappers
  import opened Digests
  import opened OCILayout
  import opened Registry
  import opened AirgapExport

  datatype ImportError = Corrupt(name: string) | MissingBlob(ref: string, digest: string) | StoreFailed

  /** Repository and tag of a reference; no tag when there is none to split off. */
  function ParseRefParts(ref: string): (string, string) {
    var idx := TagColon(ref);
    if idx >= 0 then (ref[..idx], ref[idx + 1..]) else (ref, "")
  }

  /** Entries without repository, tag or digest are skipped. */
  predicate HasTag(art: BundleEntry) {
    ParseRefParts(art.ref).0 != "" && ParseRefParts(art.ref).1 != "" && art.digest != ""
  }

  function FileOf(art: BundleEntry): TagKey {
    TagFile(ParseRefParts(art.ref).0, ParseRefParts(art.ref).1)
  }

  /** Every blob file is named by the digest of its bytes. */
  ghost predicate Intact(hash: Hash, blobs: map<string, Bytes>) {
    forall name :: name in blobs ==> hash(blobs[name]) == SCHEME + name
  }

  /** The tags after the artifacts were tagged in order. */
  ghost function TagsAfter(tags: map<TagKey, TagEntry>, artifacts: seq<BundleEntry>, now: int): map<TagKey, TagEntry> {
    if artifacts == [] then tags
    else
      var front, art := artifacts[..|artifacts| - 1], artifacts[|artifacts| - 1];
      if HasTag(art) then TagsAfter(tags, front, now)[FileOf(art) := TagEntry(art.digest, now)]
      else TagsAfter(tags, front, now)
  }

  /** Whatever tag changed points at a stored blob. */
  ghost predicate NoDanglingTag(before: map<TagKey, TagEntry>, tags: map<TagKey, TagEntry>, blobs: map<string, Bytes>) {
    forall k :: k in tags ==> (k in before && tags[k] == before[k]) || HasBlob(blobs, tags[k].digest)
  }

  /** Every blob was there before or comes from the bundle. */
  ghost predicate OnlyFrom(before: map<string, Bytes>, bundled: map<string, Bytes>, blobs: map<string, Bytes>) {
    forall h :: h in blobs ==> (h in before && blobs[h] == before[h]) || (h in bundled && blobs[h] == bundled[h])
  }

  ghost predicate AllPresent(artifacts: seq<BundleEntry>, blobs: map<string, Bytes>, more: map<string, Bytes>) {
    forall art :: art in artifacts && HasTag(art) ==> HasBlob(blobs, art.digest) || HasBlob(more, art.digest)
  }

  /** A tagged artifact whose blob is in neither of the two. */
  predicate Lacks(art: BundleEntry, blobs: map<string, Bytes>, more: map<string, Bytes>) {
    HasTag(art) && !HasBlob(blobs, art.digest) && !HasBlob(more, art.digest)
  }

  /** The first artifact that lacks its blob, or the number of artifacts. */
  function FirstMissing(artifacts: seq<BundleEntry>, blobs: map<string, Bytes>, more: map<string, Bytes>): (i: nat)
    ensures i <= |artifacts|
  {
    if artifacts == [] || Lacks(artifacts[0], blobs, more) then 0
    else 1 + FirstMissing(artifacts[1..], blobs, more)
  }

  lemma {:induction false} FirstMissingLacks(artifacts: seq<BundleEntry>, blobs: map<string, Bytes>, more: map<string, Bytes>)
    ensures var i := FirstMissing(artifacts, blobs, more);
            && (forall k :: 0 <= k < i ==> !Lacks(artifacts[k], blobs, more))
            && (i < |artifacts| ==> Lacks(artifacts[i], blobs, more))
  {
    hide Lacks;
    if artifacts != [] && !Lacks(artifacts[0], blobs, more) {
      FirstMissingLacks(artifacts[1..], blobs, more);
    }
  }

  /** Artifact k is tagged, and no later one is tagged in the same file. */
  predicate IsLastTag(artifacts: seq<BundleEntry>, k: int) {
    && 0 <= k < |artifacts| && HasTag(artifacts[k])
    && forall m :: k < m < |artifacts| && HasTag(artifacts[m]) ==> FileOf(artifacts[m]) != FileOf(artifacts[k])
  }

  /** The tags say already what tagging the artifacts now would make them say. */
  predicate Retagged(tags: map<TagKey, TagEntry>, artifacts: seq<BundleEntry>, now: int) {
    forall k :: 0 <= k < |artifacts| && IsLastTag(artifacts, k) ==>
      FileOf(artifacts[k]) in tags && tags[FileOf(artifacts[k])] == TagEntry(artifacts[k].digest, now)
  }

  /**
   Verifies and stores every blob, listing the bundle in no particular order, then tags the artifacts. Without disk
   faults it succeeds exactly on intact bundles whose artifacts are present; however it ends, it loses no blob and
   leaves no tag it wrote without its blob.
   */
  method Import(store: Layout, bundle: Bundle, now: int) returns (err: Option<ImportError>)
    requires store.Valid()
    modifies store
    ensures store.Valid() && Grows(old(store.blobs), store.blobs) && OnlyFrom(old(store.blobs), bundle.blobs, store.blobs)
    ensures NoDanglingTag(old(store.tags), store.tags, store.blobs)
    ensures err.None? ==>
              && Intact(store.hash, bundle.blobs) && AllPresent(bundle.artifacts, old(store.blobs), bundle.blobs)
              && store.blobs == bundle.blobs + old(store.blobs)
              && store.tags == TagsAfter(old(store.tags), bundle.artifacts, now)
    ensures err.Some? && err.value.Corrupt? ==> !Intact(store.hash, bundle.blobs) && store.tags == old(store.tags)
    ensures err.Some? && err.value.MissingBlob? ==>
              var i := FirstMissing(bundle.artifacts, old(store.blobs), bundle.blobs);
              && i < |bundle.artifacts| && Intact(store.hash, bundle.blobs)
              && !AllPresent(bundle.artifacts, old(store.blobs), bundle.blobs)
              && err.value == MissingBlob(bundle.artifacts[i].ref, bundle.artifacts[i].digest)
              && store.tags == TagsAfter(old(store.tags), bundle.artifacts[..i], now)
              && (store.tags == old(store.tags) <==> Retagged(old(store.tags), bundle.artifacts[..i], now))
    ensures err == Some(StoreFailed) ==>
              exists i :: 0 <= i <= |bundle.artifacts| && store.tags == TagsAfter(old(store.tags), bundle.artifacts[..i], now)
    ensures store.writes >= old(store.writes)
    ensures err == Some(StoreFailed) ==> store.FaultSince(old(store.writes))
  {
    hide Intact, AllPresent, NoDanglingTag, Grows, OnlyFrom, ContentAddressed, TagsAfter, Retagged, FirstMissing;
    GrowsReflexive(store.blobs);
    var stored := ImportBlobs(store, bundle.blobs);
    NoTags(store.tags, bundle.artifacts, now);
    if stored.Some? {
      TagsUnchanged(store.tags, store.blobs);
      return stored;
    }
    TagsUnchanged(store.tags, store.blobs);
    err := ImportTags(store, bundle.artifacts, now);
    PresenceAgrees(bundle.artifacts, old(store.blobs), bundle.blobs, store.hash, store.blobs);
    BothTogether(old(store.blobs), bundle.blobs, store.blobs);
    if err.Some? && err.value.MissingBlob? {
      var i := FirstMissing(bundle.artifacts, old(store.blobs), bundle.blobs);
      AllPresentIffNoneMissing(bundle.artifacts, old(store.blobs), bundle.blobs);
      UnchangedIffRetagged(old(store.tags), bundle.artifacts[..i], now);
    }
  }

  method ImportBlobs(store: Layout, blobs: map<string, Bytes>) returns (err: Option<ImportError>)
    requires store.Valid()
    modifies store`blobs, store`writes
    ensures store.Valid() && Grows(old(store.blobs), store.blobs) && OnlyFrom(old(store.blobs), blobs, store.blobs)
    ensures err.None? ==>
              && Intact(store.hash, blobs)
              && blobs.Keys <= store.blobs.Keys <= old(store.blobs).Keys + blobs.Keys
    ensures err.Some? ==> err.value.Corrupt? || err.value.StoreFailed?
    ensures err.Some? && err.value.Corrupt? ==> !Intact(store.hash, blobs)
    ensures store.writes >= old(store.writes)
    ensures err == Some(StoreFailed) ==> store.FaultSince(old(store.writes))
  {
    hide Grows, OnlyFrom, ContentAddressed;
    NothingImported(store.blobs, blobs);
    var todo := blobs.Keys;
    while todo != {}
      invariant todo <= blobs.Keys && store.Valid() && Grows(old(store.blobs), store.blobs)
      invariant OnlyFrom(old(store.blobs), blobs, store.blobs) && store.writes >= old(store.writes)
      invariant forall name :: name in blobs && name !in todo ==> store.hash(blobs[name]) == SCHEME + name
      invariant blobs.Keys - todo <= store.blobs.Keys <= old(store.blobs).Keys + (blobs.Keys - todo)
    {
      var name :| name in todo;
      var data := blobs[name];
      if store.hash(data) != SCHEME + name {
        return Some(Corrupt(name));
      }
      assert HexOf(SCHEME + name) == name;
      ghost var mid := store.blobs;
      var d := store.PutBlob(data);
      OneImported(old(store.blobs), blobs, mid, store.blobs, name);
      if d.None? {
        return Some(StoreFailed);
      }
      todo := todo - {name};
    }
    return None;
  }

  lemma NothingImported(before: map<string, Bytes>, bundled: map<string, Bytes>)
    ensures Grows(before, before) && OnlyFrom(before, bundled, before)
  {
  }

  lemma OneImported(before: map<string, Bytes>, bundled: map<string, Bytes>, mid: map<string, Bytes>, blobs: map<string, Bytes>,
                    name: string)
    requires Grows(before, mid) && OnlyFrom(before, bundled, mid) && name in bundled
    requires blobs == mid || (name !in mid && blobs == mid[name := bundled[name]])
    ensures Grows(before, blobs) && OnlyFrom(before, bundled, blobs)
  {
  }

  method ImportTags(store: Layout, artifacts: seq<BundleEntry>, now: int) returns (err: Option<ImportError>)
    requires store.Valid()
    modifies store`tags, store`writes
    ensures store.Valid()
    ensures NoDanglingTag(old(store.tags), store.tags, store.blobs)
    ensures err.None? ==> store.tags == TagsAfter(old(store.tags), artifacts, now)
    ensures err.None? ==> forall art :: art in artifacts && HasTag(art) ==> HasBlob(store.blobs, art.digest)
    ensures (forall art :: art in artifacts ==> ParseRefParts(art.ref).0 == "" || ParseRefParts(art.ref).1 == "" || art.digest == "") ==>
              err.None? && store.tags == old(store.tags)
    ensures err.Some? ==> err.value.MissingBlob? || err.value.StoreFailed?
    ensures err.Some? && err.value.MissingBlob? ==>
              var i := FirstMissing(artifacts, store.blobs, map[]);
              && i < |artifacts| && err.value == MissingBlob(artifacts[i].ref, artifacts[i].digest)
              && store.tags == TagsAfter(old(store.tags), artifacts[..i], now)
    ensures err == Some(StoreFailed) ==>
              exists i :: 0 <= i <= |artifacts| && store.tags == TagsAfter(old(store.tags), artifacts[..i], now)
    ensures store.writes >= old(store.writes)
    ensures err == Some(StoreFailed) ==> store.FaultSince(old(store.writes))
  {
    hide NoDanglingTag, ContentAddressed, TagsAfter, ParseRefParts, TagFile, HasBlob, FirstMissing;
    TagsUnchanged(store.tags, store.blobs);
    NoTags(store.tags, artifacts, now);
    ghost var plain := forall art :: art in artifacts ==> ParseRefParts(art.ref).0 == "" || ParseRefParts(art.ref).1 == "" || art.digest == "";
    for i := 0 to |artifacts|
      invariant NoDanglingTag(old(store.tags), store.tags, store.blobs)
      invariant store.tags == TagsAfter(old(store.tags), artifacts[..i], now)
      invariant forall k :: 0 <= k < i && HasTag(artifacts[k]) ==> HasBlob(store.blobs, artifacts[k].digest)
      invariant store.writes >= old(store.writes)
      invariant plain ==> store.tags == old(store.tags)
    {
      var art := artifacts[i];
      assert art in artifacts;
      var (repo, tag) := ParseRefParts(art.ref);
      TagsAfterNext(old(store.tags), artifacts, i, now);
      if repo == "" || tag == "" || art.digest == "" {
        continue;
      }
      if !HasBlob(store.blobs, art.digest) {
        FirstMissingIs(artifacts, store.blobs, i);
        return Some(MissingBlob(art.ref, art.digest));
      }
      TagAdded(old(store.tags), store.tags, store.blobs, TagFile(repo, tag), TagEntry(art.digest, now));
      var ok := store.PutTag(repo, tag, art.digest, now);
      if !ok {
        return Some(StoreFailed);
      }
    }
    assert artifacts[..|artifacts|] == artifacts;
    return None;
  }

  lemma NoTags(tags: map<TagKey, TagEntry>, artifacts: seq<BundleEntry>, now: int)
    ensures TagsAfter(tags, artifacts[..0], now) == tags
  {
  }

  lemma TagsAfterNext(tags: map<TagKey, TagEntry>, artifacts: seq<BundleEntry>, i: nat, now: int)
    requires i < |artifacts|
    ensures TagsAfter(tags, artifacts[..i + 1], now) ==
            if HasTag(artifacts[i])
            then TagsAfter(tags, artifacts[..i], now)[FileOf(artifacts[i]) := TagEntry(artifacts[i].digest, now)]
            else TagsAfter(tags, artifacts[..i], now)
  {
    hide HasTag, FileOf;
    var front := artifacts[..i + 1];
    assert front[..|front| - 1] == artifacts[..i] && front[|front| - 1] == artifacts[i];
  }

  lemma TagsUnchanged(tags: map<TagKey, TagEntry>, blobs: map<string, Bytes>)
    ensures NoDanglingTag(tags, tags, blobs)
  {
  }

  lemma TagAdded(before: map<TagKey, TagEntry>, tags: map<TagKey, TagEntry>, blobs: map<string, Bytes>,
                 k: TagKey, e: TagEntry)
    requires NoDanglingTag(before, tags, blobs) && HasBlob(blobs, e.digest)
    ensures NoDanglingTag(before, tags[k := e], blobs)
  {
  }

  /** Present in the store after importing the blobs means present before, or in the bundle. */
  lemma PresenceAgrees(artifacts: seq<BundleEntry>, before: map<string, Bytes>, bundled: map<string, Bytes>,
                       hash: Hash, blobs: map<string, Bytes>)
    requires Intact(hash, bundled) && Grows(before, blobs)
    requires bundled.Keys <= blobs.Keys <= before.Keys + bundled.Keys
    ensures AllPresent(artifacts, before, bundled) <==>
      forall art :: art in artifacts && HasTag(art) ==> HasBlob(blobs, art.digest)
    ensures FirstMissing(artifacts, blobs, map[]) == FirstMissing(artifacts, before, bundled)
  {
    forall d ensures HasBlob(blobs, d) <==> HasBlob(before, d) || HasBlob(bundled, d) {}
    SameMissing(artifacts, before, bundled, blobs);
  }

  lemma BothTogether(before: map<string, Bytes>, bundled: map<string, Bytes>, blobs: map<string, Bytes>)
    requires Grows(before, blobs) && OnlyFrom(before, bundled, blobs)
    requires bundled.Keys <= blobs.Keys <= before.Keys + bundled.Keys
    ensures blobs == bundled + before
  {
  }

  lemma {:induction false} SameMissing(artifacts: seq<BundleEntry>, before: map<string, Bytes>, bundled: map<string, Bytes>,
                                       blobs: map<string, Bytes>)
    requires forall d :: HasBlob(blobs, d) <==> HasBlob(before, d) || HasBlob(bundled, d)
    ensures FirstMissing(artifacts, blobs, map[]) == FirstMissing(artifacts, before, bundled)
  {
    forall art ensures Lacks(art, blobs, map[]) <==> Lacks(art, before, bundled) {}
    hide Lacks;
    if artifacts != [] { SameMissing(artifacts[1..], before, bundled, blobs); }
  }

  lemma AllPresentIffNoneMissing(artifacts: seq<BundleEntry>, blobs: map<string, Bytes>, more: map<string, Bytes>)
    ensures AllPresent(artifacts, blobs, more) <==> FirstMissing(artifacts, blobs, more) == |artifacts|
  {
    FirstMissingLacks(artifacts, blobs, more);
    hide HasTag, HasBlob, FirstMissing;
    var i := FirstMissing(artifacts, blobs, more);
    if i < |artifacts| { assert artifacts[i] in artifacts; }
  }

  lemma FirstMissingIs(artifacts: seq<BundleEntry>, blobs: map<string, Bytes>, i: nat)
    requires i < |artifacts| && HasTag(artifacts[i]) && !HasBlob(blobs, artifacts[i].digest)
    requires forall k :: 0 <= k < i && HasTag(artifacts[k]) ==> HasBlob(blobs, artifacts[k].digest)
    ensures FirstMissing(artifacts, blobs, map[]) == i
  {
    FirstMissingLacks(artifacts, blobs, map[]);
    forall art ensures Lacks(art, blobs, map[]) <==> HasTag(art) && !HasBlob(blobs, art.digest) {}
    hide HasTag, HasBlob, Lacks, FirstMissing;
    var first := FirstMissing(artifacts, blobs, map[]);
    assert first < |artifacts| ==> Lacks(artifacts[first], blobs, map[]);
    assert Lacks(artifacts[i], blobs, map[]);
  }

  /** The file an artifact is the last to be tagged in has its entry. */
  lemma {:induction false} LastTagWins(tags: map<TagKey, TagEntry>, artifacts: seq<BundleEntry>, now: int, k: nat)
    requires IsLastTag(artifacts, k)
    ensures FileOf(artifacts[k]) in TagsAfter(tags, artifacts, now)
    ensures TagsAfter(tags, artifacts, now)[FileOf(artifacts[k])] == TagEntry(artifacts[k].digest, now)
  {
    hide HasTag, FileOf;
    var last := |artifacts| - 1;
    var front := artifacts[..last];
    if k < last {
      assert forall m :: 0 <= m < last ==> front[m] == artifacts[m];
      LastTagWins(tags, front, now, k);
    }
  }

  /** A file that is nobody's has its old entry, if any. */
  lemma {:induction false} OthersStay(tags: map<TagKey, TagEntry>, artifacts: seq<BundleEntry>, now: int, f: TagKey)
    requires forall k :: 0 <= k < |artifacts| && HasTag(artifacts[k]) ==> FileOf(artifacts[k]) != f
    ensures f in TagsAfter(tags, artifacts, now) <==> f in tags
    ensures f in tags ==> TagsAfter(tags, artifacts, now)[f] == tags[f]
  {
    hide HasTag, FileOf;
    if artifacts != [] { OthersStay(tags, artifacts[..|artifacts| - 1], now, f); }
  }

  lemma {:induction false} SomeLastTag(artifacts: seq<BundleEntry>, k: nat) returns (last: nat)
    requires k < |artifacts| && HasTag(artifacts[k])
    ensures IsLastTag(artifacts, last) && FileOf(artifacts[last]) == FileOf(artifacts[k])
    decreases |artifacts| - k
  {
    hide HasTag, FileOf;
    if IsLastTag(artifacts, k) {
      last := k;
    } else {
      var m :| k < m < |artifacts| && HasTag(artifacts[m]) && FileOf(artifacts[m]) == FileOf(artifacts[k]);
      last := SomeLastTag(artifacts, m);
    }
  }

  /** Tagging leaves the tags as they were if and only if they said the same before. */
  lemma UnchangedIffRetagged(tags: map<TagKey, TagEntry>, artifacts: seq<BundleEntry>, now: int)
    ensures TagsAfter(tags, artifacts, now) == tags <==> Retagged(tags, artifacts, now)
  {
    hide HasTag, FileOf, TagsAfter, IsLastTag;
    var after := TagsAfter(tags, artifacts, now);
    forall k | IsLastTag(artifacts, k)
      ensures 0 <= k < |artifacts| && FileOf(artifacts[k]) in after
      ensures after[FileOf(artifacts[k])] == TagEntry(artifacts[k].digest, now)
    {
      LastIsTagged(artifacts, k);
      LastTagWins(tags, artifacts, now, k);
    }
    if Retagged(tags, artifacts, now) {
      forall f ensures (f in after <==> f in tags) && (f in tags ==> after[f] == tags[f]) {
        if k :| 0 <= k < |artifacts| && HasTag(artifacts[k]) && FileOf(artifacts[k]) == f {
          var last := SomeLastTag(artifacts, k);
        } else {
          OthersStay(tags, artifacts, now, f);
        }
      }
    }
  }

  lemma LastIsTagged(artifacts: seq<BundleEntry>, k: int)
    requires IsLastTag(artifacts, k)
    ensures 0 <= k < |artifacts| && HasTag(artifacts[k])
  {
  }

  /** When every tag is older than this moment, a rejected import leaves the tags alone exactly if no artifact was tagged. */
  lemma UnchangedIffNoneTagged(tags: map<TagKey, TagEntry>, artifacts: seq<BundleEntry>, now: int)
    requires forall f :: f in tags ==> tags[f].updatedAt < now
    ensures TagsAfter(tags, artifacts, now) == tags <==> forall k :: 0 <= k < |artifacts| ==> !HasTag(artifacts[k])
  {
    hide HasTag, FileOf, TagsAfter, IsLastTag;
    UnchangedIffRetagged(tags, artifacts, now);
    forall k | 0 <= k < |artifacts| && IsLastTag(artifacts, k) ensures HasTag(artifacts[k]) { LastIsTagged(artifacts, k); }
    if k :| 0 <= k < |artifacts| && HasTag(artifacts[k]) {
      var last := SomeLastTag(artifacts, k);
      LastIsTagged(artifacts, last);
    }
  }

  /** A bundle of `a:1`, present, and `b:1`, missing, is rejected, yet leaves the tag of `a` behind. */
  lemma RejectedBundleLeavesTag(blobs: map<string, Bytes>, d1: string, d2: string, now: int)
    requires HasBlob(blobs, d1) && d2 != "" && !HasBlob(blobs, d2)
    ensures var artifacts := [BundleEntry("a:1", d1), BundleEntry("b:1", d2)];
            && FirstMissing(artifacts, blobs, map[]) == 1
            && TagsAfter(map[], artifacts[..1], now) == map[TagFile("a", "1") := TagEntry(d1, now)]
  {
    hide HasTag, FileOf, TagFile, FirstMissing, TagsAfter;
    var artifacts := [BundleEntry("a:1", d1), BundleEntry("b:1", d2)];
    assert d1 != "" by { NoEmptyDigest(blobs); }
    PlainEntry("a", "1", d1);
    PlainEntry("b", "1", d2);
    assert "a" + ":" + "1" == "a:1" && "b" + ":" + "1" == "b:1";
    FirstMissingIs(artifacts, blobs, 1);
    NoTags(map[], artifacts, now);
    TagsAfterNext(map[], artifacts, 0, now);
  }

  lemma NoEmptyDigest(blobs: map<string, Bytes>)
    ensures !HasBlob(blobs, "")
  {
  }

  lemma PlainEntry(repo: string, tag: string, digest: string)
    requires repo != "" && tag != "" && digest != ""
    requires ':' !in repo && '@' !in repo && ':' !in tag && '@' !in tag
    ensures var art := BundleEntry(repo + ":" + tag, digest); HasTag(art) && FileOf(art) == TagFile(repo, tag)
  {
    hide ParseRefParts, TagFile;
    PlainRef(repo, tag);
  }

  lemma PlainRef(repo: string, tag: string)
    requires ':' !in repo && '@' !in repo && ':' !in tag && '@' !in tag
    ensures ParseRefParts(repo + ":" + tag) == (repo, tag)
  {
    var ref := repo + ":" + tag;
    Strings.LastIndexIs(repo, ':', tag);
    assert ref == repo + [':'] + tag && ref[|repo| + 1..] == tag && ref[..|repo|] == repo;
    assert ref[|repo|..] == [':'] + tag;
    assert TagColon(ref) == |repo|;
  }

  /** Both sides of the air gap read a tagged reference alike. */
  lemma SidesAgree(ref: string)
    requires ParseRefParts(ref).1 != ""
    ensures ExportTarget(ref) == ParseRefParts(ref)
  {
  }

  /** An exported bundle is intact and has its artifacts: Import can only fail on it for a disk fault. */
  lemma ExportedIsImportable(env: Env, bundle: Bundle, blobs: map<string, Bytes>)
    requires Loadable(env, bundle)
    ensures Intact(env.hash, bundle.blobs) && AllPresent(bundle.artifacts, blobs, bundle.blobs)
  {
    forall art | art in bundle.artifacts ensures HasBlob(bundle.blobs, art.digest) {
      var k :| 0 <= k < |bundle.artifacts| && bundle.artifacts[k] == art;
    }
  }

  /** What is needed of what n refers to: a canonical digest that one of the two has, readable when it is a manifest. */
  ghost predicate Held(env: Env, had: map<string, Bytes>, bundled: map<string, Bytes>, n: Node) {
    && ValidDigest(n.digest) && (HasBlob(had, n.digest) || HasBlob(bundled, n.digest))
    && (n.Image? ==> env.parse((bundled + had)[HexOf(n.digest)]).Some?)
  }

  /** After an import everything is there exactly if store and bundle together held whatever n refers to. */
  lemma CompleteIffHeld(env: Env, had: map<string, Bytes>, bundled: map<string, Bytes>, n: Node)
    requires ContentAddressed(env.hash, had) && Intact(env.hash, bundled)
    ensures Complete(env, bundled + had, n) <==>
            forall p :: Chain(env, bundled + had, p) && p[0] == n ==> Held(env, had, bundled, p[|p| - 1])
  {
    forall m ensures Held(env, had, bundled, m) <==> Stored(env, bundled + had, m) {
      HeldIsStored(env, had, bundled, m);
    }
    hide Held, Stored;
  }

  lemma HeldIsStored(env: Env, had: map<string, Bytes>, bundled: map<string, Bytes>, n: Node)
    requires ContentAddressed(env.hash, had) && Intact(env.hash, bundled)
    ensures Held(env, had, bundled, n) <==> Stored(env, bundled + had, n)
  {
    if ValidDigest(n.digest) {
      HexOfDigest(n.digest);
    }
  }

  /**
   A bundle of one manifest without its layer passes every check of Import, although nothing is left to recover the
   layer from: only the digest of the artifact itself is looked for.
   */
  lemma BundleWithoutLayerIsImported(env: Env, data: Bytes, layer: string)
    requires IsHash(env.hash) && env.parse(data) == Some(Manifest("", [layer], [])) && layer != env.hash(data)
    ensures var d := env.hash(data);
            var bundle := Bundle(map[HexOf(d) := data], [BundleEntry("a:1", d)]);
            && Intact(env.hash, bundle.blobs) && AllPresent(bundle.artifacts, map[], bundle.blobs)
            && !Complete(env, bundle.blobs + map[], Image(d))
  {
    var d := env.hash(data);
    HexOfDigest(d);
    var blobs := map[HexOf(d) := data];
    assert blobs + map[] == blobs;
    var p := [Image(d), Data(layer)];
    assert p[1..] == [Data(layer)];
    assert Child(env, blobs, p[0], p[1]);
    assert Chain(env, blobs, p[1..]);
    assert Chain(env, blobs, p);
    if ValidDigest(layer) { OneBlob(d, data, layer); }
    assert !Stored(env, blobs, p[|p| - 1]);
  }

  lemma OneBlob(d: string, data: Bytes, layer: string)
    requires ValidDigest(d) && ValidDigest(layer) && layer != d
    ensures !HasBlob(map[HexOf(d) := data], layer)
  {
    HexOfDigest(d);
    HexOfDigest(layer);
  }

  ghost function Contents(blobs: map<string, Bytes>): iset<Bytes> {
    iset h | h in blobs :: blobs[h]
  }

  /** All that the digest refers to is in both, as the same bytes. */
  ghost predicate CarriedOver(env: Env, exported: map<string, Bytes>, blobs: map<string, Bytes>, digest: string) {
    && Complete(env, exported, Image(digest)) && Complete(env, blobs, Image(digest))
    && forall p: seq<Node> :: Chain(env, exported, p) && p[0] == Image(digest) ==>
         Blob(exported, p[|p| - 1].digest).Some? && Blob(blobs, p[|p| - 1].digest) == Blob(exported, p[|p| - 1].digest)
  }

  /**
   Export then import: with no digest collision among the contents involved, the tag of an artifact that is the last one
   tagged in its file resolves in the target store to the exported digest, and everything the artifact refers to reads
   back as the same bytes.
   */
  lemma RoundTrip(env: Env, bundle: Bundle, tags: map<TagKey, TagEntry>, blobs: map<string, Bytes>,
                  before: map<TagKey, TagEntry>, now: int, k: nat)
    requires SelfContained(env, bundle) && IsLastTag(bundle.artifacts, k)
    requires ContentAddressed(env.hash, blobs) && bundle.blobs.Keys <= blobs.Keys
    requires CollisionFree(env.hash, Contents(bundle.blobs) + Contents(blobs))
    requires tags == TagsAfter(before, bundle.artifacts, now)
    ensures var art := bundle.artifacts[k];
            && FileOf(art) in tags && tags[FileOf(art)].digest == art.digest
            && CarriedOver(env, bundle.blobs, blobs, art.digest)
  {
    var art := bundle.artifacts[k];
    LastTagWins(before, bundle.artifacts, now, k);
    SameBytes(env.hash, bundle.blobs, blobs);
    Carried(env, bundle.blobs, blobs, art.digest);
  }

  lemma SameBytes(hash: Hash, exported: map<string, Bytes>, blobs: map<string, Bytes>)
    requires ContentAddressed(hash, exported) && ContentAddressed(hash, blobs) && exported.Keys <= blobs.Keys
    requires CollisionFree(hash, Contents(exported) + Contents(blobs))
    ensures Grows(exported, blobs)
  {
    forall h | h in exported ensures h in blobs && blobs[h] == exported[h] {
      assert hash(blobs[h]) == hash(exported[h]);
      assert blobs[h] in Contents(blobs) && exported[h] in Contents(exported);
    }
  }

  lemma Carried(env: Env, exported: map<string, Bytes>, blobs: map<string, Bytes>, digest: string)
    requires Grows(exported, blobs) && Complete(env, exported, Image(digest))
    ensures CarriedOver(env, exported, blobs, digest)
  {
    CompleteGrows(env, exported, blobs, Image(digest));
  }

  /** The reference has repository and tag. */
  predicate IsTagged(ref: string) {
    ParseRefParts(ref).0 != "" && ParseRefParts(ref).1 != ""
  }

  /** The reference is tagged, and no later one is tagged in the same file. */
  predicate NamesLast(refs: seq<string>, k: int) {
    && 0 <= k < |refs| && IsTagged(refs[k])
    && forall m :: k < m < |refs| && IsTagged(refs[m]) ==> RefFile(refs[m]) != RefFile(refs[k])
  }

  function RefFile(ref: string): TagKey {
    TagFile(ParseRefParts(ref).0, ParseRefParts(ref).1)
  }

  predicate Resolves(tags: map<TagKey, TagEntry>, ref: string, digest: string) {
    RefFile(ref) in tags && tags[RefFile(ref)].digest == digest
  }

  lemma LastRefIsLastTag(artifacts: seq<BundleEntry>, refs: seq<string>, k: int)
    requires |artifacts| == |refs| && forall m :: 0 <= m < |refs| ==> artifacts[m].ref == refs[m] && artifacts[m].digest != ""
    ensures NamesLast(refs, k) <==> IsLastTag(artifacts, k)
  {
    hide ParseRefParts, TagFile;
    forall m | 0 <= m < |refs|
      ensures HasTag(artifacts[m]) <==> IsTagged(refs[m])
      ensures FileOf(artifacts[m]) == RefFile(refs[m])
    {
    }
    hide HasTag, FileOf, RefFile, IsTagged;
    if NamesLast(refs, k) { assert IsLastTag(artifacts, k); }
    if IsLastTag(artifacts, k) { assert NamesLast(refs, k); }
  }

  /** One of the answers from the given moments was a good manifest with these bytes and this digest for the reference. */
  ghost predicate GivenAs(env: Env, upstream: Upstream, ref: string, digest: string, data: Option<Bytes>, from: nat, to: nat) {
    exists t :: from <= t < to && AnswerIs(env, upstream, ref, digest, t) && data == Some(AnswerTo(upstream, ref, t).data)
  }

  /**
   Both sides of the air gap. Unless an artifact is not available or a disk fails, every artifact's tag, where no later
   artifact takes it, resolves in the target store to the digest of what the upstream gave for it during the run. Unless two of the contents received and
   of those in the store before collide, its bytes are those the upstream gave, and all it refers to is there.
   */
  method ExportThenImport(exporter: Exporter, store: Layout, refs: seq<string>, now: int)
    returns (ok: bool, digests: seq<string>)
    requires exporter.Valid() && exporter.blobs == map[] && store.Valid() && store.hash == exporter.env.hash
    modifies exporter, store
    ensures store.Valid() && Grows(old(store.blobs), store.blobs)
    ensures CanonicalTags(old(store.tags)) ==> CanonicalTags(store.tags)
    ensures !ok ==> refs == [] || exporter.FaultSince(old(exporter.writes)) || store.FaultSince(old(store.writes)) ||
                    exists ref :: ref in refs && !AvailableArtifact(exporter.env, exporter.upstream, ref)
    ensures ok ==> |digests| == |refs| && exporter.Valid()
    ensures ok ==>
              forall k :: 0 <= k < |refs| ==>
                && GivenFor(exporter.env, exporter.upstream, refs[k], digests[k], exporter.received, old(exporter.requests), exporter.requests)
                && ValidDigest(digests[k]) && HasBlob(store.blobs, digests[k])
                && (NamesLast(refs, k) ==> Resolves(store.tags, refs[k], digests[k]))
    ensures ok && CollisionFree(store.hash, exporter.received + Contents(old(store.blobs))) ==>
              forall k :: 0 <= k < |refs| ==>
                && GivenAs(exporter.env, exporter.upstream, refs[k], digests[k], Blob(store.blobs, digests[k]),
                           old(exporter.requests), exporter.requests)
                && CarriedOver(exporter.env, exporter.blobs, store.blobs, digests[k])
    ensures forall f :: (forall ref :: ref in refs ==> RefFile(ref) != f) ==> SameEntry(old(store.tags), store.tags, f)
  {
    hide GivenFor, GivenAs, SameEntry, RefFile, NamesLast, Resolves, SelfContained, Loadable, CollisionFree, TagsAfter, AllPresent, Intact;
    hide Complete, AvailableArtifact, ContentAddressed, ParseRefParts, TagFile, NoDanglingTag, OnlyFrom, Grows, GivenBefore, Retagged;
    hide CanonicalTags, CarriedOver, HasBlob, ValidDigest, HexOf;
    GrowsReflexive(store.blobs);
    ghost var had, before, start := store.blobs, store.tags, exporter.requests;
    AllSame(before);
    var exported := exporter.Export(refs);
    if exported.Failure? {
      return false, [];
    }
    var bundle := exported.value;
    assert |bundle.artifacts| == |refs| && forall k :: 0 <= k < |refs| ==> bundle.artifacts[k].ref == refs[k];
    ExportedIsImportable(exporter.env, bundle, store.blobs);
    var err := Import(store, bundle, now);
    assert bundle.artifacts[..|bundle.artifacts|] == bundle.artifacts;
    OnlyRefsTagged(before, store.tags, bundle.artifacts, refs, now);
    StayCanonical(exporter.env, bundle, before, store.tags, now);
    if err.Some? {
      return false, [];
    }
    EachTagged(exporter.env, bundle, refs, store.tags, store.blobs, before, now);
    digests := seq(|refs|, k requires 0 <= k < |refs| => bundle.artifacts[k].digest);
    if CollisionFree(store.hash, exporter.received + Contents(had)) {
      NoCollisions(exporter.env, exporter.received, had, bundle, store.blobs);
      EachCarried(exporter.env, exporter.upstream, bundle, refs, exporter.received, had, store.blobs, start, exporter.requests);
    }
    return true, digests;
  }

  lemma EachTagged(env: Env, bundle: Bundle, refs: seq<string>, tags: map<TagKey, TagEntry>, blobs: map<string, Bytes>,
                   before: map<TagKey, TagEntry>, now: int)
    requires Loadable(env, bundle) && bundle.blobs.Keys <= blobs.Keys
    requires |bundle.artifacts| == |refs| && forall k :: 0 <= k < |refs| ==> bundle.artifacts[k].ref == refs[k]
    requires tags == TagsAfter(before, bundle.artifacts, now)
    ensures forall k :: 0 <= k < |refs| ==>
              && ValidDigest(bundle.artifacts[k].digest) && HasBlob(blobs, bundle.artifacts[k].digest)
              && (NamesLast(refs, k) ==> Resolves(tags, refs[k], bundle.artifacts[k].digest))
  {
    hide ContentAddressed, ParseRefParts, TagFile, TagsAfter, ValidDigest, Loadable, NamesLast, IsLastTag;
    forall k | 0 <= k < |refs| ensures bundle.artifacts[k].digest != "" { ArtifactLoadable(env, bundle, k); }
    forall k | 0 <= k < |refs|
      ensures NamesLast(refs, k) ==> Resolves(tags, refs[k], bundle.artifacts[k].digest)
      ensures ValidDigest(bundle.artifacts[k].digest) && HasBlob(blobs, bundle.artifacts[k].digest)
    {
      ArtifactLoadable(env, bundle, k);
      LastRefIsLastTag(bundle.artifacts, refs, k);
      if IsLastTag(bundle.artifacts, k) { LastTagWins(before, bundle.artifacts, now, k); }
    }
  }

  lemma ArtifactLoadable(env: Env, bundle: Bundle, k: nat)
    requires Loadable(env, bundle) && k < |bundle.artifacts|
    ensures bundle.artifacts[k].digest != ""
    ensures ValidDigest(bundle.artifacts[k].digest) && HasBlob(bundle.blobs, bundle.artifacts[k].digest)
  {
  }

  /** The tags of an exported bundle are canonical. */
  lemma StayCanonical(env: Env, bundle: Bundle, before: map<TagKey, TagEntry>, tags: map<TagKey, TagEntry>, now: int)
    requires Loadable(env, bundle)
    requires tags == before || exists i :: 0 <= i <= |bundle.artifacts| && tags == TagsAfter(before, bundle.artifacts[..i], now)
    ensures CanonicalTags(before) ==> CanonicalTags(tags)
  {
    hide TagsAfter, CanonicalTags, Loadable, ValidDigest;
    if i :| 0 <= i <= |bundle.artifacts| && tags == TagsAfter(before, bundle.artifacts[..i], now) {
      forall k | 0 <= k < i ensures ValidDigest(bundle.artifacts[..i][k].digest) { ArtifactLoadable(env, bundle, k); }
      CanonicalAfter(before, bundle.artifacts[..i], now);
    }
  }

  lemma {:induction false} CanonicalAfter(tags: map<TagKey, TagEntry>, artifacts: seq<BundleEntry>, now: int)
    requires forall k :: 0 <= k < |artifacts| ==> ValidDigest(artifacts[k].digest)
    ensures CanonicalTags(tags) ==> CanonicalTags(TagsAfter(tags, artifacts, now))
  {
    hide HasTag, FileOf, ValidDigest;
    if artifacts != [] { CanonicalAfter(tags, artifacts[..|artifacts| - 1], now); }
  }

  lemma EachCarried(env: Env, upstream: Upstream, bundle: Bundle, refs: seq<string>, received: iset<Bytes>,
                    had: map<string, Bytes>, blobs: map<string, Bytes>, from: nat, to: nat)
    requires SelfContained(env, bundle) && |bundle.artifacts| == |refs|
    requires ContentAddressed(env.hash, blobs) && Grows(bundle.blobs, blobs)
    requires forall h :: h in bundle.blobs ==> bundle.blobs[h] in received
    requires CollisionFree(env.hash, received + Contents(had))
    requires forall k :: 0 <= k < |refs| ==>
               && GivenFor(env, upstream, refs[k], bundle.artifacts[k].digest, received, from, to)
               && HasBlob(blobs, bundle.artifacts[k].digest)
    ensures forall k :: 0 <= k < |refs| ==>
              && GivenAs(env, upstream, refs[k], bundle.artifacts[k].digest, Blob(blobs, bundle.artifacts[k].digest), from, to)
              && CarriedOver(env, bundle.blobs, blobs, bundle.artifacts[k].digest)
  {
    hide GivenFor, GivenAs, CollisionFree, ContentAddressed, Complete, Grows, CarriedOver, HasBlob, HexOf;
    forall k | 0 <= k < |refs|
      ensures GivenAs(env, upstream, refs[k], bundle.artifacts[k].digest, Blob(blobs, bundle.artifacts[k].digest), from, to)
      ensures CarriedOver(env, bundle.blobs, blobs, bundle.artifacts[k].digest)
    {
      ArtifactLoadable(env, bundle, k);
      TopBytes(env, upstream, refs[k], bundle.artifacts[k].digest, received, had, bundle.blobs, blobs, from, to);
      Carried(env, bundle.blobs, blobs, bundle.artifacts[k].digest);
    }
  }

  lemma TopBytes(env: Env, upstream: Upstream, ref: string, digest: string, received: iset<Bytes>, had: map<string, Bytes>,
                 exported: map<string, Bytes>, blobs: map<string, Bytes>, from: nat, to: nat)
    requires GivenFor(env, upstream, ref, digest, received, from, to) && ValidDigest(digest) && HasBlob(exported, digest)
    requires ContentAddressed(env.hash, exported) && Grows(exported, blobs) && CollisionFree(env.hash, received + Contents(had))
    requires forall h :: h in exported ==> exported[h] in received
    ensures HasBlob(blobs, digest) && GivenAs(env, upstream, ref, digest, Blob(blobs, digest), from, to)
  {
    HexOfDigest(digest);
    assert env.hash(exported[HexOf(digest)]) == digest;
    FewerContents(env.hash, received, received + Contents(had));
  }

  /** A tag file has the same entry before and after, or none. */
  predicate SameEntry(before: map<TagKey, TagEntry>, tags: map<TagKey, TagEntry>, f: TagKey) {
    (f in tags <==> f in before) && (f in tags ==> tags[f] == before[f])
  }

  lemma AllSame(tags: map<TagKey, TagEntry>)
    ensures forall f :: SameEntry(tags, tags, f)
  {
  }

  lemma OnlyRefsTagged(before: map<TagKey, TagEntry>, tags: map<TagKey, TagEntry>, artifacts: seq<BundleEntry>,
                       refs: seq<string>, now: int)
    requires |artifacts| == |refs| && forall k :: 0 <= k < |refs| ==> artifacts[k].ref == refs[k]
    requires tags == before || exists i :: 0 <= i <= |artifacts| && tags == TagsAfter(before, artifacts[..i], now)
    ensures forall f :: (forall ref :: ref in refs ==> RefFile(ref) != f) ==> SameEntry(before, tags, f)
  {
    hide ParseRefParts, TagFile, HasTag, TagsAfter;
    if i :| 0 <= i <= |artifacts| && tags == TagsAfter(before, artifacts[..i], now) {
      forall f | forall ref :: ref in refs ==> RefFile(ref) != f ensures SameEntry(before, tags, f) {
        forall k | 0 <= k < i ensures FileOf(artifacts[..i][k]) != f { assert refs[k] in refs; }
        OthersStay(before, artifacts[..i], now, f);
      }
    }
  }

  lemma NoCollisions(env: Env, received: iset<Bytes>, had: map<string, Bytes>, bundle: Bundle, blobs: map<string, Bytes>)
    requires CollisionFree(env.hash, received + Contents(had)) && (forall h :: h in bundle.blobs ==> bundle.blobs[h] in received)
    requires blobs == bundle.blobs + had && ContentAddressed(env.hash, blobs) && Loadable(env, bundle)
    ensures CollisionFree(env.hash, received) && Grows(bundle.blobs, blobs)
  {
    FewerContents(env.hash, received, received + Contents(had));
    assert Contents(bundle.blobs) + Contents(blobs) <= received + Contents(had);
    FewerContents(env.hash, Contents(bundle.blobs) + Contents(blobs), received + Contents(had));
    SameBytes(env.hash, bundle.blobs, blobs);
  }
}
