/** The mirror behind the air gap: whole runs of requests, and what they get of an exported and imported bundle. */
module AirgapMirror {
  import opened Wrappers
  import opened Digests
  import opened OCILayout
  import opened Registry
  import opened AirgapExport
  import opened AirgapImport
  import opened MirrorServer
  import Strings

  /** A request of a client at a moment. */
  datatype Pull = ManifestPull(repo: string, ref: string, at: int) | BlobPull(repo: string, digest: string, at: int)

  /** The clock does not run backwards. */
  ghost predicate InOrder(pulls: seq<Pull>) {
    forall i, j :: 0 <= i < j < |pulls| ==> pulls[i].at <= pulls[j].at
  }

  /** An upstream out of reach. */
  function Unreachable(): Upstream {
    (q: Request, t: int) => NoReply
  }

  /** A tag was asked for and answered. */
  ghost predicate TagServed(pull: Pull, answer: Answer) {
    pull.ManifestPull? && !IsDigestRef(pull.ref) && answer.Served?
  }

  /** The answer to a tag is recent. */
  ghost predicate RecentAnswer(h: Handler, seeded: map<TagKey, TagEntry>, pull: Pull, answer: Answer) {
    TagServed(pull, answer) ==>
      Recent(h.store.hash, h.upstream, h.tagTTL, seeded, pull.repo, pull.ref, pull.at, answer.digest)
  }

  /** Refused before store or upstream is asked. */
  function Refusal(denies: string -> bool, pull: Pull): Option<nat> {
    match pull
    case ManifestPull(repo, ref, _) => Rejection(denies, repo, ref, false)
    case BlobPull(repo, digest, _) => Rejection(denies, repo, digest, true)
  }

  /** The answer from a store that no upstream stands behind. */
  function CachedAnswer(denies: string -> bool, tags: map<TagKey, TagEntry>, blobs: map<string, Bytes>, pull: Pull): Answer {
    if Refusal(denies, pull).Some? then Refused(Refusal(denies, pull).value)
    else
      match pull
      case ManifestPull(repo, ref, _) =>
        if IsDigestRef(ref) then Content(blobs, NoReply, ref)
        else if TagFile(repo, ref) in tags then Content(blobs, NoReply, tags[TagFile(repo, ref)].digest)
        else Refused(404)
      case BlobPull(_, digest, _) => Content(blobs, NoReply, digest)
  }

  /** The request can be answered: what it names can be named, and its repository is not denied. */
  predicate MayPull(denies: string -> bool, pull: Pull) {
    match pull
    case ManifestPull(repo, ref, _) => Permitted(denies, repo, ref, false)
    case BlobPull(repo, digest, _) => Permitted(denies, repo, digest, true)
  }

  lemma MayPullIsNotRefused(denies: string -> bool, pull: Pull)
    ensures MayPull(denies, pull) <==> Refusal(denies, pull).None?
  {
    hide Permitted, Rejection;
    PermittedIsNotRejected(denies, pull.repo, match pull case ManifestPull(_, ref, _) => ref case BlobPull(_, d, _) => d, pull.BlobPull?);
  }

  /** What is denied or unsafe is refused; what may be pulled is refused only as not found. */
  ghost predicate KeepsPolicy(denies: string -> bool, pull: Pull, answer: Answer) {
    && (denies(pull.repo) || Unsafe(pull.repo) ==> answer.Refused?)
    && (MayPull(denies, pull) && answer.Refused? ==> answer.status == 404)
  }

  method ServePull(h: Handler, pull: Pull) returns (answer: Answer)
    requires h.Valid()
    modifies h.store
    ensures h.Valid() && Grows(old(h.store.blobs), h.store.blobs)
    ensures h.denies(pull.repo) || Unsafe(pull.repo) ==>
              answer.Refused? && h.store.tags == old(h.store.tags) && h.store.blobs == old(h.store.blobs)
    ensures KeepsPolicy(h.denies, pull, answer)
    ensures h.Trusted() && CanonicalTags(old(h.store.tags)) ==>
              CanonicalTags(h.store.tags) && (answer.Served? ==> answer.digest == h.store.hash(answer.data))
    ensures forall seeded, last :: h.Trusted() && last <= pull.at && Accounted(h.store.hash, h.upstream, seeded, old(h.store.tags), last) ==>
              && Accounted(h.store.hash, h.upstream, seeded, h.store.tags, pull.at)
              && RecentAnswer(h, seeded, pull, answer)
    ensures Down(h.upstream, pull.at) ==>
              && h.store.tags == old(h.store.tags) && h.store.blobs == old(h.store.blobs)
              && answer == CachedAnswer(h.denies, h.store.tags, h.store.blobs, pull)
  {
    hide Accounted, Recent, Honest, ContentAddressed, Grows, CanonicalTags, Unsafe;
    MayPullIsNotRefused(h.denies, pull);
    ghost var tags := h.store.tags;
    match pull
    case ManifestPull(repo, ref, at) =>
      answer := h.HandleManifest(repo, ref, at);
      forall seeded, last | h.Trusted() && last <= at && Accounted(h.store.hash, h.upstream, seeded, tags, last)
        ensures Accounted(h.store.hash, h.upstream, seeded, h.store.tags, at) && RecentAnswer(h, seeded, pull, answer)
      {
        StepAccounted(h.store.hash, h.upstream, h.tagTTL, seeded, tags, h.store.tags, repo, ref, last, at);
        StillAccounted(h.store.hash, h.upstream, seeded, tags, last, at);
        TagAnswersAreRecent(h.store.hash, h.upstream, h.tagTTL, seeded, tags, repo, ref, at);
      }
    case BlobPull(repo, digest, at) =>
      answer := h.HandleBlob(repo, digest, at);
      forall seeded, last | last <= at && Accounted(h.store.hash, h.upstream, seeded, tags, last)
        ensures Accounted(h.store.hash, h.upstream, seeded, h.store.tags, at)
      {
        StillAccounted(h.store.hash, h.upstream, seeded, tags, last, at);
      }
  }

  lemma StillAccounted(hash: Hash, upstream: Upstream, seeded: map<TagKey, TagEntry>, tags: map<TagKey, TagEntry>, last: int, now: int)
    requires Accounted(hash, upstream, seeded, tags, last) && last <= now
    ensures Accounted(hash, upstream, seeded, tags, now)
  {
  }

  lemma SeededAccounted(hash: Hash, upstream: Upstream, tags: map<TagKey, TagEntry>)
    ensures forall now :: Accounted(hash, upstream, tags, tags, now)
  {
  }

  /**
   Any run of requests, starting from any store: no blob is lost, and nothing of a denied repository is served or fetched.
   What may be asked for is refused only when it is not found. From an upstream that can be trusted, and with canonical
   tags, whatever is served hashes to the digest in its header; and when the clock does not run backwards, every tag's
   answer is recent. While the upstream gives nothing the store stays as it is, and the answers come from it alone.
   */
  method ServePulls(h: Handler, pulls: seq<Pull>) returns (answers: seq<Answer>)
    requires h.Valid()
    modifies h.store
    ensures h.Valid() && Grows(old(h.store.blobs), h.store.blobs) && |answers| == |pulls|
    ensures forall i :: 0 <= i < |pulls| ==> KeepsPolicy(h.denies, pulls[i], answers[i])
    ensures (forall i :: 0 <= i < |pulls| ==> h.denies(pulls[i].repo) || Unsafe(pulls[i].repo)) ==>
              h.store.tags == old(h.store.tags) && h.store.blobs == old(h.store.blobs)
    ensures h.Trusted() && CanonicalTags(old(h.store.tags)) ==>
              && CanonicalTags(h.store.tags)
              && forall i :: 0 <= i < |pulls| && answers[i].Served? ==> answers[i].digest == h.store.hash(answers[i].data)
    ensures h.Trusted() && InOrder(pulls) ==> forall i :: 0 <= i < |pulls| ==> RecentAnswer(h, old(h.store.tags), pulls[i], answers[i])
    ensures (forall i :: 0 <= i < |pulls| ==> Down(h.upstream, pulls[i].at)) ==>
              && h.store.tags == old(h.store.tags) && h.store.blobs == old(h.store.blobs)
              && forall i :: 0 <= i < |pulls| ==> answers[i] == CachedAnswer(h.denies, h.store.tags, h.store.blobs, pulls[i])
  {
    hide Accounted, RecentAnswer, Grows, CanonicalTags, CachedAnswer, Down, Honest, Unsafe, MayPull, KeepsPolicy;
    GrowsReflexive(h.store.blobs);
    SeededAccounted(h.store.hash, h.upstream, h.store.tags);
    answers := [];
    ghost var last := if pulls == [] then 0 else pulls[0].at;
    for i := 0 to |pulls|
      invariant h.Valid() && Grows(old(h.store.blobs), h.store.blobs) && |answers| == i
      invariant forall k :: 0 <= k < i ==> KeepsPolicy(h.denies, pulls[k], answers[k])
      invariant (forall k :: 0 <= k < i ==> h.denies(pulls[k].repo) || Unsafe(pulls[k].repo)) ==>
                  h.store.tags == old(h.store.tags) && h.store.blobs == old(h.store.blobs)
      invariant h.Trusted() && CanonicalTags(old(h.store.tags)) ==>
                  && CanonicalTags(h.store.tags)
                  && forall k :: 0 <= k < i && answers[k].Served? ==> answers[k].digest == h.store.hash(answers[k].data)
      invariant InOrder(pulls) && i < |pulls| ==> last <= pulls[i].at
      invariant h.Trusted() && InOrder(pulls) ==>
                  && Accounted(h.store.hash, h.upstream, old(h.store.tags), h.store.tags, last)
                  && forall k :: 0 <= k < i ==> RecentAnswer(h, old(h.store.tags), pulls[k], answers[k])
      invariant (forall k :: 0 <= k < i ==> Down(h.upstream, pulls[k].at)) ==>
                  && h.store.tags == old(h.store.tags) && h.store.blobs == old(h.store.blobs)
                  && forall k :: 0 <= k < i ==> answers[k] == CachedAnswer(h.denies, h.store.tags, h.store.blobs, pulls[k])
    {
      ghost var mid := h.store.blobs;
      var answer := ServePull(h, pulls[i]);
      GrowsTransitive(old(h.store.blobs), mid, h.store.blobs);
      answers := answers + [answer];
      last := pulls[i].at;
    }
  }

  /** The tag of one of the references is asked for. */
  predicate AsksTag(pull: Pull, ref: string) {
    pull.ManifestPull? && (pull.repo, pull.ref) == ParseRefParts(ref)
  }

  /** A blob, or a manifest by its digest, is asked for. */
  predicate AsksDigest(pull: Pull, digest: string) {
    match pull
    case ManifestPull(_, ref, _) => ref == digest
    case BlobPull(_, d, _) => d == digest
  }

  /** Every permitted request for a reference's tag was served with its digest, and the blob the store has for it. */
  ghost predicate TagsAnswered(denies: string -> bool, blobs: map<string, Bytes>, refs: seq<string>, digests: seq<string>,
                               pull: Pull, answer: Answer)
    requires |digests| == |refs|
  {
    MayPull(denies, pull) ==>
      forall k :: NamesLast(refs, k) && AsksTag(pull, refs[k]) ==>
        Blob(blobs, digests[k]).Some? && answer == Served(digests[k], Blob(blobs, digests[k]).value)
  }

  /** Every permitted request for something the digest refers to was served with the exported bytes. */
  ghost predicate ClosureAnswered(denies: string -> bool, env: Env, exported: map<string, Bytes>, digest: string,
                                  pull: Pull, answer: Answer) {
    MayPull(denies, pull) ==>
      forall p: seq<Node> :: Chain(env, exported, p) && p[0] == Image(digest) && AsksDigest(pull, p[|p| - 1].digest) ==>
        && Blob(exported, p[|p| - 1].digest).Some?
        && answer == Served(p[|p| - 1].digest, Blob(exported, p[|p| - 1].digest).value)
  }

  /**
   Across the air gap: artifacts are exported, imported, and pulled from a mirror whose upstream is out of reach. Unless
   something is not available or a disk fails, every permitted request for an artifact's tag, where no later artifact takes
   it, is served with the digest the upstream gave for it; and unless contents collide, with the bytes it gave, and every permitted request for anything
   they refer to with the exported bytes.
   */
  method CrossAirGap(exporter: Exporter, store: Layout, refs: seq<string>, now: int, denies: string -> bool, pulls: seq<Pull>)
    returns (ok: bool, digests: seq<string>, answers: seq<Answer>)
    requires exporter.Valid() && exporter.blobs == map[] && store.Valid() && store.hash == exporter.env.hash
    modifies exporter, store
    ensures !ok ==> refs == [] || exporter.FaultSince(old(exporter.writes)) || store.FaultSince(old(store.writes)) ||
                    exists ref :: ref in refs && !AvailableArtifact(exporter.env, exporter.upstream, ref)
    ensures ok ==> |digests| == |refs| && |answers| == |pulls|
    ensures ok ==> forall i :: 0 <= i < |pulls| ==> KeepsPolicy(denies, pulls[i], answers[i])
    ensures ok ==>
              && (forall k :: 0 <= k < |refs| ==>
                    GivenFor(exporter.env, exporter.upstream, refs[k], digests[k], exporter.received, old(exporter.requests), exporter.requests))
              && forall i :: 0 <= i < |pulls| ==> TagsAnswered(denies, store.blobs, refs, digests, pulls[i], answers[i])
    ensures ok && CollisionFree(store.hash, exporter.received + Contents(old(store.blobs))) ==>
              forall k :: 0 <= k < |refs| ==>
                && GivenAs(exporter.env, exporter.upstream, refs[k], digests[k], Blob(store.blobs, digests[k]),
                           old(exporter.requests), exporter.requests)
                && forall i :: 0 <= i < |pulls| ==>
                     ClosureAnswered(denies, exporter.env, exporter.blobs, digests[k], pulls[i], answers[i])
  {
    hide GivenFor, GivenAs, IsTagged, Resolves, CollisionFree, AvailableArtifact, CarriedOver, TagsAnswered, ClosureAnswered;
    hide CachedAnswer, CanonicalTags, Grows, HasBlob, ValidDigest, RefFile, Unsafe, MayPull, KeepsPolicy;
    ok, digests := ExportThenImport(exporter, store, refs, now);
    if !ok {
      return ok, digests, [];
    }
    NothingFromUnreachable();
    var mirror := new Handler(store, Unreachable(), denies);
    answers := ServePulls(mirror, pulls);
    forall i | 0 <= i < |pulls| ensures TagsAnswered(denies, store.blobs, refs, digests, pulls[i], answers[i]) {
      CachedTags(denies, store.tags, store.blobs, refs, digests, pulls[i]);
    }
    forall k, i | 0 <= k < |refs| && 0 <= i < |pulls| && CarriedOver(exporter.env, exporter.blobs, store.blobs, digests[k])
      ensures ClosureAnswered(denies, exporter.env, exporter.blobs, digests[k], pulls[i], answers[i])
    {
      CachedClosure(denies, exporter.env, exporter.blobs, store.tags, store.blobs, digests[k], pulls[i]);
    }
  }

  lemma NothingFromUnreachable()
    ensures forall now :: Down(Unreachable(), now)
  {
  }

  /** The tag of a reference is no digest. */
  lemma TagIsNoDigest(ref: string)
    ensures !IsDigestRef(ParseRefParts(ref).1)
  {
    assert SCHEME[6] == ':';
  }

  lemma CachedTags(denies: string -> bool, tags: map<TagKey, TagEntry>, blobs: map<string, Bytes>, refs: seq<string>,
                   digests: seq<string>, pull: Pull)
    requires |digests| == |refs|
    requires forall k :: NamesLast(refs, k) ==> Resolves(tags, refs[k], digests[k]) && HasBlob(blobs, digests[k])
    ensures TagsAnswered(denies, blobs, refs, digests, pull, CachedAnswer(denies, tags, blobs, pull))
  {
    hide ParseRefParts, TagFile, IsDigestRef, HasBlob, MayPull, Rejection;
    MayPullIsNotRefused(denies, pull);
    forall k | NamesLast(refs, k) && AsksTag(pull, refs[k]) && Refusal(denies, pull).None?
      ensures CachedAnswer(denies, tags, blobs, pull) == Content(blobs, NoReply, digests[k])
    {
      TagIsNoDigest(refs[k]);
    }
  }

  lemma CachedClosure(denies: string -> bool, env: Env, exported: map<string, Bytes>, tags: map<TagKey, TagEntry>,
                      blobs: map<string, Bytes>, digest: string, pull: Pull)
    requires CarriedOver(env, exported, blobs, digest)
    ensures ClosureAnswered(denies, env, exported, digest, pull, CachedAnswer(denies, tags, blobs, pull))
  {
    forall p: seq<Node> | Chain(env, exported, p) && p[0] == Image(digest)
      ensures IsDigestRef(p[|p| - 1].digest)
    {
      assert Stored(env, exported, p[|p| - 1]);
    }
    MayPullIsNotRefused(denies, pull);
    hide IsDigestRef, Chain, Complete, HasBlob, TagFile, HexOf, MayPull, Rejection;
  }

  /**
   Import takes a bundle that names its artifact by the bare hexadecimal name, and the mirror then serves it with a header
   that is not the digest of what it serves.
   */
  lemma BareDigestIsServedBare(hash: Hash, data: Bytes, h: string, now: int, at: int)
    requires ValidHex64(h) && hash(data) == SCHEME + h
    ensures var blobs, artifacts := map[h := data], [BundleEntry("a:1", h)];
            && Intact(hash, blobs) && AllPresent(artifacts, map[], blobs)
            && CachedAnswer(name => false, TagsAfter(map[], artifacts, now), blobs, ManifestPull("a", "1", at)) == Served(h, data)
            && h != hash(data)
  {
    var blobs, artifacts := map[h := data], [BundleEntry("a:1", h)];
    hide ParseRefParts, TagFile, TagsAfter;
    assert "a" + ":" + "1" == "a:1";
    PlainEntry("a", "1", h);
    PlainRef("a", "1");
    NoTags(map[], artifacts, now);
    TagsAfterNext(map[], artifacts, 0, now);
    assert artifacts[..1] == artifacts;
    BareName(h);
    OneSegment();
  }

  lemma BareName(h: string)
    requires ValidHex64(h)
    ensures HexOf(h) == h && h != "" && h != SCHEME + h && !ValidDigest(h)
  {
    assert HexChar(h[0]) && !HexChar(SCHEME[0]);
  }

  lemma OneSegment()
    ensures ValidRepo("a") && !IsDigestRef("1")
  {
    Strings.SplitWhole("a", '/');
  }
}
