/** The pull-through cache: each request is one step at one moment, with the upstream's answers at that moment. */
module MirrorServer {
  import opened Wrappers
  import opened Digests
  import opened OCILayout
  import opened Registry
  import Strings

  /** What the client gets: an error status, or a body with the digest in the response header. */
  datatype Answer = Refused(status: nat) | Served(digest: string, data: Bytes)

  /** No empty, `.` or `..` segment. */
  predicate ValidRepo(repo: string) {
    repo != "" && forall seg :: seg in Strings.Split(repo, '/') ==> seg != "" && seg != "." && seg != ".."
  }

  /** The repository has an empty segment, or one that names a directory relative to itself. */
  predicate Unsafe(repo: string) {
    exists seg :: seg in Strings.Split(repo, '/') && (seg == "" || seg == "." || seg == "..")
  }

  /** A request for something that can be named, from a repository that is not denied. */
  predicate Permitted(denies: string -> bool, repo: string, ref: string, digestOnly: bool) {
    && ref != "" && !Unsafe(repo) && !denies(repo)
    && (digestOnly || "sha256:" <= ref ==> ValidDigest(ref))
  }

  predicate IsDigestRef(ref: string) {
    SCHEME <= ref
  }

  /** The digest the upstream's answer binds a reference to: the declared one, or else that of the bytes. */
  function Binding(hash: Hash, resp: Response): Option<string> {
    if resp.Reply? && resp.status == 200 then
      Some(if resp.declared == "" then hash(resp.data) else resp.declared)
    else None
  }

  /** What the upstream says of a reference at a moment. */
  function BoundAt(hash: Hash, upstream: Upstream, repo: string, ref: string, t: int): Option<string> {
    Binding(hash, upstream(ManifestRequest(repo, ref), t))
  }

  /** An upstream that declares true digests, answers digests with their content, and keeps to the tag grammar. */
  ghost predicate Honest(hash: Hash, upstream: Upstream) {
    forall q, t :: upstream(q, t).Reply? && upstream(q, t).status == 200 ==>
      var resp := upstream(q, t);
      && (resp.declared == "" || resp.declared == hash(resp.data))
      && (q.BlobRequest? ==> hash(resp.data) == q.digest)
      && (q.ManifestRequest? && IsDigestRef(q.reference) ==> hash(resp.data) == q.reference)
      && (q.ManifestRequest? && !IsDigestRef(q.reference) ==> PlainTag(q.reference))
  }

  /** Every cached tag was there from the beginning, or was the upstream's binding at the moment it was cached, not later than now. */
  ghost predicate Accounted(hash: Hash, upstream: Upstream, seeded: map<TagKey, TagEntry>, tags: map<TagKey, TagEntry>, now: int) {
    forall k :: k in tags ==>
      || (k in seeded && tags[k] == seeded[k])
      || (tags[k].updatedAt <= now && BoundAt(hash, upstream, k.0, k.1, tags[k].updatedAt) == Some(tags[k].digest))
  }

  /** The upstream gives nothing at this moment. */
  ghost predicate Down(upstream: Upstream, now: int) {
    forall q :: !(upstream(q, now).Reply? && upstream(q, now).status == 200)
  }

  /** The body of an answer from the upstream, under the digest asked for. */
  function FromUpstream(resp: Response, digest: string): Answer {
    if resp.Reply? && resp.status == 200 then Served(digest, resp.data) else Refused(404)
  }

  /** What there is under a digest: the cached blob, or else the upstream's answer. */
  function Content(blobs: map<string, Bytes>, resp: Response, digest: string): Answer {
    if HasBlob(blobs, digest) then Served(digest, blobs[HexOf(digest)]) else FromUpstream(resp, digest)
  }

  /** A request at a moment leaves the tags as they are, or enters what the upstream says of a tag that is not fresh. */
  ghost predicate TagStep(hash: Hash, upstream: Upstream, ttl: int, before: map<TagKey, TagEntry>, tags: map<TagKey, TagEntry>,
                          repo: string, ref: string, now: int) {
    || tags == before
    || (!IsFresh(ttl, before, repo, ref, now) && !IsDigestRef(ref) && BoundAt(hash, upstream, repo, ref, now).Some?
        && tags == before[TagFile(repo, ref) := TagEntry(BoundAt(hash, upstream, repo, ref, now).value, now)])
  }

  /** A tag has an entry younger than the TTL. */
  predicate IsFresh(ttl: int, tags: map<TagKey, TagEntry>, repo: string, ref: string, now: int) {
    TagFile(repo, ref) in tags && now - tags[TagFile(repo, ref)].updatedAt < ttl
  }

  /** The status of a request that is refused before the store or the upstream is asked. */
  function Rejection(denies: string -> bool, repo: string, ref: string, digestOnly: bool): Option<nat> {
    if repo == "" || ref == "" then Some(404)
    else if !ValidRepo(repo) then Some(400)
    else if (digestOnly || IsDigestRef(ref)) && !ValidDigest(ref) then Some(400)
    else if denies(repo) then Some(403)
    else None
  }

  lemma SafeIsValid(repo: string)
    ensures ValidRepo(repo) <==> !Unsafe(repo)
    ensures repo == "" ==> Unsafe(repo)
  {
    assert Strings.Split("", '/') == [""];
    assert Unsafe("") by { assert "" in Strings.Split("", '/'); }
  }

  lemma PermittedIsNotRejected(denies: string -> bool, repo: string, ref: string, digestOnly: bool)
    ensures Permitted(denies, repo, ref, digestOnly) <==> Rejection(denies, repo, ref, digestOnly).None?
  {
    SafeIsValid(repo);
    hide ValidDigest, Unsafe;
  }

  class Handler {
    const store: Layout
    const upstream: Upstream
    const denies: string -> bool
    const tagTTL: int

    /** The store is sound; its tags may come from anywhere, and the upstream may answer anything. */
    ghost predicate Valid()
      reads this, store
    {
      store.Valid()
    }

    /** The upstream can be trusted; nothing here verifies what it gives. */
    ghost predicate Trusted() {
      Honest(store.hash, upstream)
    }

    constructor (store: Layout, upstream: Upstream, denies: string -> bool)
      requires store.Valid()
      ensures Valid() && this.store == store && this.upstream == upstream && this.denies == denies && tagTTL == 300
    {
      this.store, this.upstream, this.denies, this.tagTTL := store, upstream, denies, 300;
    }

    method FetchManifestFromUpstream(repo: string, ref: string, now: int) returns (r: Option<(string, Bytes)>)
      requires Valid()
      ensures var resp := upstream(ManifestRequest(repo, ref), now);
              && (r.Some? <==> resp.Reply? && resp.status == 200)
              && (r.Some? ==> r.value == (if resp.declared == "" then store.hash(resp.data) else resp.declared, resp.data))
      ensures r.Some? <==> BoundAt(store.hash, upstream, repo, ref, now).Some?
      ensures r.Some? ==>
                && BoundAt(store.hash, upstream, repo, ref, now) == Some(r.value.0)
                && Gives(upstream(ManifestRequest(repo, ref), now), r.value.1)
      ensures r.Some? && Trusted() ==>
                && r.value.0 == store.hash(r.value.1)
                && (IsDigestRef(ref) ==> r.value.0 == ref)
                && (!IsDigestRef(ref) ==> PlainTag(ref))
    {
      var resp := upstream(ManifestRequest(repo, ref), now);
      if resp.NoReply? || resp.status != 200 {
        return None;
      }
      var digest := resp.declared;
      if digest == "" {
        digest := store.hash(resp.data);
      }
      return Some((digest, resp.data));
    }

    /**
     Resolves a tag: from a cached entry younger than the TTL, from the upstream, or, when the upstream fails, from a
     stale entry. A resolved tag is cached unless a write fails.
     */
    method ResolveTag(repo: string, ref: string, now: int) returns (digest: Option<string>)
      requires Valid() && !IsDigestRef(ref)
      modifies store
      ensures Valid() && Grows(old(store.blobs), store.blobs) && store.writes >= old(store.writes)
      ensures digest == Resolution(store.hash, upstream, tagTTL, old(store.tags), repo, ref, now)
      ensures var k, resp := TagFile(repo, ref), upstream(ManifestRequest(repo, ref), now);
              digest ==
              if k in old(store.tags) && now - old(store.tags)[k].updatedAt < tagTTL then Some(old(store.tags)[k].digest)
              else if resp.Reply? && resp.status == 200 && resp.declared != "" then Some(resp.declared)
              else if resp.Reply? && resp.status == 200 then Some(store.hash(resp.data))
              else if k in old(store.tags) then Some(old(store.tags)[k].digest)
              else None
      ensures TagStep(store.hash, upstream, tagTTL, old(store.tags), store.tags, repo, ref, now)
      ensures Trusted() && CanonicalTags(old(store.tags)) ==> CanonicalTags(store.tags) && (digest.Some? ==> ValidDigest(digest.value))
      ensures IsFresh(tagTTL, old(store.tags), repo, ref, now) || BoundAt(store.hash, upstream, repo, ref, now).None? ==>
                store.tags == old(store.tags) && store.blobs == old(store.blobs)
      ensures !IsFresh(tagTTL, old(store.tags), repo, ref, now) && BoundAt(store.hash, upstream, repo, ref, now).Some? ==>
                && (Trusted() ==> HasBlob(store.blobs, digest.value) || store.FaultSince(old(store.writes)))
                && (store.tags == old(store.tags)[TagFile(repo, ref) := TagEntry(digest.value, now)]
                    || (store.tags == old(store.tags) && store.FaultSince(old(store.writes))))
      ensures OnlyAdds(old(store.blobs), store.blobs, upstream(ManifestRequest(repo, ref), now))
    {
      hide Honest, Trusted, ContentAddressed, HasBlob, ValidDigest, PlainTag, CanonicalTags, OnlyAdds, HexOf;
      GrowsReflexive(store.blobs);
      NothingAdded(store.blobs, upstream(ManifestRequest(repo, ref), now));
      if CanonicalTags(store.tags) { CanonicalEntry(store.tags, TagFile(repo, ref)); }
      var cached := store.GetTagEntry(repo, ref);
      if cached.Some? && now - cached.value.updatedAt < tagTTL {
        return Some(cached.value.digest);
      }
      var fetched := FetchManifestFromUpstream(repo, ref, now);
      if fetched.None? {
        return if cached.Some? then Some(cached.value.digest) else None;
      }
      var (d, data) := fetched.value;
      if Trusted() && CanonicalTags(store.tags) { StaysCanonical(store.tags, TagFile(repo, ref), TagEntry(d, now)); }
      ghost var before := store.blobs;
      var put := store.PutBlob(data);
      OneAdded(before, store.blobs, HexOf(store.hash(data)), data, upstream(ManifestRequest(repo, ref), now));
      var ok := store.PutTag(repo, ref, d, now);
      return Some(d);
    }

    /** Serves a manifest by its digest from the store, or else from the upstream, caching it. */
    method ServeManifest(repo: string, digest: string, now: int) returns (answer: Answer)
      requires Valid()
      modifies store
      ensures Valid() && Grows(old(store.blobs), store.blobs) && store.tags == old(store.tags) && store.writes >= old(store.writes)
      ensures answer == Content(old(store.blobs), upstream(ManifestRequest(repo, digest), now), digest)
      ensures answer.Served? && ValidDigest(digest) && (Trusted() || HasBlob(old(store.blobs), digest)) ==>
                digest == store.hash(answer.data) && (HasBlob(store.blobs, digest) || store.FaultSince(old(store.writes)))
      ensures HasBlob(old(store.blobs), digest) || answer.Refused? ==> store.blobs == old(store.blobs)
    {
      hide Honest, Trusted, ContentAddressed;
      GrowsReflexive(store.blobs);
      if ValidDigest(digest) { HexOfDigest(digest); CanonicalIsDigestRef(digest); }
      var found := store.GetBlob(digest);
      if found.Some? {
        return Served(digest, found.value);
      }
      var fetched := FetchManifestFromUpstream(repo, digest, now);
      if fetched.None? {
        return Refused(404);
      }
      var put := store.PutBlob(fetched.value.1);
      return Served(digest, fetched.value.1);
    }

    /**
     GET of a manifest by tag or digest. The header names the digest asked for, or the tag's resolution; a cached body is
     the blob of that digest, any other the upstream's answer for it or for the tag.
     */
    method HandleManifest(repo: string, ref: string, now: int) returns (answer: Answer)
      requires Valid()
      modifies store
      ensures Valid() && Grows(old(store.blobs), store.blobs)
      ensures Rejection(denies, repo, ref, false).Some? ==>
                answer == Refused(Rejection(denies, repo, ref, false).value) && store.tags == old(store.tags) && store.blobs == old(store.blobs)
      ensures denies(repo) ==> answer.Refused? && store.tags == old(store.tags) && store.blobs == old(store.blobs)
      ensures Unsafe(repo) ==> answer.Refused? && store.tags == old(store.tags) && store.blobs == old(store.blobs)
      ensures denies(repo) && !Unsafe(repo) && ref != "" && ("sha256:" <= ref ==> ValidDigest(ref)) ==> answer == Refused(403)
      ensures repo != "" && ref != "" && (Unsafe(repo) || ("sha256:" <= ref && !ValidDigest(ref))) ==> answer == Refused(400)
      ensures Permitted(denies, repo, ref, false) && answer.Refused? ==> answer.status == 404
      ensures answer.Served? ==> IsResolved(old(store.tags), repo, ref, now, answer.digest)
      ensures answer.Served? && HasBlob(old(store.blobs), answer.digest) ==> answer.data == old(store.blobs)[HexOf(answer.digest)]
      ensures answer.Served? && !HasBlob(old(store.blobs), answer.digest) ==>
                || Gives(upstream(ManifestRequest(repo, ref), now), answer.data)
                || Gives(upstream(ManifestRequest(repo, answer.digest), now), answer.data)
      ensures answer.Served? && Trusted() && (IsDigestRef(ref) || CanonicalTags(old(store.tags))) ==>
                answer.digest == store.hash(answer.data) && (HasBlob(store.blobs, answer.digest) || store.FaultSince(old(store.writes)))
      ensures Rejection(denies, repo, ref, false).None? && IsDigestRef(ref) ==>
                answer == Content(old(store.blobs), upstream(ManifestRequest(repo, ref), now), ref)
      ensures Rejection(denies, repo, ref, false).None? && answer.Refused? ==> answer.status == 404
      ensures Rejection(denies, repo, ref, false).None? && !IsDigestRef(ref) && answer.Refused? ==>
                var d := Resolution(store.hash, upstream, tagTTL, old(store.tags), repo, ref, now);
                d.None? || (!HasBlob(old(store.blobs), d.value) && BoundAt(store.hash, upstream, repo, d.value, now).None?)
      ensures TagStep(store.hash, upstream, tagTTL, old(store.tags), store.tags, repo, ref, now)
      ensures Trusted() && CanonicalTags(old(store.tags)) ==> CanonicalTags(store.tags)
      ensures Down(upstream, now) ==> store.tags == old(store.tags) && store.blobs == old(store.blobs)
    {
      hide Honest, Trusted, ContentAddressed, Resolution, ValidDigest, ValidRepo, Unsafe, HasBlob, CanonicalTags, TagFile;
      GrowsReflexive(store.blobs);
      PermittedIsNotRejected(denies, repo, ref, false);
      SafeIsValid(repo);
      if repo == "" || ref == "" {
        return Refused(404);
      }
      if !ValidRepo(repo) {
        return Refused(400);
      }
      if IsDigestRef(ref) && !ValidDigest(ref) {
        return Refused(400);
      }
      if denies(repo) {
        return Refused(403);
      }
      var digest := ref;
      if !IsDigestRef(ref) {
        var resolved := ResolveTag(repo, ref, now);
        if resolved.None? {
          return Refused(404);
        }
        digest := resolved.value;
      }
      ghost var mid, writes := store.blobs, store.writes;
      answer := ServeManifest(repo, digest, now);
      GrowsTransitive(old(store.blobs), mid, store.blobs);
      if HasBlob(old(store.blobs), digest) {
        StillThere(old(store.blobs), mid, digest);
      } else if HasBlob(mid, digest) {
        AddedIsGiven(old(store.blobs), mid, upstream(ManifestRequest(repo, ref), now), digest);
      }
    }

    /** The digest asked for, or that of the tag. */
    ghost predicate IsResolved(tags: map<TagKey, TagEntry>, repo: string, ref: string, now: int, digest: string) {
      Some(digest) == if IsDigestRef(ref) then Some(ref) else Resolution(store.hash, upstream, tagTTL, tags, repo, ref, now)
    }

    /** GET of a blob by digest. */
    method HandleBlob(repo: string, digest: string, now: int) returns (answer: Answer)
      requires Valid()
      modifies store
      ensures Valid() && Grows(old(store.blobs), store.blobs) && store.tags == old(store.tags)
      ensures denies(repo) || Unsafe(repo) ==> answer.Refused? && store.blobs == old(store.blobs)
      ensures denies(repo) && !Unsafe(repo) && ValidDigest(digest) ==> answer == Refused(403)
      ensures repo != "" && digest != "" && (Unsafe(repo) || !ValidDigest(digest)) ==> answer == Refused(400)
      ensures Permitted(denies, repo, digest, true) ==>
                if HasBlob(old(store.blobs), digest) then answer == Served(digest, old(store.blobs)[HexOf(digest)])
                else var resp := upstream(BlobRequest(repo, digest), now);
                     if resp.Reply? && resp.status == 200 then answer == Served(digest, resp.data) else answer == Refused(404)
      ensures answer.Served? && (Trusted() || HasBlob(old(store.blobs), digest)) ==>
                digest == store.hash(answer.data) && (HasBlob(store.blobs, digest) || store.FaultSince(old(store.writes)))
      ensures answer == if Rejection(denies, repo, digest, true).Some? then Refused(Rejection(denies, repo, digest, true).value)
                        else Content(old(store.blobs), upstream(BlobRequest(repo, digest), now), digest)
      ensures answer.Refused? || Down(upstream, now) ==> store.blobs == old(store.blobs)
    {
      GrowsReflexive(store.blobs);
      PermittedIsNotRejected(denies, repo, digest, true);
      SafeIsValid(repo);
      hide Unsafe, ValidRepo;
      if repo == "" || digest == "" {
        return Refused(404);
      }
      if !ValidRepo(repo) || !ValidDigest(digest) {
        return Refused(400);
      }
      if denies(repo) {
        return Refused(403);
      }
      HexOfDigest(digest);
      var found := store.GetBlob(digest);
      if found.Some? {
        return Served(digest, found.value);
      }
      var resp := upstream(BlobRequest(repo, digest), now);
      if resp.NoReply? || resp.status != 200 {
        return Refused(404);
      }
      var put := store.PutBlob(resp.data);
      return Served(digest, resp.data);
    }
  }

  lemma StillThere(blobs: map<string, Bytes>, more: map<string, Bytes>, digest: string)
    requires Grows(blobs, more) && HasBlob(blobs, digest)
    ensures HasBlob(more, digest) && more[HexOf(digest)] == blobs[HexOf(digest)]
  {
  }

  /** Which digest a tag resolves to: fresh from the cache, else the upstream's word, else a stale entry. */
  function Resolution(hash: Hash, upstream: Upstream, ttl: int, tags: map<TagKey, TagEntry>,
                      repo: string, ref: string, now: int): Option<string> {
    var k := TagFile(repo, ref);
    if k in tags && now - tags[k].updatedAt < ttl then Some(tags[k].digest)
    else
      var bound := BoundAt(hash, upstream, repo, ref, now);
      if bound.Some? then bound
      else if k in tags then Some(tags[k].digest)
      else None
  }

  /** What a request adds to the cache is the upstream's answer. */
  ghost predicate OnlyAdds(before: map<string, Bytes>, blobs: map<string, Bytes>, resp: Response) {
    forall h :: h in blobs && h !in before ==> Gives(resp, blobs[h])
  }

  lemma NothingAdded(blobs: map<string, Bytes>, resp: Response)
    ensures OnlyAdds(blobs, blobs, resp)
  {
  }

  lemma OneAdded(before: map<string, Bytes>, blobs: map<string, Bytes>, h: string, data: Bytes, resp: Response)
    requires (blobs == before || blobs == before[h := data]) && Gives(resp, data)
    ensures OnlyAdds(before, blobs, resp)
  {
  }

  lemma AddedIsGiven(before: map<string, Bytes>, blobs: map<string, Bytes>, resp: Response, digest: string)
    requires OnlyAdds(before, blobs, resp) && HasBlob(blobs, digest) && !HasBlob(before, digest)
    ensures Gives(resp, blobs[HexOf(digest)])
  {
  }

  lemma CanonicalEntry(tags: map<TagKey, TagEntry>, k: TagKey)
    requires CanonicalTags(tags)
    ensures k in tags ==> ValidDigest(tags[k].digest)
  {
  }

  lemma StaysCanonical(tags: map<TagKey, TagEntry>, k: TagKey, e: TagEntry)
    requires CanonicalTags(tags) && ValidDigest(e.digest)
    ensures CanonicalTags(tags[k := e])
  {
  }

  lemma CanonicalIsDigestRef(digest: string)
    requires ValidDigest(digest)
    ensures IsDigestRef(digest) && SCHEME + HexOf(digest) == digest
  {
    HexOfDigest(digest);
  }

  /** With time going on, every request to an upstream that keeps to the tag grammar leaves the tags accounted for. */
  lemma StepAccounted(hash: Hash, upstream: Upstream, ttl: int, seeded: map<TagKey, TagEntry>, before: map<TagKey, TagEntry>,
                      tags: map<TagKey, TagEntry>, repo: string, ref: string, last: int, now: int)
    requires Accounted(hash, upstream, seeded, before, last) && last <= now
    requires TagStep(hash, upstream, ttl, before, tags, repo, ref, now) && Honest(hash, upstream)
    ensures Accounted(hash, upstream, seeded, tags, now)
  {
    if BoundAt(hash, upstream, repo, ref, now).Some? && !IsDigestRef(ref) {
      assert PlainTag(ref);
    }
    hide BoundAt, IsFresh, SanitizeTag, Honest, PlainTag;
    PlainTagIsItsFile(ref);
  }

  /**
   A tag's answer is recent: the upstream's binding now, one the upstream gave less than the TTL ago, or, only when the
   upstream fails just now, an earlier one. Where the store was seeded it may also be the seeded one, within the TTL or
   when the upstream fails. Cached bindings are those of the tag's file name.
   */
  ghost predicate Recent(hash: Hash, upstream: Upstream, ttl: int, seeded: map<TagKey, TagEntry>,
                         repo: string, ref: string, now: int, digest: string) {
    var name, k := SanitizeTag(ref), TagFile(repo, ref);
    var failed := BoundAt(hash, upstream, repo, ref, now).None?;
    || Some(digest) == BoundAt(hash, upstream, repo, ref, now)
    || (exists t :: t <= now && now - t < ttl && Some(digest) == BoundAt(hash, upstream, repo, name, t))
    || (failed && exists t :: t <= now && Some(digest) == BoundAt(hash, upstream, repo, name, t))
    || (k in seeded && digest == seeded[k].digest && (now - seeded[k].updatedAt < ttl || failed))
  }

  lemma TagAnswersAreRecent(hash: Hash, upstream: Upstream, ttl: int, seeded: map<TagKey, TagEntry>, tags: map<TagKey, TagEntry>,
                            repo: string, ref: string, now: int)
    requires Accounted(hash, upstream, seeded, tags, now)
    ensures var d := Resolution(hash, upstream, ttl, tags, repo, ref, now);
            d.Some? ==> Recent(hash, upstream, ttl, seeded, repo, ref, now, d.value)
    ensures PlainTag(ref) ==> SanitizeTag(ref) == ref
  {
    hide BoundAt, SanitizeTag;
    PlainTagIsItsFile(ref);
    var k := TagFile(repo, ref);
    if k in tags && !(k in seeded && tags[k] == seeded[k]) {
      var t := tags[k].updatedAt;
      assert t <= now && BoundAt(hash, upstream, k.0, k.1, t) == Some(tags[k].digest);
    }
  }

  /** A cached blob is served under its own digest exactly if the tag names it by a canonical digest. */
  lemma HeaderIsDigestIffCanonical(hash: Hash, blobs: map<string, Bytes>, digest: string)
    requires ContentAddressed(hash, blobs) && HasBlob(blobs, digest)
    ensures hash(blobs[HexOf(digest)]) == digest <==> ValidDigest(digest)
  {
    if ValidDigest(digest) {
      HexOfDigest(digest);
    } else {
      DigestOfHex(HexOf(digest));
    }
  }

  /** Whatever is served for a digest is what the upstream has for it, unless two contents share the digest. */
  lemma ServedIsUpstreams(hash: Hash, upstream: Upstream, served: Bytes, q: Request, t: int)
    requires Honest(hash, upstream) && upstream(q, t).Reply? && upstream(q, t).status == 200
    requires q == BlobRequest(q.repo, hash(served)) || (q == ManifestRequest(q.repo, hash(served)) && IsDigestRef(hash(served)))
    requires CollisionFree(hash, iset{served, upstream(q, t).data})
    ensures served == upstream(q, t).data
  {
    var S := iset{served, upstream(q, t).data};
    assert served in S && upstream(q, t).data in S;
    assert hash(upstream(q, t).data) == hash(served);
  }
}
