/** Exporting artifacts, with everything they refer to, into a bundle. */
module AirgapExport {
  import opened Wrappers
  import opened Digests
  import opened OCILayout
  import opened Registry
  import Strings

  /** Bounds the recursion into nested indexes. */
  const MAX_MANIFEST_DEPTH: nat := 10

  datatype BundleEntry = BundleEntry(ref: string, digest: string)

  /** A bundle: blob files by name, and the artifacts they belong to. */
  datatype Bundle = Bundle(blobs: map<string, Bytes>, artifacts: seq<BundleEntry>)

  datatype ExportError =
    | TooDeep
    | UpstreamFailed
    | DigestMismatch
    | InvalidDigest(digest: string)
    | NotAManifest
    | WriteFailed
    | NothingToExport

  /** The position of the last colon that has no `@` behind it, as both sides of the air gap split a reference. */
  function TagColon(ref: string): (idx: int)
    ensures -1 <= idx < |ref|
    ensures idx >= 0 ==> ref[idx] == ':' && ':' !in ref[idx + 1..] && '@' !in ref[idx..]
  {
    var idx := Strings.LastIndex(ref, ':');
    Strings.LastIndexFinds(ref, ':');
    if idx >= 0 && '@' !in ref[idx..] then idx else -1
  }

  /** Repository and tag to fetch; a reference without a tag means the latest. */
  function ExportTarget(ref: string): (string, string) {
    var idx := TagColon(ref);
    if idx >= 0 then (ref[..idx], ref[idx + 1..]) else (ref, "latest")
  }

  /** A tagged reference is split into repository and tag, if the tag has neither ':' nor '@'. */
  lemma TagRefIsSplit(repo: string, tag: string)
    ensures ExportTarget(repo + ":" + tag) == (repo, tag) <==> ':' !in tag && '@' !in tag
  {
    var ref := repo + [':'] + tag;
    assert repo + ":" + tag == ref && ref[|repo| + 1..] == tag && ref[..|repo|] == repo && ref[|repo|..] == [':'] + tag;
    if ':' !in tag {
      Strings.LastIndexIs(repo, ':', tag);
    }
    if ExportTarget(ref) == (repo, tag) && TagColon(ref) >= 0 {
      TailOf(ref, TagColon(ref));
    }
  }

  lemma TailOf(ref: string, idx: nat)
    requires idx < |ref|
    ensures forall c :: c in ref[idx + 1..] ==> c in ref[idx..]
  {
    assert ref[idx..] == [ref[idx]] + ref[idx + 1..];
  }

  lemma BareRefIsLatest(ref: string)
    requires ':' !in ref
    ensures ExportTarget(ref) == (ref, "latest")
  {
  }

  /** A reference by digest is never split before its '@': the last colon is found within the digest. */
  lemma DigestRefIsMissplit(name: string, h: string)
    requires ':' !in h && '@' !in h
    ensures ExportTarget(name + "@" + SCHEME + h) == (name + "@sha256", h)
  {
    assert SCHEME == "sha256" + ":";
    assert name + "@" + SCHEME + h == (name + "@sha256") + ":" + h;
    TagRefIsSplit(name + "@sha256", h);
  }

  /** A declared digest counts only when it is well-formed and matches; a malformed one is ignored. */
  function ResolveDigest(hash: Hash, declared: string, data: Bytes): Option<string> {
    if declared == "" || !ValidDigest(declared) then Some(hash(data))
    else if declared != hash(data) then None
    else Some(declared)
  }

  /** The answer is a manifest that passes the digest checks. */
  predicate GoodManifest(env: Env, reference: string, resp: Response) {
    && resp.Reply? && resp.status == 200
    && (resp.declared == "" || !ValidDigest(resp.declared) || resp.declared == env.hash(resp.data))
    && (ValidDigest(reference) ==> reference == env.hash(resp.data))
  }

  predicate GoodBlob(env: Env, d: string, resp: Response) {
    resp.Reply? && resp.status == 200 && env.hash(resp.data) == d
  }

  /** The config, if there is one, and the layers. */
  function Parts(m: Manifest): seq<string> {
    (if m.config != "" then [m.config] else []) + m.layers
  }

  ghost predicate AvailableBlob(env: Env, upstream: Upstream, repo: string, d: string) {
    ValidDigest(d) && forall t: nat :: GoodBlob(env, d, upstream(BlobRequest(repo, d), t))
  }

  /** At any moment the upstream has the manifest and, within the depth bound, all that it refers to. */
  ghost predicate Available(env: Env, upstream: Upstream, repo: string, reference: string, depth: nat)
    decreases 11 - depth, 1
  {
    depth <= 10 && forall t: nat :: AvailableAt(env, upstream, repo, reference, depth, t)
  }

  ghost predicate AvailableAt(env: Env, upstream: Upstream, repo: string, reference: string, depth: nat, t: nat)
    requires depth <= 10
    decreases 11 - depth, 0
  {
    var resp := upstream(ManifestRequest(repo, reference), t);
    && GoodManifest(env, reference, resp) && env.parse(resp.data).Some?
    && var m := env.parse(resp.data).value;
    if m.manifests != [] then
      forall c :: IsSelected(env, m.manifests, c) ==> ValidDigest(c.digest) && Available(env, upstream, repo, c.digest, depth + 1)
    else
      forall d :: d in Parts(m) ==> AvailableBlob(env, upstream, repo, d)
  }

  ghost predicate AvailableArtifact(env: Env, upstream: Upstream, ref: string) {
    Available(env, upstream, ExportTarget(ref).0, ExportTarget(ref).1, 0)
  }

  /** One of the answers from the given moments was a good manifest of that digest for the reference, and was received. */
  ghost predicate GivenFor(env: Env, upstream: Upstream, ref: string, digest: string, received: iset<Bytes>, from: nat, to: nat) {
    exists t :: from <= t < to && AnswerIs(env, upstream, ref, digest, t) && AnswerTo(upstream, ref, t).data in received
  }

  /** What the upstream answers at a moment to the request for a reference. */
  function AnswerTo(upstream: Upstream, ref: string, t: int): (resp: Response) {
    upstream(ManifestRequest(ExportTarget(ref).0, ExportTarget(ref).1), t)
  }

  predicate AnswerIs(env: Env, upstream: Upstream, ref: string, digest: string, t: int) {
    var resp := AnswerTo(upstream, ref, t);
    GoodManifest(env, ExportTarget(ref).1, resp) && digest == env.hash(resp.data)
  }

  class Exporter {
    const env: Env
    const upstream: Upstream
    const diskFails: nat -> bool
    var requests: nat
    var writes: nat
    var blobs: map<string, Bytes>
    var seen: set<string>
    /** The verified contents that were received so far. */
    ghost var received: iset<Bytes>

    /** The staging directory is content-addressed and holds received contents, and what was seen is in it. */
    ghost predicate Valid()
      reads this
    {
      && IsHash(env.hash) && ContentAddressed(env.hash, blobs)
      && (forall h :: h in blobs ==> blobs[h] in received)
      && GivenBefore(upstream, received, requests)
      && forall d :: d in seen ==> ValidDigest(d) && HexOf(d) in blobs
    }

    /** No two of the contents received so far share a digest. */
    ghost predicate NoCollision()
      reads this`received
    {
      CollisionFree(env.hash, received)
    }

    /** Of the writes done from the given one on, one failed. */
    ghost predicate FaultSince(start: nat)
      reads this`writes
    {
      exists n :: start <= n < writes && diskFails(n)
    }

    constructor (env: Env, upstream: Upstream, diskFails: nat -> bool)
      requires IsHash(env.hash)
      ensures Valid() && blobs == map[] && received == iset{} && this.env == env && this.upstream == upstream
    {
      this.env, this.upstream, this.diskFails := env, upstream, diskFails;
      requests, writes, blobs, seen := 0, 0, map[], {};
      received := iset{};
    }

    method Ask(q: Request) returns (resp: Response)
      modifies this`requests
      ensures requests == old(requests) + 1 && resp == upstream(q, old(requests))
    {
      resp := upstream(q, requests);
      requests := requests + 1;
    }

    /** The bytes and the verified digest of a manifest; by digest, exactly the content asked for. */
    method FetchManifest(repo: string, reference: string) returns (r: Result<(Bytes, string), ExportError>)
      requires Valid()
      modifies this`requests, this`received
      ensures Valid() && requests == old(requests) + 1
      ensures var resp := upstream(ManifestRequest(repo, reference), old(requests));
              r.Success? <==> GoodManifest(env, reference, resp)
      ensures var resp := upstream(ManifestRequest(repo, reference), old(requests));
              (resp.NoReply? || resp.status != 200 || (ValidDigest(resp.declared) && resp.declared != env.hash(resp.data))
               || (ValidDigest(reference) && reference != env.hash(resp.data))) ==> r.Failure?
      ensures r.Success? ==>
                && r.value == (upstream(ManifestRequest(repo, reference), old(requests)).data, env.hash(r.value.0))
                && received == old(received) + iset{r.value.0}
      ensures r.Failure? ==> received == old(received)
    {
      var resp := Ask(ManifestRequest(repo, reference));
      if resp.NoReply? || resp.status != 200 {
        return Failure(UpstreamFailed);
      }
      var digest := ResolveDigest(env.hash, resp.declared, resp.data);
      if digest.None? {
        return Failure(DigestMismatch);
      }
      if ValidDigest(reference) && reference != digest.value {
        return Failure(DigestMismatch);
      }
      ReceivedNext(upstream, received, requests, ManifestRequest(repo, reference), resp.data);
      received := received + iset{resp.data};
      return Success((resp.data, digest.value));
    }

    /** Writes a blob once per artifact. A failed write leaves arbitrary bytes behind, and fails the export. */
    method WriteBlob(d: string, data: Bytes) returns (ok: bool)
      requires Valid() && d == env.hash(data) && data in received
      modifies this`writes, this`blobs, this`seen
      ensures ok ==> Valid() && HasBlob(blobs, d) && old(blobs).Keys <= blobs.Keys
      ensures ok && NoCollision() ==> Grows(old(blobs), blobs) && blobs[HexOf(d)] == data
      ensures writes >= old(writes) && (!ok ==> FaultSince(old(writes)))
    {
      hide ContentAddressed, CollisionFree, GivenBefore, HasBlob, Grows;
      GrowsReflexive(blobs);
      SameDigest(env.hash, blobs, received, d, data);
      if d in seen {
        return true;
      }
      writes := writes + 1;
      assert diskFails(writes - 1) ==> FaultSince(old(writes));
      if diskFails(writes - 1) {
        var junk: Bytes := *;
        blobs := blobs[HexOf(d) := junk];
        return false;
      }
      blobs := blobs[HexOf(d) := data];
      seen := seen + {d};
      return true;
    }

    method FetchAndStoreBlob(repo: string, d: string) returns (err: Option<ExportError>)
      requires Valid()
      modifies this`requests, this`writes, this`blobs, this`seen, this`received
      ensures err.None? ==> Valid() && Stored(env, blobs, Data(d)) && old(blobs).Keys <= blobs.Keys
      ensures err.None? && NoCollision() ==> Grows(old(blobs), blobs)
      ensures err.Some? ==> !AvailableBlob(env, upstream, repo, d) || FaultSince(old(writes))
      ensures writes >= old(writes) && requests >= old(requests) && received >= old(received)
    {
      if !ValidDigest(d) {
        return Some(InvalidDigest(d));
      }
      HexOfDigest(d);
      if d in seen {
        return None;
      }
      var resp := Ask(BlobRequest(repo, d));
      if resp.NoReply? || resp.status != 200 {
        return Some(UpstreamFailed);
      }
      if env.hash(resp.data) != d {
        return Some(DigestMismatch);
      }
      ReceivedNext(upstream, received, requests, BlobRequest(repo, d), resp.data);
      received := received + iset{resp.data};
      var ok := WriteBlob(d, resp.data);
      return if ok then None else Some(WriteFailed);
    }

    method FetchAndStoreBlobs(repo: string, descs: seq<string>) returns (err: Option<ExportError>)
      requires Valid()
      modifies this`requests, this`writes, this`blobs, this`seen, this`received
      ensures err.None? ==> Valid() && old(blobs).Keys <= blobs.Keys
      ensures err.None? && NoCollision() ==> Grows(old(blobs), blobs)
      ensures err.None? ==> forall k :: 0 <= k < |descs| ==> Stored(env, blobs, Data(descs[k]))
      ensures err.Some? ==> (exists k :: 0 <= k < |descs| && !AvailableBlob(env, upstream, repo, descs[k])) || FaultSince(old(writes))
      ensures writes >= old(writes) && requests >= old(requests) && received >= old(received)
    {
      hide AvailableBlob, Stored, ContentAddressed, CollisionFree, Grows;
      GrowsReflexive(blobs);
      for i := 0 to |descs|
        invariant Valid() && old(blobs).Keys <= blobs.Keys
        invariant NoCollision() ==> Grows(old(blobs), blobs)
        invariant writes >= old(writes) && requests >= old(requests) && received >= old(received)
        invariant forall k :: 0 <= k < i ==> Stored(env, blobs, Data(descs[k]))
      {
        ghost var before, contents := blobs, received;
        err := FetchAndStoreBlob(repo, descs[i]);
        if err.Some? {
          return;
        }
        if NoCollision() {
          FewerContents(env.hash, contents, received);
          GrowsTransitive(old(blobs), before, blobs);
        }
        forall k | 0 <= k < i ensures Stored(env, blobs, Data(descs[k])) {
          StillStored(env, before, blobs, descs[k]);
        }
      }
      err := None;
    }

    /** The entries for the host platform, or all entries when all are wanted or none matches. */
    method SelectPlatforms(manifests: seq<Descriptor>) returns (selected: seq<Descriptor>)
      ensures forall d :: d in selected <==> IsSelected(env, manifests, d)
      ensures manifests != [] ==> selected != []
      ensures env.allPlatforms ==> selected == manifests
      ensures !env.allPlatforms && IsPlatform(env.host) && (exists d :: d in manifests && d.platform == Some(env.host)) ==>
                forall d :: d in selected <==> d in manifests && d.platform == Some(env.host)
      ensures IsPlatform(env.host) && (forall d :: d in manifests ==> d.platform != Some(env.host)) ==> selected == manifests
    {
      if IsPlatform(env.host) {
        forall d | d in manifests ensures MatchesHost(d, env.host) <==> d.platform == Some(env.host) {
          HostsEntry(d, env.host);
        }
      }
      if env.allPlatforms {
        return manifests;
      }
      hide MatchesHost, IsPlatform;
      var matched: seq<Descriptor> := [];
      for i := 0 to |manifests|
        invariant forall d :: d in matched <==> d in manifests[..i] && MatchesHost(d, env.host)
      {
        assert manifests[..i + 1] == manifests[..i] + [manifests[i]];
        if MatchesHost(manifests[i], env.host) {
          matched := matched + [manifests[i]];
        }
      }
      assert manifests[..|manifests|] == manifests;
      if |matched| == 0 {
        assert forall d :: d in manifests ==> !MatchesHost(d, env.host);
        return manifests;
      }
      assert matched[0] in matched;
      return matched;
    }

    /**
     Fetches a manifest and everything it refers to; when all of it is available, only a disk fault can prevent that.
     The depth bound makes this end on any upstream, even one that answers with ever deeper indexes.
     */
    method ExportManifestTree(repo: string, reference: string, depth: nat) returns (r: Result<string, ExportError>)
      requires Valid()
      modifies this`requests, this`writes, this`blobs, this`seen, this`received
      ensures depth > 10 ==> r == Failure(TooDeep)
      ensures r.Success? ==> Valid() && HasBlob(blobs, r.value) && old(blobs).Keys <= blobs.Keys
      ensures r.Success? && NoCollision() ==> Grows(old(blobs), blobs) && Complete(env, blobs, Image(r.value))
      ensures r.Success? ==>
                var resp := upstream(ManifestRequest(repo, reference), old(requests));
                && GoodManifest(env, reference, resp) && r.value == env.hash(resp.data)
                && resp.data in received && requests > old(requests)
      ensures r.Success? && ValidDigest(reference) ==> r.value == reference
      ensures r.Failure? ==> !Available(env, upstream, repo, reference, depth) || FaultSince(old(writes))
      ensures writes >= old(writes) && requests >= old(requests) && received >= old(received)
      decreases MAX_MANIFEST_DEPTH + 1 - depth, 0
    {
      hide ValidDigest, HexOf, HasBlob, Parts, GivenBefore;
      hide Complete, Stored, ContentAddressed, CollisionFree, Grows, Available, AvailableBlob, IsSelected;
      ghost var now := requests;
      ghost var good := Available(env, upstream, repo, reference, depth);
      if good { AvailableNow(env, upstream, repo, reference, depth, now); }
      if depth > MAX_MANIFEST_DEPTH {
        return Failure(TooDeep);
      }
      var fetched := FetchManifest(repo, reference);
      if fetched.Failure? {
        return Failure(fetched.error);
      }
      var (data, d) := fetched.value;
      var ok := WriteBlob(d, data);
      if !ok {
        return Failure(WriteFailed);
      }
      var parsed := env.parse(data);
      if parsed.None? {
        return Failure(NotAManifest);
      }
      var m := parsed.value;
      ghost var base, contents := blobs, received;
      if |m.manifests| > 0 {
        var children := SelectPlatforms(m.manifests);
        var bad := ExportChildren(repo, children, depth + 1);
        if bad.Some? {
          return Failure(bad.value);
        }
        StaysThere(base, blobs, d);
        if NoCollision() {
          FewerContents(env.hash, contents, received);
          GrowsTransitive(old(blobs), base, blobs);
          StaysStored(base, blobs, d);
          IndexComplete(env, blobs, d, data, children);
        }
        return Success(d);
      }
      var descs := Parts(m);
      var err := FetchAndStoreBlobs(repo, descs);
      if err.Some? {
        return Failure(err.value);
      }
      StaysThere(base, blobs, d);
      if NoCollision() {
        FewerContents(env.hash, contents, received);
        GrowsTransitive(old(blobs), base, blobs);
        StaysStored(base, blobs, d);
        ImageComplete(env, blobs, d, data, descs);
      }
      return Success(d);
    }

    /** Fetches the selected entries of an index, each with everything it refers to. */
    method ExportChildren(repo: string, children: seq<Descriptor>, depth: nat) returns (err: Option<ExportError>)
      requires Valid() && depth <= MAX_MANIFEST_DEPTH + 1
      modifies this`requests, this`writes, this`blobs, this`seen, this`received
      ensures err.None? ==> Valid() && old(blobs).Keys <= blobs.Keys
      ensures err.None? && NoCollision() ==>
                && Grows(old(blobs), blobs)
                && forall k :: 0 <= k < |children| ==> Complete(env, blobs, Image(children[k].digest))
      ensures err.Some? ==>
                || FaultSince(old(writes))
                || exists c :: c in children && !(ValidDigest(c.digest) && Available(env, upstream, repo, c.digest, depth))
      ensures writes >= old(writes) && requests >= old(requests) && received >= old(received)
      decreases MAX_MANIFEST_DEPTH + 1 - depth, 1
    {
      hide Complete, Stored, ContentAddressed, CollisionFree, Grows, Available, ValidDigest, GoodManifest, GivenBefore;
      GrowsReflexive(blobs);
      for i := 0 to |children|
        invariant Valid() && old(blobs).Keys <= blobs.Keys
        invariant NoCollision() ==>
                    && Grows(old(blobs), blobs)
                    && forall k :: 0 <= k < i ==> Complete(env, blobs, Image(children[k].digest))
        invariant writes >= old(writes) && requests >= old(requests) && received >= old(received)
      {
        assert children[i] in children;
        if !ValidDigest(children[i].digest) {
          return Some(InvalidDigest(children[i].digest));
        }
        ghost var before, contents := blobs, received;
        var child := ExportManifestTree(repo, children[i].digest, depth);
        if child.Failure? {
          return Some(child.error);
        }
        if NoCollision() {
          FewerContents(env.hash, contents, received);
          GrowsTransitive(old(blobs), before, blobs);
          forall k | 0 <= k < i ensures Complete(env, blobs, Image(children[k].digest)) {
            CompleteGrows(env, before, blobs, Image(children[k].digest));
          }
        }
      }
      err := None;
    }

    method ExportArtifact(ref: string) returns (r: Result<BundleEntry, ExportError>)
      requires Valid()
      modifies this`requests, this`writes, this`blobs, this`seen, this`received
      ensures r.Success? ==> Valid() && old(blobs).Keys <= blobs.Keys
      ensures r.Success? ==> r.value.ref == ref && ValidDigest(r.value.digest) && HasBlob(blobs, r.value.digest)
      ensures r.Success? ==> GivenFor(env, upstream, ref, r.value.digest, received, old(requests), requests)
      ensures r.Success? && NoCollision() ==> Grows(old(blobs), blobs) && Complete(env, blobs, Image(r.value.digest))
      ensures r.Failure? ==> !AvailableArtifact(env, upstream, ref) || FaultSince(old(writes))
      ensures writes >= old(writes) && requests >= old(requests) && received >= old(received)
    {
      var (repo, tag) := ExportTarget(ref);
      seen := {};
      ghost var now := requests;
      var top := ExportManifestTree(repo, tag, 0);
      assert top.Success? ==> AnswerIs(env, upstream, ref, top.value, now);
      if top.Failure? {
        return Failure(top.error);
      }
      return Success(BundleEntry(ref, top.value));
    }

    /**
     One entry per artifact, in order, each with the digest of what the upstream gave for it during the run. Without a
     collision among the contents received, the bundle holds everything its artifacts refer to.
     */
    method Export(artifacts: seq<string>) returns (r: Result<Bundle, ExportError>)
      requires Valid() && blobs == map[]
      modifies this`requests, this`writes, this`blobs, this`seen, this`received
      ensures artifacts == [] ==> r == Failure(NothingToExport)
      ensures r.Success? ==> Valid() && r.value.blobs == blobs && Loadable(env, r.value) && |r.value.artifacts| == |artifacts|
      ensures r.Success? && NoCollision() ==> SelfContained(env, r.value)
      ensures r.Success? ==>
                forall k :: 0 <= k < |artifacts| ==>
                  && r.value.artifacts[k].ref == artifacts[k]
                  && GivenFor(env, upstream, artifacts[k], r.value.artifacts[k].digest, received, old(requests), requests)
      ensures r.Failure? ==>
                || artifacts == [] || FaultSince(old(writes))
                || exists ref :: ref in artifacts && !AvailableArtifact(env, upstream, ref)
      ensures writes >= old(writes) && requests >= old(requests) && received >= old(received)
    {
      if |artifacts| == 0 {
        return Failure(NothingToExport);
      }
      hide Entries, AllComplete, AvailableArtifact, ContentAddressed, CollisionFree, Grows, GivenBefore, HasBlob;
      var entries: seq<BundleEntry> := [];
      NoEntries(env, upstream, blobs, artifacts, received, requests);
      for i := 0 to |artifacts|
        invariant Valid() && writes >= old(writes) && requests >= old(requests) && received >= old(received)
        invariant Entries(env, upstream, blobs, artifacts[..i], entries, received, old(requests), requests)
        invariant NoCollision() ==> AllComplete(env, blobs, entries)
      {
        ghost var before, contents, now := blobs, received, requests;
        var entry := ExportArtifact(artifacts[i]);
        assert artifacts[i] in artifacts;
        if entry.Failure? {
          return Failure(entry.error);
        }
        EntryAdded(env, upstream, before, blobs, artifacts, i, entries, entry.value, contents, received, old(requests), now, requests);
        if NoCollision() {
          FewerContents(env.hash, contents, received);
          CompleteAdded(env, before, blobs, entries, entry.value);
        }
        entries := entries + [entry.value];
      }
      assert artifacts[..|artifacts|] == artifacts;
      EntriesMean(env, upstream, blobs, artifacts, entries, received, old(requests), requests);
      return Success(Bundle(blobs, entries));
    }
  }

  /** A content put under its digest replaces nothing but, where two contents collide, another of that digest. */
  lemma SameDigest(hash: Hash, blobs: map<string, Bytes>, received: iset<Bytes>, d: string, data: Bytes)
    requires IsHash(hash) && ContentAddressed(hash, blobs) && d == hash(data) && data in received
    requires forall h :: h in blobs ==> blobs[h] in received
    ensures HexOf(d) in blobs ==> HasBlob(blobs, d) && (CollisionFree(hash, received) ==> blobs[HexOf(d)] == data)
    ensures var more := blobs[HexOf(d) := data];
            HasBlob(more, d) && ContentAddressed(hash, more) && (CollisionFree(hash, received) ==> Grows(blobs, more))
  {
    HexOfDigest(d);
    assert HexOf(d) in blobs ==> hash(blobs[HexOf(d)]) == hash(data);
  }

  lemma ReceivedNext(upstream: Upstream, contents: iset<Bytes>, n: nat, q: Request, data: Bytes)
    requires n > 0 && GivenBefore(upstream, contents, n - 1) && Gives(upstream(q, n - 1), data)
    ensures GivenBefore(upstream, contents + iset{data}, n)
  {
  }

  /** Fewer contents collide less. */
  lemma FewerContents(hash: Hash, fewer: iset<Bytes>, more: iset<Bytes>)
    requires fewer <= more && CollisionFree(hash, more)
    ensures CollisionFree(hash, fewer)
  {
  }

  /** An export from a registry whose refusals echo what was asked for collides no more than one from its contents. */
  lemma EchoingDoesNotCollide(hash: Hash, upstream: Upstream, received: iset<Bytes>, n: nat)
    requires CollisionFree(hash, ServedContents(upstream)) && GivenBefore(Echoing(upstream), received, n)
    ensures CollisionFree(hash, received)
  {
    ReceivedIsServed(Echoing(upstream), received, n);
    RefusalsGiveNothing(upstream);
    FewerContents(hash, received, ServedContents(upstream));
  }

  /** It has the same artifacts available. */
  lemma EchoingIsAvailable(env: Env, upstream: Upstream, ref: string)
    ensures AvailableArtifact(env, Echoing(upstream), ref) <==> AvailableArtifact(env, upstream, ref)
  {
    SameAvailable(env, upstream, ExportTarget(ref).0, ExportTarget(ref).1, 0);
  }

  lemma {:induction false} SameAvailable(env: Env, upstream: Upstream, repo: string, reference: string, depth: nat)
    ensures Available(env, Echoing(upstream), repo, reference, depth) <==> Available(env, upstream, repo, reference, depth)
    decreases MAX_MANIFEST_DEPTH + 1 - depth
  {
    if depth <= MAX_MANIFEST_DEPTH {
      forall t: nat
        ensures AvailableAt(env, Echoing(upstream), repo, reference, depth, t) <==> AvailableAt(env, upstream, repo, reference, depth, t)
      {
        forall d ensures AvailableBlob(env, Echoing(upstream), repo, d) <==> AvailableBlob(env, upstream, repo, d) {
          SameBlob(env, upstream, repo, d);
        }
        forall c: Descriptor
          ensures Available(env, Echoing(upstream), repo, c.digest, depth + 1) <==> Available(env, upstream, repo, c.digest, depth + 1)
        {
          SameAvailable(env, upstream, repo, c.digest, depth + 1);
        }
      }
    }
  }

  lemma SameBlob(env: Env, upstream: Upstream, repo: string, d: string)
    ensures AvailableBlob(env, Echoing(upstream), repo, d) <==> AvailableBlob(env, upstream, repo, d)
  {
    assert forall t: nat :: GoodBlob(env, d, Echoing(upstream)(BlobRequest(repo, d), t)) <==> GoodBlob(env, d, upstream(BlobRequest(repo, d), t));
  }

  /** One entry for each artifact, with the digest the upstream gave for it during the run, and its manifest is there. */
  ghost predicate Entries(env: Env, upstream: Upstream, blobs: map<string, Bytes>, artifacts: seq<string>, entries: seq<BundleEntry>,
                          received: iset<Bytes>, from: nat, to: nat) {
    |entries| == |artifacts| &&
    forall k :: 0 <= k < |entries| ==>
      && entries[k].ref == artifacts[k] && ValidDigest(entries[k].digest) && HasBlob(blobs, entries[k].digest)
      && GivenFor(env, upstream, artifacts[k], entries[k].digest, received, from, to)
  }

  ghost predicate AllComplete(env: Env, blobs: map<string, Bytes>, entries: seq<BundleEntry>) {
    forall k :: 0 <= k < |entries| ==> Complete(env, blobs, Image(entries[k].digest))
  }

  lemma NoEntries(env: Env, upstream: Upstream, blobs: map<string, Bytes>, artifacts: seq<string>, received: iset<Bytes>, now: nat)
    ensures Entries(env, upstream, blobs, artifacts[..0], [], received, now, now) && AllComplete(env, blobs, [])
  {
  }

  lemma EntryAdded(env: Env, upstream: Upstream, before: map<string, Bytes>, blobs: map<string, Bytes>, artifacts: seq<string>,
                   i: nat, entries: seq<BundleEntry>, entry: BundleEntry,
                   contents: iset<Bytes>, received: iset<Bytes>, from: nat, now: nat, to: nat)
    requires i < |artifacts| && before.Keys <= blobs.Keys && contents <= received && from <= now <= to
    requires Entries(env, upstream, before, artifacts[..i], entries, contents, from, now)
    requires entry.ref == artifacts[i] && ValidDigest(entry.digest) && HasBlob(blobs, entry.digest)
    requires GivenFor(env, upstream, artifacts[i], entry.digest, received, now, to)
    ensures Entries(env, upstream, blobs, artifacts[..i + 1], entries + [entry], received, from, to)
  {
    hide AnswerIs, AnswerTo;
  }

  lemma CompleteAdded(env: Env, before: map<string, Bytes>, blobs: map<string, Bytes>, entries: seq<BundleEntry>, entry: BundleEntry)
    requires Grows(before, blobs) && AllComplete(env, before, entries) && Complete(env, blobs, Image(entry.digest))
    ensures AllComplete(env, blobs, entries + [entry])
  {
    hide Complete, Grows;
    forall k | 0 <= k < |entries| ensures Complete(env, blobs, Image(entries[k].digest)) {
      CompleteGrows(env, before, blobs, Image(entries[k].digest));
    }
  }

  lemma EntriesMean(env: Env, upstream: Upstream, blobs: map<string, Bytes>, artifacts: seq<string>, entries: seq<BundleEntry>,
                    received: iset<Bytes>, from: nat, to: nat)
    requires Entries(env, upstream, blobs, artifacts, entries, received, from, to)
    requires IsHash(env.hash) && ContentAddressed(env.hash, blobs)
    ensures Loadable(env, Bundle(blobs, entries)) && |entries| == |artifacts|
    ensures AllComplete(env, blobs, entries) ==> SelfContained(env, Bundle(blobs, entries))
    ensures forall k :: 0 <= k < |artifacts| ==>
              entries[k].ref == artifacts[k] && GivenFor(env, upstream, artifacts[k], entries[k].digest, received, from, to)
  {
  }

  lemma StaysThere(blobs: map<string, Bytes>, more: map<string, Bytes>, d: string)
    requires blobs.Keys <= more.Keys && HasBlob(blobs, d)
    ensures HasBlob(more, d)
  {
  }

  /** A blob stays stored while its file holds something of that digest. */
  lemma StillStored(env: Env, blobs: map<string, Bytes>, more: map<string, Bytes>, d: string)
    requires blobs.Keys <= more.Keys && ContentAddressed(env.hash, more) && Stored(env, blobs, Data(d))
    ensures Stored(env, more, Data(d))
  {
    HexOfDigest(d);
  }

  lemma StaysStored(blobs: map<string, Bytes>, more: map<string, Bytes>, d: string)
    requires Grows(blobs, more) && HasBlob(blobs, d)
    ensures HasBlob(more, d) && HexOf(d) in blobs && HexOf(d) in more && more[HexOf(d)] == blobs[HexOf(d)]
  {
  }

  lemma AvailableNow(env: Env, upstream: Upstream, repo: string, reference: string, depth: nat, t: nat)
    requires Available(env, upstream, repo, reference, depth)
    ensures depth <= 10 && AvailableAt(env, upstream, repo, reference, depth, t)
  {
  }

  /** Every file of the bundle is named by its digest, and the manifest of every artifact is in the bundle. */
  ghost predicate Loadable(env: Env, bundle: Bundle) {
    && IsHash(env.hash) && ContentAddressed(env.hash, bundle.blobs)
    && forall k :: 0 <= k < |bundle.artifacts| ==>
         ValidDigest(bundle.artifacts[k].digest) && HasBlob(bundle.blobs, bundle.artifacts[k].digest)
  }

  /** Every artifact has also all it refers to in the bundle. */
  ghost predicate SelfContained(env: Env, bundle: Bundle) {
    && Loadable(env, bundle)
    && forall k :: 0 <= k < |bundle.artifacts| ==> Complete(env, bundle.blobs, Image(bundle.artifacts[k].digest))
  }

  lemma IndexComplete(env: Env, blobs: map<string, Bytes>, d: string, data: Bytes, children: seq<Descriptor>)
    requires IsHash(env.hash) && d == env.hash(data) && HasBlob(blobs, d) && blobs[HexOf(d)] == data
    requires env.parse(data).Some? && env.parse(data).value.manifests != []
    requires forall c :: c in children <==> IsSelected(env, env.parse(data).value.manifests, c)
    requires forall k :: 0 <= k < |children| ==> Complete(env, blobs, Image(children[k].digest))
    ensures Complete(env, blobs, Image(d))
  {
    forall m | Child(env, blobs, Image(d), m) ensures Complete(env, blobs, m) {
      var c :| IsSelected(env, env.parse(data).value.manifests, c) && c.digest == m.digest;
      assert c in children;
    }
    CompleteFromChildren(env, blobs, Image(d));
  }

  lemma ImageComplete(env: Env, blobs: map<string, Bytes>, d: string, data: Bytes, descs: seq<string>)
    requires IsHash(env.hash) && d == env.hash(data) && HasBlob(blobs, d) && blobs[HexOf(d)] == data
    requires env.parse(data).Some? && env.parse(data).value.manifests == []
    requires descs == Parts(env.parse(data).value)
    requires forall k :: 0 <= k < |descs| ==> Stored(env, blobs, Data(descs[k]))
    ensures Complete(env, blobs, Image(d))
  {
    forall m | Child(env, blobs, Image(d), m) ensures Complete(env, blobs, m) {
      assert m.digest in descs;
      CompleteFromChildren(env, blobs, m);
    }
    CompleteFromChildren(env, blobs, Image(d));
  }
}
