/** What an upstream registry answers, what its manifests refer to, and when a set of blobs is self-contained. */
module Registry {
  import opened Wrappers
  import opened Digests
  import opened OCILayout

  datatype Platform = Platform(os: string, arch: string)

  /** An entry of an image index. */
  datatype Descriptor = Descriptor(digest: string, platform: Option<Platform>)

  /** A permissive view of image manifests and image indexes; config is empty where there is none. */
  datatype Manifest = Manifest(config: string, layers: seq<string>, manifests: seq<Descriptor>)

  type Parser = Bytes -> Option<Manifest>

  datatype Request = ManifestRequest(repo: string, reference: string) | BlobRequest(repo: string, digest: string)

  datatype Response = NoReply | Reply(status: nat, declared: string, data: Bytes)

  /** Any upstream: its answer may depend on the request and on the moment in any way. */
  type Upstream = (Request, int) -> Response

  /** The answer to a request gives the content. */
  predicate Gives(resp: Response, data: Bytes) {
    resp.Reply? && resp.status == 200 && resp.data == data
  }

  /** Every one of the contents was given by one of the first n answers. */
  ghost predicate GivenBefore(upstream: Upstream, contents: iset<Bytes>, n: nat) {
    forall x :: x in contents ==> exists q, t: nat :: t < n && Gives(upstream(q, t), x)
  }

  /** The upstream gives the content for some request at some moment; refusals give none. */
  ghost predicate Serves(upstream: Upstream, data: Bytes) {
    exists q, t :: Gives(upstream(q, t), data)
  }

  ghost function ServedContents(upstream: Upstream): iset<Bytes> {
    iset x | Serves(upstream, x)
  }

  lemma ReceivedIsServed(upstream: Upstream, contents: iset<Bytes>, n: nat)
    requires GivenBefore(upstream, contents, n)
    ensures contents <= ServedContents(upstream)
  {
  }

  function Encoded(s: string): Bytes {
    seq(|s|, i requires 0 <= i < |s| => (s[i] as int % 256) as Byte)
  }

  /** The same registry with refusals that echo the repository asked for, however long its name is. */
  function Echoing(upstream: Upstream): Upstream {
    (q: Request, t: int) =>
      if upstream(q, t).Reply? && upstream(q, t).status == 200 then upstream(q, t) else Reply(404, "", Encoded(q.repo))
  }

  /** Refusals give no content, whatever their bodies are. */
  lemma RefusalsGiveNothing(upstream: Upstream)
    ensures ServedContents(Echoing(upstream)) == ServedContents(upstream)
  {
    forall q, t, x ensures Gives(Echoing(upstream)(q, t), x) <==> Gives(upstream(q, t), x) {}
    forall x ensures Serves(Echoing(upstream), x) <==> Serves(upstream, x) {
      if q, t :| Gives(upstream(q, t), x) {
        assert Gives(Echoing(upstream)(q, t), x);
      }
      if q, t :| Gives(Echoing(upstream)(q, t), x) {
        assert Gives(upstream(q, t), x);
      }
    }
  }

  /** What an export depends on besides the upstream. */
  datatype Env = Env(hash: Hash, parse: Parser, allPlatforms: bool, host: Platform)

  /** The entry is written for the host, as operating system and architecture are written out; unknown ones never are. */
  predicate MatchesHost(d: Descriptor, host: Platform) {
    && d.platform.Some? && d.platform.value.os != "unknown" && d.platform.value.arch != "unknown"
    && d.platform.value.os + "/" + d.platform.value.arch == host.os + "/" + host.arch
  }

  /** A platform that a program can run on: its names hold no slash and are not unknown. */
  predicate IsPlatform(p: Platform) {
    '/' !in p.os && '/' !in p.arch && p.os != "unknown" && p.arch != "unknown"
  }

  /** On such a platform the host's entries are those of exactly its operating system and architecture. */
  lemma HostsEntry(d: Descriptor, host: Platform)
    requires IsPlatform(host)
    ensures MatchesHost(d, host) <==> d.platform == Some(host)
  {
    if MatchesHost(d, host) {
      OneSlash(d.platform.value.os, d.platform.value.arch, host.os, host.arch);
    }
  }

  lemma OneSlash(a: string, b: string, c: string, d: string)
    requires a + "/" + b == c + "/" + d && '/' !in c && '/' !in d
    ensures a == c && b == d
  {
    var s := c + "/" + d;
    assert forall i :: 0 <= i < |c| ==> s[i] == c[i];
    assert forall i :: |c| < i < |s| ==> s[i] == d[i - |c| - 1];
    assert s[|a|] == (a + "/" + b)[|a|] == '/';
    assert s[..|a|] == a && s[..|c|] == c && s[|a| + 1..] == b && s[|c| + 1..] == d;
  }

  /** Index entries are taken for the host platform, or all of them when asked for or when none matches. */
  ghost predicate IsSelected(env: Env, manifests: seq<Descriptor>, d: Descriptor) {
    && d in manifests
    && (env.allPlatforms || MatchesHost(d, env.host) || forall e :: e in manifests ==> !MatchesHost(e, env.host))
  }

  /** A manifest, or a config or layer blob whose bytes are not looked into. */
  datatype Node = Image(digest: string) | Data(digest: string)

  /** The content of n, as stored, refers to m. */
  ghost predicate Child(env: Env, blobs: map<string, Bytes>, n: Node, m: Node) {
    && n.Image? && HasBlob(blobs, n.digest)
    && var parsed := env.parse(blobs[HexOf(n.digest)]);
    && parsed.Some?
    && if parsed.value.manifests != [] then
         m.Image? && exists d :: IsSelected(env, parsed.value.manifests, d) && d.digest == m.digest
       else
         m.Data? && ((m.digest != "" && m.digest == parsed.value.config) || m.digest in parsed.value.layers)
  }

  /** n is present under its digest, and readable when it is a manifest. */
  ghost predicate Stored(env: Env, blobs: map<string, Bytes>, n: Node) {
    && ValidDigest(n.digest) && HasBlob(blobs, n.digest)
    && env.hash(blobs[HexOf(n.digest)]) == n.digest
    && (n.Image? ==> env.parse(blobs[HexOf(n.digest)]).Some?)
  }

  /** A chain of references. */
  ghost predicate Chain(env: Env, blobs: map<string, Bytes>, p: seq<Node>) {
    && p != []
    && (|p| > 1 ==> Child(env, blobs, p[0], p[1]) && Chain(env, blobs, p[1..]))
  }

  /** Everything that n refers to, directly or through other manifests, is stored. */
  ghost predicate Complete(env: Env, blobs: map<string, Bytes>, n: Node) {
    forall p :: Chain(env, blobs, p) && p[0] == n ==> Stored(env, blobs, p[|p| - 1])
  }

  lemma CompleteFromChildren(env: Env, blobs: map<string, Bytes>, n: Node)
    requires Stored(env, blobs, n)
    requires forall m :: Child(env, blobs, n, m) ==> Complete(env, blobs, m)
    ensures Complete(env, blobs, n)
  {
    forall p | Chain(env, blobs, p) && p[0] == n ensures Stored(env, blobs, p[|p| - 1]) {
      if |p| > 1 {
        assert Complete(env, blobs, p[1]);
        assert p[1..][|p[1..]| - 1] == p[|p| - 1];
      }
    }
  }

  lemma CompleteChild(env: Env, blobs: map<string, Bytes>, n: Node, m: Node)
    requires Complete(env, blobs, n) && Child(env, blobs, n, m)
    ensures Complete(env, blobs, m)
  {
    forall p | Chain(env, blobs, p) && p[0] == m ensures Stored(env, blobs, p[|p| - 1]) {
      var q := [n] + p;
      assert q[1..] == p;
      assert Chain(env, blobs, q);
      assert q[|q| - 1] == p[|p| - 1];
    }
  }

  /** What is complete holds the host's image of every index it refers to. */
  lemma HostImageIsThere(env: Env, blobs: map<string, Bytes>, index: string, d: Descriptor)
    requires IsPlatform(env.host) && Complete(env, blobs, Image(index))
    requires HasBlob(blobs, index) && env.parse(blobs[HexOf(index)]).Some?
    requires d in env.parse(blobs[HexOf(index)]).value.manifests && d.platform == Some(env.host)
    ensures Complete(env, blobs, Image(d.digest))
  {
    HostsEntry(d, env.host);
    assert IsSelected(env, env.parse(blobs[HexOf(index)]).value.manifests, d);
    CompleteChild(env, blobs, Image(index), Image(d.digest));
  }

  lemma CompleteIsStored(env: Env, blobs: map<string, Bytes>, n: Node)
    requires Complete(env, blobs, n)
    ensures Stored(env, blobs, n)
  {
    assert Chain(env, blobs, [n]);
  }

  ghost predicate Grows(blobs: map<string, Bytes>, more: map<string, Bytes>) {
    forall h :: h in blobs ==> h in more && more[h] == blobs[h]
  }

  lemma GrowsReflexive(blobs: map<string, Bytes>)
    ensures Grows(blobs, blobs)
  {
  }

  lemma GrowsTransitive(a: map<string, Bytes>, b: map<string, Bytes>, c: map<string, Bytes>)
    requires Grows(a, b) && Grows(b, c)
    ensures Grows(a, c)
  {
  }

  lemma {:induction false} ChainSurvives(env: Env, blobs: map<string, Bytes>, more: map<string, Bytes>, p: seq<Node>)
    requires Grows(blobs, more) && Chain(env, more, p) && Complete(env, blobs, p[0])
    ensures Chain(env, blobs, p) && Stored(env, more, p[|p| - 1])
  {
    CompleteIsStored(env, blobs, p[0]);
    if |p| > 1 {
      assert Child(env, blobs, p[0], p[1]);
      CompleteChild(env, blobs, p[0], p[1]);
      ChainSurvives(env, blobs, more, p[1..]);
      assert p[1..][|p[1..]| - 1] == p[|p| - 1];
    }
  }

  /** Adding blobs keeps what is complete complete. */
  lemma CompleteGrows(env: Env, blobs: map<string, Bytes>, more: map<string, Bytes>, n: Node)
    requires Grows(blobs, more) && Complete(env, blobs, n)
    ensures Complete(env, more, n)
  {
    forall p | Chain(env, more, p) && p[0] == n ensures Stored(env, more, p[|p| - 1]) {
      ChainSurvives(env, blobs, more, p);
    }
  }
}
