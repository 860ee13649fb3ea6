/** The local store: content-addressed blobs and tags, one file each. */
module OCILayout {
  import opened Wrappers
  import opened Digests

  datatype TagEntry = TagEntry(digest: string, updatedAt: int)

  /** The file of a tag: its repository and its name made safe for a file name. */
  type TagKey = (string, string)

  function SanitizeTag(tag: string): string {
    seq(|tag|, i requires 0 <= i < |tag| => if tag[i] == ':' || tag[i] == '/' then '_' else tag[i])
  }

  function TagFile(repo: string, tag: string): TagKey {
    (repo, SanitizeTag(tag))
  }

  /** A tag within the grammar of the OCI Distribution Specification, as far as file names are concerned. */
  predicate PlainTag(tag: string) {
    ':' !in tag && '/' !in tag
  }

  lemma PlainTagIsItsFile(tag: string)
    ensures SanitizeTag(tag) == tag <==> PlainTag(tag)
  {
    if SanitizeTag(tag) == tag {
      forall i | 0 <= i < |tag| ensures tag[i] != ':' && tag[i] != '/' {
        assert SanitizeTag(tag)[i] == tag[i];
      }
    }
  }

  /** Two tags have one file exactly if they differ only in ':', '/' and '_'. */
  lemma TagsShareFile(repo: string, a: string, b: string)
    ensures TagFile(repo, a) == TagFile(repo, b) <==>
            |a| == |b| && forall i :: 0 <= i < |a| ==> a[i] == b[i] || (a[i] in ":/_" && b[i] in ":/_")
  {
    var s, t := SanitizeTag(a), SanitizeTag(b);
    if s == t {
      forall i | 0 <= i < |a| ensures a[i] == b[i] || (a[i] in ":/_" && b[i] in ":/_") {
        assert s[i] == t[i];
      }
    }
  }

  /** A blob is found under its digest, or under the bare hexadecimal name. */
  predicate HasBlob(blobs: map<string, Bytes>, d: string) {
    ValidHex64(HexOf(d)) && HexOf(d) in blobs
  }

  function Blob(blobs: map<string, Bytes>, d: string): Option<Bytes> {
    if HasBlob(blobs, d) then Some(blobs[HexOf(d)]) else None
  }

  /** Every tag names a canonical digest. */
  ghost predicate CanonicalTags(tags: map<TagKey, TagEntry>) {
    forall k :: k in tags ==> ValidDigest(tags[k].digest)
  }

  class Layout {
    const hash: Hash
    /** Says of the n-th file write whether it fails. Writes are atomic: a failed one leaves no trace. */
    const diskFails: nat -> bool
    var writes: nat
    var blobs: map<string, Bytes>
    var tags: map<TagKey, TagEntry>

    ghost predicate Valid()
      reads this
    {
      IsHash(hash) && ContentAddressed(hash, blobs)
    }

    /** Of the writes done from the given one on, one failed. */
    ghost predicate FaultSince(start: nat)
      reads this`writes
    {
      exists n :: start <= n < writes && diskFails(n)
    }

    constructor (hash: Hash, diskFails: nat -> bool)
      requires IsHash(hash)
      ensures Valid() && this.hash == hash && this.diskFails == diskFails
      ensures blobs == map[] && tags == map[] && writes == 0
    {
      this.hash, this.diskFails := hash, diskFails;
      writes, blobs, tags := 0, map[], map[];
    }

    /** A stored blob always hashes to the digest it was asked for by; a malformed digest is not found. */
    method GetBlob(d: string) returns (data: Option<Bytes>)
      requires Valid()
      ensures data == Blob(blobs, d)
      ensures data.Some? ==> hash(data.value) == SCHEME + HexOf(d)
    {
      if !ValidHex64(HexOf(d)) || HexOf(d) !in blobs {
        return None;
      }
      return Some(blobs[HexOf(d)]);
    }

    /** Stores data under its digest unless something is stored there already. */
    method PutBlob(data: Bytes) returns (d: Option<string>)
      requires Valid()
      modifies this`blobs, this`writes
      ensures Valid() && old(writes) <= writes
      ensures d.Some? ==> d.value == hash(data) && HasBlob(blobs, hash(data))
      ensures d.None? ==> blobs == old(blobs) && diskFails(old(writes)) && writes == old(writes) + 1
      ensures blobs == old(blobs) || (HexOf(hash(data)) !in old(blobs) && blobs == old(blobs)[HexOf(hash(data)) := data])
    {
      var digest := hash(data);
      HexOfDigest(digest);
      if HexOf(digest) in blobs {
        return Some(digest);
      }
      writes := writes + 1;
      if diskFails(writes - 1) {
        return None;
      }
      blobs := blobs[HexOf(digest) := data];
      return Some(digest);
    }

    method DeleteBlob(d: string)
      requires Valid()
      modifies this`blobs
      ensures Valid()
      ensures blobs == if ValidHex64(HexOf(d)) then old(blobs) - {HexOf(d)} else old(blobs)
    {
      if ValidHex64(HexOf(d)) {
        blobs := blobs - {HexOf(d)};
      }
    }

    method PutTag(repo: string, tag: string, d: string, now: int) returns (ok: bool)
      modifies this`tags, this`writes
      ensures writes == old(writes) + 1
      ensures ok <==> !diskFails(old(writes))
      ensures tags == if ok then old(tags)[TagFile(repo, tag) := TagEntry(d, now)] else old(tags)
    {
      writes := writes + 1;
      ok := !diskFails(writes - 1);
      if ok {
        tags := tags[TagFile(repo, tag) := TagEntry(d, now)];
      }
    }

    method GetTagEntry(repo: string, tag: string) returns (e: Option<TagEntry>)
      ensures e == if TagFile(repo, tag) in tags then Some(tags[TagFile(repo, tag)]) else None
    {
      if TagFile(repo, tag) in tags {
        return Some(tags[TagFile(repo, tag)]);
      }
      return None;
    }
  }
}
