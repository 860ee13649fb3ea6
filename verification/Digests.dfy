/** Content digests. SHA-256 is a parameter: a function that gives every content a well-formed digest. */
module Digests {
  import Strings

  newtype Byte = b: int | 0 <= b < 256

  type Bytes = seq<Byte>

  type Hash = Bytes -> string

  const SCHEME: string := "sha256:"

  predicate HexChar(c: char) {
    '0' <= c <= '9' || 'a' <= c <= 'f'
  }

  predicate ValidHex64(s: string) {
    |s| == 64 && forall i :: 0 <= i < |s| ==> HexChar(s[i])
  }

  /** A canonical digest: the scheme and exactly 64 lower-case hexadecimal characters. */
  predicate ValidDigest(d: string) {
    SCHEME <= d && ValidHex64(d[|SCHEME|..])
  }

  /** The file name of a blob. A bare hexadecimal name is accepted as well as a digest. */
  function HexOf(d: string): string {
    Strings.TrimPrefix(d, SCHEME)
  }

  /** Canonical digests are exactly these 71 characters. */
  lemma CanonicalForm(d: string)
    ensures ValidDigest(d) <==>
            |d| == 71 && d[..7] == "sha256:" && forall i :: 7 <= i < 71 ==> d[i] in "0123456789abcdef"
  {
    forall c ensures HexChar(c) <==> c in "0123456789abcdef" { HexCharIs(c); }
    assert |SCHEME| == 7;
    if |d| == 71 && d[..7] == SCHEME {
      forall i | 7 <= i < 71 ensures d[i] == d[7..][i - 7] {}
    }
    if ValidDigest(d) {
      forall i | 7 <= i < 71 ensures HexChar(d[i]) { assert d[i] == d[7..][i - 7]; }
    }
  }

  lemma HexCharIs(c: char)
    ensures HexChar(c) <==> c in "0123456789abcdef"
  {
    var s := "0123456789abcdef";
    if '0' <= c <= '9' {
      assert s[c as int - '0' as int] == c;
    } else if 'a' <= c <= 'f' {
      assert s[c as int - 'a' as int + 10] == c;
    }
  }

  ghost predicate IsHash(hash: Hash) {
    forall x :: ValidDigest(hash(x))
  }

  /** No two of the given contents share a digest. */
  ghost predicate CollisionFree(hash: Hash, contents: iset<Bytes>) {
    forall x, y :: x in contents && y in contents && hash(x) == hash(y) ==> x == y
  }

  /** Every file lies under the digest of its bytes. */
  ghost predicate ContentAddressed(hash: Hash, blobs: map<string, Bytes>) {
    forall h :: h in blobs ==> ValidHex64(h) && hash(blobs[h]) == SCHEME + h
  }

  lemma DigestOfHex(h: string)
    requires ValidHex64(h)
    ensures ValidDigest(SCHEME + h) && HexOf(SCHEME + h) == h
  {
    assert (SCHEME + h)[|SCHEME|..] == h;
  }

  lemma HexOfDigest(d: string)
    requires ValidDigest(d)
    ensures ValidHex64(HexOf(d)) && SCHEME + HexOf(d) == d
  {
    assert d == SCHEME + d[|SCHEME|..];
  }
}
