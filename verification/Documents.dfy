/** The signed release documents, as far as the verified components read them.
    Digests are strings; the function that computes them is a parameter of the
    components that need one, so nothing depends on a particular hash. */
module Documents {
  import opened Wrappers

  /** The reference an index node holds to its manifest. */
  datatype ManifestRef = ManifestRef(sha256: string, size: int, urls: seq<string>)

  datatype VersionNode = VersionNode(
    version: string,
    code: int,
    minFrom: int,
    yanked: bool,
    manifest: ManifestRef)

  datatype Index = Index(
    sequence: int,
    versions: seq<VersionNode>,
    minSupported: Option<int>)

  datatype Artifact = Artifact(id: string, filename: string, size: int, sha256: string, urls: seq<string>)

  datatype Manifest = Manifest(version: string, code: int, artifacts: seq<Artifact>)

  function LowerHex(c: char): char {
    if 'A' <= c <= 'F' then c - 'A' + 'a' else c
  }

  predicate IsHex(c: char) {
    '0' <= c <= '9' || 'a' <= c <= 'f'
  }

  /** The digest that names stored content (model.CasKey), for a digest without
      surrounding space. */
  function CasDigest(sha256: string): Option<string> {
    var digest := seq(|sha256|, i requires 0 <= i < |sha256| => LowerHex(sha256[i]));
    if |digest| == 64 && forall i | 0 <= i < |digest| :: IsHex(digest[i]) then Some(digest) else None
  }

  /** A digest is 64 hexadecimal digits in either case; it names content in lower
      case, and so do all its spellings. */
  lemma DigestsMean(sha256: string)
    ensures CasDigest(sha256).Some? <==>
      |sha256| == 64 && forall i | 0 <= i < 64 ::
        '0' <= sha256[i] <= '9' || 'a' <= sha256[i] <= 'f' || 'A' <= sha256[i] <= 'F'
    ensures CasDigest(sha256).Some? ==>
      var digest := CasDigest(sha256).value;
      && |digest| == 64 && CasDigest(digest) == Some(digest)
      && forall i | 0 <= i < 64 :: ('0' <= digest[i] <= '9' || 'a' <= digest[i] <= 'f') &&
           (digest[i] == sha256[i] || (sha256[i] <= 'F' && digest[i] - 'a' == sha256[i] - 'A'))
  {
    var lower := seq(|sha256|, i requires 0 <= i < |sha256| => LowerHex(sha256[i]));
    assert forall i | 0 <= i < |sha256| :: lower[i] == LowerHex(sha256[i]);
    assert CasDigest(sha256).Some? <==> |lower| == 64 && forall i | 0 <= i < |lower| :: IsHex(lower[i]);
    if CasDigest(sha256).Some? {
      var digest := CasDigest(sha256).value;
      assert seq(|digest|, i requires 0 <= i < |digest| => LowerHex(digest[i])) == digest;
    }
  }

  const SEQUENCE_FLOOR := 1000

  /** model.NextSequence: the sequence of the document that replaces one at
      `base`, 0 meaning that there is none yet. */
  function NextSequence(base: int): (next: int)
    ensures base < next
    ensures base >= 1 ==> next >= SEQUENCE_FLOOR
    ensures base < 1 || base + 1 >= SEQUENCE_FLOOR ==> next == base + 1
  {
    if base >= 1 && base + 1 < SEQUENCE_FLOOR then SEQUENCE_FLOOR else base + 1
  }
}
