/** The storage backends a product publishes to, and the content-addressed
    write path on them (internal/backends/cas.go). Every read and every write
    is one attempt; what becomes of attempt number t is decided by an arbitrary
    function of t, so a statement about all such functions covers every failure
    and every point at which the process may stop. */
module Backends {
  import opened Wrappers
  import opened Documents

  /** The keys of one product; distinct keys have distinct names. */
  datatype Key =
    | IndexKey(channel: string)
    | DirectoryKey
    | ManifestKey(version: string)
    | ArtifactKey(version: string, filename: string)
    | CasKey(digest: string)
    | SiteKey
    | LatestKey(channel: string)
    | ChannelKey(channel: string)
    | ReleaseKey(channel: string, version: string)

  datatype Item =
    | Blob(bytes: seq<bv8>)
    | ManifestDoc(manifest: Manifest)
    | IndexPointer(channel: string, index: Index, seal: string)
    | DirectoryPointer(sequence: int, services: seq<string>, seal: string)
    | SitePage(text: string)
    | LatestPage(version: string, code: int, artifacts: seq<Artifact>)
    | ChannelPage(versions: seq<VersionNode>)
    | ReleasePage(version: string, code: int, artifacts: seq<Artifact>)

  /** SHA-256 and length of what is stored. */
  datatype Measure = Measure(sha: Item -> string, size: Item -> int)

  ghost predicate IsHexDigest(measure: Measure) {
    forall o :: CasDigest(measure.sha(o)) == Some(measure.sha(o))
  }

  type Store = map<Key, Item>

  function At(store: Store, key: Key): Option<Item> {
    if key in store then Some(store[key]) else None
  }

  /** cas/h holds bytes that hash to h. */
  ghost predicate CasSound(measure: Measure, store: Store) {
    forall h | CasKey(h) in store :: measure.sha(store[CasKey(h)]) == h
  }

  /** What becomes of an attempt. A write may be applied and yet be reported as
      failed; Halted means that the process stops before it. */
  datatype Fate = Done | Fails | Unacknowledged | Halted

  /** What the caller of a write learns. */
  datatype Reply = Acked | Refused | Stopped

  function ReplyTo(fate: Fate): Reply {
    match fate
    case Done => Acked
    case Fails => Refused
    case Unacknowledged => Refused
    case Halted => Stopped
  }

  predicate Applies(fate: Fate) {
    fate == Done || fate == Unacknowledged
  }

  datatype StagedArtifact = StagedArtifact(id: string, filename: string, size: int, sha256: string)

  /** The item is the artifact's content. */
  predicate Matches(measure: Measure, item: Item, a: StagedArtifact) {
    Some(measure.sha(item)) == CasDigest(a.sha256) && measure.size(item) == a.size
  }

  /** A blob of the artifact's size is stored under its digest. */
  predicate HasBlob(measure: Measure, store: Store, a: StagedArtifact) {
    var digest := CasDigest(a.sha256);
    digest.Some? && CasKey(digest.value) in store && measure.size(store[CasKey(digest.value)]) == a.size
  }

  datatype UploadError = NotUploaded | Killed

  class Cluster {
    const measure: Measure
    const ingest: seq<bool>                 // which backends take content-addressed writes
    const place: (nat, Key) -> string       // the URL a backend gives out for a key
    const fate: nat -> Fate
    var attempts: nat
    var stores: seq<Store>

    ghost predicate Valid()
      reads this
    {
      && |stores| == |ingest| > 0
      && IsHexDigest(measure)
      && forall b | 0 <= b < |stores| :: CasSound(measure, stores[b])
    }

    /** No attempt was refused between two points; the process may have stopped. */
    ghost predicate Answered(from: nat, to: nat) {
      forall t | from <= t < to :: fate(t) == Done || fate(t) == Halted
    }

    /** Nothing went wrong between two points. */
    ghost predicate Smooth(from: nat, to: nat) {
      forall t | from <= t < to :: fate(t) == Done
    }

    /** The process stops between two points. */
    ghost predicate Stops(from: nat, to: nat) {
      exists t :: from <= t < to && fate(t) == Halted
    }

    constructor (measure: Measure, ingest: seq<bool>, place: (nat, Key) -> string, fate: nat -> Fate)
      ensures this.measure == measure && this.ingest == ingest && this.place == place && this.fate == fate
      ensures attempts == 0 && stores == seq(|ingest|, _ => map[])
      ensures |ingest| > 0 && IsHexDigest(measure) ==> Valid()
    {
      this.measure, this.ingest, this.place, this.fate := measure, ingest, place, fate;
      attempts, stores := 0, seq(|ingest|, _ => map[]);
    }

    // -------------------------------------------------------------------
    // Single attempts
    // -------------------------------------------------------------------

    method Put(b: nat, key: Key, item: Item) returns (reply: Reply)
      requires b < |stores|
      modifies this
      ensures attempts == old(attempts) + 1 && reply == ReplyTo(fate(old(attempts)))
      ensures stores ==
        if Applies(fate(old(attempts))) then old(stores)[b := old(stores)[b][key := item]] else old(stores)
      ensures old(Valid()) && (key.CasKey? ==> measure.sha(item) == key.digest) ==> Valid()
    {
      var f := fate(attempts);
      attempts := attempts + 1;
      if Applies(f) {
        stores := stores[b := stores[b][key := item]];
      }
      reply := ReplyTo(f);
    }

    method Delete(b: nat, key: Key) returns (reply: Reply)
      requires b < |stores|
      modifies this
      ensures attempts == old(attempts) + 1 && reply == ReplyTo(fate(old(attempts)))
      ensures stores ==
        if Applies(fate(old(attempts))) then old(stores)[b := old(stores)[b] - {key}] else old(stores)
      ensures old(Valid()) ==> Valid()
    {
      var f := fate(attempts);
      attempts := attempts + 1;
      if Applies(f) {
        stores := stores[b := stores[b] - {key}];
      }
      reply := ReplyTo(f);
    }

    /** A same-store copy. */
    method Promote(b: nat, source: Key, target: Key) returns (reply: Reply)
      requires b < |stores|
      modifies this
      ensures attempts == old(attempts) + 1
      ensures reply == if source in old(stores)[b] then ReplyTo(fate(old(attempts))) else
        if fate(old(attempts)) == Halted then Stopped else Refused
      ensures stores ==
        if source in old(stores)[b] && Applies(fate(old(attempts)))
        then old(stores)[b := old(stores)[b][target := old(stores)[b][source]]] else old(stores)
    {
      if source !in stores[b] {
        reply := if fate(attempts) == Halted then Stopped else Refused;
        attempts := attempts + 1;
        return;
      }
      reply := Put(b, target, stores[b][source]);
    }

    method Get(b: nat, key: Key) returns (reply: Reply, found: Option<Item>)
      requires b < |stores|
      modifies this`attempts
      ensures attempts == old(attempts) + 1 && reply == ReplyTo(fate(old(attempts)))
      ensures found == if reply == Acked then At(stores[b], key) else None
    {
      reply := ReplyTo(fate(attempts));
      attempts := attempts + 1;
      found := if reply == Acked then At(stores[b], key) else None;
    }

    /** The size stored under a key; the content is not hashed again. */
    method Head(b: nat, key: Key) returns (reply: Reply, size: Option<int>)
      requires b < |stores|
      modifies this`attempts
      ensures attempts == old(attempts) + 1 && reply == ReplyTo(fate(old(attempts)))
      ensures reply == Acked ==>
        size == if key in stores[b] then Some(measure.size(stores[b][key])) else None
    {
      var found;
      reply, found := Get(b, key);
      size := if found.Some? then Some(measure.size(found.value)) else None;
    }

    // -------------------------------------------------------------------
    // Artifacts
    // -------------------------------------------------------------------

    /** The first backend that takes content-addressed writes. */
    method PrimaryIngest() returns (source: Option<nat>)
      ensures source.Some? ==> source.value < |ingest| && ingest[source.value]
      ensures source.Some? ==> forall b | 0 <= b < source.value :: !ingest[b]
      ensures source.None? ==> forall b | 0 <= b < |ingest| :: !ingest[b]
    {
      for b := 0 to |ingest|
        invariant forall i | 0 <= i < b :: !ingest[i]
      {
        if ingest[b] {
          return Some(b);
        }
      }
      source := None;
    }

    method PutArtifact(b: nat, local: Option<Item>, key: Key) returns (r: Result<string, UploadError>)
      requires b < |stores|
      modifies this
      ensures old(attempts) <= attempts <= old(attempts) + 1
      ensures stores == old(stores) ||
        (local.Some? && stores == old(stores)[b := old(stores)[b][key := local.value]])
      ensures r.Ok? ==> local.Some? && stores[b] == old(stores)[b][key := local.value] && r.value == place(b, key)
      ensures r.Err? && Smooth(old(attempts), attempts) ==> local.None?
      ensures r == Err(Killed) ==> !Smooth(old(attempts), attempts)
    {
      if local.None? {
        return Err(NotUploaded);
      }
      var reply := Put(b, key, local.value);
      r := Acknowledged(reply, place(b, key));
    }

    /** Put the content under its digest unless a blob of that size is there
        already, then copy it to the artifact's key. */
    method PutArtifactCas(b: nat, local: Option<Item>, key: Key, a: StagedArtifact)
      returns (r: Result<string, UploadError>)
      requires Valid() && b < |stores| && key.ArtifactKey?
      requires local.Some? ==> Matches(measure, local.value, a)
      modifies this
      ensures Valid() && old(attempts) <= attempts
      ensures forall i | 0 <= i < |stores| && i != b :: stores[i] == old(stores)[i]
      ensures PutsContent(measure, key, a, old(stores)[b], stores[b])
      ensures r.Ok? ==> key in stores[b] && Matches(measure, stores[b][key], a) && r.value == place(b, key)
      ensures r.Err? && Smooth(old(attempts), attempts) ==>
        local.None? && !(ingest[b] && HasBlob(measure, old(stores)[b], a))
      ensures r == Err(Killed) ==> !Smooth(old(attempts), attempts)
    {
      if !ingest[b] {
        r := PutArtifact(b, local, key);
        return;
      }
      var digest := CasDigest(a.sha256);
      if digest.None? {
        return Err(NotUploaded);
      }
      var casKey := CasKey(digest.value);
      var reply, size := Head(b, casKey);
      if reply != Acked {
        return Err(if reply == Stopped then Killed else NotUploaded);
      }
      if size == Some(a.size) {
        reply := Promote(b, casKey, key);
        r := Acknowledged(reply, place(b, key));
        return;
      }
      var put := PutArtifact(b, local, casKey);
      if put.Err? {
        return Err(put.error);
      }
      reply := Promote(b, casKey, key);
      r := Acknowledged(reply, place(b, key));
    }

    /** Copy one artifact onto another backend, from the staged file when it is
        there, otherwise from the source's content-addressed blob. */
    method Materialize(source: nat, b: nat, local: Option<Item>, key: Key, a: StagedArtifact)
      returns (r: Result<string, UploadError>)
      requires Valid() && source < |stores| && b < |stores| && key.ArtifactKey?
      requires local.Some? ==> Matches(measure, local.value, a)
      modifies this
      ensures Valid() && old(attempts) <= attempts
      ensures forall i | 0 <= i < |stores| && i != b :: stores[i] == old(stores)[i]
      ensures PutsContent(measure, key, a, old(stores)[b], stores[b])
      ensures r.Ok? ==> key in stores[b] && Matches(measure, stores[b][key], a) && r.value == place(b, key)
      ensures r.Err? && Smooth(old(attempts), attempts) ==>
        local.None? && (a.size == 0 || !HasBlob(measure, old(stores)[source], a))
      ensures r == Err(Killed) ==> !Smooth(old(attempts), attempts)
    {
      if local.Some? {
        if measure.size(local.value) != a.size {
          return Err(NotUploaded);
        }
        r := PutArtifact(b, local, key);
        return;
      }
      var digest := CasDigest(a.sha256);
      if digest.None? {
        return Err(NotUploaded);
      }
      var reply, found := Get(source, CasKey(digest.value));
      if reply != Acked {
        return Err(if reply == Stopped then Killed else NotUploaded);
      }
      if found.None? || measure.size(found.value) == 0 {
        return Err(NotUploaded);
      }
      if measure.size(found.value) != a.size {
        return Err(NotUploaded);
      }
      r := PutArtifact(b, found, key);
    }
  }

  function Acknowledged(reply: Reply, url: string): Result<string, UploadError> {
    match reply
    case Acked => Ok(url)
    case Refused => Err(NotUploaded)
    case Stopped => Err(Killed)
  }

  /** One backend before and after an artifact's upload: only the artifact's key
      and its content-addressed key may change, and only to the artifact. */
  ghost predicate PutsContent(measure: Measure, key: Key, a: StagedArtifact, before: Store, after: Store) {
    forall k ::
      At(after, k) == At(before, k) ||
      (k in after && Matches(measure, after[k], a) &&
       (k == key || (k.CasKey? && CasDigest(a.sha256) == Some(k.digest))))
  }
}
