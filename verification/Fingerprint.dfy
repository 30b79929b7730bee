/** The cold-tier model identity of `cold_tier.rs`: the variable-shape component list that
    `build_model_fingerprint` hashes, and its unique decodability. Byte strings are strings whose
    characters stand for bytes; files, digests and the parsed download marker are inputs. */
module Fingerprint {
  import opened Arithmetic
  import opened Wrappers
  import opened Sequences

  type Bytes = string

  type u64 = x: int | 0 <= x < 0x1_0000_0000_0000_0000
  type u128 = x: int | 0 <= x < 0x1_0000_0000_0000_0000_0000_0000_0000_0000

  const MANIFEST_TAG: Bytes := "cold-identity:manifest:v1\0"
  const DIGEST_TAG: Bytes := "cold-identity:full-digest:v1\0"
  const MARKER_TAG: Bytes := "download-marker\0"
  const INDEX_TAG: Bytes := "index.json\0"
  const SHARD_SUFFIX: Bytes := ".safetensors"
  const REVISION_LENGTH := 40

  // ---------------------------------------------------------------- inputs

  datatype Metadata = Metadata(size: u64, mtime: Option<u128>)

  datatype Digest = Digest(size: u64, sha: Bytes)

  /** A shard on disk: what its metadata and a full read of it yield, if they can be had. */
  datatype Shard = Shard(name: Bytes, metadata: Option<Metadata>, digest: Option<Digest>)

  datatype Manifest = Manifest(repo: Option<Bytes>, revision: Bytes, files: seq<Bytes>)

  datatype Geometry = Geometry(blockSize: u64, numLayers: u64, numKvHeads: u64, headSize: u64, cacheDtype: Bytes)

  /** Everything the fingerprint reads. `shards` is the sorted list of top-level shard files, or
      nothing when the directory cannot be read. */
  datatype Model = Model(
    modelType: Bytes, witnessBytes: nat, config: Option<Bytes>, shards: Option<seq<Shard>>,
    marker: Option<Marker>, index: Option<Bytes>, geometry: Geometry)

  /** The parsed download marker, before it is trusted. */
  datatype Marker = Marker(repo: Option<Bytes>, revision: Option<Bytes>, files: seq<Bytes>)

  ghost predicate ShardListed(s: Shard) {
    EndsWith(s.name, SHARD_SUFFIX)
  }

  ghost predicate ValidModel(m: Model) {
    m.shards.Some? ==> forall i :: 0 <= i < |m.shards.value| ==> ShardListed(m.shards.value[i])
  }

  predicate IsHexDigit(c: char) {
    '0' <= c <= '9' || 'a' <= c <= 'f' || 'A' <= c <= 'F'
  }

  /** A marker is trusted provenance only when its revision is an immutable commit hash. */
  function ReadManifest(marker: Option<Marker>): (r: Option<Manifest>)
    ensures r.Some? ==> |r.value.revision| == REVISION_LENGTH
  {
    if marker.None? || marker.value.revision.None? then None
    else
      var revision := marker.value.revision.value;
      if |revision| != REVISION_LENGTH || exists c :: c in revision && !IsHexDigit(c) then None
      else Some(Manifest(marker.value.repo, revision, marker.value.files))
  }

  predicate CoversAllShards(m: Manifest, shards: seq<Shard>) {
    forall s :: s in shards ==> s.name in m.files
  }

  function IdentityBytes(m: Manifest): Bytes {
    (if m.repo.Some? then m.repo.value else "") + "\0" + m.revision
  }

  /** The `width` little-endian bytes of `n`. */
  function LittleEndian(n: nat, width: nat): (b: Bytes)
    ensures |b| == width
  {
    if width == 0 then "" else [(n % 256) as char] + LittleEndian(n / 256, width - 1)
  }

  // ---------------------------------------------------------------- what the components stand for

  /** One shard as it enters the fingerprint: its name, its size, and its modification time or its
      digest. */
  datatype Entry = Entry(name: Bytes, size: u64, proof: Bytes)

  datatype Provenance = Provenance(repo: Bytes, revision: Bytes)

  datatype Weights =
    | ByManifest(shards: seq<Entry>, pinned: Provenance)
    | ByDigest(shards: seq<Entry>, marker: Option<Provenance>)

  datatype Identity = Identity(modelType: Bytes, config: Option<Bytes>, weights: Weights, index: Option<Bytes>, geometry: Geometry)

  function ProvenanceOf(m: Manifest): Provenance {
    Provenance(if m.repo.Some? then m.repo.value else "", m.revision)
  }

  function MtimeEntry(s: Shard): (e: Option<Entry>) {
    match s.metadata
    case Some(Metadata(size, Some(mtime))) => Some(Entry(s.name, size, LittleEndian(mtime, 16)))
    case _ => None
  }

  function DigestEntry(s: Shard): (e: Option<Entry>) {
    match s.digest
    case Some(Digest(size, sha)) => Some(Entry(s.name, size, sha))
    case None => None
  }

  function AllEntries(shards: seq<Shard>, entry: Shard -> Option<Entry>): Option<seq<Entry>> {
    if shards == [] then Some([])
    else
      var init := AllEntries(shards[..|shards| - 1], entry);
      var last := entry(shards[|shards| - 1]);
      if init.None? || last.None? then None else Some(init.value + [last.value])
  }

  /** The identity a model directory establishes; none when it has no shard, when nothing was
      materialised, or when a shard's part of the chosen proof cannot be read. */
  function IdentityOf(m: Model): Option<Identity> {
    if m.witnessBytes == 0 || m.shards.None? || m.shards.value == [] then None
    else
      var manifest := ReadManifest(m.marker);
      var shards := m.shards.value;
      if manifest.Some? && CoversAllShards(manifest.value, shards) then
        match AllEntries(shards, MtimeEntry)
        case None => None
        case Some(entries) =>
          Some(Identity(m.modelType, m.config, ByManifest(entries, ProvenanceOf(manifest.value)), m.index, m.geometry))
      else
        match AllEntries(shards, DigestEntry)
        case None => None
        case Some(entries) =>
          var marker := if manifest.Some? then Some(ProvenanceOf(manifest.value)) else None;
          Some(Identity(m.modelType, m.config, ByDigest(entries, marker), m.index, m.geometry))
  }

  // ---------------------------------------------------------------- the component list

  function EncodeEntry(e: Entry): seq<Bytes> {
    [e.name, LittleEndian(e.size, 8), e.proof]
  }

  function EncodeEntries(entries: seq<Entry>): (c: seq<Bytes>)
    ensures |c| == 3 * |entries|
  {
    if entries == [] then [] else EncodeEntries(entries[..|entries| - 1]) + EncodeEntry(entries[|entries| - 1])
  }

  function EncodeProvenance(p: Provenance): Bytes {
    p.repo + "\0" + p.revision
  }

  function EncodeHead(modelType: Bytes, config: Option<Bytes>, tag: Bytes): seq<Bytes> {
    (if config.Some? then [modelType, config.value] else [modelType]) + [tag]
  }

  function TagOf(w: Weights): Bytes {
    if w.ByManifest? then MANIFEST_TAG else DIGEST_TAG
  }

  function EncodeMarker(w: Weights): seq<Bytes> {
    match w
    case ByManifest(_, pinned) => [EncodeProvenance(pinned)]
    case ByDigest(_, Some(p)) => [MARKER_TAG, EncodeProvenance(p)]
    case ByDigest(_, None) => []
  }

  function EncodeIndex(index: Option<Bytes>): seq<Bytes> {
    if index.Some? then [INDEX_TAG, index.value] else []
  }

  function EncodeGeometry(g: Geometry): (c: seq<Bytes>)
    ensures |c| == 5
  {
    [LittleEndian(g.blockSize, 8), LittleEndian(g.numLayers, 8), LittleEndian(g.numKvHeads, 8),
     LittleEndian(g.headSize, 8), g.cacheDtype]
  }

  function EncodeTail(id: Identity): seq<Bytes> {
    EncodeMarker(id.weights) + EncodeIndex(id.index) + EncodeGeometry(id.geometry)
  }

  function Encode(id: Identity): seq<Bytes> {
    EncodeHead(id.modelType, id.config, TagOf(id.weights)) + EncodeEntries(id.weights.shards) + EncodeTail(id)
  }

  /** `build_model_fingerprint`, up to the hash of the component list. */
  method BuildModelFingerprint(m: Model) returns (r: Option<seq<Bytes>>)
    ensures r == match IdentityOf(m) case None => None case Some(id) => Some(Encode(id))
  {
    hide EncodeEntries, AllEntries, ReadManifest, CoversAllShards, EncodeGeometry, LittleEndian, EncodeHead, Encode;
    if m.witnessBytes == 0 || m.shards.None? || |m.shards.value| == 0 {
      return None;
    }
    var shards := m.shards.value;
    var components: seq<Bytes> := [m.modelType];
    if m.config.Some? {
      components := components + [m.config.value];
    }
    var manifest := ReadManifest(m.marker);
    ghost var start: seq<Bytes>;
    if manifest.Some? && CoversAllShards(manifest.value, shards) {
      HeadPushed(m.modelType, m.config, MANIFEST_TAG, components);
      components := components + [MANIFEST_TAG];
      start := components;
      var pushed := PushShards(shards, MtimeEntry, components);
      if pushed.None? {
        return None;
      }
      components := pushed.value + [IdentityBytes(manifest.value)];
    } else {
      HeadPushed(m.modelType, m.config, DIGEST_TAG, components);
      components := components + [DIGEST_TAG];
      start := components;
      var pushed := PushShards(shards, DigestEntry, components);
      if pushed.None? {
        return None;
      }
      components := pushed.value;
      if manifest.Some? {
        components := components + [MARKER_TAG];
        components := components + [IdentityBytes(manifest.value)];
      }
    }
    ghost var id := IdentityOf(m).value;
    ghost var body := start + EncodeEntries(id.weights.shards);
    assert components == body + EncodeMarker(id.weights);
    if m.index.Some? {
      components := components + [INDEX_TAG];
      components := components + [m.index.value];
    }
    assert components == body + EncodeMarker(id.weights) + EncodeIndex(m.index);
    components := components + EncodeGeometry(m.geometry);
    TailPushed(id, body, components);
    return Some(components);
  }

  lemma HeadPushed(modelType: Bytes, config: Option<Bytes>, tag: Bytes, components: seq<Bytes>)
    requires components == [modelType] + if config.Some? then [config.value] else []
    ensures components + [tag] == EncodeHead(modelType, config, tag)
  {
  }

  lemma TailPushed(id: Identity, body: seq<Bytes>, components: seq<Bytes>)
    requires body == EncodeHead(id.modelType, id.config, TagOf(id.weights)) + EncodeEntries(id.weights.shards)
    requires components == body + EncodeMarker(id.weights) + EncodeIndex(id.index) + EncodeGeometry(id.geometry)
    ensures components == Encode(id)
  {
    hide EncodeHead, EncodeEntries, EncodeMarker, EncodeIndex, EncodeGeometry;
    assert components == body + (EncodeMarker(id.weights) + EncodeIndex(id.index) + EncodeGeometry(id.geometry));
  }

  /** The shard loop: three components per shard, or failure at the first unreadable one. */
  method PushShards(shards: seq<Shard>, entry: Shard -> Option<Entry>, start: seq<Bytes>) returns (r: Option<seq<Bytes>>)
    ensures r == match AllEntries(shards, entry) case None => None case Some(entries) => Some(start + EncodeEntries(entries))
  {
    var components := start;
    for n := 0 to |shards|
      invariant AllEntries(shards[..n], entry).Some?
      invariant components == start + EncodeEntries(AllEntries(shards[..n], entry).value)
    {
      assert shards[..n + 1][..n] == shards[..n];
      var e := entry(shards[n]);
      if e.None? {
        NoneStays(shards, entry, n + 1, |shards|);
        assert shards[..|shards|] == shards;
        return None;
      }
      components := components + [e.value.name];
      components := components + [LittleEndian(e.value.size, 8)];
      components := components + [e.value.proof];
      ghost var entries := AllEntries(shards[..n], entry).value;
      assert (entries + [e.value])[..|entries|] == entries;
    }
    assert shards[..|shards|] == shards;
    return Some(components);
  }

  lemma {:induction false} NoneStays(shards: seq<Shard>, entry: Shard -> Option<Entry>, m: nat, n: nat)
    requires m <= n <= |shards| && AllEntries(shards[..m], entry).None?
    ensures AllEntries(shards[..n], entry).None?
    decreases n
  {
    if m < n {
      assert shards[..n][..n - 1] == shards[..n - 1];
      NoneStays(shards, entry, m, n - 1);
    }
  }

  // ---------------------------------------------------------------- unique decodability

  function Power256(width: nat): (p: nat)
    ensures p > 0
  {
    if width == 0 then 1 else 256 * Power256(width - 1)
  }

  lemma {:induction false} LittleEndianInjective(a: nat, b: nat, width: nat)
    requires a < Power256(width) && b < Power256(width) && LittleEndian(a, width) == LittleEndian(b, width)
    ensures a == b
  {
    if width > 0 {
      var x, y := LittleEndian(a, width), LittleEndian(b, width);
      assert x[0] == y[0];
      assert x[1..] == LittleEndian(a / 256, width - 1) && y[1..] == LittleEndian(b / 256, width - 1);
      LittleEndianInjective(a / 256, b / 256, width - 1);
    }
  }

  lemma U64Injective(a: u64, b: u64)
    requires LittleEndian(a, 8) == LittleEndian(b, 8)
    ensures a == b
  {
    assert Power256(8) == 0x1_0000_0000_0000_0000;
    LittleEndianInjective(a, b, 8);
  }

  /** What `IdentityOf` guarantees of an identity, and what decoding rests on: at least one shard,
      shard names with the shard suffix, revisions of fixed length. */
  ghost predicate ValidIdentity(id: Identity) {
    && |id.weights.shards| >= 1
    && EndsWith(id.weights.shards[0].name, SHARD_SUFFIX)
    && (id.weights.ByManifest? ==> |id.weights.pinned.revision| == REVISION_LENGTH)
    && (id.weights.ByDigest? && id.weights.marker.Some? ==> |id.weights.marker.value.revision| == REVISION_LENGTH)
  }

  lemma {:induction false} EntriesOfShards(shards: seq<Shard>, entry: Shard -> Option<Entry>, n: nat)
    requires n <= |shards| && AllEntries(shards[..n], entry).Some?
    requires forall s :: entry(s).Some? ==> entry(s).value.name == s.name
    ensures |AllEntries(shards[..n], entry).value| == n
    ensures n > 0 ==> AllEntries(shards[..n], entry).value[0].name == shards[0].name
  {
    if n > 0 {
      assert shards[..n][..n - 1] == shards[..n - 1];
      EntriesOfShards(shards, entry, n - 1);
    }
  }

  lemma IdentityIsValid(m: Model)
    requires ValidModel(m) && IdentityOf(m).Some?
    ensures ValidIdentity(IdentityOf(m).value)
  {
    hide EndsWith;
    var shards := m.shards.value;
    assert shards[..|shards|] == shards;
    assert ShardListed(shards[0]) && EndsWith(shards[0].name, SHARD_SUFFIX) by { ListedEnds(m); }
    if IdentityOf(m).value.weights.ByManifest? {
      EntriesOfShards(shards, MtimeEntry, |shards|);
    } else {
      EntriesOfShards(shards, DigestEntry, |shards|);
    }
  }

  lemma ListedEnds(m: Model)
    requires ValidModel(m) && m.shards.Some? && m.shards.value != []
    ensures ShardListed(m.shards.value[0]) && EndsWith(m.shards.value[0].name, SHARD_SUFFIX)
  {
  }

  /** A shard name is never an identity tag. */
  lemma ShardIsNoTag(name: Bytes)
    requires EndsWith(name, SHARD_SUFFIX)
    ensures name != MANIFEST_TAG && name != DIGEST_TAG
  {
    assert name[|name| - 1] == SHARD_SUFFIX[|SHARD_SUFFIX| - 1] == 's' by {
      assert name[|name| - |SHARD_SUFFIX|..][|SHARD_SUFFIX| - 1] == 's';
    }
    assert MANIFEST_TAG[|MANIFEST_TAG| - 1] == '\0' && DIGEST_TAG[|DIGEST_TAG| - 1] == '\0';
  }

  lemma {:induction false} EntriesInjective(a: seq<Entry>, b: seq<Entry>)
    requires |a| == |b| && EncodeEntries(a) == EncodeEntries(b)
    ensures a == b
  {
    if a != [] {
      var n := |a| - 1;
      ConcatInjective(EncodeEntries(a[..n]), EncodeEntry(a[n]), EncodeEntries(b[..n]), EncodeEntry(b[n]));
      EntriesInjective(a[..n], b[..n]);
      EntryInjective(a[n], b[n]);
      assert a == a[..n] + [a[n]] && b == b[..n] + [b[n]];
    }
  }

  lemma EntryInjective(a: Entry, b: Entry)
    requires EncodeEntry(a) == EncodeEntry(b)
    ensures a == b
  {
    var x, y := EncodeEntry(a), EncodeEntry(b);
    assert x[0] == y[0] && x[1] == y[1] && x[2] == y[2];
    U64Injective(a.size, b.size);
  }

  lemma ProvenanceInjective(a: Provenance, b: Provenance)
    requires |a.revision| == |b.revision| && EncodeProvenance(a) == EncodeProvenance(b)
    ensures a == b
  {
    assert |a.repo| == |b.repo|;
    ConcatInjective(a.repo + "\0", a.revision, b.repo + "\0", b.revision);
    ConcatInjective(a.repo, "\0", b.repo, "\0");
  }

  lemma GeometryInjective(a: Geometry, b: Geometry)
    requires EncodeGeometry(a) == EncodeGeometry(b)
    ensures a == b
  {
    var x, y := EncodeGeometry(a), EncodeGeometry(b);
    assert x[0] == y[0] && x[1] == y[1] && x[2] == y[2] && x[3] == y[3] && x[4] == y[4];
    U64Injective(a.blockSize, b.blockSize);
    U64Injective(a.numLayers, b.numLayers);
    U64Injective(a.numKvHeads, b.numKvHeads);
    U64Injective(a.headSize, b.headSize);
  }

  /** The third component tells whether a config was pushed, and with it the head. */
  lemma HeadsAgree(a: Identity, b: Identity)
    requires ValidIdentity(a) && ValidIdentity(b) && Encode(a) == Encode(b)
    ensures a.modelType == b.modelType && a.config == b.config && a.weights.ByManifest? == b.weights.ByManifest?
  {
    HeadComponents(a);
    HeadComponents(b);
  }

  lemma HeadComponents(id: Identity)
    requires ValidIdentity(id)
    ensures var c := Encode(id);
            && |c| >= 3 && c[0] == id.modelType
            && (id.config.Some? <==> c[2] == MANIFEST_TAG || c[2] == DIGEST_TAG)
            && (id.config.Some? ==> c[1] == id.config.value && c[2] == TagOf(id.weights))
            && (id.config.None? ==> c[1] == TagOf(id.weights))
  {
    ShardIsNoTag(id.weights.shards[0].name);
    FirstEntry(id.weights.shards);
    var head, entries := EncodeHead(id.modelType, id.config, TagOf(id.weights)), EncodeEntries(id.weights.shards);
    assert Encode(id)[..|head|] == head;
    assert Encode(id)[|head|] == entries[0];
  }

  lemma {:induction false} FirstEntry(entries: seq<Entry>)
    requires entries != []
    ensures EncodeEntries(entries)[0] == entries[0].name
  {
    if |entries| > 1 {
      FirstEntry(entries[..|entries| - 1]);
    }
  }

  /** Equal lengths leave one way to share them out between shards, marker and index. */
  lemma LengthsAgree(a: Identity, b: Identity)
    requires ValidIdentity(a) && ValidIdentity(b) && Encode(a) == Encode(b)
    requires a.config == b.config && a.weights.ByManifest? == b.weights.ByManifest?
    ensures |a.weights.shards| == |b.weights.shards|
    ensures |EncodeMarker(a.weights) + EncodeIndex(a.index)| == |EncodeMarker(b.weights) + EncodeIndex(b.index)|
  {
    hide Encode, EncodeMarker, EncodeIndex, ValidIdentity;
    EncodedLength(a);
    EncodedLength(b);
    MiddleLength(a);
    MiddleLength(b);
    ThirdsAgree(|a.weights.shards|, |EncodeMarker(a.weights) + EncodeIndex(a.index)|,
                |b.weights.shards|, |EncodeMarker(b.weights) + EncodeIndex(b.index)|, a.weights.ByManifest?);
  }

  /** Marker and index take one or three components on the manifest path, and none, two or four on the digest
      path. */
  predicate IsMiddleLength(n: nat, byManifest: bool) {
    if byManifest then n == 1 || n == 3 else n == 0 || n == 2 || n == 4
  }

  lemma MiddleLength(id: Identity)
    ensures IsMiddleLength(|EncodeMarker(id.weights) + EncodeIndex(id.index)|, id.weights.ByManifest?)
  {
  }

  /** Two of these lengths never differ by a multiple of three. */
  lemma ThirdsAgree(m: nat, x: nat, n: nat, y: nat, byManifest: bool)
    requires IsMiddleLength(x, byManifest) && IsMiddleLength(y, byManifest) && 3 * m + x == 3 * n + y
    ensures m == n && x == y
  {
  }

  lemma EncodedLength(id: Identity)
    ensures |Encode(id)| == (if id.config.Some? then 3 else 2) + 3 * |id.weights.shards|
                            + |EncodeMarker(id.weights) + EncodeIndex(id.index)| + 5
  {
    hide EncodeMarker, EncodeIndex;
  }

  lemma MiddlesAgree(a: Identity, b: Identity)
    requires ValidIdentity(a) && ValidIdentity(b) && a.weights.ByManifest? == b.weights.ByManifest?
    requires a.weights.shards == b.weights.shards
    requires EncodeMarker(a.weights) + EncodeIndex(a.index) == EncodeMarker(b.weights) + EncodeIndex(b.index)
    ensures a.weights == b.weights && a.index == b.index
  {
    var x, y := EncodeMarker(a.weights) + EncodeIndex(a.index), EncodeMarker(b.weights) + EncodeIndex(b.index);
    assert MARKER_TAG[0] != INDEX_TAG[0];
    assert x != [] ==> x[0] == y[0];
    assert |EncodeMarker(a.weights)| == |EncodeMarker(b.weights)|;
    ConcatInjective(EncodeMarker(a.weights), EncodeIndex(a.index), EncodeMarker(b.weights), EncodeIndex(b.index));
    IndexInjective(a.index, b.index);
    MarkerInjective(a.weights, b.weights);
  }

  lemma IndexInjective(a: Option<Bytes>, b: Option<Bytes>)
    requires EncodeIndex(a) == EncodeIndex(b)
    ensures a == b
  {
    if a.Some? {
      assert EncodeIndex(a)[1] == EncodeIndex(b)[1];
    }
  }

  lemma MarkerInjective(a: Weights, b: Weights)
    requires a.shards == b.shards && a.ByManifest? == b.ByManifest? && EncodeMarker(a) == EncodeMarker(b)
    requires a.ByManifest? ==> |a.pinned.revision| == |b.pinned.revision|
    requires a.ByDigest? && a.marker.Some? && b.marker.Some? ==> |a.marker.value.revision| == |b.marker.value.revision|
    ensures a == b
  {
    if a.ByManifest? {
      assert EncodeMarker(a)[0] == EncodeMarker(b)[0];
      ProvenanceInjective(a.pinned, b.pinned);
    } else if a.marker.Some? {
      assert |EncodeMarker(b)| == 2;
      assert EncodeMarker(a)[1] == EncodeMarker(b)[1];
      ProvenanceInjective(a.marker.value, b.marker.value);
    }
  }

  lemma EncodeSplits(id: Identity)
    ensures Encode(id) == EncodeHead(id.modelType, id.config, TagOf(id.weights)) + (EncodeEntries(id.weights.shards) + EncodeTail(id))
    ensures EncodeTail(id) == (EncodeMarker(id.weights) + EncodeIndex(id.index)) + EncodeGeometry(id.geometry)
  {
    hide EncodeHead, EncodeEntries, EncodeMarker, EncodeIndex, EncodeGeometry;
  }

  /** The component list determines the identity, despite its optional parts. */
  lemma EncodeInjective(a: Identity, b: Identity)
    requires ValidIdentity(a) && ValidIdentity(b) && Encode(a) == Encode(b)
    ensures a == b
  {
    hide Encode, EncodeTail, EncodeEntries, EncodeMarker, EncodeIndex, EncodeGeometry, EncodeHead, ValidIdentity;
    HeadsAgree(a, b);
    LengthsAgree(a, b);
    var head := EncodeHead(a.modelType, a.config, TagOf(a.weights));
    EncodeSplits(a);
    EncodeSplits(b);
    ConcatInjective(head, EncodeEntries(a.weights.shards) + EncodeTail(a), head, EncodeEntries(b.weights.shards) + EncodeTail(b));
    ConcatInjective(EncodeEntries(a.weights.shards), EncodeTail(a), EncodeEntries(b.weights.shards), EncodeTail(b));
    EntriesInjective(a.weights.shards, b.weights.shards);
    ConcatInjective(EncodeMarker(a.weights) + EncodeIndex(a.index), EncodeGeometry(a.geometry),
                    EncodeMarker(b.weights) + EncodeIndex(b.index), EncodeGeometry(b.geometry));
    MiddlesAgree(a, b);
    GeometryInjective(a.geometry, b.geometry);
  }

  /** Two model directories get the same component list exactly when they establish the same
      identity. */
  lemma FingerprintsAgree(m: Model, n: Model)
    requires ValidModel(m) && ValidModel(n) && IdentityOf(m).Some? && IdentityOf(n).Some?
    ensures Encode(IdentityOf(m).value) == Encode(IdentityOf(n).value) <==> IdentityOf(m) == IdentityOf(n)
  {
    hide Encode, IdentityOf, ValidModel;
    IdentityIsValid(m);
    IdentityIsValid(n);
    if Encode(IdentityOf(m).value) == Encode(IdentityOf(n).value) {
      EncodeInjective(IdentityOf(m).value, IdentityOf(n).value);
    }
  }

  /** On the manifest path the entries in turn determine every shard's name, size and modification
      time. */
  lemma {:induction false} EntriesDetermineMetadata(a: seq<Shard>, b: seq<Shard>)
    requires AllEntries(a, MtimeEntry).Some? && AllEntries(a, MtimeEntry) == AllEntries(b, MtimeEntry)
    ensures |a| == |b| && forall i :: 0 <= i < |a| ==> a[i].name == b[i].name && a[i].metadata == b[i].metadata
  {
    if a != [] && b != [] {
      var x, y := AllEntries(a, MtimeEntry).value, AllEntries(b, MtimeEntry).value;
      assert x[..|x| - 1] == AllEntries(a[..|a| - 1], MtimeEntry).value;
      assert y[..|y| - 1] == AllEntries(b[..|b| - 1], MtimeEntry).value;
      EntriesDetermineMetadata(a[..|a| - 1], b[..|b| - 1]);
      assert x[|x| - 1] == y[|y| - 1];
      MtimeInjective(a[|a| - 1].metadata.value.mtime.value, b[|b| - 1].metadata.value.mtime.value);
    }
  }

  lemma MtimeInjective(a: u128, b: u128)
    requires LittleEndian(a, 16) == LittleEndian(b, 16)
    ensures a == b
  {
    assert Power256(8) == 0x1_0000_0000_0000_0000;
    assert Power256(12) == 0x1_0000_0000_0000_0000_0000_0000;
    assert Power256(16) == 0x1_0000_0000_0000_0000_0000_0000_0000_0000;
    LittleEndianInjective(a, b, 16);
  }

  // ---------------------------------------------------------------- which proof a directory gets, and where it stands

  const HEX_DIGITS := "0123456789abcdefABCDEF"

  /** A marker is trusted exactly when its revision is 40 hexadecimal digits. */
  ghost predicate PinnedRevision(m: Model) {
    && m.marker.Some? && m.marker.value.revision.Some?
    && |m.marker.value.revision.value| == 40
    && forall i :: 0 <= i < 40 ==> m.marker.value.revision.value[i] in HEX_DIGITS
  }

  ghost predicate EveryShardListed(m: Model) {
    && m.marker.Some? && m.shards.Some?
    && forall i :: 0 <= i < |m.shards.value| ==> Listed(m.shards.value[i].name, m.marker.value.files)
  }

  ghost predicate Listed(name: Bytes, files: seq<Bytes>) {
    exists f :: f in files && f == name
  }

  lemma HexDigitIs(c: char)
    ensures IsHexDigit(c) <==> c in HEX_DIGITS
  {
    var d := HEX_DIGITS;
    assert d == ['0', '1', '2', '3', '4', '5', '6', '7', '8', '9', 'a', 'b', 'c', 'd', 'e', 'f', 'A', 'B', 'C', 'D', 'E', 'F'];
    if '0' <= c <= '9' {
      assert d[c as int - '0' as int] == c;
    } else if 'a' <= c <= 'f' {
      assert d[c as int - 'a' as int + 10] == c;
    } else if 'A' <= c <= 'F' {
      assert d[c as int - 'A' as int + 16] == c;
    }
  }

  lemma TrustedExactlyWhen(m: Model)
    ensures ReadManifest(m.marker).Some? <==> PinnedRevision(m)
    ensures PinnedRevision(m) ==>
              ReadManifest(m.marker).value == Manifest(m.marker.value.repo, m.marker.value.revision.value, m.marker.value.files)
  {
    if m.marker.Some? && m.marker.value.revision.Some? {
      var revision := m.marker.value.revision.value;
      forall c ensures IsHexDigit(c) <==> c in HEX_DIGITS { HexDigitIs(c); }
      hide IsHexDigit;
      assert (forall c :: c in revision ==> c in HEX_DIGITS) <==> forall i :: 0 <= i < |revision| ==> revision[i] in HEX_DIGITS;
    }
  }

  lemma CoversExactlyWhen(m: Model)
    requires PinnedRevision(m) && m.shards.Some?
    ensures CoversAllShards(ReadManifest(m.marker).value, m.shards.value) <==> EveryShardListed(m)
  {
    hide ReadManifest;
    TrustedExactlyWhen(m);
    AllListed(m.shards.value, m.marker.value.files);
  }

  lemma AllListed(shards: seq<Shard>, files: seq<Bytes>)
    ensures (forall s :: s in shards ==> s.name in files) <==> forall i :: 0 <= i < |shards| ==> Listed(shards[i].name, files)
  {
    forall name: Bytes ensures name in files <==> Listed(name, files) {}
    if forall i :: 0 <= i < |shards| ==> Listed(shards[i].name, files) {
      forall s | s in shards ensures s.name in files {
        var i :| 0 <= i < |shards| && shards[i] == s;
        assert Listed(shards[i].name, files);
      }
    }
  }

  /** What a full digest, or on the manifest path the metadata alone, must yield for every shard. */
  ghost predicate Readable(m: Model)
    requires m.shards.Some?
  {
    var shards := m.shards.value;
    if PinnedRevision(m) && EveryShardListed(m) then
      forall i :: 0 <= i < |shards| ==> shards[i].metadata.Some? && shards[i].metadata.value.mtime.Some?
    else
      forall i :: 0 <= i < |shards| ==> shards[i].digest.Some?
  }

  lemma {:induction false} EntriesAt(shards: seq<Shard>, entry: Shard -> Option<Entry>)
    ensures AllEntries(shards, entry).Some? <==> forall i :: 0 <= i < |shards| ==> entry(shards[i]).Some?
    ensures AllEntries(shards, entry).Some? ==>
              && |AllEntries(shards, entry).value| == |shards|
              && forall i :: 0 <= i < |shards| ==> Some(AllEntries(shards, entry).value[i]) == entry(shards[i])
  {
    if shards != [] {
      var init := shards[..|shards| - 1];
      EntriesAt(init, entry);
      assert forall i :: 0 <= i < |init| ==> init[i] == shards[i];
    }
  }

  /** A directory establishes an identity exactly when weights were materialised, it has a shard, and every
      shard yields what its path needs. */
  lemma IdentityExactlyWhen(m: Model)
    ensures IdentityOf(m).Some? <==> m.witnessBytes > 0 && m.shards.Some? && |m.shards.value| > 0 && Readable(m)
  {
    if m.shards.Some? {
      hide PinnedRevision, EveryShardListed, ReadManifest, CoversAllShards, AllEntries;
      TrustedExactlyWhen(m);
      if PinnedRevision(m) { CoversExactlyWhen(m); }
      EntriesAt(m.shards.value, MtimeEntry);
      EntriesAt(m.shards.value, DigestEntry);
    }
  }

  /** The shards' bytes are bound by metadata alone exactly when a pinned revision lists every shard; otherwise
      by their digests. */
  lemma ManifestPathExactlyWhen(m: Model)
    requires IdentityOf(m).Some?
    ensures m.shards.Some?
    ensures IdentityOf(m).value.weights.ByManifest? <==> PinnedRevision(m) && EveryShardListed(m)
    ensures |IdentityOf(m).value.weights.shards| == |m.shards.value|
    ensures forall i :: 0 <= i < |m.shards.value| ==>
              EntryOf(m.shards.value[i], IdentityOf(m).value.weights.ByManifest?, IdentityOf(m).value.weights.shards[i])
  {
    hide PinnedRevision, EveryShardListed, ReadManifest, CoversAllShards, AllEntries, LittleEndian;
    TrustedExactlyWhen(m);
    if PinnedRevision(m) { CoversExactlyWhen(m); }
    EntriesAt(m.shards.value, MtimeEntry);
    EntriesAt(m.shards.value, DigestEntry);
  }

  /** What a shard contributes: name and size, and its modification time in nanoseconds or its digest. */
  ghost predicate EntryOf(s: Shard, byManifest: bool, e: Entry) {
    && e.name == s.name
    && if byManifest then
         s.metadata.Some? && s.metadata.value.mtime.Some? && e.size == s.metadata.value.size
         && e.proof == LittleEndian(s.metadata.value.mtime.value, 16)
       else
         s.digest.Some? && e.size == s.digest.value.size && e.proof == s.digest.value.sha
  }

  /** Byte `k` of a little-endian number is its `k`-th digit in base 256. */
  lemma {:induction false} LittleEndianDigit(n: nat, width: nat, k: nat)
    requires k < width
    ensures LittleEndian(n, width)[k] as int == n / Power256(k) % 256
  {
    if k > 0 {
      LittleEndianDigit(n / 256, width - 1, k - 1);
      DivideTwice(n, Power256(k - 1));
    }
  }

  lemma DivideTwice(n: nat, p: nat)
    requires p > 0
    ensures n / 256 / p == n / (256 * p)
  {
    var q, r := n / 256, n % 256;
    var a, b := q / p, q % p;
    assert q == a * p + b && n == q * 256 + r;
    assert n == a * (256 * p) + (b * 256 + r);
    assert b * 256 + r < 256 * p;
    DivisionUnique(n, 256 * p, a, b * 256 + r);
  }

  /** Where the pinned marker stands in the list: always on the manifest path, and after its own tag when it
      does not list every shard. */
  ghost predicate MarkerStands(m: Model, c: seq<Bytes>, at: nat, end: nat) {
    if !PinnedRevision(m) then end == at
    else
      var marker := m.marker.value;
      var bytes := (if marker.repo.Some? then marker.repo.value else "") + "\0" + marker.revision.value;
      if EveryShardListed(m) then end == at + 1 <= |c| && c[at] == bytes
      else end == at + 2 <= |c| && c[at] == "download-marker\0" && c[at + 1] == bytes
  }

  ghost predicate IndexStands(index: Option<Bytes>, c: seq<Bytes>, at: nat, end: nat) {
    if index.None? then end == at
    else end == at + 2 <= |c| && c[at] == "index.json\0" && c[at + 1] == index.value
  }

  ghost predicate GeometryStands(g: Geometry, c: seq<Bytes>, at: nat) {
    && |c| == at + 5
    && c[at] == LittleEndian(g.blockSize, 8) && c[at + 1] == LittleEndian(g.numLayers, 8)
    && c[at + 2] == LittleEndian(g.numKvHeads, 8) && c[at + 3] == LittleEndian(g.headSize, 8)
    && c[at + 4] == g.cacheDtype
  }

  ghost predicate ShardStands(s: Shard, byManifest: bool, c: seq<Bytes>, at: nat) {
    && at + 2 < |c| && c[at] == s.name
    && if byManifest then
         s.metadata.Some? && s.metadata.value.mtime.Some?
         && c[at + 1] == LittleEndian(s.metadata.value.size, 8) && c[at + 2] == LittleEndian(s.metadata.value.mtime.value, 16)
       else
         s.digest.Some? && c[at + 1] == LittleEndian(s.digest.value.size, 8) && c[at + 2] == s.digest.value.sha
  }

  lemma {:induction false} EntryStands(entries: seq<Entry>, i: nat)
    requires i < |entries|
    ensures EncodeEntries(entries)[3 * i] == entries[i].name
    ensures EncodeEntries(entries)[3 * i + 1] == LittleEndian(entries[i].size, 8)
    ensures EncodeEntries(entries)[3 * i + 2] == entries[i].proof
  {
    if i < |entries| - 1 {
      EntryStands(entries[..|entries| - 1], i);
    }
  }

  /** The list that is hashed, position by position: type, configuration, the tag of the path, every shard,
      marker, index and geometry. */
  lemma ListStands(m: Model, c: seq<Bytes>) returns (marker: nat, index: nat, geometry: nat)
    requires IdentityOf(m).Some? && c == Encode(IdentityOf(m).value)
    ensures var tag := if m.config.Some? then 2 else 1;
            && m.shards.Some? && marker == tag + 1 + 3 * |m.shards.value| <= |c|
            && c[0] == m.modelType && (m.config.Some? ==> c[1] == m.config.value)
            && c[tag] == (if PinnedRevision(m) && EveryShardListed(m) then "cold-identity:manifest:v1\0" else "cold-identity:full-digest:v1\0")
            && (forall i :: 0 <= i < |m.shards.value| ==>
                  ShardStands(m.shards.value[i], PinnedRevision(m) && EveryShardListed(m), c, tag + 1 + 3 * i))
    ensures MarkerStands(m, c, marker, index) && IndexStands(m.index, c, index, geometry) && GeometryStands(m.geometry, c, geometry)
  {
    hide PinnedRevision, EveryShardListed, EncodeEntries, LittleEndian, IdentityOf, Encode, EncodeTail, EncodeMarker, EncodeIndex, EncodeGeometry,
         EntryOf, ShardStands, MarkerStands, IndexStands, GeometryStands;
    var id := IdentityOf(m).value;
    ManifestPathExactlyWhen(m);
    IdentityParts(m);
    EncodeSplits(id);
    var head, entries := EncodeHead(id.modelType, id.config, TagOf(id.weights)), EncodeEntries(id.weights.shards);
    var byManifest := PinnedRevision(m) && EveryShardListed(m);
    assert c == head + (entries + EncodeTail(id));
    assert c[|head|..|head| + |entries|] == entries;
    marker := |head| + |entries|;
    index := marker + |EncodeMarker(id.weights)|;
    geometry := index + |EncodeIndex(id.index)|;
    forall i | 0 <= i < |m.shards.value| ensures ShardStands(m.shards.value[i], byManifest, c, |head| + 3 * i) {
      ShardOccurs(m.shards.value[i], byManifest, id.weights.shards, i, c, |head|);
    }
    TailStands(m, id, head + entries, c, index, geometry);
  }

  lemma ShardOccurs(s: Shard, byManifest: bool, entries: seq<Entry>, i: nat, c: seq<Bytes>, at: nat)
    requires i < |entries| && EntryOf(s, byManifest, entries[i]) && Occurs(c, at, EncodeEntries(entries))
    ensures ShardStands(s, byManifest, c, at + 3 * i)
  {
    hide EncodeEntries, LittleEndian, Occurs;
    EntryStands(entries, i);
    Occurring(c, at, EncodeEntries(entries), 3 * i);
    Occurring(c, at, EncodeEntries(entries), 3 * i + 1);
    Occurring(c, at, EncodeEntries(entries), 3 * i + 2);
  }

  lemma TailStands(m: Model, id: Identity, body: seq<Bytes>, c: seq<Bytes>, index: nat, geometry: nat)
    requires IdentityOf(m) == Some(id) && c == body + ((EncodeMarker(id.weights) + EncodeIndex(id.index)) + EncodeGeometry(id.geometry))
    requires index == |body| + |EncodeMarker(id.weights)| && geometry == index + |EncodeIndex(id.index)|
    ensures MarkerStands(m, c, |body|, index) && IndexStands(m.index, c, index, geometry) && GeometryStands(m.geometry, c, geometry)
  {
    hide IdentityOf, EncodeMarker, EncodeIndex, EncodeGeometry, MarkerStands, IndexStands, GeometryStands, Occurs;
    var x, y, z := EncodeMarker(id.weights), EncodeIndex(id.index), EncodeGeometry(id.geometry);
    ThreeOccur(body, x, y, z);
    assert body + ((x + y) + z) == c;
    IdentityParts(m);
    MarkerOccurs(m, id, c, |body|);
    IndexOccurs(m.index, c, index);
    GeometryOccurs(m.geometry, c, geometry);
    assert |c| == geometry + |z|;
  }

  ghost predicate Occurs(c: seq<Bytes>, at: nat, piece: seq<Bytes>) {
    at + |piece| <= |c| && c[at..at + |piece|] == piece
  }

  lemma Occurring(c: seq<Bytes>, at: nat, piece: seq<Bytes>, k: nat)
    requires Occurs(c, at, piece) && k < |piece|
    ensures at + |piece| <= |c| && c[at + k] == piece[k]
  {
    assert c[at..at + |piece|][k] == c[at + k];
  }

  lemma ThreeOccur(body: seq<Bytes>, x: seq<Bytes>, y: seq<Bytes>, z: seq<Bytes>)
    ensures var c := body + ((x + y) + z);
            && Occurs(c, |body|, x) && Occurs(c, |body| + |x|, y) && Occurs(c, |body| + |x| + |y|, z)
            && |c| == |body| + |x| + |y| + |z|
  {
    var c := body + ((x + y) + z);
    assert c == (body + x) + (y + z) && c == (body + x + y) + z;
  }

  lemma MarkerOccurs(m: Model, id: Identity, c: seq<Bytes>, at: nat)
    requires IdentityOf(m) == Some(id) && Occurs(c, at, EncodeMarker(id.weights))
    ensures MarkerStands(m, c, at, at + |EncodeMarker(id.weights)|)
  {
    hide PinnedRevision, EveryShardListed, IdentityOf;
    IdentityParts(m);
    ManifestPathExactlyWhen(m);
    var x := EncodeMarker(id.weights);
    if x != [] { Occurring(c, at, x, 0); }
    if |x| == 2 { Occurring(c, at, x, 1); }
  }

  lemma IndexOccurs(index: Option<Bytes>, c: seq<Bytes>, at: nat)
    requires Occurs(c, at, EncodeIndex(index))
    ensures IndexStands(index, c, at, at + |EncodeIndex(index)|)
  {
    if index.Some? {
      Occurring(c, at, EncodeIndex(index), 0);
      Occurring(c, at, EncodeIndex(index), 1);
    }
  }

  lemma GeometryOccurs(g: Geometry, c: seq<Bytes>, at: nat)
    requires Occurs(c, at, EncodeGeometry(g)) && |c| == at + |EncodeGeometry(g)|
    ensures GeometryStands(g, c, at)
  {
    hide LittleEndian;
    Occurring(c, at, EncodeGeometry(g), 0);
    Occurring(c, at, EncodeGeometry(g), 1);
    Occurring(c, at, EncodeGeometry(g), 2);
    Occurring(c, at, EncodeGeometry(g), 3);
    Occurring(c, at, EncodeGeometry(g), 4);
  }

  lemma IdentityParts(m: Model)
    requires IdentityOf(m).Some?
    ensures var id := IdentityOf(m).value;
            && id.modelType == m.modelType && id.config == m.config && id.index == m.index && id.geometry == m.geometry
            && (PinnedRevision(m) ==>
                  var p := Provenance(if m.marker.value.repo.Some? then m.marker.value.repo.value else "", m.marker.value.revision.value);
                  if id.weights.ByManifest? then id.weights.pinned == p else id.weights.marker == Some(p))
            && (!PinnedRevision(m) ==> id.weights.ByDigest? && id.weights.marker.None?)
  {
    hide PinnedRevision, ReadManifest, CoversAllShards, AllEntries;
    TrustedExactlyWhen(m);
  }
}
