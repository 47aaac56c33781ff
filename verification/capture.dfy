/** Writing one capture, and reading captures back, against an archive other writers keep adding to. */
module Capture {
  import opened Bytes
  import opened Numerals
  import opened CaptureNames
  import opened CaptureProtocol

  datatype BackupError = TooLarge | AlreadyExists | PutFailed | CapturedNothing | NotFound | NotAManifest | Integrity | NoSuchCapture
  datatype Result<+T> = Ok(value: T) | Err(error: BackupError)

  // ----- Writing -----

  /** The object store, as one writer meets it. */
  class Archive {
    var objects: Store

    /** Other writers' objects appear. Theirs are create-only too, so what is stored stays. */
    method Absorb(others: Store)
      modifies this
      ensures objects == others + old(objects) && Extends(old(objects), objects)
    {
      objects := others + objects;
    }

    /** `put_new`; `put` is what becomes of the request when the key is free. */
    method PutNew(key: (seq<u8>, seq<u8>), bytes: seq<u8>, put: Put) returns (r: Result<()>)
      modifies this
      ensures r == if key in old(objects) then Err(AlreadyExists) else if put == Acknowledged then Ok(()) else Err(PutFailed)
      ensures objects == PutInto(old(objects), key, bytes, if key in old(objects) then Nothing else put)
      ensures Extends(old(objects), objects)
    {
      if key in objects {
        return Err(AlreadyExists);
      }
      if put != Nothing {
        objects := objects[key := bytes];
      }
      return if put == Acknowledged then Ok(()) else Err(PutFailed);
    }

    /** `upload_capped` at the artifact's limit. */
    method UploadArtifact(c: Codec, id: seq<u8>, u: Upload, put: Put) returns (r: Result<Artifact>)
      requires u.name != MANIFEST
      modifies this
      ensures Extends(old(objects), objects)
      ensures forall k :: k in objects && k !in old(objects) ==> k == (id, u.name)
      ensures r.Ok? ==> r.value == ArtifactOf(c, u) && Holds(c, objects, id, r.value)
      ensures r == Err(TooLarge) <==> |u.bytes| > ByteLimit(u.name)
      ensures r == Err(AlreadyExists) <==> |u.bytes| <= ByteLimit(u.name) && (id, u.name) in old(objects)
      ensures r == Err(TooLarge) || r == Err(AlreadyExists) ==> objects == old(objects)
    {
      if |u.bytes| > ByteLimit(u.name) {
        return Err(TooLarge);
      }
      var artifact := ArtifactOf(c, u);
      var stored := PutNew((id, u.name), u.bytes, put);
      if stored.Err? {
        return Err(stored.error);
      }
      return Ok(artifact);
    }
  }

  /** The manifest of a finished job. */
  function JobManifest(c: Codec, job: Job): Manifest {
    Manifest(job.id, job.capturedAtMs, job.logDir, job.bootstrapServer, Artifacts(c, job.uploads))
  }

  /** `run_capture`: every artifact, then the manifest. Before put `i`, whatever `others(i)` holds has
      appeared; `puts(i)` is what becomes of the request. Success means a complete capture; nothing stored
      before is ever touched; and only an unanswered put can leave a manifest behind an error. */
  method RunCapture(c: Codec, archive: Archive, job: Job, others: nat -> Store, puts: nat -> Put) returns (r: Result<seq<u8>>)
    requires NoManifestUpload(job)
    modifies archive
    ensures Extends(old(archive.objects), archive.objects)
    ensures r.Ok? ==>
      && r.value == job.id && (job.id, MANIFEST) in archive.objects
      && archive.objects[(job.id, MANIFEST)] == c.encode(JobManifest(c, job)) && |archive.objects[(job.id, MANIFEST)]| <= ByteLimit(MANIFEST)
      && job.uploads != [] && HoldsAll(c, archive.objects, job.id, Artifacts(c, job.uploads))
    ensures r.Err? && (job.id, MANIFEST) in archive.objects ==>
      || (exists i :: 0 <= i <= |job.uploads| && (job.id, MANIFEST) in others(i))
      || (job.id, MANIFEST) in old(archive.objects) || puts(|job.uploads|) == Unknown
  {
    hide Holds, ByteLimit;
    var artifacts := [];
    for i := 0 to |job.uploads|
      invariant Extends(old(archive.objects), archive.objects)
      invariant artifacts == Artifacts(c, job.uploads[..i]) && HoldsAll(c, archive.objects, job.id, artifacts)
      invariant (job.id, MANIFEST) in archive.objects ==>
        (exists k :: 0 <= k < i && (job.id, MANIFEST) in others(k)) || (job.id, MANIFEST) in old(archive.objects)
    {
      ghost var before := archive.objects;
      archive.Absorb(others(i));
      var artifact := archive.UploadArtifact(c, job.id, job.uploads[i], puts(i));
      if artifact.Err? {
        return Err(artifact.error);
      }
      HoldsLater(c, before, archive.objects, job.id, artifacts);
      assert job.uploads[..i + 1] == job.uploads[..i] + [job.uploads[i]];
      artifacts := artifacts + [artifact.value];
    }
    assert job.uploads[..|job.uploads|] == job.uploads;
    if artifacts == [] {
      return Err(CapturedNothing);
    }
    var encoded := c.encode(Manifest(job.id, job.capturedAtMs, job.logDir, job.bootstrapServer, artifacts));
    if |encoded| > ByteLimit(MANIFEST) {
      return Err(TooLarge);
    }
    ghost var before := archive.objects;
    archive.Absorb(others(|job.uploads|));
    var published := archive.PutNew((job.id, MANIFEST), encoded, puts(|job.uploads|));
    HoldsLater(c, before, archive.objects, job.id, artifacts);
    return if published.Ok? then Ok(job.id) else Err(published.error);
  }

  // ----- Reading -----

  /** What the archive holds at the time of the i-th read. */
  type History = nat -> Store

  ghost predicate Grows(h: History) { forall i, j :: 0 <= i <= j ==> Extends(h(i), h(j)) }

  /** Every moment of the history is a store some run of the protocol reaches, so every manifest in it is
      the commit record of a complete capture. */
  ghost predicate AlwaysSound(c: Codec, h: History) { forall i :: Sound(c, h(i)) }

  /** `get_capped`. */
  function GetCapped(store: Store, key: (seq<u8>, seq<u8>), max: nat): Result<seq<u8>> {
    if key !in store then Err(NotFound) else if |store[key]| > max then Err(TooLarge) else Ok(store[key])
  }

  /** `read_manifest`. */
  function ReadManifest(c: Codec, store: Store, id: seq<u8>): Result<Manifest> {
    match GetCapped(store, (id, MANIFEST), ByteLimit(MANIFEST))
    case Err(e) => Err(e)
    case Ok(bytes) => if c.decode(bytes) == None then Err(NotAManifest) else Ok(c.decode(bytes).value)
  }

  datatype Problem = WrongSize(name: seq<u8>) | WrongDigest(name: seq<u8>)

  /** `artifact_problem`. */
  function ArtifactProblem(c: Codec, expected: Artifact, actual: seq<u8>): Option<Problem> {
    if |actual| != expected.sizeBytes then Some(WrongSize(expected.name))
    else if c.sha256(actual) != expected.sha256 then Some(WrongDigest(expected.name))
    else None
  }

  /** The read of an artifact for checking. */
  function Fetch(store: Store, id: seq<u8>, a: Artifact): Result<seq<u8>> { GetCapped(store, (id, a.name), ByteLimit(a.name)) }

  predicate Verifies(c: Codec, store: Store, id: seq<u8>, a: Artifact) {
    Fetch(store, id, a).Ok? && ArtifactProblem(c, a, Fetch(store, id, a).value) == None
  }

  /** The archive holds the artifact with the size and the digest its manifest records, within its limit. */
  predicate AsRecorded(c: Codec, store: Store, id: seq<u8>, a: Artifact) {
    && (id, a.name) in store
    && |store[(id, a.name)]| == a.sizeBytes <= ByteLimit(a.name) && c.sha256(store[(id, a.name)]) == a.sha256
  }

  /** An artifact verifies exactly when it is stored as recorded: a byte more, a byte less or other bytes of
      the same length are found. */
  lemma VerifiesIff(c: Codec, store: Store, id: seq<u8>, a: Artifact)
    ensures Verifies(c, store, id, a) <==> AsRecorded(c, store, id, a)
  {
  }

  /** Reads before `k` all succeed, and read `k` does not. */
  predicate FirstUnreadable(h: History, id: seq<u8>, artifacts: seq<Artifact>, k: nat) {
    k < |artifacts| && Fetch(h(k + 1), id, artifacts[k]).Err? && forall i :: 0 <= i < k ==> Fetch(h(i + 1), id, artifacts[i]).Ok?
  }

  /** `verify_inner`, the manifest read first and artifact `i` at read `i + 1`: it passes exactly when the
      manifest can be read and every artifact is stored as recorded. A read that fails is the error; if none
      does, an artifact that is not as recorded is an integrity error. */
  method VerifyCapture(c: Codec, h: History, id: seq<u8>) returns (r: Result<nat>)
    ensures r.Ok? <==>
      var m := ReadManifest(c, h(0), id);
      m.Ok? && forall i :: 0 <= i < |m.value.artifacts| ==> AsRecorded(c, h(i + 1), id, m.value.artifacts[i])
    ensures r.Ok? ==> r.value == |ReadManifest(c, h(0), id).value.artifacts|
    ensures ReadManifest(c, h(0), id).Err? ==> r == Err(ReadManifest(c, h(0), id).error)
    ensures ReadManifest(c, h(0), id).Ok? && r.Err? ==>
      var artifacts := ReadManifest(c, h(0), id).value.artifacts;
      || (exists k: nat :: FirstUnreadable(h, id, artifacts, k) && Fetch(h(k + 1), id, artifacts[k]) == Err(r.error))
      || (r == Err(Integrity) && forall k: nat :: !FirstUnreadable(h, id, artifacts, k))
  {
    hide GetCapped, ByteLimit;
    var manifest := ReadManifest(c, h(0), id);
    if manifest.Err? {
      return Err(manifest.error);
    }
    var artifacts := manifest.value.artifacts;
    var problems: seq<Problem> := [];
    forall i | 0 <= i < |artifacts| ensures Verifies(c, h(i + 1), id, artifacts[i]) <==> AsRecorded(c, h(i + 1), id, artifacts[i]) {
      VerifiesIff(c, h(i + 1), id, artifacts[i]);
    }
    for i := 0 to |artifacts|
      invariant forall k :: 0 <= k < i ==> Fetch(h(k + 1), id, artifacts[k]).Ok?
      invariant problems == [] <==> forall k :: 0 <= k < i ==> Verifies(c, h(k + 1), id, artifacts[k])
    {
      var bytes := Fetch(h(i + 1), id, artifacts[i]);
      if bytes.Err? {
        assert FirstUnreadable(h, id, artifacts, i);
        return Err(bytes.error);
      }
      var problem := ArtifactProblem(c, artifacts[i], bytes.value);
      if problem.Some? {
        problems := problems + [problem.value];
      }
    }
    if problems != [] {
      return Err(Integrity);
    }
    return Ok(|artifacts|);
  }

  /** The two ways a read fails: the object is not there, or is over its limit. */
  lemma FetchFails(store: Store, id: seq<u8>, a: Artifact)
    ensures Fetch(store, id, a) ==
      if (id, a.name) !in store then Err(NotFound)
      else if |store[(id, a.name)]| > ByteLimit(a.name) then Err(TooLarge)
      else Ok(store[(id, a.name)])
  {
  }

  /** A manifest reads as `m` exactly when its object is there, within its limit, and decodes to `m`. */
  lemma ManifestIff(c: Codec, store: Store, id: seq<u8>, m: Manifest)
    ensures var key := (id, Ascii("manifest.json"));
      ReadManifest(c, store, id) == Ok(m) <==> key in store && |store[key]| <= 8 * 1024 * 1024 && c.decode(store[key]) == Some(m)
  {
  }

  lemma HeldVerifies(c: Codec, store: Store, id: seq<u8>, a: Artifact)
    requires Holds(c, store, id, a)
    ensures Verifies(c, store, id, a)
  {
  }

  /** Whatever is committed when verification starts passes it, however the archive grows meanwhile. */
  lemma CommittedVerifies(c: Codec, h: History, id: seq<u8>)
    requires Grows(h) && Sound(c, h(0)) && (id, MANIFEST) in h(0)
    ensures var m := ReadManifest(c, h(0), id);
      && m.Ok? && m.value.captureId == id
      && forall i :: 0 <= i < |m.value.artifacts| ==> Verifies(c, h(i + 1), id, m.value.artifacts[i])
  {
    hide Holds, Verifies, ByteLimit;
    assert Complete(c, h(0), id);
    var artifacts := ReadManifest(c, h(0), id).value.artifacts;
    forall i | 0 <= i < |artifacts| ensures Verifies(c, h(i + 1), id, artifacts[i]) {
      assert Extends(h(0), h(i + 1));
      HoldsLater(c, h(0), h(i + 1), id, artifacts);
      HeldVerifies(c, h(i + 1), id, artifacts[i]);
    }
  }

  // ----- The latest capture -----

  predicate Descending(ids: seq<seq<u8>>) { forall i, j :: 0 <= i < j < |ids| ==> Before(ids[j], ids[i]) }

  /** `ids` is the listing of `store`: the directory of every object in it, newest first. */
  predicate Lists(ids: seq<seq<u8>>, store: Store) {
    Descending(ids) && forall key :: key in store ==> key.0 in ids
  }

  /** The first listed id, from `from` on, whose manifest is not absent when it is read. The listing is of
      `h(0)`, and manifest `i` is read from `h(i + 1)`. */
  function FirstPresent(c: Codec, h: History, ids: seq<seq<u8>>, from: nat): (at: nat)
    requires from <= |ids|
    ensures from <= at <= |ids| && forall j :: from <= j < at ==> ReadManifest(c, h(j + 1), ids[j]) == Err(NotFound)
    ensures at < |ids| ==> ReadManifest(c, h(at + 1), ids[at]) != Err(NotFound)
    decreases |ids| - from
  {
    if from == |ids| || ReadManifest(c, h(from + 1), ids[from]) != Err(NotFound) then from
    else FirstPresent(c, h, ids, from + 1)
  }

  /** `resolve_capture` of `latest`: the newest listed id whose manifest is there when it is read. */
  method ResolveLatest(c: Codec, h: History, ids: seq<seq<u8>>) returns (r: Result<seq<u8>>)
    ensures var at := FirstPresent(c, h, ids, 0);
      && (at == |ids| ==> r == Err(NoSuchCapture))
      && (at < |ids| ==>
          match ReadManifest(c, h(at + 1), ids[at])
          case Ok(_) => r == Ok(ids[at])
          case Err(e) => r == Err(e) && e != NoSuchCapture)
  {
    hide ReadManifest;
    for i := 0 to |ids|
      invariant FirstPresent(c, h, ids, 0) == FirstPresent(c, h, ids, i)
    {
      var manifest := ReadManifest(c, h(i + 1), ids[i]);
      if manifest.Ok? {
        return Ok(ids[i]);
      }
      NoOtherErrors(c, h(i + 1), ids[i]);
      if manifest.error != NotFound {
        return Err(manifest.error);
      }
    }
    return Err(NoSuchCapture);
  }

  lemma NoOtherErrors(c: Codec, store: Store, id: seq<u8>)
    ensures ReadManifest(c, store, id).Err? ==> ReadManifest(c, store, id).error in {NotFound, TooLarge, NotAManifest}
  {
  }

  lemma {:induction false} BeforeIsOneWay(a: seq<u8>, b: seq<u8>)
    requires Before(a, b)
    ensures !Before(b, a)
  {
    if a != [] && a[0] == b[0] {
      BeforeIsOneWay(a[1..], b[1..]);
    }
  }

  lemma SoundRead(c: Codec, store: Store, id: seq<u8>)
    requires Sound(c, store)
    ensures ReadManifest(c, store, id).Ok? <==> (id, MANIFEST) in store
    ensures (id, MANIFEST) !in store ==> ReadManifest(c, store, id) == Err(NotFound)
  {
    hide HoldsAll;
    assert Complete(c, store, id);
  }

  /** `latest` is no older than anything committed when the listing was taken; it fails only if nothing
      was. */
  lemma LatestIsNewest(c: Codec, h: History, ids: seq<seq<u8>>, id: seq<u8>)
    requires Grows(h) && AlwaysSound(c, h) && Lists(ids, h(0)) && (id, MANIFEST) in h(0)
    ensures var at := FirstPresent(c, h, ids, 0); at < |ids| && !Before(ids[at], id)
  {
    hide ReadManifest, Before, Sound;
    var at := FirstPresent(c, h, ids, 0);
    assert (id, MANIFEST).0 in ids;
    var k :| 0 <= k < |ids| && ids[k] == id;
    if k < at {
      assert Extends(h(0), h(k + 1)) && Sound(c, h(k + 1));
      SoundRead(c, h(k + 1), id);
    } else if k > at {
      BeforeIsOneWay(ids[k], ids[at]);
    } else {
      BeforeIsStrict(id);
    }
  }

  /** In a sound archive no read of a manifest fails for any reason but its absence, so `latest` never stops
      on a broken capture: whatever it stops at is committed. */
  lemma LatestIsCommitted(c: Codec, h: History, ids: seq<seq<u8>>)
    requires AlwaysSound(c, h)
    ensures var at := FirstPresent(c, h, ids, 0);
      at < |ids| ==> ReadManifest(c, h(at + 1), ids[at]).Ok? && (ids[at], MANIFEST) in h(at + 1)
  {
    hide ReadManifest, Sound;
    var at := FirstPresent(c, h, ids, 0);
    if at < |ids| {
      SoundRead(c, h(at + 1), ids[at]);
    }
  }

  // ----- Readers beside any writers -----

  /** The store after the first `n` actions of a run. */
  function StoreAfter(c: Codec, trace: seq<Action>, n: nat): Store {
    var run := trace[..if n < |trace| then n else |trace|];
    if Legal(c, run) then Run(c, run).store else map[]
  }

  /** What a reader sees of a run if its i-th read comes after `cut(i)` actions. */
  function Seen(c: Codec, trace: seq<Action>, cut: nat -> nat): History { i => StoreAfter(c, trace, cut(i)) }

  ghost predicate Monotone(cut: nat -> nat) { forall i, j :: 0 <= i <= j ==> cut(i) <= cut(j) }

  lemma StoresAlongRun(c: Codec, trace: seq<Action>, m: nat, n: nat)
    requires Faithful(c) && Legal(c, trace) && m <= n
    ensures Sound(c, StoreAfter(c, trace, m)) && Extends(StoreAfter(c, trace, m), StoreAfter(c, trace, n))
  {
    hide Enabled, Next, Extends, Sound, Legal, Run;
    var (i, j) := (if m < |trace| then m else |trace|, if n < |trace| then n else |trace|);
    PrefixRuns(c, trace, i, j);
    InvOfRun(c, trace[..i]);
  }

  /** Whatever the writers of a run do, and whenever the reads come, a reader sees a growing history of sound
      stores. */
  lemma RunsAreHistories(c: Codec, trace: seq<Action>, cut: nat -> nat)
    requires Faithful(c) && Legal(c, trace) && Monotone(cut)
    ensures Grows(Seen(c, trace, cut)) && AlwaysSound(c, Seen(c, trace, cut))
  {
    hide Extends, Sound, StoreAfter, Faithful, Legal;
    forall i: nat ensures Sound(c, StoreAfter(c, trace, cut(i))) {
      StoresAlongRun(c, trace, cut(i), cut(i));
    }
    forall i, j | 0 <= i <= j ensures Extends(StoreAfter(c, trace, cut(i)), StoreAfter(c, trace, cut(j))) {
      assert cut(i) <= cut(j);
      StoresAlongRun(c, trace, cut(i), cut(j));
    }
  }

  /** So `latest`, resolved beside any run, is a committed capture no older than any that was committed when
      it was listed, and fails only if there was none. */
  lemma LatestOfRun(c: Codec, trace: seq<Action>, cut: nat -> nat, ids: seq<seq<u8>>, id: seq<u8>)
    requires Faithful(c) && Legal(c, trace) && Monotone(cut)
    requires Lists(ids, StoreAfter(c, trace, cut(0))) && (id, MANIFEST) in StoreAfter(c, trace, cut(0))
    ensures var at := FirstPresent(c, Seen(c, trace, cut), ids, 0);
      && at < |ids| && !Before(ids[at], id)
      && (ids[at], MANIFEST) in StoreAfter(c, trace, cut(at + 1))
      && ReadManifest(c, StoreAfter(c, trace, cut(at + 1)), ids[at]).Ok?
  {
    hide StoreAfter, ReadManifest, Lists, Before, Grows, AlwaysSound, Monotone, FirstPresent;
    var h := Seen(c, trace, cut);
    RunsAreHistories(c, trace, cut);
    LatestIsNewest(c, h, ids, id);
    LatestIsCommitted(c, h, ids);
  }

  /** And every capture of a run passes verification from its commit on, whenever the reads come. */
  lemma CapturesVerify(c: Codec, trace: seq<Action>, cut: nat -> nat, id: seq<u8>)
    requires Faithful(c) && Legal(c, trace) && Monotone(cut) && (id, MANIFEST) in StoreAfter(c, trace, cut(0))
    ensures var m := ReadManifest(c, StoreAfter(c, trace, cut(0)), id);
      && m.Ok? && m.value.captureId == id
      && forall i :: 0 <= i < |m.value.artifacts| ==> Verifies(c, StoreAfter(c, trace, cut(i + 1)), id, m.value.artifacts[i])
  {
    hide StoreAfter, ReadManifest, Verifies, Sound, Monotone;
    RunsAreHistories(c, trace, cut);
    CommittedVerifies(c, Seen(c, trace, cut), id);
  }

  lemma PrefixRuns(c: Codec, trace: seq<Action>, m: nat, n: nat)
    requires Legal(c, trace) && m <= n <= |trace|
    ensures Legal(c, trace[..m]) && Legal(c, trace[..n])
    ensures Extends(Run(c, trace[..m]).store, Run(c, trace[..n]).store)
  {
    hide Enabled, Next, Extends;
    assert trace[..n] + trace[n..] == trace && trace[..m] + trace[m..n] == trace[..n];
    CapturesAreImmutable(c, trace[..n], trace[n..]);
    CapturesAreImmutable(c, trace[..m], trace[m..n]);
  }
}
