/** Backup captures into a shared archive: any number of writers, interleaved in any way, each crashing at
    any point and each put acknowledged, refused, or landed without its writer knowing. */
module CaptureProtocol {
  import opened Bytes
  import opened Numerals

  // ----- Objects -----

  datatype Artifact = Artifact(name: seq<u8>, source: seq<u8>, sizeBytes: nat, sha256: seq<u8>)

  datatype Manifest = Manifest(
    captureId: seq<u8>, capturedAtMs: nat, logDir: Option<seq<u8>>, bootstrapServer: Option<seq<u8>>, artifacts: seq<Artifact>)

  /** The manifest's JSON form and SHA-256. */
  datatype Codec = Codec(encode: Manifest -> seq<u8>, decode: seq<u8> -> Option<Manifest>, sha256: seq<u8> -> seq<u8>)

  ghost predicate Faithful(c: Codec) { forall m :: c.decode(c.encode(m)) == Some(m) }

  const MANIFEST := Ascii("manifest.json")
  const RLMM_SNAPSHOT := Ascii("rlmm-snapshot")
  const METADATA_CHECKPOINT := Ascii("cluster-metadata.checkpoint")
  const GROUP_OFFSETS := Ascii("group-offsets.json")

  const MIB := 1024 * 1024

  /** `artifact_byte_limit`. */
  function ByteLimit(name: seq<u8>): nat {
    if name == MANIFEST then 8 * MIB
    else if name == GROUP_OFFSETS then 64 * MIB
    else if name == METADATA_CHECKPOINT || name == RLMM_SNAPSHOT then 512 * MIB
    else 256 * MIB
  }

  /** The limits by name, in bytes. */
  lemma Limits(name: seq<u8>)
    ensures ByteLimit(Ascii("manifest.json")) == 8_388_608
    ensures ByteLimit(Ascii("group-offsets.json")) == 67_108_864
    ensures ByteLimit(Ascii("cluster-metadata.checkpoint")) == ByteLimit(Ascii("rlmm-snapshot")) == 536_870_912
    ensures name !in {Ascii("manifest.json"), Ascii("group-offsets.json"), Ascii("cluster-metadata.checkpoint"), Ascii("rlmm-snapshot")} ==>
      ByteLimit(name) == 268_435_456
  {
    assert |Ascii("manifest.json")| == 13 && |Ascii("rlmm-snapshot")| == 13 && |Ascii("group-offsets.json")| == 18;
    assert Ascii("manifest.json")[0] != Ascii("rlmm-snapshot")[0];
  }

  /** The archive, by capture id and object name. */
  type Store = map<(seq<u8>, seq<u8>), seq<u8>>

  // ----- Writers -----

  datatype Upload = Upload(name: seq<u8>, source: seq<u8>, bytes: seq<u8>)

  /** One capture: its id, which nothing keeps apart from another's, and what it uploads in order. */
  datatype Job = Job(id: seq<u8>, capturedAtMs: nat, logDir: Option<seq<u8>>, bootstrapServer: Option<seq<u8>>, uploads: seq<Upload>)

  datatype Stage = Running | Committed | Failed
  datatype Writer = Writer(job: Job, artifacts: seq<Artifact>, stage: Stage)
  datatype State = State(store: Store, writers: seq<Writer>)

  /** A create-only put is acknowledged, lands with its answer lost, or leaves nothing. */
  datatype Put = Acknowledged | Unknown | Nothing

  datatype Action = Start(job: Job) | UploadNext(w: nat, put: Put) | Publish(w: nat, put: Put) | Abandon(w: nat)

  function ArtifactOf(c: Codec, u: Upload): Artifact { Artifact(u.name, u.source, |u.bytes|, c.sha256(u.bytes)) }

  function ManifestOf(w: Writer): Manifest {
    Manifest(w.job.id, w.job.capturedAtMs, w.job.logDir, w.job.bootstrapServer, w.artifacts)
  }

  predicate IsRunning(s: State, w: nat) { w < |s.writers| && s.writers[w].stage == Running }

  /** `put_new` never replaces an object. */
  predicate CanPut(s: State, key: (seq<u8>, seq<u8>), put: Put) { key in s.store ==> put == Nothing }

  predicate Enabled(c: Codec, s: State, a: Action) {
    match a
    case Start(job) => NoManifestUpload(job)
    case UploadNext(w, put) =>
      && IsRunning(s, w) && |s.writers[w].artifacts| < |s.writers[w].job.uploads|
      && var (writer, u) := (s.writers[w], s.writers[w].job.uploads[|s.writers[w].artifacts|]);
      && |u.bytes| <= ByteLimit(u.name) && CanPut(s, (writer.job.id, u.name), put)
    case Publish(w, put) =>
      && IsRunning(s, w) && |s.writers[w].artifacts| == |s.writers[w].job.uploads| > 0
      && |c.encode(ManifestOf(s.writers[w]))| <= ByteLimit(MANIFEST)
      && CanPut(s, (s.writers[w].job.id, MANIFEST), put)
    case Abandon(w) => IsRunning(s, w)
  }

  function PutInto(store: Store, key: (seq<u8>, seq<u8>), bytes: seq<u8>, put: Put): Store {
    if put == Nothing then store else store[key := bytes]
  }

  function Next(c: Codec, s: State, a: Action): State
    requires Enabled(c, s, a)
  {
    match a
    case Start(job) => s.(writers := s.writers + [Writer(job, [], Running)])
    case UploadNext(w, put) =>
      var writer := s.writers[w];
      var u := writer.job.uploads[|writer.artifacts|];
      State(PutInto(s.store, (writer.job.id, u.name), u.bytes, put),
            s.writers[w := if put == Acknowledged then writer.(artifacts := writer.artifacts + [ArtifactOf(c, u)])
                           else writer.(stage := Failed)])
    case Publish(w, put) =>
      var writer := s.writers[w];
      State(PutInto(s.store, (writer.job.id, MANIFEST), c.encode(ManifestOf(writer)), put),
            s.writers[w := writer.(stage := if put == Acknowledged then Committed else Failed)])
    case Abandon(w) => s.(writers := s.writers[w := s.writers[w].(stage := Failed)])
  }

  predicate Legal(c: Codec, trace: seq<Action>)
    decreases |trace|, 0
  {
    trace == [] || (Legal(c, trace[..|trace| - 1]) && Enabled(c, Run(c, trace[..|trace| - 1]), trace[|trace| - 1]))
  }

  function Run(c: Codec, trace: seq<Action>): State
    requires Legal(c, trace)
    decreases |trace|, 1
  {
    if trace == [] then State(map[], []) else Next(c, Run(c, trace[..|trace| - 1]), trace[|trace| - 1])
  }

  // ----- What every step keeps -----

  /** The archive holds exactly the bytes the artifact records, within what a reader will take. */
  predicate Holds(c: Codec, store: Store, id: seq<u8>, a: Artifact) {
    && a.name != MANIFEST && (id, a.name) in store
    && |store[(id, a.name)]| == a.sizeBytes <= ByteLimit(a.name) && c.sha256(store[(id, a.name)]) == a.sha256
  }

  predicate HoldsAll(c: Codec, store: Store, id: seq<u8>, artifacts: seq<Artifact>) {
    forall i :: 0 <= i < |artifacts| ==> Holds(c, store, id, artifacts[i])
  }

  /** A stored manifest is readable, is its capture's, and every artifact it names is there. */
  predicate Complete(c: Codec, store: Store, id: seq<u8>) {
    (id, MANIFEST) in store ==>
      var bytes := store[(id, MANIFEST)];
      && |bytes| <= ByteLimit(MANIFEST) && c.decode(bytes).Some?
      && var m := c.decode(bytes).value;
      m.captureId == id && m.artifacts != [] && HoldsAll(c, store, id, m.artifacts)
  }

  ghost predicate Sound(c: Codec, store: Store) { forall id :: Complete(c, store, id) }

  predicate NoManifestUpload(job: Job) { forall i :: 0 <= i < |job.uploads| ==> job.uploads[i].name != MANIFEST }

  predicate WriterInv(c: Codec, store: Store, w: Writer) {
    NoManifestUpload(w.job) && HoldsAll(c, store, w.job.id, w.artifacts)
  }

  ghost predicate Inv(c: Codec, s: State) {
    && Sound(c, s.store)
    && forall i :: 0 <= i < |s.writers| ==> WriterInv(c, s.store, s.writers[i])
  }

  /** Nothing stored is ever removed or replaced. */
  predicate Extends(a: Store, b: Store) { forall k :: k in a ==> k in b && b[k] == a[k] }

  lemma StepExtends(c: Codec, s: State, a: Action)
    requires Enabled(c, s, a)
    ensures Extends(s.store, Next(c, s, a).store)
  {
  }

  lemma HoldsLater(c: Codec, before: Store, after: Store, id: seq<u8>, artifacts: seq<Artifact>)
    requires Extends(before, after) && HoldsAll(c, before, id, artifacts)
    ensures HoldsAll(c, after, id, artifacts)
  {
    forall i | 0 <= i < |artifacts| ensures Holds(c, after, id, artifacts[i]) {
      assert Holds(c, before, id, artifacts[i]);
    }
  }

  /** What a step adds to the archive under an id: nothing, an artifact, or the writer's manifest. */
  lemma CompleteStep(c: Codec, s: State, a: Action, id: seq<u8>)
    requires Faithful(c) && Inv(c, s) && Enabled(c, s, a)
    ensures Complete(c, Next(c, s, a).store, id)
  {
    hide Holds, HoldsAll, Faithful;
    var store := Next(c, s, a).store;
    StepExtends(c, s, a);
    assert Complete(c, s.store, id);
    if (id, MANIFEST) in s.store {
      HoldsLater(c, s.store, store, id, c.decode(s.store[(id, MANIFEST)]).value.artifacts);
    } else if (id, MANIFEST) in store {
      PublishedManifest(c, s, a, id);
    }
  }

  lemma PublishedManifest(c: Codec, s: State, a: Action, id: seq<u8>)
    requires Faithful(c) && Inv(c, s) && Enabled(c, s, a)
    requires (id, MANIFEST) !in s.store && (id, MANIFEST) in Next(c, s, a).store
    ensures Complete(c, Next(c, s, a).store, id)
  {
    hide Holds, HoldsAll;
    StepExtends(c, s, a);
    var w := PublisherOf(c, s, a, id);
    var writer := s.writers[w];
    assert WriterInv(c, s.store, writer);
    HoldsLater(c, s.store, Next(c, s, a).store, id, writer.artifacts);
    assert c.decode(c.encode(ManifestOf(writer))) == Some(ManifestOf(writer));
  }

  lemma PublisherOf(c: Codec, s: State, a: Action, id: seq<u8>) returns (w: nat)
    requires Inv(c, s) && Enabled(c, s, a)
    requires (id, MANIFEST) !in s.store && (id, MANIFEST) in Next(c, s, a).store
    ensures a.Publish? && w == a.w && IsRunning(s, w) && s.writers[w].job.id == id
  {
    hide HoldsAll, Complete;
    assert a.UploadNext? || a.Publish?;
    w := a.w;
    assert WriterInv(c, s.store, s.writers[w]);
  }

  lemma WriterStep(c: Codec, s: State, a: Action, i: nat)
    requires Inv(c, s) && Enabled(c, s, a) && i < |Next(c, s, a).writers|
    ensures WriterInv(c, Next(c, s, a).store, Next(c, s, a).writers[i])
  {
    hide Complete;
    StepExtends(c, s, a);
    var after := Next(c, s, a);
    if i < |s.writers| {
      var w := s.writers[i];
      assert WriterInv(c, s.store, w);
      HoldsLater(c, s.store, after.store, w.job.id, w.artifacts);
      if a.UploadNext? && a.w == i && a.put == Acknowledged {
        var u := w.job.uploads[|w.artifacts|];
        assert Holds(c, after.store, w.job.id, ArtifactOf(c, u));
      }
    }
  }

  lemma InvStep(c: Codec, s: State, a: Action)
    requires Faithful(c) && Inv(c, s) && Enabled(c, s, a)
    ensures Inv(c, Next(c, s, a))
  {
    hide Faithful, Enabled, Next, Complete, WriterInv;
    forall id ensures Complete(c, Next(c, s, a).store, id) {
      CompleteStep(c, s, a, id);
    }
    forall i | 0 <= i < |Next(c, s, a).writers| ensures WriterInv(c, Next(c, s, a).store, Next(c, s, a).writers[i]) {
      WriterStep(c, s, a, i);
    }
  }

  lemma {:induction false} InvOfRun(c: Codec, trace: seq<Action>)
    requires Faithful(c) && Legal(c, trace)
    ensures Inv(c, Run(c, trace))
  {
    if trace != [] {
      hide Faithful, Enabled, Next;
      InvOfRun(c, trace[..|trace| - 1]);
      InvStep(c, Run(c, trace[..|trace| - 1]), trace[|trace| - 1]);
    }
  }

  // ----- The commit record -----

  /** Every committed capture is complete, in every run: whatever the interleaving, whichever ids coincide
      and wherever writers crash, a stored manifest's artifacts are all stored, of the recorded size and
      digest, and within the reader's limits. */
  lemma ManifestIsTheCommitRecord(c: Codec, trace: seq<Action>, id: seq<u8>)
    requires Faithful(c) && Legal(c, trace) && (id, MANIFEST) in Run(c, trace).store
    ensures var store := Run(c, trace).store; var m := c.decode(store[(id, MANIFEST)]);
      && m.Some? && m.value.captureId == id && m.value.artifacts != []
      && HoldsAll(c, store, id, m.value.artifacts)
  {
    InvOfRun(c, trace);
    assert Complete(c, Run(c, trace).store, id);
  }

  /** What is committed stays committed, with the very same bytes. */
  lemma {:induction false} CapturesAreImmutable(c: Codec, trace: seq<Action>, more: seq<Action>)
    requires Legal(c, trace + more)
    ensures Legal(c, trace) && Extends(Run(c, trace).store, Run(c, trace + more).store)
  {
    if more == [] {
      assert trace + more == trace;
    } else {
      hide Enabled, Next;
      var t := trace + more;
      assert t[..|t| - 1] == trace + more[..|more| - 1];
      CapturesAreImmutable(c, trace, more[..|more| - 1]);
      StepExtends(c, Run(c, t[..|t| - 1]), t[|t| - 1]);
    }
  }

  /** Of writers that share an id at most one commits: the manifest can be created once. */
  ghost predicate OneCommit(c: Codec, s: State) {
    && (forall i :: 0 <= i < |s.writers| && s.writers[i].stage == Committed ==> (s.writers[i].job.id, MANIFEST) in s.store)
    && (forall i, j :: 0 <= i < j < |s.writers| && s.writers[i].stage == Committed && s.writers[j].stage == Committed
          ==> s.writers[i].job.id != s.writers[j].job.id)
  }

  lemma OneCommitStep(c: Codec, s: State, a: Action)
    requires OneCommit(c, s) && Enabled(c, s, a)
    ensures OneCommit(c, Next(c, s, a))
  {
  }

  lemma {:induction false} OneWriterCommits(c: Codec, trace: seq<Action>)
    requires Legal(c, trace)
    ensures OneCommit(c, Run(c, trace))
  {
    if trace != [] {
      hide Enabled, Next, OneCommit;
      OneWriterCommits(c, trace[..|trace| - 1]);
      OneCommitStep(c, Run(c, trace[..|trace| - 1]), trace[|trace| - 1]);
    }
  }

  // ----- A writer on its own -----

  /** A job that can succeed: something to upload, no name twice, and everything within its limit. */
  ghost predicate Feasible(c: Codec, job: Job) {
    && job.uploads != [] && NoManifestUpload(job)
    && (forall i :: 0 <= i < |job.uploads| ==> |job.uploads[i].bytes| <= ByteLimit(job.uploads[i].name))
    && (forall i, j :: 0 <= i < j < |job.uploads| ==> job.uploads[i].name != job.uploads[j].name)
    && |c.encode(ManifestOf(Writer(job, Artifacts(c, job.uploads), Running)))| <= ByteLimit(MANIFEST)
  }

  function Artifacts(c: Codec, uploads: seq<Upload>): (artifacts: seq<Artifact>)
    ensures |artifacts| == |uploads|
  {
    seq(|uploads|, i requires 0 <= i < |uploads| => ArtifactOf(c, uploads[i]))
  }

  lemma RunStep(c: Codec, trace: seq<Action>, a: Action)
    requires Legal(c, trace) && Enabled(c, Run(c, trace), a)
    ensures Legal(c, trace + [a]) && Run(c, trace + [a]) == Next(c, Run(c, trace), a)
  {
    hide Enabled, Next;
    assert (trace + [a])[..|trace|] == trace;
  }

  lemma {:induction false} LoneUploads(c: Codec, job: Job, k: nat) returns (trace: seq<Action>)
    requires Feasible(c, job) && k <= |job.uploads|
    ensures Legal(c, trace)
    ensures var s := Run(c, trace);
      && s.writers == [Writer(job, Artifacts(c, job.uploads[..k]), Running)]
      && forall key :: key in s.store ==> key.0 == job.id && exists i :: 0 <= i < k && job.uploads[i].name == key.1
  {
    if k == 0 {
      RunStep(c, [], Start(job));
      trace := [] + [Start(job)];
      assert Artifacts(c, job.uploads[..0]) == [];
    } else {
      var before := LoneUploads(c, job, k - 1);
      var s := Run(c, before);
      assert (job.id, job.uploads[k - 1].name) !in s.store;
      RunStep(c, before, UploadNext(0, Acknowledged));
      trace := before + [UploadNext(0, Acknowledged)];
      assert Artifacts(c, job.uploads[..k]) == Artifacts(c, job.uploads[..k - 1]) + [ArtifactOf(c, job.uploads[k - 1])];
    }
  }

  /** Alone and with every put acknowledged, a feasible job commits. */
  lemma LoneWriterCommits(c: Codec, job: Job) returns (trace: seq<Action>)
    requires Feasible(c, job)
    ensures Legal(c, trace) && (job.id, MANIFEST) in Run(c, trace).store
    ensures Run(c, trace).writers == [Writer(job, Artifacts(c, job.uploads), Committed)]
  {
    var before := LoneUploads(c, job, |job.uploads|);
    assert job.uploads[..|job.uploads|] == job.uploads;
    RunStep(c, before, Publish(0, Acknowledged));
    trace := before + [Publish(0, Acknowledged)];
  }
}
