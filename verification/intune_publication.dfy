/**
 Publishing content through Microsoft Graph (internal/intune/intune.go and
 content.go). A run keeps no local state and may stop after any request, answered
 or not, so every method promises its invariant on the failing exits too.
 */
module IntunePublication {
  import opened Wrappers
  import opened IntuneMarker
  import opened IntuneGraph

  datatype Error =
    | RequestFailed | NotFound | ForeignMarker | PollLimit | NotesDiffer
    | FirstUploadMismatch | FirstUploadStuck | MultipleVersions | MultipleFiles | FileMismatch | UploadRejected

  /** What preparation fixes about one payload and its encrypted envelope. */
  datatype Artifact = Artifact(identity: string, name: string, size: nat, sealedSize: nat)

  /** The polls that waitFile and waitPublished allow. */
  const POLLS: nat := 360

  // ----- The invariant -----

  predicate HoldsOnly(files: seq<File>, payload: string) {
    forall i :: 0 <= i < |files| ==> files[i].blob == None || files[i].blob == Some(payload)
  }

  predicate StagedBeforeCommit(files: seq<File>) {
    forall i :: 0 <= i < |files| && files[i].state in {CommitPending, Committed} ==> files[i].blob.Some?
  }

  predicate HasCommitted(files: seq<File>) {
    exists i :: 0 <= i < |files| && files[i].state == Committed
  }

  predicate Holding(app: App, version: string) {
    version in app.versions && HasCommitted(app.versions[version])
  }

  predicate Sound(app: App) {
    && "" !in app.versions
    && (forall v :: v in app.versions ==> StagedBeforeCommit(app.versions[v]))
    && (app.committed != "" ==> Holding(app, app.committed))
    && (app.requested.Some? ==> Holding(app, app.requested.value))
  }

  /** The marker tells the truth: about the version it names, or, while it names
      none, about every version there is. */
  predicate Describes(app: App, m: Publication) {
    && (m.content != "" ==> m.content in app.versions && HoldsOnly(app.versions[m.content], m.payload))
    && (m.content == "" && m.payload != "" ==>
          forall v :: v in app.versions ==> HoldsOnly(app.versions[v], m.payload))
    && (app.committed == "" ==> m.content == "")
    && (app.committed == m.content && m.content != "" ==> app.requested in {None, Some(m.content)})
  }

  predicate Inv(app: App, identity: string) {
    && Sound(app)
    && match RecoverMarker(app.notes, identity)
       case Success(m) => Describes(app, m)
       case Failure(_) => true
  }

  /** The payload the committed version holds according to the marker, or "". */
  function Active(m: Publication, committed: string): string {
    if m.content == "" || m.content != committed then "" else m.payload
  }

  /** Whatever the marker claims to be active really is what the version holds. */
  predicate Truthful(app: App, identity: string) {
    match RecoverMarker(app.notes, identity)
    case Failure(_) => true
    case Success(m) =>
      Active(m, app.committed) != "" ==>
        && Holding(app, app.committed)
        && forall i :: 0 <= i < |app.versions[app.committed]| && app.versions[app.committed][i].state == Committed ==>
             app.versions[app.committed][i].blob == Some(Active(m, app.committed))
  }

  lemma ConsistentIsTruthful(app: App, identity: string)
    requires Inv(app, identity)
    ensures Truthful(app, identity)
  {
    if app.committed != "" {
      assert StagedBeforeCommit(app.versions[app.committed]);
    }
  }

  lemma RecoveredIdentity(notes: string, identity: string)
    requires RecoverMarker(notes, identity).Success?
    ensures RecoverMarker(notes, identity).value.identity == identity
    ensures RecoverMarker(notes, identity).value == Publication(identity, "", "")
            || WellFormed(RecoverMarker(notes, identity).value)
  {
    RecoveredIsWellFormed(Lines(notes), Publication(identity, "", ""));
  }

  lemma DriftKeeps(before: App, after: App, identity: string)
    requires Inv(before, identity) && Drift(before, after)
    ensures Inv(after, identity)
    ensures before.committed != "" ==> after.committed != ""
    ensures after.versions == before.versions && after.notes == before.notes
    ensures forall v :: Undisturbed(before, v) ==> Undisturbed(after, v)
  {}

  /** No activation of another version is pending behind this version. */
  predicate Undisturbed(app: App, version: string) {
    app.committed == version ==> app.requested in {None, Some(version)}
  }

  /** An app that Stemma never marked, whatever content it has, may be adopted. */
  lemma UnmarkedIsConsistent(app: App, identity: string)
    requires Sound(app) && RecoverMarker(app.notes, identity) == Success(Publication(identity, "", ""))
    ensures Inv(app, identity)
  {}

  /** Processing of any file, finished or failed, between requests or between runs. */
  lemma ProgressKeeps(app: App, version: string, i: nat, fails: bool, identity: string)
    requires Inv(app, identity) && version in app.versions && i < |app.versions[version]|
    ensures Inv(WithFile(app, version, i, Process(app.versions[version][i], fails)), identity)
  {
    var files := app.versions[version];
    var after := files[i := Process(files[i], fails)];
    var now := WithFiles(app, version, after);
    assert StagedBeforeCommit(files);
    assert StagedBeforeCommit(after);
    assert forall payload :: HoldsOnly(files, payload) ==> HoldsOnly(after, payload);
    if k :| 0 <= k < |files| && files[k].state == Committed {
      assert after[k].state == Committed;
    }
    assert forall v :: Holding(app, v) ==> Holding(now, v);
    assert forall v :: v in now.versions ==> v in app.versions && (v != version ==> now.versions[v] == app.versions[v]);
    assert forall v :: v in now.versions ==> StagedBeforeCommit(now.versions[v]);
    assert forall v, payload :: v in app.versions && HoldsOnly(app.versions[v], payload) ==>
           HoldsOnly(now.versions[v], payload);
  }

  lemma NewVersionKeeps(app: App, version: string, identity: string)
    requires Inv(app, identity) && version != "" && version !in app.versions
    ensures Inv(WithFiles(app, version, []), identity)
  {
    var after := WithFiles(app, version, []);
    assert forall v :: v in app.versions ==> after.versions[v] == app.versions[v];
  }

  /** A version whose uploads the marker already accounts for. */
  predicate Receiving(app: App, identity: string, version: string, payload: string) {
    && Inv(app, identity)
    && version in app.versions
    && HoldsOnly(app.versions[version], payload)
    && RecoverMarker(app.notes, identity).Success?
    && var m := RecoverMarker(app.notes, identity).value;
       m.payload == payload && (m.content == "" || m.content == version)
  }

  lemma FilesKeep(app: App, version: string, files: seq<File>, identity: string, payload: string)
    requires Receiving(app, identity, version, payload)
    requires StagedBeforeCommit(files) && HoldsOnly(files, payload)
    requires HasCommitted(app.versions[version]) ==> HasCommitted(files)
    ensures Receiving(WithFiles(app, version, files), identity, version, payload)
  {
    var after := WithFiles(app, version, files);
    assert forall v :: v in app.versions && v != version ==> after.versions[v] == app.versions[v];
  }

  /** Moving the marker to a version needs that version's files to agree. */
  lemma MarkerKeeps(app: App, notes: string, m: Publication)
    requires Sound(app) && RecoverMarker(notes, m.identity) == Success(m)
    requires m.content in app.versions && HoldsOnly(app.versions[m.content], m.payload)
    requires app.committed != ""
    requires app.committed == m.content ==> app.requested in {None, Some(m.content)}
    ensures Inv(app.(notes := notes), m.identity)
  {}

  // ----- One file -----

  predicate OneFile(app: App, version: string) {
    version in app.versions && |app.versions[version]| == 1
  }

  predicate FileCommitted(app: App, version: string, payload: string) {
    OneFile(app, version) && app.versions[version][0].state == Committed
      && app.versions[version][0].blob == Some(payload)
  }

  // ----- The shape of files -----

  /** The declared name and sizes of a file are those of the artifact it was created for. */
  predicate IsFileOf(f: File, artifact: Artifact) {
    f.name == artifact.name && f.size == artifact.size && f.sealedSize == artifact.sealedSize
  }

  predicate Made(files: seq<File>, artifact: Artifact) {
    |files| <= 1 && forall i :: 0 <= i < |files| ==> IsFileOf(files[i], artifact)
  }

  /** Where the marker accounts for files, they were made for the artifact its payload stands
      for. `shape` is the name and sizes that go with each payload. */
  predicate Shaped(app: App, identity: string, shape: string -> Artifact) {
    match RecoverMarker(app.notes, identity)
    case Failure(_) => true
    case Success(m) => ShapedFor(app, m, shape)
  }

  predicate ShapedFor(app: App, m: Publication, shape: string -> Artifact) {
    && (m.content != "" && m.content in app.versions ==> Made(app.versions[m.content], shape(m.payload)))
    && (m.content == "" && m.payload != "" ==>
          forall v :: v in app.versions ==> Made(app.versions[v], shape(m.payload)))
  }

  predicate SameShapes(a: seq<File>, b: seq<File>) {
    |a| == |b| && forall i :: 0 <= i < |a| ==>
                    a[i].name == b[i].name && a[i].size == b[i].size && a[i].sealedSize == b[i].sealedSize
  }

  /** Nothing but the state and the bytes of one version's files changed. */
  predicate KeepsShapes(a: App, b: App, version: string) {
    && a.versions.Keys == b.versions.Keys && version in a.versions
    && (forall v :: v in a.versions && v != version ==> b.versions[v] == a.versions[v])
    && SameShapes(a.versions[version], b.versions[version])
  }

  /** The same, or one file was created in the version, for the artifact. */
  predicate Adds(a: App, b: App, version: string, artifact: Artifact) {
    && a.versions.Keys == b.versions.Keys && version in a.versions
    && (forall v :: v in a.versions && v != version ==> b.versions[v] == a.versions[v])
    && (SameShapes(a.versions[version], b.versions[version])
        || (a.versions[version] == [] && |b.versions[version]| == 1
            && b.versions[version][0].name == artifact.name
            && b.versions[version][0].size == artifact.size
            && b.versions[version][0].sealedSize == artifact.sealedSize))
  }

  lemma ShapesMade(a: seq<File>, b: seq<File>, artifact: Artifact)
    requires SameShapes(a, b)
    ensures Made(a, artifact) <==> Made(b, artifact)
  {
    forall i | 0 <= i < |a| ensures IsFileOf(a[i], artifact) <==> IsFileOf(b[i], artifact) {}
  }

  lemma AddsKeepsShaped(a: App, b: App, version: string, artifact: Artifact, identity: string,
                        shape: string -> Artifact)
    requires Adds(a, b, version, artifact) && a.notes == b.notes && shape(artifact.identity) == artifact
    requires Receiving(a, identity, version, artifact.identity)
    requires Shaped(a, identity, shape) && Made(a.versions[version], artifact)
    ensures Shaped(b, identity, shape) && Made(b.versions[version], artifact)
  {
    hide RecoverMarker, Inv;
    if SameShapes(a.versions[version], b.versions[version]) {
      ShapesMade(a.versions[version], b.versions[version], artifact);
    }
  }

  lemma ProgressKeepsShaped(a: App, b: App, version: string, identity: string, shape: string -> Artifact)
    requires KeepsShapes(a, b, version) && a.notes == b.notes && Shaped(a, identity, shape)
    ensures Shaped(b, identity, shape)
  {
    hide RecoverMarker;
    forall artifact {
      ShapesMade(a.versions[version], b.versions[version], artifact);
    }
  }

  lemma DriftKeepsShaped(before: App, after: App, identity: string, shape: string -> Artifact)
    requires Drift(before, after)
    ensures Shaped(before, identity, shape) <==> Shaped(after, identity, shape)
  {
    hide RecoverMarker;
    assert before.versions == after.versions && before.notes == after.notes;
  }

  lemma FileStep(before: App, mid: App, after: App, version: string, f: File, identity: string, payload: string)
    requires Receiving(before, identity, version, payload) && OneFile(before, version)
    requires mid == WithFile(before, version, 0, f)
    requires f.blob == None || f.blob == Some(payload)
    requires f.state in {CommitPending, Committed} ==> f.blob.Some?
    requires before.versions[version][0].state == Committed ==> f.state == Committed
    requires Drift(before, after) || Drift(mid, after)
    requires SameShapes(before.versions[version], [f])
    ensures Receiving(after, identity, version, payload) && OneFile(after, version) && after.notes == before.notes
    ensures before.committed != "" ==> after.committed != ""
    ensures KeepsShapes(before, after, version)
  {
    assert before.versions[version][0 := f] == [f];
    assert mid == WithFiles(before, version, [f]);
    assert f.state == Committed ==> [f][0].state == Committed;
    FilesKeep(before, version, [f], identity, payload);
    if Drift(mid, after) {
      DriftKeeps(mid, after, identity);
    } else {
      DriftKeeps(before, after, identity);
    }
  }

  lemma KeepsShapesTwice(a: App, b: App, c: App, version: string)
    requires KeepsShapes(a, b, version) && KeepsShapes(b, c, version)
    ensures KeepsShapes(a, c, version)
  {}

  lemma ReceivingFile(app: App, version: string, identity: string, payload: string)
    requires Receiving(app, identity, version, payload) && OneFile(app, version)
    ensures var f := app.versions[version][0];
            f.blob in {None, Some(payload)} && (f.state in {CommitPending, Committed} ==> f.blob == Some(payload))
  {
    assert StagedBeforeCommit(app.versions[version]);
  }

  predicate ValidPayload(p: Publication) {
    |p.identity| == 64 && Every(p.identity, IsHex) && Every(p.payload, IsHex) && p.payload != ""
  }

  /** One poll of one file. */
  method PollFile(g: Graph, version: string, ghost identity: string, ghost payload: string, ghost start: App)
    returns (view: Option<FileView>)
    requires g.Valid() && g.app.Some?
    requires Receiving(g.app.value, identity, version, payload) && OneFile(g.app.value, version)
    requires KeepsShapes(start, g.app.value, version)
    modifies g`script, g`app
    ensures g.Valid() && g.app.Some?
    ensures Receiving(g.app.value, identity, version, payload) && OneFile(g.app.value, version)
    ensures g.app.value.notes == old(g.app.value).notes && KeepsShapes(start, g.app.value, version)
    ensures old(g.app.value).committed != "" ==> g.app.value.committed != ""
    ensures g.app.value.versions[version][0].blob == old(g.app.value).versions[version][0].blob
    ensures view.Some? ==> view.value == FileViewOf(g.app.value.versions[version][0])
    ensures old(g.script) == [] ==>
              && g.script == [] && view.Some?
              && g.app.value.versions[version][0] == Process(old(g.app.value).versions[version][0], false)
  {
    hide Receiving, KeepsShapes;
    ghost var before := g.app.value;
    ghost var file := before.versions[version][0];
    view := g.GetFile(version, 0);
    ghost var failing := Drift(WithFile(before, version, 0, Process(file, true)), g.app.value);
    ReceivingFile(before, version, identity, payload);
    FileStep(before, WithFile(before, version, 0, Process(file, failing)), g.app.value, version,
             Process(file, failing), identity, payload);
    KeepsShapesTwice(start, before, g.app.value, version);
  }

  /** Polls one file until its URI is ready or its commit succeeded. */
  method WaitFile(g: Graph, version: string, committed: bool, ghost identity: string, ghost payload: string)
    returns (r: Result<FileView, Error>)
    requires g.Valid() && g.app.Some?
    requires Receiving(g.app.value, identity, version, payload) && OneFile(g.app.value, version)
    modifies g`script, g`app
    ensures g.Valid() && g.app.Some?
    ensures Receiving(g.app.value, identity, version, payload) && OneFile(g.app.value, version)
    ensures g.app.value.notes == old(g.app.value).notes
    ensures old(g.app.value).committed != "" ==> g.app.value.committed != ""
    ensures g.app.value.versions[version][0].blob == old(g.app.value).versions[version][0].blob
    ensures KeepsShapes(old(g.app.value), g.app.value, version)
    ensures r.Failure? ==> r.error in {RequestFailed, PollLimit, UploadRejected}
    ensures r.Success? ==> r.value == FileViewOf(g.app.value.versions[version][0])
                           && r.value.state == if committed then Committed else UriReady
    ensures var was := old(g.app.value).versions[version][0].state;
            old(g.script) == [] && was != (if committed then UriReady else CommitPending)
                                && was != (if committed then AwaitingUri else Committed)
            ==> && g.script == [] && (r.Success? <==> was != Rejected)
                && (was == Rejected ==> r == Failure(UploadRejected))
  {
    hide Receiving, KeepsShapes;
    ghost var initial := g.app.value;
    KeepsItsShapes(initial, version);
    ghost var start := g.app.value.versions[version][0];
    ghost var notes, published := g.app.value.notes, g.app.value.committed != "";
    ghost var faultless := g.script == [];
    for poll := 0 to POLLS
      invariant g.Valid() && g.app.Some?
      invariant Receiving(g.app.value, identity, version, payload) && OneFile(g.app.value, version)
      invariant g.app.value.notes == notes && g.app.value.versions[version][0].blob == start.blob
      invariant published ==> g.app.value.committed != ""
      invariant KeepsShapes(initial, g.app.value, version)
      invariant faultless ==> g.script == []
      invariant poll == 0 ==> g.app.value.versions[version][0] == start
      invariant poll > 0 && faultless ==>
        start.state in (if committed then {UriReady, AwaitingUri} else {CommitPending, Committed})
    {
      var view := PollFile(g, version, identity, payload, initial);
      if view.None? {
        return Failure(RequestFailed);
      }
      if view.value.state == (if committed then Committed else UriReady) {
        return Success(view.value);
      }
      if view.value.state == Rejected {
        return Failure(UploadRejected);
      }
    }
    return Failure(PollLimit);
  }

  lemma KeepsItsShapes(app: App, version: string)
    requires version in app.versions
    ensures KeepsShapes(app, app, version)
  {}

  lemma UpdateStep(before: App, after: App, ok: bool, version: string, f: File, identity: string, payload: string)
    requires Receiving(before, identity, version, payload) && OneFile(before, version)
    requires before.versions[version][0].state == UriReady && f.state in {AwaitingUri, UriReady, CommitPending}
    requires f.blob in {None, Some(payload)} && (f.state == CommitPending ==> f.blob.Some?)
    requires Sent(before, WithFile(before, version, 0, f), after, ok)
    requires SameShapes(before.versions[version], [f])
    ensures Receiving(after, identity, version, payload) && OneFile(after, version) && after.notes == before.notes
    ensures before.committed != "" ==> after.committed != ""
    ensures KeepsShapes(before, after, version)
    ensures ok ==> after.versions[version][0] == f
  {
    FileStep(before, WithFile(before, version, 0, f), after, version, f, identity, payload);
  }

  /** Stages the payload's blocks into a file that is not committed yet, and commits it. */
  method SendContent(g: Graph, version: string, artifact: Artifact, expiring: bool, ghost identity: string)
    returns (r: Result<(), Error>)
    requires g.Valid() && g.app.Some? && Receiving(g.app.value, identity, version, artifact.identity)
    requires OneFile(g.app.value, version) && g.app.value.versions[version][0].state !in {CommitPending, Committed}
    modifies g`script, g`app
    ensures g.Valid() && g.app.Some? && Receiving(g.app.value, identity, version, artifact.identity)
    ensures g.app.value.notes == old(g.app.value).notes
    ensures old(g.app.value).committed != "" ==> g.app.value.committed != ""
    ensures r.Success? ==> FileCommitted(g.app.value, version, artifact.identity)
    ensures KeepsShapes(old(g.app.value), g.app.value, version)
    ensures r.Failure? ==> r.error in {RequestFailed, PollLimit, UploadRejected}
    ensures old(g.script) == [] ==>
              && g.script == []
              && (r.Failure? <==> old(g.app.value).versions[version][0].state == Rejected)
              && (r.Failure? ==> r == Failure(UploadRejected))
  {
    hide Inv, Receiving, KeepsShapes;
    ghost var payload := artifact.identity;
    ghost var start := g.app.value;
    var ready := WaitFile(g, version, false, identity, payload);
    if ready.Failure? {
      return Failure(ready.error);
    }
    ReceivingFile(g.app.value, version, identity, payload);
    if expiring {
      ghost var before := g.app.value;
      var file := g.app.value.versions[version][0].(state := AwaitingUri);
      var renewed := g.UpdateFile(version, 0, file);
      UpdateStep(before, g.app.value, renewed, version, file, identity, payload);
      KeepsShapesTwice(start, before, g.app.value, version);
      if !renewed {
        return Failure(RequestFailed);
      }
      ghost var waiting := g.app.value;
      ready := WaitFile(g, version, false, identity, payload);
      KeepsShapesTwice(start, waiting, g.app.value, version);
      if ready.Failure? {
        return Failure(ready.error);
      }
    }
    r := StageContent(g, version, artifact, identity, start);
  }

  /** Puts the blocks, commits the file and waits for it. */
  method StageContent(g: Graph, version: string, artifact: Artifact, ghost identity: string, ghost start: App)
    returns (r: Result<(), Error>)
    requires g.Valid() && g.app.Some? && Receiving(g.app.value, identity, version, artifact.identity)
    requires OneFile(g.app.value, version) && g.app.value.versions[version][0].state == UriReady
    requires KeepsShapes(start, g.app.value, version)
    modifies g`script, g`app
    ensures g.Valid() && g.app.Some? && Receiving(g.app.value, identity, version, artifact.identity)
    ensures g.app.value.notes == old(g.app.value).notes
    ensures old(g.app.value).committed != "" ==> g.app.value.committed != ""
    ensures r.Success? ==> FileCommitted(g.app.value, version, artifact.identity)
    ensures KeepsShapes(start, g.app.value, version)
    ensures r.Failure? ==> r.error in {RequestFailed, PollLimit, UploadRejected}
    ensures old(g.script) == [] ==> g.script == [] && r.Success?
  {
    hide Inv, Receiving, KeepsShapes;
    ghost var payload := artifact.identity;
    ghost var unstaged := g.app.value;
    var staged := g.app.value.versions[version][0].(blob := Some(artifact.identity));
    var put := g.UpdateFile(version, 0, staged);
    UpdateStep(unstaged, g.app.value, put, version, staged, identity, payload);
    KeepsShapesTwice(start, unstaged, g.app.value, version);
    if !put {
      return Failure(RequestFailed);
    }
    ghost var uncommitted := g.app.value;
    var sealedFile := staged.(state := CommitPending);
    var sent := g.UpdateFile(version, 0, sealedFile);
    UpdateStep(uncommitted, g.app.value, sent, version, sealedFile, identity, payload);
    KeepsShapesTwice(start, uncommitted, g.app.value, version);
    if !sent {
      return Failure(RequestFailed);
    }
    ghost var committing := g.app.value;
    var done := WaitFile(g, version, true, identity, payload);
    KeepsShapesTwice(start, committing, g.app.value, version);
    return if done.Success? then Success(()) else Failure(done.error);
  }

  /** Uploads the payload into a version's one file, resuming where a previous run stopped. */
  method UploadFile(g: Graph, version: string, known: Option<FileView>, artifact: Artifact, expiring: bool,
                    ghost identity: string)
    returns (r: Result<(), Error>)
    requires g.Valid() && g.app.Some? && Receiving(g.app.value, identity, version, artifact.identity)
    requires match known
             case Some(view) => OneFile(g.app.value, version) && view == FileViewOf(g.app.value.versions[version][0])
             case None => g.app.value.versions[version] == []
    modifies g`script, g`app
    ensures g.Valid() && g.app.Some? && Receiving(g.app.value, identity, version, artifact.identity)
    ensures g.app.value.notes == old(g.app.value).notes
    ensures old(g.app.value).committed != "" ==> g.app.value.committed != ""
    ensures r.Success? ==> FileCommitted(g.app.value, version, artifact.identity)
    ensures Adds(old(g.app.value), g.app.value, version, artifact)
    ensures known.None? && g.app.value.versions[version] != [] ==>
              && |g.app.value.versions[version]| == 1
              && g.app.value.versions[version][0].name == artifact.name
              && g.app.value.versions[version][0].size == artifact.size
              && g.app.value.versions[version][0].sealedSize == artifact.sealedSize
    ensures known.Some? ==> KeepsShapes(old(g.app.value), g.app.value, version)
    ensures r.Failure? ==> r.error in {RequestFailed, PollLimit, UploadRejected}
    ensures old(g.script) == [] ==>
              && g.script == []
              && (r.Failure? <==> known.Some? && known.value.state == Rejected)
              && (r.Failure? ==> r == Failure(UploadRejected))
  {
    hide Inv, KeepsShapes, Adds;
    ghost var payload := artifact.identity;
    ghost var start := g.app.value;
    var state := AwaitingUri;
    if known.None? {
      var created := g.CreateFile(version, artifact.name, artifact.size, artifact.sealedSize);
      FileCreated(start, g.app.value, created, version, artifact, identity);
      if !created {
        return Failure(RequestFailed);
      }
    } else {
      state := known.value.state;
      KeepsItsShapes(start, version);
    }
    ghost var present := g.app.value;
    KeepsItsShapes(present, version);
    ReceivingFile(present, version, identity, payload);
    if state == Committed {
      AddsAndKeeps(start, present, present, version, artifact, known.None?);
      return Success(());
    }
    if state == CommitPending {
      var waited := WaitFile(g, version, true, identity, payload);
      AddsAndKeeps(start, present, g.app.value, version, artifact, known.None?);
      return if waited.Success? then Success(()) else Failure(waited.error);
    }
    r := SendContent(g, version, artifact, expiring, identity);
    AddsAndKeeps(start, present, g.app.value, version, artifact, known.None?);
  }

  /** The version is empty or holds exactly the file that was asked for. */
  lemma FileCreated(before: App, after: App, answered: bool, version: string, artifact: Artifact, identity: string)
    requires Receiving(before, identity, version, artifact.identity) && before.versions[version] == []
    requires var file := File(artifact.name, artifact.size, artifact.sealedSize, AwaitingUri, None);
             Sent(before, WithFiles(before, version, before.versions[version] + [file]), after, answered)
    ensures Receiving(after, identity, version, artifact.identity) && after.notes == before.notes
    ensures before.committed != "" ==> after.committed != ""
    ensures Adds(before, after, version, artifact)
    ensures answered ==> OneFile(after, version)
    ensures after.versions[version] != [] ==>
              && OneFile(after, version) && after.versions[version][0].state == AwaitingUri
              && after.versions[version][0].name == artifact.name
              && after.versions[version][0].size == artifact.size
              && after.versions[version][0].sealedSize == artifact.sealedSize
  {
    hide Inv;
    var file := File(artifact.name, artifact.size, artifact.sealedSize, AwaitingUri, None);
    assert before.versions[version] + [file] == [file];
    FilesKeep(before, version, [file], identity, artifact.identity);
    DriftKeeps(if Drift(before, after) then before else WithFiles(before, version, [file]), after, identity);
  }

  lemma AddsAndKeeps(a: App, b: App, c: App, version: string, artifact: Artifact, created: bool)
    requires if created then Adds(a, b, version, artifact) else KeepsShapes(a, b, version)
    requires KeepsShapes(b, c, version)
    ensures Adds(a, c, version, artifact)
    ensures !created ==> KeepsShapes(a, c, version)
    ensures |c.versions[version]| == |b.versions[version]|
    ensures forall i :: 0 <= i < |b.versions[version]| ==>
              && c.versions[version][i].name == b.versions[version][i].name
              && c.versions[version][i].size == b.versions[version][i].size
              && c.versions[version][i].sealedSize == b.versions[version][i].sealedSize
  {}

  // ----- Recording a version and uploading into it -----

  predicate Matches(view: FileView, artifact: Artifact) {
    view.name == artifact.name && view.size == artifact.size && view.sealedSize == artifact.sealedSize
  }

  /** Files that no run may continue: more than one, or one of another shape. */
  predicate Unusable(files: seq<File>, artifact: Artifact) {
    |files| > 1 || (|files| == 1 && !Matches(FileViewOf(files[0]), artifact))
  }

  /** Why an upload of this payload cannot finish even when nothing fails. */
  predicate UploadBlocked(app: App, first: bool, recorded: Publication, content: string, artifact: Artifact) {
    if first && recorded.payload != artifact.identity then true
    else if content != "" then content in app.versions && Unusable(app.versions[content], artifact)
    else if first || (recorded.content == "" && recorded.payload == artifact.identity) then
      || |app.versions| > 1
      || exists v :: v in app.versions &&
           (Unusable(app.versions[v], artifact) ||
            (|app.versions[v]| == 1 && app.versions[v][0].state == Rejected))
    else false
  }

  lemma OnlyVersion(app: App, version: string)
    requires |app.versions| == 1 && version in app.versions
    ensures app.versions.Keys == {version}
  {
    assert |app.versions.Keys - {version}| == 0;
  }

  /** Moving the marker to a version that was just created or is the only one. */
  lemma RecordKeeps(app: App, version: string, notes: string, m: Publication, now: App, ok: bool)
    requires Inv(app, m.identity) && version in app.versions && HoldsOnly(app.versions[version], m.payload)
    requires m.content == version && RecoverMarker(notes, m.identity) == Success(m)
    requires app.committed != ""
    requires version == app.committed ==> app.requested in {None, Some(version)}
    requires Sent(app, app.(notes := notes), now, ok)
    ensures Inv(now, m.identity)
    ensures ok ==> Receiving(now, m.identity, version, m.payload) && now.notes == notes
    ensures now.versions == app.versions && (now.notes == app.notes || now.notes == notes)
  {
    MarkerKeeps(app, notes, m);
    DriftKeeps(if Drift(app, now) then app else app.(notes := notes), now, m.identity);
  }

  lemma NewVersionKeepsShaped(app: App, version: string, identity: string, shape: string -> Artifact)
    requires version !in app.versions
    ensures Shaped(WithFiles(app, version, []), identity, shape) || !Shaped(app, identity, shape)
  {
    hide RecoverMarker;
  }

  lemma ChosenIsMade(app: App, version: string, recorded: Publication, identity: string, shape: string -> Artifact)
    requires RecoverMarker(app.notes, identity) == Success(recorded) && Shaped(app, identity, shape)
    requires version in app.versions && version != ""
    requires recorded.content == version || (recorded.content == "" && recorded.payload != "")
    ensures Made(app.versions[version], shape(recorded.payload))
  {
    hide RecoverMarker;
  }

  /** The one version of an app whose marker names none yet. */
  method LoneVersion(g: Graph, recorded: Publication, pending: Publication, ghost shape: string -> Artifact)
    returns (r: Result<Option<string>, Error>)
    requires g.Valid() && g.app.Some? && Inv(g.app.value, pending.identity) && ValidPayload(pending)
    requires RecoverMarker(g.app.value.notes, pending.identity) == Success(recorded)
    requires recorded.content == "" && recorded.payload == pending.payload
    modifies g`script, g`app
    ensures g.Valid() && g.app.Some? && Inv(g.app.value, pending.identity) && Drift(old(g.app.value), g.app.value)
    ensures old(g.app.value).committed != "" ==> g.app.value.committed != ""
    ensures Shaped(old(g.app.value), pending.identity, shape) ==> Shaped(g.app.value, pending.identity, shape)
    ensures r.Success? ==>
              match r.value
              case None => g.app.value.versions == map[]
              case Some(v) =>
                && |g.app.value.versions| == 1 && v in g.app.value.versions && Undisturbed(g.app.value, v)
                && HoldsOnly(g.app.value.versions[v], pending.payload)
                 && (Shaped(g.app.value, pending.identity, shape) ==>
                       Made(g.app.value.versions[v], shape(pending.payload)))
    ensures r.Failure? ==> r.error in {RequestFailed, MultipleVersions}
    ensures old(g.script) == [] ==> g.script == [] && (r.Failure? <==> |old(g.app.value).versions| > 1)
  {
    hide RecoverMarker, Shaped, Made;
    ghost var before := g.app.value;
    var versions := g.ListVersions();
    DriftKeeps(before, g.app.value, pending.identity);
    DriftKeepsShaped(before, g.app.value, pending.identity, shape);
    if versions.None? {
      return Failure(RequestFailed);
    }
    if |versions.value| > 1 {
      return Failure(MultipleVersions);
    }
    if |versions.value| == 0 {
      return Success(None);
    }
    var v :| v in versions.value;
    OnlyVersion(g.app.value, v);
    assert g.app.value.requested.Some? ==> g.app.value.requested.value in g.app.value.versions.Keys;
    if Shaped(g.app.value, pending.identity, shape) {
      ChosenIsMade(g.app.value, v, recorded, pending.identity, shape);
    }
    return Success(Some(v));
  }

  method NewVersion(g: Graph, identity: string, ghost shape: string -> Artifact) returns (r: Result<string, Error>)
    requires g.Valid() && g.app.Some? && Inv(g.app.value, identity)
    modifies g`script, g`app, g`issued
    ensures g.Valid() && g.app.Some? && Inv(g.app.value, identity) && g.app.value.notes == old(g.app.value).notes
    ensures old(g.app.value).committed != "" ==> g.app.value.committed != ""
    ensures old(g.app.value).requested.None? ==>
              g.app.value.requested.None? && g.app.value.committed == old(g.app.value).committed
    ensures Shaped(old(g.app.value), identity, shape) ==> Shaped(g.app.value, identity, shape)
    ensures r.Success? ==>
              && r.value !in old(g.app.value).versions && Undisturbed(g.app.value, r.value)
              && g.app.value.versions == old(g.app.value).versions[r.value := []]
    ensures r.Failure? ==> r.error == RequestFailed
    ensures old(g.script) == [] ==> g.script == [] && r.Success?
  {
    hide RecoverMarker, Shaped;
    ghost var listed := g.app.value;
    var created, id := g.CreateVersion();
    NewVersionKeeps(listed, id, identity);
    NewVersionKeepsShaped(listed, id, identity, shape);
    ghost var base := if Drift(listed, g.app.value) then listed else WithFiles(listed, id, []);
    DriftKeeps(base, g.app.value, identity);
    DriftKeepsShaped(base, g.app.value, identity, shape);
    return if created.Some? then Success(created.value) else Failure(RequestFailed);
  }

  /** The recorded version, the only version of an unrecorded first upload, or a new one. */
  method ChooseVersion(g: Graph, first: bool, recorded: Publication, pending: Publication,
                       ghost shape: string -> Artifact)
    returns (r: Result<string, Error>)
    requires g.Valid() && g.app.Some? && Inv(g.app.value, pending.identity) && ValidPayload(pending)
    requires RecoverMarker(g.app.value.notes, pending.identity) == Success(recorded)
    requires pending.content != "" ==> pending == recorded
    requires first ==> recorded.content == "" && recorded.payload == pending.payload
    modifies g`script, g`app, g`issued
    ensures g.Valid() && g.app.Some? && Inv(g.app.value, pending.identity)
    ensures g.app.value.notes == old(g.app.value).notes
    ensures old(g.app.value).committed != "" ==> g.app.value.committed != ""
    ensures old(g.app.value).requested.None? ==>
              g.app.value.requested.None? && g.app.value.committed == old(g.app.value).committed
    ensures r.Success? ==>
              && r.value in g.app.value.versions
              && HoldsOnly(g.app.value.versions[r.value], pending.payload)
              && (pending.content == "" ==> Undisturbed(g.app.value, r.value))
              && (pending.content != "" ==> r.value == pending.content)
              && (g.app.value.versions[r.value] == [] || recorded.payload == pending.payload)
    ensures Shaped(old(g.app.value), pending.identity, shape) ==>
              && Shaped(g.app.value, pending.identity, shape)
              && (r.Success? ==> Made(g.app.value.versions[r.value], shape(pending.payload)))
    ensures r.Failure? ==> r.error in {RequestFailed, MultipleVersions}
    ensures old(g.script) == [] ==>
              && g.script == []
              && (r.Failure? <==>
                    pending.content == "" && Unrecorded(first, recorded, pending) && |old(g.app.value).versions| > 1)
              && (r.Success? && r.value in old(g.app.value).versions ==>
                    g.app.value.versions == old(g.app.value).versions)
              && (r.Success? && r.value !in old(g.app.value).versions ==>
                    g.app.value.versions == old(g.app.value).versions[r.value := []])
              && (r.Success? ==>
                    (r.value in old(g.app.value).versions <==>
                     pending.content != ""
                       || (Unrecorded(first, recorded, pending) && |old(g.app.value).versions| == 1)))
  {
    NothingIsMade(shape(pending.payload));
    hide RecoverMarker, Shaped, Made, StagedBeforeCommit;
    ghost var before := g.app.value;
    if pending.content != "" {
      RecordedIsThere(before, recorded, pending.identity);
      if Shaped(before, pending.identity, shape) {
        ChosenIsMade(before, pending.content, recorded, pending.identity, shape);
      }
      return Success(pending.content);
    }
    hide Inv;
    if first || (recorded.content == "" && recorded.payload == pending.payload) {
      var lone := LoneVersion(g, recorded, pending, shape);
      if lone.Failure? {
        return Failure(lone.error);
      }
      if lone.value.Some? {
        return Success(lone.value.value);
      }
    }
    r := NewVersion(g, pending.identity, shape);
  }

  lemma RecordedIsThere(app: App, recorded: Publication, identity: string)
    requires Inv(app, identity) && RecoverMarker(app.notes, identity) == Success(recorded) && recorded.content != ""
    ensures recorded.content in app.versions && HoldsOnly(app.versions[recorded.content], recorded.payload)
  {}

  lemma NothingIsMade(artifact: Artifact)
    ensures Made([], artifact)
  {}

  predicate Unrecorded(first: bool, recorded: Publication, pending: Publication) {
    first || (recorded.content == "" && recorded.payload == pending.payload)
  }

  /** Writes the marker that names the version about to receive this payload. */
  method Record(g: Graph, m: Publication, ghost shape: string -> Artifact) returns (ok: bool)
    requires g.Valid() && g.app.Some? && Inv(g.app.value, m.identity) && ValidPayload(m)
    requires m.content in g.app.value.versions && HoldsOnly(g.app.value.versions[m.content], m.payload)
    requires g.app.value.committed != "" && Undisturbed(g.app.value, m.content)
    modifies g`script, g`app
    ensures g.Valid() && g.app.Some? && Inv(g.app.value, m.identity)
    ensures g.app.value.versions == old(g.app.value).versions
    ensures old(Shaped(g.app.value, m.identity, shape))
              && Made(old(g.app.value).versions[m.content], shape(m.payload)) ==>
              Shaped(g.app.value, m.identity, shape)
    ensures NoteText(g.app.value.notes, None) == NoteText(old(g.app.value).notes, None)
    ensures g.app.value.committed != ""
    ensures ok ==> Receiving(g.app.value, m.identity, m.content, m.payload)
                   && RecoverMarker(g.app.value.notes, m.identity) == Success(m)
    ensures old(g.script) == [] ==> ok && g.script == []
  {
    hide RecoverMarker, NoteText, WithMarker, Describes, Shaped, Made;
    ghost var before := g.app.value;
    assert g.Issued(m.content);
    var current := g.GetApp();
    DriftKeeps(before, g.app.value, m.identity);
    DriftKeepsShaped(before, g.app.value, m.identity, shape);
    if current.None? {
      return false;
    }
    ghost var observed := g.app.value;
    var notes := WithMarker(NoteText(current.value.notes, None), m);
    RewrittenNotesRecover(observed.notes, m);
    ok := g.PatchNotes(notes);
    RecordKeeps(observed, m.content, notes, m, g.app.value, ok);
    if Shaped(observed, m.identity, shape) && Made(observed.versions[m.content], shape(m.payload)) {
      RecordKeepsShaped(observed, notes, m, g.app.value, shape);
    }
  }

  lemma RecordKeepsShaped(app: App, notes: string, m: Publication, now: App, shape: string -> Artifact)
    requires now.versions == app.versions && (now.notes == app.notes || now.notes == notes)
    requires RecoverMarker(notes, m.identity) == Success(m) && m.content in app.versions && m.content != ""
    requires Shaped(app, m.identity, shape) && Made(app.versions[m.content], shape(m.payload))
    ensures Shaped(now, m.identity, shape)
  {
    hide RecoverMarker, Made;
  }

  /** What an upload blocked or not leaves of the files of the chosen version. */
  lemma BlockedByFiles(app: App, first: bool, recorded: Publication, pending: Publication, version: string,
                       artifact: Artifact)
    requires pending.payload == artifact.identity && recorded.payload == pending.payload
    requires version in app.versions
    requires if pending.content != "" then version == pending.content
             else Unrecorded(first, recorded, pending) && |app.versions| == 1
    ensures UploadBlocked(app, first, recorded, pending.content, artifact) <==>
            Unusable(app.versions[version], artifact) ||
            (pending.content == "" && |app.versions[version]| == 1 && app.versions[version][0].state == Rejected)
  {
    if pending.content == "" {
      OnlyVersion(app, version);
      assert forall v :: v in app.versions ==> v in app.versions.Keys;
    }
  }

  /** The cases that are decided before any file is listed. */
  lemma BlockedOutright(app: App, first: bool, recorded: Publication, pending: Publication, artifact: Artifact)
    requires pending.payload == artifact.identity
    ensures first && recorded.payload != pending.payload ==>
            UploadBlocked(app, first, recorded, pending.content, artifact)
    ensures !(first && recorded.payload != pending.payload) && pending.content == "" ==>
              && (Unrecorded(first, recorded, pending) && |app.versions| > 1 ==>
                    UploadBlocked(app, first, recorded, "", artifact))
              && (!Unrecorded(first, recorded, pending) || |app.versions| == 0 ==>
                    !UploadBlocked(app, first, recorded, "", artifact))
  {
    if |app.versions| == 0 {
      assert app.versions == map[];
    }
  }

  lemma AlreadyReceiving(app: App, version: string, recorded: Publication, payload: string)
    requires Inv(app, recorded.identity) && RecoverMarker(app.notes, recorded.identity) == Success(recorded)
    requires version in app.versions && HoldsOnly(app.versions[version], payload)
    requires recorded.payload == payload && (recorded.content == "" || recorded.content == version)
    ensures Receiving(app, recorded.identity, version, payload)
  {}

  lemma ReceivingIsConsistent(app: App, version: string, identity: string, payload: string)
    requires Receiving(app, identity, version, payload)
    ensures Inv(app, identity)
  {}

  /** Lists the chosen version's files: at most one, and one only if it is this upload's. */
  method FindFile(g: Graph, version: string, recorded: Publication, pending: Publication, artifact: Artifact)
    returns (r: Result<Option<FileView>, Error>)
    requires g.Valid() && g.app.Some? && Inv(g.app.value, pending.identity) && version in g.app.value.versions
    modifies g`script, g`app
    ensures g.Valid() && g.app.Some? && Inv(g.app.value, pending.identity) && Drift(old(g.app.value), g.app.value)
    ensures version in g.app.value.versions
    ensures r.Success? ==>
              match r.value
              case Some(view) =>
                && OneFile(g.app.value, version) && view == FileViewOf(g.app.value.versions[version][0])
                && recorded.payload == pending.payload
                && view.name == artifact.name && view.size == artifact.size && view.sealedSize == artifact.sealedSize
              case None => g.app.value.versions[version] == []
    ensures r.Failure? ==> r.error in {RequestFailed, MultipleFiles, FileMismatch}
    ensures var files := old(g.app.value).versions[version];
            Made(files, artifact) && (files == [] || recorded.payload == pending.payload) ==>
              (r.Failure? ==> r.error == RequestFailed)
    ensures old(g.script) == [] ==>
              && g.script == []
              && var files := old(g.app.value).versions[version];
                 r.Failure? <==> Unusable(files, artifact) || (|files| == 1 && recorded.payload != pending.payload)
  {
    hide Inv;
    ghost var listed := g.app.value;
    var files := g.ListFiles(version);
    DriftKeeps(listed, g.app.value, pending.identity);
    if files.None? {
      return Failure(RequestFailed);
    }
    if |files.value| > 1 {
      return Failure(MultipleFiles);
    }
    if |files.value| == 0 {
      return Success(None);
    }
    if recorded.payload != pending.payload || !Matches(files.value[0], artifact) {
      return Failure(FileMismatch);
    }
    return Success(Some(files.value[0]));
  }

  lemma FileIsTheArtifacts(before: App, after: App, version: string, known: Option<FileView>, artifact: Artifact)
    requires OneFile(after, version)
    requires match known
             case Some(view) =>
               && OneFile(before, version) && view == FileViewOf(before.versions[version][0])
               && view.name == artifact.name && view.size == artifact.size && view.sealedSize == artifact.sealedSize
               && KeepsShapes(before, after, version)
             case None =>
               && after.versions[version][0].name == artifact.name && after.versions[version][0].size == artifact.size
               && after.versions[version][0].sealedSize == artifact.sealedSize
    ensures after.versions[version][0].name == artifact.name
    ensures after.versions[version][0].size == artifact.size
    ensures after.versions[version][0].sealedSize == artifact.sealedSize
  {}

  datatype Target = Target(version: string, known: Option<FileView>)

  /** Chooses the version to receive a payload, and records it in the marker before any file
      is sent, except on a first upload, where Graph refuses to change the notes and the
      creation marker already names the payload. */
  method Place(g: Graph, first: bool, recorded: Publication, pending: Publication, artifact: Artifact,
               ghost shape: string -> Artifact)
    returns (r: Result<Target, Error>)
    requires g.Valid() && g.app.Some? && Inv(g.app.value, pending.identity)
    requires ValidPayload(pending) && pending.payload == artifact.identity
    requires RecoverMarker(g.app.value.notes, pending.identity) == Success(recorded)
    requires !first ==> g.app.value.committed != ""
    requires pending.content != "" ==> pending == recorded
    requires first ==> recorded.content == "" && recorded.payload == pending.payload
    modifies g
    ensures g.Valid() && g.app.Some? && Inv(g.app.value, pending.identity)
    ensures NoteText(g.app.value.notes, None) == NoteText(old(g.app.value).notes, None)
    ensures pending.content != "" && r.Success? ==> r.value.version == pending.content
    ensures first || pending.content != "" ==> g.app.value.notes == old(g.app.value).notes
    ensures !first ==> g.app.value.committed != ""
    ensures r.Success? ==>
              && Receiving(g.app.value, pending.identity, r.value.version, artifact.identity)
              && r.value.version in g.app.value.versions
              && match r.value.known
                 case None => g.app.value.versions[r.value.version] == []
                 case Some(view) =>
                   && OneFile(g.app.value, r.value.version)
                   && view == FileViewOf(g.app.value.versions[r.value.version][0])
                   && view.name == artifact.name && view.size == artifact.size && view.sealedSize == artifact.sealedSize
    ensures Shaped(old(g.app.value), pending.identity, shape) && shape(artifact.identity) == artifact ==>
              && Shaped(g.app.value, pending.identity, shape)
              && (r.Success? ==> Made(g.app.value.versions[r.value.version], artifact))
              && (r.Failure? ==> r.error !in {MultipleFiles, FileMismatch})
    ensures r.Failure? ==> r.error != UploadRejected
    ensures old(g.script) == [] ==>
              && g.script == []
              && (r.Failure? ==> UploadBlocked(old(g.app.value), first, recorded, pending.content, artifact))
              && (r.Success? ==>
                    (pending.content != "" && Resumable(old(g.app.value), pending.content) && r.value.known.Some? ==>
                       r.value.known.value.state != Rejected))
              && (r.Success? ==>
                    (UploadBlocked(old(g.app.value), first, recorded, pending.content, artifact) <==>
                     pending.content == "" && r.value.known.Some? && r.value.known.value.state == Rejected))
  {
    hide RecoverMarker, NoteText, Inv, Receiving, UploadBlocked, Shaped, Made;
    ghost var start := g.app.value;
    var chosen := ChooseVersion(g, first, recorded, pending, shape);
    BlockedOutright(start, first, recorded, pending, artifact);
    if chosen.Failure? {
      return Failure(chosen.error);
    }
    var version := chosen.value;
    if version in start.versions && recorded.payload == pending.payload &&
       (pending.content != "" || (Unrecorded(first, recorded, pending) && |start.versions| == 1)) {
      BlockedByFiles(start, first, recorded, pending, version, artifact);
    }
    ghost var listed := g.app.value;
    var found := FindFile(g, version, recorded, pending, artifact);
    DriftKeeps(listed, g.app.value, pending.identity);
    DriftKeepsShaped(listed, g.app.value, pending.identity, shape);
    if found.Failure? {
      return Failure(found.error);
    }
    if !first && pending.content != version {
      var ok := Record(g, pending.(content := version), shape);
      if !ok {
        return Failure(RequestFailed);
      }
    } else {
      RecoveredIdentity(g.app.value.notes, pending.identity);
      AlreadyReceiving(g.app.value, version, recorded, pending.payload);
    }
    return Success(Target(version, found.value));
  }

  /** An upload into this version was not rejected before. */
  predicate Resumable(app: App, version: string) {
    && version in app.versions
    && forall i :: 0 <= i < |app.versions[version]| ==> app.versions[version][i].state != Rejected
  }

  /** Uploads a payload and returns the version that holds it, in a file with the artifact's
      name and sizes. An upload that Graph rejected is tried once more, in a new version. */
  method Upload(g: Graph, current: View, pending: Publication, artifact: Artifact, expiring: bool,
                ghost shape: string -> Artifact)
    returns (r: Result<string, Error>)
    requires g.Valid() && g.app.Some? && Inv(g.app.value, pending.identity)
    requires ValidPayload(pending) && pending.payload == artifact.identity
    requires current.notes == g.app.value.notes
    requires current.committed != "" ==> g.app.value.committed != ""
    requires RecoverMarker(current.notes, pending.identity).Success? ==>
               var recorded := RecoverMarker(current.notes, pending.identity).value;
               && (pending.content != "" ==> pending == recorded)
               && (current.committed == "" ==> recorded.content == "")
    requires RecoverMarker(current.notes, pending.identity).Failure? ==> pending.content == ""
    modifies g
    ensures g.Valid() && g.app.Some? && Inv(g.app.value, pending.identity)
    ensures NoteText(g.app.value.notes, None) == NoteText(old(g.app.value).notes, None)
    ensures current.committed == "" ==> g.app.value.notes == old(g.app.value).notes
    ensures r.Success? ==>
              && RecoverMarker(current.notes, pending.identity).Success?
              && FileCommitted(g.app.value, r.value, artifact.identity)
              && Receiving(g.app.value, pending.identity, r.value, artifact.identity)
              && g.app.value.versions[r.value][0].name == artifact.name
              && g.app.value.versions[r.value][0].size == artifact.size
              && g.app.value.versions[r.value][0].sealedSize == artifact.sealedSize
    ensures old(Shaped(g.app.value, pending.identity, shape)) && shape(artifact.identity) == artifact ==>
              && Shaped(g.app.value, pending.identity, shape)
              && (r.Failure? ==> r.error !in {MultipleFiles, FileMismatch})
    ensures old(g.script) == [] && RecoverMarker(current.notes, pending.identity).Success? ==>
              && g.script == []
              && (r.Failure? <==> UploadBlocked(old(g.app.value), current.committed == "",
                                    RecoverMarker(current.notes, pending.identity).value, pending.content, artifact))
    ensures old(g.script) == [] && pending.content != "" && Resumable(old(g.app.value), pending.content)
              && r.Success? ==>
              r.value == pending.content
    decreases |pending.content|
  {
    hide RecoverMarker, NoteText, Inv, Receiving, UploadBlocked, Shaped, Made, Adds, KeepsShapes;
    ghost var start := g.app.value;
    var recovered := RecoverMarker(current.notes, pending.identity);
    if recovered.Failure? {
      return Failure(ForeignMarker);
    }
    var recorded := recovered.value;
    var first := current.committed == "";
    if first && recorded.payload != pending.payload {
      BlockedOutright(start, first, recorded, pending, artifact);
      return Failure(FirstUploadMismatch);
    }
    BlockedOutright(start, first, recorded, pending, artifact);
    var placed := Place(g, first, recorded, pending, artifact, shape);
    if placed.Failure? {
      return Failure(placed.error);
    }
    var version := placed.value.version;
    ghost var ready := g.app.value;
    var uploaded := UploadFile(g, version, placed.value.known, artifact, expiring, pending.identity);
    if Shaped(ready, pending.identity, shape) && Made(ready.versions[version], artifact)
       && shape(artifact.identity) == artifact {
      AddsKeepsShaped(ready, g.app.value, version, artifact, pending.identity, shape);
    }
    ReceivingIsConsistent(g.app.value, version, pending.identity, pending.payload);
    if uploaded.Success? {
      FileIsTheArtifacts(ready, g.app.value, version, placed.value.known, artifact);
      return Success(version);
    }
    if uploaded.error == UploadRejected {
      if first {
        return Failure(FirstUploadStuck);
      }
      if pending.content != "" {
        BlockedOutright(g.app.value, first, recorded, pending.(content := ""), artifact);
        r := Upload(g, current, pending.(content := ""), artifact, expiring, shape);
        return;
      }
    }
    return Failure(uploaded.error);
  }
}
