/**
 One plan or apply of an Intune destination (internal/intune/intune.go), reduced to
 content and notes: what a run reads, writes and promises about the app.
 */
module IntuneHandle {
  import opened Wrappers
  import opened IntuneMarker
  import opened IntuneGraph
  import opened IntunePublication

  datatype Mode = Plan | Apply

  /** `available` says whether the host already materialized the artifact, `expiring`
      whether an upload URI is about to expire. */
  datatype Request = Request(mode: Mode, identity: string, pinned: bool, artifact: Artifact,
                             available: bool, notes: Option<string>, expiring: bool)

  datatype Change = CreateApp | UploadContent | SetNotes

  datatype Response = Response(changes: seq<Change>, contentRequested: bool)

  predicate ValidRequest(req: Request) {
    ValidPayload(Publication(req.identity, req.artifact.identity, ""))
  }

  /** The notes a run leaves: the declared or the existing text, then the marker. */
  function DesiredNotes(current: string, req: Request, m: Publication): string {
    WithMarker(NoteText(current, req.notes), m)
  }

  function Committed(current: Option<View>): string {
    if current.Some? then current.value.committed else ""
  }

  function Planned(current: Option<View>, published: Publication, req: Request): seq<Change> {
    (if current.None? then [CreateApp] else [])
    + (if Active(published, Committed(current)) != req.artifact.identity then [UploadContent] else [])
    + (if current.Some? && DesiredNotes(current.value.notes, req, published) != current.value.notes then [SetNotes]
      else [])
  }

  predicate Carries(notes: string, identity: string) {
    exists i :: 0 <= i < |Lines(notes)| && MarkerOf(Lines(notes)[i]).Some?
      && MarkerOf(Lines(notes)[i]).value.identity == identity
  }

  /** The run manages this app: it is pinned, or its notes carry the identity. */
  predicate Managed(app: Option<App>, req: Request) {
    app.Some? && (req.pinned || Carries(app.value.notes, req.identity))
  }

  /** What an apply that returned without an error leaves behind. */
  predicate Settled(app: App, req: Request) {
    && app.requested.None?
    && Holding(app, app.committed)
    && HoldsOnly(app.versions[app.committed], req.artifact.identity)
    && app.notes == DesiredNotes(app.notes, req, Publication(req.identity, req.artifact.identity, app.committed))
  }

  /** Why an apply cannot finish even when no request fails. */
  predicate Blocked(app: App, req: Request) {
    match RecoverMarker(app.notes, req.identity)
    case Failure(_) => true
    case Success(m) =>
      && Active(m, app.committed) != req.artifact.identity
      && UploadBlocked(app, app.committed == "", m, Resume(m, req), req.artifact)
  }

  /** The version to continue, when the marker already records this payload. */
  function Resume(m: Publication, req: Request): string {
    if m.payload == req.artifact.identity then m.content else ""
  }

  lemma DesiredNotesStable(current: string, req: Request, m: Publication)
    requires WellFormed(m)
    ensures DesiredNotes(DesiredNotes(current, req, m), req, m) == DesiredNotes(current, req, m)
  {
    if req.notes.None? {
      RewrittenNotesRecover(current, m);
    }
  }

  /** After a successful apply the next plan of the same artifact is empty, exactly
      when the declared notes smuggle in no marker of another identity. */
  lemma SettledPlansNothing(app: App, req: Request)
    requires ValidRequest(req) && Settled(app, req) && Every(app.committed, IsContentByte) && app.committed != ""
    ensures (req.notes.Some? ==> OnlyOwnMarkers(req.notes.value, req.identity)) <==>
            (&& RecoverMarker(app.notes, req.identity).Success?
             && var m := RecoverMarker(app.notes, req.identity).value;
                Active(m, app.committed) == req.artifact.identity && Planned(Some(ViewOf(app)), m, req) == [])
  {
    var m := Publication(req.identity, req.artifact.identity, app.committed);
    var text := NoteText(app.notes, req.notes);
    RecoverInvertsWithMarker(text, m);
    if req.notes.None? {
      StrippedNotesHaveNoMarker(app.notes);
      assert !HasMarker(text);
    }
  }

  /** Polls until the app is published and, after an activation, at that version. */
  method WaitPublished(g: Graph, activated: string) returns (r: Result<View, Error>)
    requires g.Valid() && g.app.Some?
    modifies g`script, g`app
    ensures g.Valid() && g.app.Some? && Drift(old(g.app.value), g.app.value)
    ensures r.Success? ==> r.value == ViewOf(g.app.value) && r.value.published
                           && (activated != "" ==> r.value.committed == activated)
    ensures r.Failure? ==> r.error in {RequestFailed, PollLimit}
    ensures var settled := Settle(old(g.app.value));
            old(g.script) == [] && settled.committed != "" && (activated != "" ==> settled.committed == activated)
            ==> r.Success? && g.script == []
  {
    ghost var start, faultless := g.app.value, g.script == [];
    for poll := 0 to POLLS
      invariant g.Valid() && g.app.Some? && Drift(start, g.app.value)
      invariant poll == 0 ==> g.app.value == start && (faultless ==> g.script == [])
      invariant poll > 0 && faultless ==>
                  Settle(start).committed == "" || (activated != "" && Settle(start).committed != activated)
    {
      var view := g.GetApp();
      if view.None? {
        return Failure(RequestFailed);
      }
      if view.value.published && (activated == "" || view.value.committed == activated) {
        return Success(view.value);
      }
    }
    return Failure(PollLimit);
  }

  /** Finds the app this identity manages and reads it. */
  method Observe(g: Graph, req: Request) returns (r: Result<Option<View>, Error>)
    requires g.Valid() && (g.app.Some? ==> Inv(g.app.value, req.identity))
    modifies g`script, g`app
    ensures g.Valid() && (g.app.Some? <==> old(g.app).Some?)
    ensures g.app.Some? ==> Inv(g.app.value, req.identity) && Drift(old(g.app).value, g.app.value)
    ensures r.Success? && r.value.Some? ==> Managed(g.app, req) && r.value.value == ViewOf(g.app.value)
    ensures r.Success? && r.value.None? ==> !Managed(g.app, req) && !req.pinned
    ensures r.Failure? ==> r.error in {RequestFailed, NotFound}
    ensures old(g.script) == [] ==>
              && g.script == []
              && (r.Failure? <==> req.pinned && g.app.None?)
              && g.app == if old(g.app).Some? then Some(Settle(old(g.app).value)) else None
  {
    hide Inv, Carries;
    ghost var start := g.app;
    if req.pinned {
      if g.app.None? {
        return Failure(NotFound);
      }
    } else {
      var listing := g.ListApps();
      if start.Some? {
        DriftKeeps(start.value, g.app.value, req.identity);
      }
      if listing.None? {
        return Failure(RequestFailed);
      }
      if listing.value.None? || !Carries(listing.value.value, req.identity) {
        return Success(None);
      }
    }
    ghost var found := g.app.value;
    var view := g.GetApp();
    DriftKeeps(found, g.app.value, req.identity);
    return if view.Some? then Success(view) else Failure(RequestFailed);
  }

  lemma DesiredNotesKeep(app: App, req: Request, m: Publication)
    requires Inv(app, req.identity) && WellFormed(m) && m.identity == req.identity
    requires app.committed == m.content && m.content != "" && app.requested.None?
    requires m.content in app.versions && HoldsOnly(app.versions[m.content], m.payload)
    ensures Inv(app.(notes := DesiredNotes(app.notes, req, m)), req.identity)
  {
    RecoverInvertsWithMarker(NoteText(app.notes, req.notes), m);
  }

  lemma DesiredNotesShaped(app: App, req: Request, m: Publication, shape: string -> Artifact)
    requires WellFormed(m) && m.identity == req.identity && m.content in app.versions && m.content != ""
    requires Made(app.versions[m.content], shape(m.payload))
    ensures Shaped(app.(notes := DesiredNotes(app.notes, req, m)), req.identity, shape)
  {
    RecoverInvertsWithMarker(NoteText(app.notes, req.notes), m);
    hide RecoverMarker, WithMarker, NoteText, Made;
  }

  /** Writes the desired notes when they differ and reads them back. */
  method ApplyMetadata(g: Graph, activated: string, current: View, req: Request, m: Publication,
                       ghost shape: string -> Artifact)
    returns (r: Result<(), Error>)
    requires g.Valid() && g.app.Some? && Inv(g.app.value, req.identity)
    requires current == ViewOf(g.app.value) && current.published
    requires WellFormed(m) && m.identity == req.identity && m.payload == req.artifact.identity
    requires m.content != "" && g.app.value.committed == m.content && (activated == "" || activated == m.content)
    requires Holding(g.app.value, m.content) && HoldsOnly(g.app.value.versions[m.content], m.payload)
    modifies g`script, g`app
    ensures g.Valid() && g.app.Some? && Inv(g.app.value, req.identity)
    ensures r.Success? ==> Settled(g.app.value, req) && g.app.value.committed == m.content
    ensures g.app.value.versions == old(g.app.value).versions
    ensures Shaped(old(g.app.value), req.identity, shape)
              && Made(old(g.app.value).versions[m.content], shape(m.payload)) ==>
              Shaped(g.app.value, req.identity, shape)
    ensures r.Failure? ==> r.error in {RequestFailed, PollLimit, NotesDiffer}
    ensures old(g.script) == [] ==> r.Success? && g.script == []
  {
    hide Inv, DesiredNotes, Shaped, Made;
    var view := current;
    var notes := DesiredNotes(current.notes, req, m);
    DesiredNotesStable(current.notes, req, m);
    if notes != current.notes {
      ghost var before := g.app.value;
      DesiredNotesKeep(before, req, m);
      var ok := g.PatchNotes(notes);
      ghost var patched := g.app.value;
      ghost var base := if Drift(before, patched) then before else before.(notes := notes);
      DriftKeeps(base, patched, req.identity);
      DriftKeepsShaped(base, patched, req.identity, shape);
      if Made(before.versions[m.content], shape(m.payload)) {
        DesiredNotesShaped(before, req, m, shape);
      }
      if !ok {
        return Failure(RequestFailed);
      }
      var waited := WaitPublished(g, activated);
      DriftKeeps(patched, g.app.value, req.identity);
      DriftKeepsShaped(patched, g.app.value, req.identity, shape);
      if waited.Failure? {
        return Failure(waited.error);
      }
      view := waited.value;
      SameFiles(before, g.app.value, m.content);
    }
    if DesiredNotes(view.notes, req, m) != view.notes {
      return Failure(NotesDiffer);
    }
    return Success(());
  }

  lemma SameFiles(before: App, after: App, version: string)
    requires before.versions == after.versions
    ensures Holding(before, version) == Holding(after, version)
  {}

  lemma SameFilesAreShaped(before: App, after: App, identity: string, shape: string -> Artifact)
    requires before.versions == after.versions && before.notes == after.notes
    ensures Shaped(before, identity, shape) <==> Shaped(after, identity, shape)
  {
    hide RecoverMarker;
  }

  lemma ActivationKeeps(app: App, version: string, identity: string, payload: string)
    requires Receiving(app, identity, version, payload) && FileCommitted(app, version, payload)
    ensures Inv(app.(requested := Some(version)), identity)
    ensures Holding(app, version) && HoldsOnly(app.versions[version], payload)
  {
    assert HasCommitted(app.versions[version]) by {
      assert app.versions[version][0].state == IntuneGraph.Committed;
    }
  }

  /** Uploads the payload and switches the app to its version. */
  method Activate(g: Graph, current: View, pending: Publication, req: Request, ghost shape: string -> Artifact)
    returns (r: Result<string, Error>)
    requires g.Valid() && g.app.Some? && Inv(g.app.value, pending.identity)
    requires ValidPayload(pending) && pending.payload == req.artifact.identity
    requires current.notes == g.app.value.notes
    requires current.committed != "" ==> g.app.value.committed != ""
    requires RecoverMarker(current.notes, pending.identity).Success? ==>
               var recorded := RecoverMarker(current.notes, pending.identity).value;
               && (pending.content != "" ==> pending == recorded)
               && (current.committed == "" ==> recorded.content == "")
    requires RecoverMarker(current.notes, pending.identity).Failure? ==> pending.content == ""
    modifies g
    ensures g.Valid() && g.app.Some? && Inv(g.app.value, pending.identity)
    ensures NoteText(g.app.value.notes, None) == NoteText(old(g.app.value).notes, None)
    ensures current.committed == "" && r.Success? ==>
              g.app.value.notes == old(g.app.value).notes
    ensures r.Success? ==>
              && FileCommitted(g.app.value, r.value, req.artifact.identity)
              && g.app.value.versions[r.value][0].name == req.artifact.name
              && g.app.value.versions[r.value][0].size == req.artifact.size
              && g.app.value.versions[r.value][0].sealedSize == req.artifact.sealedSize
    ensures Shaped(old(g.app.value), pending.identity, shape) && shape(req.artifact.identity) == req.artifact ==>
              && Shaped(g.app.value, pending.identity, shape)
              && (r.Failure? ==> r.error !in {MultipleFiles, FileMismatch})
    ensures old(g.script) == [] && pending.content != "" && Resumable(old(g.app.value), pending.content)
              && r.Success? ==>
              r.value == pending.content
    ensures r.Success? ==>
              && g.app.value.requested == Some(r.value) && r.value != "" && Every(r.value, IsContentByte)
              && Holding(g.app.value, r.value) && HoldsOnly(g.app.value.versions[r.value], req.artifact.identity)
    ensures RecoverMarker(current.notes, pending.identity).Failure? ==> r.Failure?
    ensures old(g.script) == [] && RecoverMarker(current.notes, pending.identity).Success? ==>
              && g.script == []
              && (r.Failure? <==> UploadBlocked(old(g.app.value), current.committed == "",
                                    RecoverMarker(current.notes, pending.identity).value, pending.content,
                                      req.artifact))
  {
    hide Inv, RecoverMarker, NoteText, UploadBlocked, Shaped;
    var uploaded := Upload(g, current, pending, req.artifact, req.expiring, shape);
    if uploaded.Failure? {
      return uploaded;
    }
    var version := uploaded.value;
    ghost var ready := g.app.value;
    assert g.Issued(version);
    assert version != "" by { VersionIsNamed(ready, pending.identity, version); }
    DriftKeeps(ready, ready, pending.identity);
    DriftKeeps(ready, Settle(ready), pending.identity);
    DriftReceives(ready, pending.identity, version, req.artifact.identity);
    ActivationKeeps(ready, version, pending.identity, req.artifact.identity);
    ActivationKeeps(Settle(ready), version, pending.identity, req.artifact.identity);
    var ok := g.Activate(version);
    SameFiles(ready, g.app.value, version);
    SameFilesAreShaped(ready, g.app.value, pending.identity, shape);
    return if ok then Success(version) else Failure(RequestFailed);
  }

  lemma VersionIsNamed(app: App, identity: string, version: string)
    requires Inv(app, identity) && version in app.versions
    ensures version != ""
  {}

  lemma DriftReceives(app: App, identity: string, version: string, payload: string)
    requires Receiving(app, identity, version, payload)
    ensures Receiving(Settle(app), identity, version, payload)
  {
    DriftKeeps(app, Settle(app), identity);
  }

  lemma ActiveFacts(app: App, req: Request, m: Publication)
    requires Inv(app, req.identity) && RecoverMarker(app.notes, req.identity) == Success(m)
    requires Active(m, app.committed) == req.artifact.identity && ValidRequest(req)
    ensures WellFormed(m) && m == Publication(req.identity, req.artifact.identity, app.committed) && app.committed != ""
    ensures Holding(app, app.committed) && HoldsOnly(app.versions[app.committed], req.artifact.identity)
    ensures Settle(app).committed == app.committed
  {
    RecoveredIdentity(app.notes, req.identity);
  }

  lemma RecordedFacts(app: App, identity: string)
    requires Inv(app, identity)
    ensures RecoverMarker(app.notes, identity).Success? ==>
              && RecoverMarker(app.notes, identity).value.identity == identity
              && (app.committed == "" ==> RecoverMarker(app.notes, identity).value.content == "")
  {
    if RecoverMarker(app.notes, identity).Success? {
      RecoveredIdentity(app.notes, identity);
    }
  }

  lemma CreatedApp(notes: string, req: Request)
    requires ValidRequest(req)
    ensures var m := Publication(req.identity, req.artifact.identity, "");
            var app := App("", None, WithMarker(notes, m), map[]);
            && Inv(app, req.identity)
            && RecoverMarker(app.notes, req.identity) ==
                 (if OnlyOwnMarkers(notes, req.identity) then Success(m) else Failure(ForeignIdentity))
            && !UploadBlocked(app, true, m, "", req.artifact)
  {
    var m := Publication(req.identity, req.artifact.identity, "");
    RecoverInvertsWithMarker(notes, m);
  }

  /** The text a creation puts before the marker. */
  function CreationNotes(req: Request): string {
    if req.notes.Some? then req.notes.value else ""
  }

  /** Why an apply fails although every request succeeds. */
  predicate Rejected(app: Option<App>, req: Request) {
    if Managed(app, req) then Blocked(Settle(app.value), req)
    else if req.pinned then app.None? else !OnlyOwnMarkers(CreationNotes(req), req.identity)
  }

  /** The app cannot be planned for: a pinned app is missing or belongs to other software. */
  predicate Unplannable(app: Option<App>, req: Request) {
    if Managed(app, req) then RecoverMarker(app.value.notes, req.identity).Failure? else req.pinned
  }

  /** The committed version does not hold the artifact. */
  predicate ContentDue(app: Option<App>, req: Request) {
    !Managed(app, req)
    || match RecoverMarker(app.value.notes, req.identity)
       case Failure(_) => true
       case Success(m) => Active(m, app.value.committed) != req.artifact.identity
  }

  /** The changes that a run reports for an app as it finds it. */
  function Expected(app: Option<App>, req: Request): seq<Change> {
    if !Managed(app, req) then Planned(None, Publication(req.identity, "", ""), req)
    else match RecoverMarker(app.value.notes, req.identity)
      case Failure(_) => []
      case Success(m) => Planned(Some(ViewOf(app.value)), m, req)
  }

  predicate AppShaped(app: Option<App>, identity: string, shape: string -> Artifact) {
    app.Some? ==> Shaped(app.value, identity, shape)
  }

  lemma ObservedIsShaped(before: Option<App>, after: Option<App>, identity: string, shape: string -> Artifact)
    requires before.Some? <==> after.Some?
    requires after.Some? ==> Drift(before.value, after.value)
    ensures AppShaped(before, identity, shape) <==> AppShaped(after, identity, shape)
  {
    if after.Some? {
      DriftKeepsShaped(before.value, after.value, identity, shape);
    }
  }

  lemma CreatedIsShaped(app: Option<App>, before: Option<App>, notes: string, identity: string,
                        shape: string -> Artifact)
    requires app == Some(App("", None, notes, map[])) || app == before
    ensures AppShaped(before, identity, shape) ==> AppShaped(app, identity, shape)
  {
    hide RecoverMarker;
  }

  /** The notes are not yet what the request and the recorded publication ask for. */
  predicate NotesDue(app: Option<App>, req: Request) {
    && Managed(app, req)
    && match RecoverMarker(app.value.notes, req.identity)
       case Failure(_) => false
       case Success(m) =>
         var text := if req.notes.Some? then req.notes.value else NoteText(app.value.notes, None);
         app.value.notes != if text == "" then Print(m) else text + "\n" + Print(m)
  }

  function SettledApp(app: Option<App>): Option<App> {
    if app.Some? then Some(Settle(app.value)) else None
  }

  /** The committed version is one finished file with the payload, the name and the sizes of
      the artifact. */
  predicate HoldsArtifact(app: App, artifact: Artifact) {
    && FileCommitted(app, app.committed, artifact.identity)
    && app.versions[app.committed][0].name == artifact.name
    && app.versions[app.committed][0].size == artifact.size
    && app.versions[app.committed][0].sealedSize == artifact.sealedSize
  }

  lemma FileIsMade(files: seq<File>, artifact: Artifact)
    requires |files| == 1 && files[0].name == artifact.name
    requires files[0].size == artifact.size && files[0].sealedSize == artifact.sealedSize
    ensures Made(files, artifact)
  {}

  /** Publishes content and notes from an observed state; `m` is what its marker records. */
  method Converge(g: Graph, current: View, m: Publication, req: Request, ghost shape: string -> Artifact)
    returns (r: Result<(), Error>)
    requires g.Valid() && g.app.Some? && Inv(g.app.value, req.identity) && ValidRequest(req)
    requires current == ViewOf(g.app.value)
    requires match RecoverMarker(current.notes, req.identity)
             case Success(recorded) => m == recorded
             case Failure(_) => m.content == ""
    modifies g
    ensures g.Valid() && g.app.Some? && Inv(g.app.value, req.identity)
    ensures r.Success? ==>
            Settled(g.app.value, req) && g.app.value.committed != "" && Every(g.app.value.committed, IsContentByte)
    ensures r.Success? && Active(m, current.committed) != req.artifact.identity ==>
              HoldsArtifact(g.app.value, req.artifact)
    ensures Shaped(old(g.app.value), req.identity, shape) && shape(req.artifact.identity) == req.artifact ==>
              && Shaped(g.app.value, req.identity, shape)
              && (r.Failure? ==> r.error !in {MultipleFiles, FileMismatch})
    ensures old(g.script) == [] && m.payload == req.artifact.identity && m.content != ""
            && Resumable(old(g.app.value), m.content) && r.Success? ==>
              g.app.value.committed == m.content
    ensures RecoverMarker(current.notes, req.identity).Failure? ==> r.Failure?
    ensures old(g.script) == [] && RecoverMarker(current.notes, req.identity).Success? ==>
              && g.script == []
              && (r.Failure? <==> Active(m, current.committed) != req.artifact.identity
                                  && UploadBlocked(old(g.app.value), current.committed == "", m, Resume(m, req),
                                       req.artifact))
  {
    hide RecoverMarker, UploadBlocked, DesiredNotes, Inv, Shaped, Made;
    var published, activated := m, "";
    ghost var start := g.app.value;
    if Active(m, current.committed) != req.artifact.identity {
      var pending := Publication(req.identity, req.artifact.identity, Resume(m, req));
      RecordedFacts(start, req.identity);
      var done := Activate(g, current, pending, req, shape);
      if done.Failure? {
        return Failure(done.error);
      }
      activated := done.value;
      published := pending.(content := activated);
      FileIsMade(g.app.value.versions[activated], req.artifact);
    } else {
      ActiveFacts(start, req, m);
      if Shaped(start, req.identity, shape) {
        ChosenIsMade(start, m.content, m, req.identity, shape);
      }
    }
    ghost var ready := g.app.value;
    var waited := WaitPublished(g, activated);
    DriftKeeps(ready, g.app.value, req.identity);
    DriftKeepsShaped(ready, g.app.value, req.identity, shape);
    SameFiles(ready, g.app.value, published.content);
    if waited.Failure? {
      return Failure(waited.error);
    }
    assert waited.value.committed == published.content;
    r := ApplyMetadata(g, activated, waited.value, req, published, shape);
  }

  lemma NothingPlanned(app: App, req: Request, m: Publication)
    requires Inv(app, req.identity) && RecoverMarker(app.notes, req.identity) == Success(m) && ValidRequest(req)
    requires Planned(Some(ViewOf(app)), m, req) == [] && app.requested.None?
    ensures Settled(app, req) && app.committed != "" && Every(app.committed, IsContentByte)
              && m.content == app.committed
  {
    hide RecoverMarker, Inv, DesiredNotes;
    ActiveFacts(app, req, m);
  }

  lemma SettlingIsResumable(before: App, after: App)
    requires Drift(before, after)
    ensures forall v :: Resumable(before, v) <==> Resumable(after, v)
  {}

  /** What a run reports: a creation for an app that is not managed yet, an upload unless the
      committed version holds the artifact, and new notes if they are to change. */
  lemma ExpectedSays(app: Option<App>, req: Request)
    requires ValidRequest(req) && !Unplannable(app, req)
    ensures CreateApp in Expected(app, req) <==> !Managed(app, req)
    ensures UploadContent in Expected(app, req) <==> ContentDue(app, req)
    ensures SetNotes in Expected(app, req) <==> NotesDue(app, req)
  {
    hide RecoverMarker, NoteText, Print, Carries, Planned;
    if Managed(app, req) {
      PlannedSays(Some(ViewOf(app.value)), RecoverMarker(app.value.notes, req.identity).value, req);
    } else {
      PlannedSays(None, Publication(req.identity, "", ""), req);
    }
  }

  /** The applying half of a run: creates the app if there is none, then converges. */
  method Publish(g: Graph, found: Option<View>, published: Publication, req: Request, ghost shape: string -> Artifact)
    returns (r: Result<(), Error>)
    requires g.Valid() && ValidRequest(req) && (g.app.Some? ==> Inv(g.app.value, req.identity))
    requires match found
             case None => published == Publication(req.identity, "", "")
             case Some(view) =>
                && g.app.Some? && view == ViewOf(g.app.value)
                && RecoverMarker(view.notes, req.identity) == Success(published)
    modifies g
    ensures g.Valid() && (g.app.Some? ==> Inv(g.app.value, req.identity))
    ensures r.Success? ==>
              g.app.Some? && Settled(g.app.value, req) && g.app.value.committed != ""
                && Every(g.app.value.committed, IsContentByte)
    ensures r.Success? && (found.None? || Active(published, found.value.committed) != req.artifact.identity) ==>
              HoldsArtifact(g.app.value, req.artifact)
    ensures AppShaped(old(g.app), req.identity, shape) && shape(req.artifact.identity) == req.artifact ==>
              && AppShaped(g.app, req.identity, shape)
              && (r.Failure? ==> r.error !in {MultipleFiles, FileMismatch})
    ensures old(g.script) == [] && found.Some? && published.payload == req.artifact.identity && published.content != ""
            && Resumable(old(g.app).value, published.content) && r.Success? ==>
              g.app.value.committed == published.content
    ensures old(g.script) == [] ==>
              (r.Failure? <==>
                match found
                case None => !OnlyOwnMarkers(CreationNotes(req), req.identity)
                case Some(view) =>
                  && Active(published, view.committed) != req.artifact.identity
                   && UploadBlocked(old(g.app).value, view.committed == "", published, Resume(published, req),
                        req.artifact))
  {
    hide RecoverMarker, UploadBlocked, Inv, Shaped, HoldsArtifact, Resumable, Settled;
    var current, recorded := found, published;
    if found.None? {
      recorded := published.(payload := req.artifact.identity);
      var notes := WithMarker(CreationNotes(req), recorded);
      CreatedApp(CreationNotes(req), req);
      ghost var before := g.app;
      current := g.CreateApp(notes);
      CreatedIsShaped(g.app, before, notes, req.identity, shape);
      if current.None? {
        return Failure(RequestFailed);
      }
    }
    r := Converge(g, current.value, recorded, req, shape);
  }

  /** The three changes of a plan, each for its own reason. */
  lemma PlannedSays(current: Option<View>, published: Publication, req: Request)
    ensures CreateApp in Planned(current, published, req) <==> current.None?
    ensures UploadContent in Planned(current, published, req) <==>
              Active(published, Committed(current)) != req.artifact.identity
    ensures SetNotes in Planned(current, published, req) <==>
              && current.Some?
              && var text := if req.notes.Some? then req.notes.value else NoteText(current.value.notes, None);
                 current.value.notes != if text == "" then Print(published) else text + "\n" + Print(published)
  {
    hide Print, Active;
  }

  /** One invocation. Whatever is refused or lost on the way, the app stays
      consistent; the changes reported are those planned for the app as it was found; an
      apply that returns without an error leaves it settled; and with no fault it fails
      exactly when it is rejected, or, while it only asks for the artifact, when the app
      cannot be planned for. */
  method Handle(g: Graph, req: Request, ghost shape: string -> Artifact) returns (r: Result<Response, Error>)
    requires g.Valid() && ValidRequest(req) && (g.app.Some? ==> Inv(g.app.value, req.identity))
    modifies g
    ensures g.Valid() && (g.app.Some? ==> Inv(g.app.value, req.identity))
    ensures req.mode.Plan? || (r.Success? && r.value.contentRequested) ==>
              if old(g.app).Some? then g.app.Some? && Drift(old(g.app).value, g.app.value) else g.app.None?
    ensures r.Success? && req.mode.Apply? && !r.value.contentRequested ==>
              g.app.Some? && Settled(g.app.value, req) && g.app.value.committed != ""
                && Every(g.app.value.committed, IsContentByte)
    ensures r.Success? && req.mode.Apply? && !r.value.contentRequested && UploadContent in r.value.changes ==>
              HoldsArtifact(g.app.value, req.artifact)
    ensures AppShaped(old(g.app), req.identity, shape) && shape(req.artifact.identity) == req.artifact ==>
              && AppShaped(g.app, req.identity, shape)
              && (r.Failure? ==> r.error !in {MultipleFiles, FileMismatch})
    ensures old(g.script) == [] && r.Success? && req.mode.Apply? && !r.value.contentRequested
              && Managed(old(g.app), req) ==>
              match RecoverMarker(old(g.app).value.notes, req.identity)
              case Failure(_) => false
              case Success(m) =>
                m.payload == req.artifact.identity && m.content != "" && Resumable(old(g.app).value, m.content) ==>
                  g.app.value.committed == m.content
    ensures r.Success? && r.value.contentRequested ==>
            req.mode.Apply? && !req.available && UploadContent in r.value.changes
    ensures r.Success? ==> r.value.changes in {Expected(old(g.app), req), Expected(SettledApp(old(g.app)), req)}
    ensures old(g.script) == [] && r.Success? ==> r.value.changes == Expected(SettledApp(old(g.app)), req)
    ensures old(g.script) == [] ==>
              (r.Failure? <==> if req.mode.Plan? || (!req.available && ContentDue(SettledApp(old(g.app)), req))
                               then Unplannable(old(g.app), req) else Rejected(old(g.app), req))
    ensures old(g.script) == [] && r.Success? ==>
              (r.value.contentRequested <==>
                req.mode.Apply? && !req.available && ContentDue(SettledApp(old(g.app)), req))
  {
    hide RecoverMarker, UploadBlocked, DesiredNotes, Inv, Shaped, HoldsArtifact, Resumable, Planned, Settled, NoteText,
      Print;
    ghost var start := g.app;
    var observed := Observe(g, req);
    ObservedIsShaped(start, g.app, req.identity, shape);
    if observed.Failure? {
      return Failure(observed.error);
    }
    var current := observed.value;
    var published := Publication(req.identity, "", "");
    if current.Some? {
      SettlingIsResumable(start.value, g.app.value);
      var recovered := RecoverMarker(current.value.notes, req.identity);
      if recovered.Failure? {
        return Failure(ForeignMarker);
      }
      published := recovered.value;
    }
    var changed := Active(published, Committed(current)) != req.artifact.identity;
    var changes := Planned(current, published, req);
    PlannedSays(current, published, req);
    if req.mode.Plan? {
      return Success(Response(changes, false));
    }
    if changes == [] && current.value.published {
      NothingPlanned(g.app.value, req, published);
      return Success(Response([], false));
    }
    if changed && !req.available {
      return Success(Response(changes, true));
    }
    var done := Publish(g, current, published, req, shape);
    return if done.Success? then Success(Response(changes, false)) else Failure(done.error);
  }

  /** An administrator between two runs may activate any finished version, edit the
      notes around the marker or delete the marker line. */
  lemma AdministratorKeeps(app: App, committed: string, notes: string, identity: string)
    requires Inv(app, identity) && Permitted(app, committed, notes, identity)
    ensures Inv(app.(committed := committed, notes := notes), identity)
  {}

  /** What happens to an app over time: a run; the service finishing an activation or the
      processing of a file on its own; an administrator's edit. */
  datatype Happening =
    | Run(req: Request)
    | Settles
    | Progresses(version: string, i: nat, fails: bool)
    | Edited(committed: string, notes: string)

  /** The edits an administrator may make: another finished version, other notes around the
      marker, or no marker. */
  predicate Permitted(app: App, committed: string, notes: string, identity: string) {
    && app.requested.None?
    && (committed == app.committed || (committed != "" && Holding(app, committed)))
    && RecoverMarker(notes, identity) in {RecoverMarker(app.notes, identity), Success(Publication(identity, "", ""))}
  }

  /** Any sequence of runs for one identity, each with its own artifact, mode and faults, with
      anything happening to the app in between: its marker never claims a payload that its
      version does not hold. As long as each payload comes with one name and size, no run
      ever refuses a file as foreign, whichever request an earlier run died after. */
  method Lifetime(g: Graph, identity: string, happenings: seq<Happening>, ghost shape: string -> Artifact)
    returns (results: seq<Result<Response, Error>>)
    requires g.Valid() && (g.app.Some? ==> Inv(g.app.value, identity))
    requires forall i :: 0 <= i < |happenings| && happenings[i].Run? ==>
               ValidRequest(happenings[i].req) && happenings[i].req.identity == identity
    modifies g
    ensures g.Valid() && (g.app.Some? ==> Inv(g.app.value, identity) && Truthful(g.app.value, identity))
    ensures AppShaped(old(g.app), identity, shape) && Fixed(happenings, shape) ==>
              && AppShaped(g.app, identity, shape)
              && forall i :: 0 <= i < |results| ==>
                   results[i] != Failure(FileMismatch) && results[i] != Failure(MultipleFiles)
    ensures |results| == |happenings|
  {
    results := [];
    for n := 0 to |happenings|
      invariant g.Valid() && (g.app.Some? ==> Inv(g.app.value, identity)) && |results| == n
      invariant AppShaped(old(g.app), identity, shape) && Fixed(happenings, shape) ==>
                  && AppShaped(g.app, identity, shape)
                  && forall i :: 0 <= i < n ==>
                       results[i] != Failure(FileMismatch) && results[i] != Failure(MultipleFiles)
    {
      hide Inv, Shaped;
      var result := Success(Response([], false));
      match happenings[n] {
        case Run(req) =>
          result := Handle(g, req, shape);
        case Settles =>
          if g.app.Some? {
            DriftKeeps(g.app.value, Settle(g.app.value), identity);
            DriftKeepsShaped(g.app.value, Settle(g.app.value), identity, shape);
            g.app := Some(Settle(g.app.value));
          }
        case Progresses(version, i, fails) =>
          if g.app.Some? && version in g.app.value.versions && i < |g.app.value.versions[version]| {
            var app := g.app.value;
            ProgressKeeps(app, version, i, fails, identity);
            ProcessKeepsShapes(app, version, i, fails);
            if Shaped(app, identity, shape) {
              ProgressKeepsShaped(app, WithFile(app, version, i, Process(app.versions[version][i], fails)), version,
                                  identity, shape);
            }
            g.app := Some(WithFile(app, version, i, Process(app.versions[version][i], fails)));
          }
        case Edited(committed, notes) =>
          if g.app.Some? && Permitted(g.app.value, committed, notes, identity) {
            AdministratorKeeps(g.app.value, committed, notes, identity);
            EditKeepsShaped(g.app.value, committed, notes, identity, shape);
            g.app := Some(g.app.value.(committed := committed, notes := notes));
          }
      }
      results := results + [result];
    }
    if g.app.Some? {
      ConsistentIsTruthful(g.app.value, identity);
    }
  }

  /** Each payload is one artifact, with one name and one pair of sizes. */
  predicate Fixed(happenings: seq<Happening>, shape: string -> Artifact) {
    forall i :: 0 <= i < |happenings| && happenings[i].Run? ==>
      shape(happenings[i].req.artifact.identity) == happenings[i].req.artifact
  }

  lemma ProcessKeepsShapes(app: App, version: string, i: nat, fails: bool)
    requires version in app.versions && i < |app.versions[version]|
    ensures KeepsShapes(app, WithFile(app, version, i, Process(app.versions[version][i], fails)), version)
  {}

  lemma EditKeepsShaped(app: App, committed: string, notes: string, identity: string, shape: string -> Artifact)
    requires Permitted(app, committed, notes, identity)
    ensures Shaped(app, identity, shape) ==> Shaped(app.(committed := committed, notes := notes), identity, shape)
  {
    hide RecoverMarker;
  }

  /** The creation marker names no version. Once a run for another payload has created
      a second version without recording it, every apply of the first payload is
      rejected, even though the committed version may hold that very payload. */
  lemma UnrecordedSecondVersionBlocks(app: App, req: Request)
    requires ValidRequest(req)
    requires RecoverMarker(app.notes, req.identity) == Success(Publication(req.identity, req.artifact.identity, ""))
    requires |app.versions| > 1
    ensures Blocked(app, req)
  {}

  lemma CarriesItsMarker(notes: string, p: Publication)
    requires WellFormed(p)
    ensures Carries(WithMarker(notes, p), p.identity)
  {
    WithMarkerLines(notes, p);
    MarkerOfIsPrint(Print(p), p);
    var lines := Lines(WithMarker(notes, p));
    assert lines[|lines| - 1] == Print(p);
  }

  /** An apply that succeeded, with whatever faults on the way, and then a plan of the same
      artifact on a service without faults: no changes, exactly when the declared notes hold
      no other identity's marker, and a refusal otherwise. */
  method ApplyThenPlan(g: Graph, req: Request)
    returns (applied: Result<Response, Error>, planned: Result<Response, Error>)
    requires g.Valid() && ValidRequest(req) && req.mode.Apply? && (g.app.Some? ==> Inv(g.app.value, req.identity))
    modifies g
    ensures applied.Success? && !applied.value.contentRequested ==>
              if req.notes.Some? && !OnlyOwnMarkers(req.notes.value, req.identity) then planned.Failure?
              else planned == Success(Response([], false))
  {
    hide Inv, RecoverMarker, Settled, Rejected, Active;
    applied := Handle(g, req, _ => req.artifact);
    if applied.Failure? || applied.value.contentRequested {
      return applied, applied;
    }
    ghost var app := g.app.value;
    g.script := [];
    planned := Handle(g, req.(mode := Plan), _ => req.artifact);
    SettledIsExpected(app, req);
  }

  lemma SettledIsExpected(app: App, req: Request)
    requires ValidRequest(req) && req.mode.Apply? && Settled(app, req) && app.committed != ""
    requires Every(app.committed, IsContentByte)
    ensures var plan := req.(mode := Plan);
            && SettledApp(Some(app)) == Some(app) && Managed(Some(app), plan)
            && (if req.notes.Some? && !OnlyOwnMarkers(req.notes.value, req.identity) then Unplannable(Some(app), plan)
                else !Unplannable(Some(app), plan) && Expected(Some(app), plan) == [])
  {
    var m := Publication(req.identity, req.artifact.identity, app.committed);
    CarriesItsMarker(NoteText(app.notes, req.notes), m);
    hide Carries, RecoverMarker, NoteText, WithMarker, WellFormed;
    SettledPlansNothing(app, req);
    SettledRecovers(app, req);
    PlanIgnoresMode(app, req);
  }

  lemma SettledRecovers(app: App, req: Request)
    requires ValidRequest(req) && Settled(app, req) && app.committed != "" && Every(app.committed, IsContentByte)
    ensures RecoverMarker(app.notes, req.identity)
         == if OnlyOwnMarkers(NoteText(app.notes, req.notes), req.identity)
            then Success(Publication(req.identity, req.artifact.identity, app.committed)) else Failure(ForeignIdentity)
    ensures req.notes.Some? ==> NoteText(app.notes, req.notes) == req.notes.value
  {
    RecoverInvertsWithMarker(NoteText(app.notes, req.notes),
      Publication(req.identity, req.artifact.identity, app.committed));
  }

  lemma PlanIgnoresMode(app: App, req: Request)
    ensures forall m :: Planned(Some(ViewOf(app)), m, req.(mode := Plan)) == Planned(Some(ViewOf(app)), m, req)
  {}

  /** A first apply that dies once its activation was accepted, before it writes the final
      marker. */
  method ActivateThenCrash(g: Graph, req: Request) returns (version: string)
    requires g.Valid() && g.app.None? && g.script == []
    requires ValidRequest(req) && req.mode.Apply? && req.available && !req.pinned
    requires OnlyOwnMarkers(CreationNotes(req), req.identity)
    modifies g
    ensures g.Valid() && g.script == [] && g.app.Some? && Inv(g.app.value, req.identity)
    ensures var app, m := g.app.value, Publication(req.identity, req.artifact.identity, "");
            && RecoverMarker(app.notes, req.identity) == Success(m) && Carries(app.notes, req.identity)
            && app.requested == Some(version) && version in app.versions && Holding(app, version)
            && FileCommitted(app, version, req.artifact.identity)
  {
    hide Inv, RecoverMarker, UploadBlocked, DesiredNotes, Carries, Shaped, AppShaped, Planned, Expected, Holding;
    var m := Publication(req.identity, req.artifact.identity, "");
    var none := Observe(g, req);
    CreatedApp(CreationNotes(req), req);
    CarriesItsMarker(CreationNotes(req), m);
    var created := g.CreateApp(WithMarker(CreationNotes(req), m));
    var activated := Activate(g, created.value, m, req, _ => req.artifact);
    version := activated.value;
    assert g.app.value.notes == created.value.notes;
  }

  /** The state of UnrecordedSecondVersionBlocks is reached from no app by two crashes. The
      first apply dies once its activation was accepted, before it writes the final marker;
      an apply of another payload dies once it created its version, before it records it.
      From then on the first payload cannot be applied, although the committed version
      holds it. */
  method StrandFirstPayload(g: Graph, first: Request, second: Request)
    returns (again: Result<Response, Error>, ghost stranded: App)
    requires g.Valid() && g.app.None? && g.script == []
    requires ValidRequest(first) && ValidRequest(second) && first.identity == second.identity
    requires first.artifact.identity != second.artifact.identity
    requires first.mode.Apply? && first.available && !first.pinned && !second.pinned
    requires OnlyOwnMarkers(CreationNotes(first), first.identity)
    modifies g
    ensures Inv(stranded, first.identity) && stranded.committed != ""
    ensures FileCommitted(stranded, stranded.committed, first.artifact.identity) && Blocked(stranded, first)
    ensures again.Failure?
  {
    hide Inv, RecoverMarker, UploadBlocked, DesiredNotes, Carries, Shaped, AppShaped, Planned, Expected;
    var m := Publication(first.identity, first.artifact.identity, "");
    var activated := ActivateThenCrash(g, first);
    ghost var published := g.app.value;

    var seen := Observe(g, second);
    DriftKeeps(published, Settle(published), first.identity);
    assert g.app.value == Settle(published) && g.app.value.committed == activated;
    var version := ChooseVersion(g, false, m, Publication(second.identity, second.artifact.identity, ""),
                                 _ => second.artifact);
    stranded := g.app.value;
    assert {activated, version.value} <= stranded.versions.Keys;
    TwoVersions(stranded, activated, version.value);
    UnrecordedSecondVersionBlocks(stranded, first);

    again := Handle(g, first, _ => first.artifact);
  }

  lemma TwoVersions(app: App, a: string, b: string)
    requires a in app.versions && b in app.versions && a != b
    ensures |app.versions| > 1
  {
    assert {a, b} <= app.versions.Keys;
    assert |app.versions.Keys - {a, b}| == |app.versions.Keys| - 2;
  }
}
