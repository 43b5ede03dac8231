/**
 The Graph service as the Intune client sees it (internal/intune/client.go and the
 requests of content.go and intune.go). Every request is one atomic step. A
 script decides what becomes of each request: it can be refused, its reply can be
 lost after it took effect, remote processing can stay unfinished or fail. An
 empty script is a service without faults.
 */
module IntuneGraph {
  import opened Wrappers
  import opened IntuneMarker

  datatype FileState = AwaitingUri | UriReady | CommitPending | Committed | Rejected

  /** One content file. `blob` is the payload whose bytes were staged; no Graph
      response reveals it. */
  datatype File = File(name: string, size: nat, sealedSize: nat, state: FileState, blob: Option<string>)

  datatype FileView = FileView(name: string, size: nat, sealedSize: nat, state: FileState)

  /** The app one identity manages. An accepted activation stays in `requested`
      until Graph reports it as committed. */
  datatype App = App(committed: string, requested: Option<string>, notes: string, versions: map<string, seq<File>>)

  datatype View = View(committed: string, published: bool, notes: string)

  function ViewOf(app: App): View {
    View(app.committed, app.requested.None? && app.committed != "", app.notes)
  }

  function FileViewOf(f: File): FileView {
    FileView(f.name, f.size, f.sealedSize, f.state)
  }

  function Settle(app: App): App {
    if app.requested.Some? then app.(committed := app.requested.value, requested := None) else app
  }

  /** Graph may finish a requested activation at any moment. */
  predicate Drift(before: App, after: App) {
    after == before || after == Settle(before)
  }

  /** A write that was answered took effect; one that was not may have. */
  predicate Sent(before: App, after: App, now: App, answered: bool) {
    Drift(after, now) || (!answered && Drift(before, now))
  }

  predicate Lists(views: seq<FileView>, files: seq<File>) {
    |views| == |files| && forall i :: 0 <= i < |views| ==> views[i] == FileViewOf(files[i])
  }

  function Process(f: File, fails: bool): File {
    if fails && f.state != Committed then f.(state := Rejected)
    else if f.state == AwaitingUri then f.(state := UriReady)
    else if f.state == CommitPending then f.(state := Committed)
    else f
  }

  function WithFiles(app: App, version: string, files: seq<File>): App {
    app.(versions := app.versions[version := files])
  }

  function WithFile(app: App, version: string, i: nat, f: File): App
    requires version in app.versions && i < |app.versions[version]|
  {
    WithFiles(app, version, app.versions[version][i := f])
  }

  datatype Outcome = Delivered | ReplyLost | Refused | Unfinished | ProcessingFailed

  datatype Event = Event(outcome: Outcome, settles: bool)

  const FAULTLESS := Event(Delivered, true)

  class Graph {
    var app: Option<App>
    var script: seq<Event>
    var issued: nat
    const ids: nat -> string

    /** Version IDs are opaque, never reused and printable in a marker. */
    ghost predicate Valid()
      reads this
    {
      && (forall i :: ids(i) != "" && Every(ids(i), IsContentByte))
      && (forall i, j :: i != j ==> ids(i) != ids(j))
      && (app.Some? ==> forall v :: v in app.value.versions ==> Issued(v))
    }

    ghost predicate Issued(version: string)
      reads this
    {
      exists i :: 0 <= i < issued && ids(i) == version
    }

    constructor (ids: nat -> string, script: seq<Event>)
      requires forall i :: ids(i) != "" && Every(ids(i), IsContentByte)
      requires forall i, j :: i != j ==> ids(i) != ids(j)
      ensures Valid() && app.None? && this.script == script
    {
      this.ids, this.script := ids, script;
      app, issued := None, 0;
    }

    method Next() returns (e: Event)
      modifies this`script
      ensures old(script) == [] ==> e == FAULTLESS && script == []
    {
      if script == [] {
        e := FAULTLESS;
      } else {
        e, script := script[0], script[1..];
      }
    }

    /** Lets a pending activation finish, and reports what becomes of a request. */
    method Receive() returns (e: Event)
      requires Valid() && app.Some?
      modifies this`script, this`app
      ensures Valid() && app.Some? && Drift(old(app.value), app.value)
      ensures old(script) == [] ==> e == FAULTLESS && script == [] && app.value == Settle(old(app.value))
    {
      e := Next();
      if e.settles {
        app := Some(Settle(app.value));
      }
    }

    /** A write takes effect unless it was refused; only then can it be answered. */
    method Write(after: App) returns (ok: bool)
      requires Valid() && app.Some?
      requires forall v :: v in after.versions ==> Issued(v)
      requires after.committed == app.value.committed && after.requested == app.value.requested
      modifies this`script, this`app
      ensures Valid() && app.Some?
      ensures Sent(old(app.value), after, app.value, ok)
      ensures old(script) == [] ==> ok && script == [] && app.value == Settle(after)
    {
      var e := Receive();
      if e.outcome != Refused {
        app := Some(app.value.(notes := after.notes, versions := after.versions));
      }
      ok := e.outcome != Refused && e.outcome != ReplyLost;
    }

    method CreateApp(notes: string) returns (view: Option<View>)
      requires Valid()
      modifies this`script, this`app
      ensures Valid()
      ensures app == Some(App("", None, notes, map[])) || (view.None? && app == old(app))
      ensures view.Some? ==> app.Some? && view.value == ViewOf(app.value)
      ensures old(script) == [] ==> view.Some? && script == []
    {
      var e := Next();
      if e.outcome != Refused {
        app := Some(App("", None, notes, map[]));
      }
      view := if e.outcome == Refused || e.outcome == ReplyLost then None else Some(ViewOf(app.value));
    }

    /** The listing that finds an app by its notes. */
    method ListApps() returns (listing: Option<Option<string>>)
      requires Valid()
      modifies this`script, this`app
      ensures Valid() && (app == old(app) || (app.Some? && old(app).Some? && Drift(old(app).value, app.value)))
      ensures listing.Some? ==> listing.value == if app.Some? then Some(app.value.notes) else None
      ensures old(script) == [] ==> listing.Some? && script == []
      ensures old(script) == [] ==> app == if old(app).Some? then Some(Settle(old(app).value)) else None
    {
      var e;
      if app.Some? {
        e := Receive();
      } else {
        e := Next();
      }
      listing := if e.outcome == Refused || e.outcome == ReplyLost then None
                 else Some(if app.Some? then Some(app.value.notes) else None);
    }

    method GetApp() returns (view: Option<View>)
      requires Valid() && app.Some?
      modifies this`script, this`app
      ensures Valid() && app.Some? && Drift(old(app.value), app.value)
      ensures view.Some? ==> view.value == ViewOf(app.value)
      ensures old(script) == [] ==> view.Some? && script == [] && app.value == Settle(old(app.value))
    {
      var e := Receive();
      view := if e.outcome == Refused || e.outcome == ReplyLost then None else Some(ViewOf(app.value));
    }

    method ListVersions() returns (versions: Option<set<string>>)
      requires Valid() && app.Some?
      modifies this`script, this`app
      ensures Valid() && app.Some? && Drift(old(app.value), app.value)
      ensures versions.Some? ==> versions.value == app.value.versions.Keys
      ensures old(script) == [] ==> versions.Some? && script == [] && app.value == Settle(old(app.value))
    {
      var e := Receive();
      versions := if e.outcome == Refused || e.outcome == ReplyLost then None else Some(app.value.versions.Keys);
    }

    method CreateVersion() returns (version: Option<string>, ghost id: string)
      requires Valid() && app.Some?
      modifies this`script, this`app, this`issued
      ensures Valid() && app.Some?
      ensures id != "" && Every(id, IsContentByte) && id !in old(app.value).versions
      ensures Sent(old(app.value), WithFiles(old(app.value), id, []), app.value, version.Some?)
      ensures version.Some? ==> version.value == id
      ensures old(script) == [] ==>
              version.Some? && script == [] && app.value == Settle(WithFiles(old(app.value), id, []))
    {
      var v := ids(issued);
      id := v;
      assert forall i :: 0 <= i < issued ==> ids(i) != v;
      assert !Issued(v);
      issued := issued + 1;
      assert Issued(v) by { assert ids(issued - 1) == v; }
      var ok := Write(WithFiles(app.value, v, []));
      version := if ok then Some(v) else None;
    }

    method ListFiles(version: string) returns (files: Option<seq<FileView>>)
      requires Valid() && app.Some?
      modifies this`script, this`app
      ensures Valid() && app.Some? && Drift(old(app.value), app.value)
      ensures files.Some? ==> version in app.value.versions && Lists(files.value, app.value.versions[version])
      ensures old(script) == [] ==> script == [] && app.value == Settle(old(app.value))
      ensures old(script) == [] ==> (files.Some? <==> version in old(app.value).versions)
    {
      var e := Receive();
      if e.outcome == Refused || e.outcome == ReplyLost || version !in app.value.versions {
        files := None;
      } else {
        var all := app.value.versions[version];
        files := Some(seq(|all|, i requires 0 <= i < |all| => FileViewOf(all[i])));
      }
    }

    method CreateFile(version: string, name: string, size: nat, sealedSize: nat) returns (ok: bool)
      requires Valid() && app.Some? && version in app.value.versions
      modifies this`script, this`app
      ensures var file := File(name, size, sealedSize, AwaitingUri, None);
              var after := WithFiles(old(app.value), version, old(app.value).versions[version] + [file]);
              && Valid() && app.Some?
              && Sent(old(app.value), after, app.value, ok)
              && (old(script) == [] ==> ok && script == [] && app.value == Settle(after))
    {
      var file := File(name, size, sealedSize, AwaitingUri, None);
      ok := Write(WithFiles(app.value, version, app.value.versions[version] + [file]));
    }

    /** A poll: remote processing advances, fails or stays unfinished. */
    method GetFile(version: string, i: nat) returns (view: Option<FileView>)
      requires Valid() && app.Some? && version in app.value.versions && i < |app.value.versions[version]|
      modifies this`script, this`app
      ensures var file := old(app.value).versions[version][i];
              && Valid() && app.Some?
              && (|| Drift(old(app.value), app.value)
                  || Drift(WithFile(old(app.value), version, i, Process(file, false)), app.value)
                  || Drift(WithFile(old(app.value), version, i, Process(file, true)), app.value))
              && (view.Some? ==> view.value == FileViewOf(app.value.versions[version][i]))
              && (old(script) == [] ==> view.Some? && script == [])
              && (old(script) == [] ==> app.value == Settle(WithFile(old(app.value), version, i, Process(file, false))))
    {
      var e := Receive();
      if e.outcome == Delivered || e.outcome == ProcessingFailed {
        var file := Process(app.value.versions[version][i], e.outcome == ProcessingFailed);
        app := Some(WithFile(app.value, version, i, file));
      }
      view := if e.outcome == Refused || e.outcome == ReplyLost then None
        else Some(FileViewOf(app.value.versions[version][i]));
    }

    /** Rewrites one file: renewing its URI, staging its blocks or committing it. */
    method UpdateFile(version: string, i: nat, file: File) returns (ok: bool)
      requires Valid() && app.Some? && version in app.value.versions && i < |app.value.versions[version]|
      modifies this`script, this`app
      ensures var after := WithFile(old(app.value), version, i, file);
              && Valid() && app.Some?
              && Sent(old(app.value), after, app.value, ok)
              && (old(script) == [] ==> ok && script == [] && app.value == Settle(after))
    {
      ok := Write(WithFile(app.value, version, i, file));
    }

    /** Graph refuses notes updates before an app's first publication. */
    method PatchNotes(notes: string) returns (ok: bool)
      requires Valid() && app.Some?
      modifies this`script, this`app
      ensures var after := old(app.value).(notes := notes);
              && Valid() && app.Some?
              && Sent(old(app.value), after, app.value, ok)
              && (old(script) == [] && old(app.value).committed != "" ==>
                    ok && script == [] && app.value == Settle(after))
    {
      if app.value.committed == "" {
        var _ := Receive();
        return false;
      }
      ok := Write(app.value.(notes := notes));
    }

    method Activate(version: string) returns (ok: bool)
      requires Valid() && app.Some?
      modifies this`script, this`app
      ensures var settled := Settle(old(app.value));
              && Valid() && app.Some?
              && (|| app.value == old(app.value).(requested := Some(version))
                  || app.value == settled.(requested := Some(version))
                  || (!ok && Drift(old(app.value), app.value)))
              && (old(script) == [] ==> ok && script == [] && app.value == settled.(requested := Some(version)))
    {
      var e := Receive();
      if e.outcome != Refused {
        app := Some(app.value.(requested := Some(version)));
      }
      ok := e.outcome != Refused && e.outcome != ReplyLost;
    }
  }
}
