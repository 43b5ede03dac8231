/**
 Plugin installation beside pruning (internal/cas/install.go, cas.go, run.go and the
 lock of maintenance.go), as a state machine. Any number of calls of Install and a
 collector interleave; each may crash at any step, and the operating system then
 releases its locks.
 */
module CasInstall {
  import opened Wrappers

  type Key = string
  type Call = nat

  datatype Staging = Absent | Part | Whole

  /** plugins/<key>: its files and its completion marker. */
  datatype Root = Root(files: Staging, complete: bool)

  /** Where one call stands. Every call but an idle one holds the shared cache lease;
      `paths` are the keys whose path Install already returned to it. */
  datatype Phase = Idle | Leased | Waiting | Locked | Clearing | Writing | Staged | Marked

  datatype Process = Process(phase: Phase, key: Key, paths: set<Key>)

  /** How the collector deletes a root. os.RemoveAll deletes children one by one in an
      unspecified order. */
  datatype Removal = AtOnce | MarkerFirst | FilesFirst

  datatype State = State(processes: map<Call, Process>, roots: map<Key, Root>, locks: map<Key, Call>,
                         pruning: bool, halfway: Option<Key>)

  const IDLE := Process(Idle, "", {})

  function Of(s: State, p: Call): Process {
    if p in s.processes then s.processes[p] else IDLE
  }

  function At(s: State, key: Key): Root {
    if key in s.roots then s.roots[key] else Root(Absent, false)
  }

  predicate HoldsLease(s: State, p: Call) {
    !Of(s, p).phase.Idle?
  }

  predicate HoldsKey(s: State, p: Call, key: Key) {
    Of(s, p).phase in {Locked, Clearing, Writing, Staged, Marked} && Of(s, p).key == key
  }

  datatype Step =
    | Lease(p: Call) | Release(p: Call) | Crash(p: Call)
    | FirstCheck(p: Call, key: Key) | LockKey(p: Call) | LockFails(p: Call) | SecondCheck(p: Call)
    | Clear(p: Call) | ClearFails(p: Call, left: Staging)
    | WriteSome(p: Call) | StageSucceeds(p: Call) | StageFails(p: Call, left: Staging)
    | Mark(p: Call) | MarkFails(p: Call, written: bool) | Return(p: Call)
    | StartPrune | StartRemoval(key: Key) | FinishRemoval | EndPrune

  predicate Enabled(s: State, step: Step) {
    match step
    case Lease(p) => Of(s, p).phase.Idle? && !s.pruning
    case Release(p) => Of(s, p).phase.Leased?
    case Crash(p) => true
    case FirstCheck(p, key) => Of(s, p).phase.Leased?
    case LockKey(p) => Of(s, p).phase.Waiting? && Of(s, p).key !in s.locks
    case LockFails(p) => Of(s, p).phase.Waiting?
    case SecondCheck(p) => Of(s, p).phase.Locked?
    case Clear(p) => Of(s, p).phase.Clearing?
    case ClearFails(p, left) => Of(s, p).phase.Clearing? && (left == Part || left == At(s, Of(s, p).key).files)
    case WriteSome(p) => Of(s, p).phase.Writing?
    case StageSucceeds(p) => Of(s, p).phase.Writing?
    case StageFails(p, left) => Of(s, p).phase.Writing?
    case Mark(p) => Of(s, p).phase.Staged?
    case MarkFails(p, _) => Of(s, p).phase.Staged?
    case Return(p) => Of(s, p).phase.Marked?
    case StartPrune => !s.pruning && forall p :: p in s.processes ==> !HoldsLease(s, p)
    case StartRemoval(key) => s.pruning && s.halfway.None?
    case FinishRemoval => s.pruning && s.halfway.Some?
    case EndPrune => s.pruning
  }

  function Enter(s: State, p: Call, phase: Phase): State {
    s.(processes := s.processes[p := Of(s, p).(phase := phase)])
  }

  function SetRoot(s: State, key: Key, root: Root): State {
    s.(roots := s.roots[key := root])
  }

  function Unlock(s: State, p: Call): State {
    s.(locks := map key | key in s.locks && s.locks[key] != p :: s.locks[key])
  }

  /** Install gives up: the deferred Close releases the key's lock, the lease stays. */
  function GiveUp(s: State, p: Call): State {
    Enter(Unlock(s, p), p, Leased)
  }

  /** Install returns the path of its key. */
  function Hand(s: State, p: Call, key: Key): State {
    var left := Unlock(s, p);
    left.(processes := left.processes[p := Process(Leased, "", Of(s, p).paths + {key})])
  }

  function After(s: State, step: Step, removal: Removal): State
    requires Enabled(s, step)
  {
    match step
    case Lease(p) => s.(processes := s.processes[p := Process(Leased, "", {})])
    case Release(p) => s.(processes := s.processes[p := IDLE])
    case Crash(p) => Unlock(s.(processes := s.processes[p := IDLE]), p)
    case FirstCheck(p, key) =>
      if At(s, key).complete then Hand(s, p, key)
      else SetRoot(s.(processes := s.processes[p := Process(Waiting, key, Of(s, p).paths)]), key, At(s, key))
    case LockKey(p) => Enter(s, p, Locked).(locks := s.locks[Of(s, p).key := p])
    case LockFails(p) => GiveUp(s, p)
    case SecondCheck(p) => if At(s, Of(s, p).key).complete then Hand(s, p, Of(s, p).key) else Enter(s, p, Clearing)
    case Clear(p) => SetRoot(Enter(s, p, Writing), Of(s, p).key, At(s, Of(s, p).key).(files := Absent))
    case ClearFails(p, left) => SetRoot(GiveUp(s, p), Of(s, p).key, At(s, Of(s, p).key).(files := left))
    case WriteSome(p) => SetRoot(s, Of(s, p).key, At(s, Of(s, p).key).(files := Part))
    case StageSucceeds(p) => SetRoot(Enter(s, p, Staged), Of(s, p).key, At(s, Of(s, p).key).(files := Whole))
    case StageFails(p, left) => SetRoot(GiveUp(s, p), Of(s, p).key, At(s, Of(s, p).key).(files := left))
    case Mark(p) => SetRoot(Enter(s, p, Marked), Of(s, p).key, At(s, Of(s, p).key).(complete := true))
    case MarkFails(p, written) => SetRoot(GiveUp(s, p), Of(s, p).key, At(s, Of(s, p).key).(complete := written))
    case Return(p) => Hand(s, p, Of(s, p).key)
    case StartPrune => s.(pruning := true)
    case StartRemoval(key) =>
      (match removal
       case AtOnce => SetRoot(s, key, Root(Absent, false))
       case MarkerFirst => SetRoot(s, key, At(s, key).(complete := false)).(halfway := Some(key))
       case FilesFirst => SetRoot(s, key, At(s, key).(files := Part)).(halfway := Some(key)))
    case FinishRemoval => SetRoot(s, s.halfway.value, Root(Absent, false)).(halfway := None)
    case EndPrune => s.(pruning := false, halfway := None)
  }

  predicate Initial(s: State) {
    && (forall p :: p in s.processes ==> s.processes[p] == IDLE)
    && s.locks == map[] && !s.pruning && s.halfway.None?
    && (forall key :: key in s.roots ==> s.roots[key].complete ==> s.roots[key].files == Whole)
  }

  /** A run of the machine: states and the steps between them. */
  predicate Behaves(states: seq<State>, steps: seq<Step>, removal: Removal) {
    && |states| == |steps| + 1 && Initial(states[0])
    && forall i :: 0 <= i < |steps| ==>
         Enabled(states[i], steps[i]) && states[i + 1] == After(states[i], steps[i], removal)
  }

  // ----- What the protocol promises -----

  /** Pruning excludes every lease, and a removal only happens while pruning. */
  ghost predicate LeasesExcludePruning(s: State) {
    (s.halfway.Some? ==> s.pruning) && (s.pruning ==> forall p: Call :: !HoldsLease(s, p))
  }

  ghost predicate OneInstallerPerKey(s: State) {
    forall p: Call, q: Call, key: Key :: HoldsKey(s, p, key) && HoldsKey(s, q, key) ==> p == q
  }

  ghost predicate MarkerMeansStaged(s: State) {
    forall key: Key :: At(s, key).complete ==> At(s, key).files == Whole
  }

  /** A path Install returned stays usable until its caller releases the lease. */
  ghost predicate ReturnedPathsAreStaged(s: State) {
    forall p: Call, key: Key :: key in Of(s, p).paths ==> At(s, key) == Root(Whole, true)
  }

  // ----- The inductive invariant -----

  ghost predicate LocksMatch(s: State) {
    forall p: Call, key: Key :: HoldsKey(s, p, key) ==> key in s.locks && s.locks[key] == p
  }

  ghost predicate PhasesMatch(s: State) {
    forall p: Call :: PhaseMatches(s, Of(s, p))
  }

  predicate PhaseMatches(s: State, process: Process) {
    && (process.phase.Idle? ==> process.paths == {})
    && (process.phase in {Clearing, Writing, Staged} ==> !At(s, process.key).complete)
    && (process.phase.Staged? ==> At(s, process.key).files == Whole)
    && (process.phase.Marked? ==> At(s, process.key) == Root(Whole, true))
  }

  ghost predicate PathsComplete(s: State) {
    forall p: Call, key: Key :: key in Of(s, p).paths ==> At(s, key).complete
  }

  ghost predicate Inv(s: State) {
    && LeasesExcludePruning(s) && LocksMatch(s) && PhasesMatch(s) && PathsComplete(s) && MarkerMeansStaged(s)
  }

  lemma InitialInv(s: State)
    requires Initial(s)
    ensures Inv(s)
  {}

  /** The call that a step belongs to, if it is one of an installer. */
  predicate By(step: Step, p: Call) {
    match step
    case StartPrune => false
    case StartRemoval(_) => false
    case FinishRemoval => false
    case EndPrune => false
    case _ => step.p == p
  }

  lemma OthersUnchanged(s: State, step: Step, removal: Removal, q: Call)
    requires Enabled(s, step) && !By(step, q)
    ensures Of(After(s, step, removal), q) == Of(s, q)
  {}

  /** A step of an installer touches only the root of the key whose lock it holds. */
  lemma OtherRootsUnchanged(s: State, step: Step, removal: Removal, p: Call, key: Key)
    requires Enabled(s, step) && By(step, p) && !HoldsKey(s, p, key)
    ensures At(After(s, step, removal), key) == At(s, key)
  {}

  lemma LocksStep(s: State, step: Step, removal: Removal)
    requires LocksMatch(s) && Enabled(s, step)
    ensures LocksMatch(After(s, step, removal))
  {
    var t := After(s, step, removal);
    forall q: Call, key: Key | HoldsKey(t, q, key)
      ensures key in t.locks && t.locks[key] == q
    {
      if !By(step, q) {
        OthersUnchanged(s, step, removal, q);
        assert HoldsKey(s, q, key);
        assert key in s.locks && s.locks[key] == q;
      } else if !step.LockKey? {
        assert HoldsKey(s, q, key);
      }
    }
  }

  lemma RootsStep(s: State, step: Step, removal: Removal, key: Key)
    requires Inv(s) && Enabled(s, step) && removal != FilesFirst
    ensures At(After(s, step, removal), key).complete ==> At(After(s, step, removal), key).files == Whole
  {
    assert At(s, key).complete ==> At(s, key).files == Whole;
    match step {
      case ClearFails(p, left) => assert PhaseMatches(s, Of(s, p));
      case Clear(p) => assert PhaseMatches(s, Of(s, p));
      case WriteSome(p) => assert PhaseMatches(s, Of(s, p));
      case StageFails(p, left) => assert PhaseMatches(s, Of(s, p));
      case Mark(p) => assert PhaseMatches(s, Of(s, p));
      case MarkFails(p, written) => assert PhaseMatches(s, Of(s, p));
      case _ =>
    }
  }

  /** While some call holds a path of a key, no step changes that key's root. */
  lemma ReturnedRootUnchanged(s: State, step: Step, removal: Removal, q: Call, key: Key)
    requires Inv(s) && Enabled(s, step) && key in Of(s, q).paths
    ensures At(After(s, step, removal), key) == At(s, key) == Root(Whole, true)
  {
    assert HoldsLease(s, q) by { assert PhaseMatches(s, Of(s, q)); }
    match step {
      case StartPrune =>
      case StartRemoval(_) =>
      case FinishRemoval =>
      case EndPrune =>
      case _ =>
        assert PhaseMatches(s, Of(s, step.p));
        if !HoldsKey(s, step.p, key) {
          OtherRootsUnchanged(s, step, removal, step.p, key);
        }
    }
  }

  lemma PathsStep(s: State, step: Step, removal: Removal, q: Call, key: Key)
    requires Inv(s) && Enabled(s, step) && key in Of(After(s, step, removal), q).paths
    ensures At(After(s, step, removal), key).complete
  {
    if key in Of(s, q).paths {
      ReturnedRootUnchanged(s, step, removal, q, key);
    } else {
      if !By(step, q) {
        OthersUnchanged(s, step, removal, q);
      }
      assert PhaseMatches(s, Of(s, q));
    }
  }

  lemma PhasesStep(s: State, step: Step, removal: Removal, q: Call)
    requires Inv(s) && Enabled(s, step) && removal != FilesFirst
    ensures PhaseMatches(After(s, step, removal), Of(After(s, step, removal), q))
  {
    var t := After(s, step, removal);
    assert PhaseMatches(s, Of(s, q));
    if By(step, q) {
      RootsStep(s, step, removal, Of(t, q).key);
    } else {
      OthersUnchanged(s, step, removal, q);
      var key := Of(s, q).key;
      match step {
        case StartPrune =>
        case StartRemoval(_) => assert !HoldsLease(s, q);
        case FinishRemoval => assert !HoldsLease(s, q);
        case EndPrune =>
        case _ =>
          if HoldsKey(s, q, key) {
            assert !HoldsKey(s, step.p, key);
            OtherRootsUnchanged(s, step, removal, step.p, key);
          }
      }
    }
  }

  lemma LeasesStep(s: State, step: Step, removal: Removal)
    requires LeasesExcludePruning(s) && Enabled(s, step)
    ensures LeasesExcludePruning(After(s, step, removal))
  {
    var t := After(s, step, removal);
    if t.pruning {
      forall q: Call ensures !HoldsLease(t, q) {
        if !By(step, q) {
          OthersUnchanged(s, step, removal, q);
          assert !HoldsLease(s, q);
        } else {
          assert !HoldsLease(s, q);
        }
      }
    }
  }

  lemma StepKeepsInv(s: State, step: Step, removal: Removal)
    requires Inv(s) && Enabled(s, step) && removal != FilesFirst
    ensures Inv(After(s, step, removal))
  {
    var t := After(s, step, removal);
    LeasesStep(s, step, removal);
    LocksStep(s, step, removal);
    forall q: Call ensures PhaseMatches(t, Of(t, q)) {
      PhasesStep(s, step, removal, q);
    }
    forall q: Call, key: Key | key in Of(t, q).paths ensures At(t, key).complete {
      PathsStep(s, step, removal, q, key);
    }
    forall key: Key | At(t, key).complete ensures At(t, key).files == Whole {
      RootsStep(s, step, removal, key);
    }
  }

  /** In every interleaving, with a crash after any step, all four promises hold at
      every moment, as long as a removal never takes files before the marker. */
  lemma {:induction false} ProtocolHolds(states: seq<State>, steps: seq<Step>, removal: Removal, i: nat)
    requires Behaves(states, steps, removal) && i < |states| && removal != FilesFirst
    ensures Inv(states[i])
    ensures OneInstallerPerKey(states[i]) && ReturnedPathsAreStaged(states[i])
  {
    if i == 0 {
      InitialInv(states[0]);
    } else {
      ProtocolHolds(states, steps, removal, i - 1);
      StepKeepsInv(states[i - 1], steps[i - 1], removal);
    }
  }

  /** Deleting files first loses the third promise: a collector that stops halfway
      leaves a completion marker over missing files. */
  lemma FilesFirstBreaksTheMarker(key: Key) returns (states: seq<State>, steps: seq<Step>)
    ensures Behaves(states, steps, FilesFirst)
    ensures !MarkerMeansStaged(states[|states| - 1]) && !states[|states| - 1].pruning
  {
    var s0 := State(map[], map[key := Root(Whole, true)], map[], false, None);
    var s1 := After(s0, StartPrune, FilesFirst);
    var s2 := After(s1, StartRemoval(key), FilesFirst);
    var s3 := After(s2, EndPrune, FilesFirst);
    states, steps := [s0, s1, s2, s3], [StartPrune, StartRemoval(key), EndPrune];
    assert At(s1, key) == Root(Whole, true) && At(s2, key) == At(s3, key) == Root(Part, true);
    forall i | 0 <= i < |steps|
      ensures Enabled(states[i], steps[i]) && states[i + 1] == After(states[i], steps[i], FilesFirst)
    {
      assert i == 0 || i == 1 || i == 2;
    }
    assert !MarkerMeansStaged(s3);
  }

  /** What no order of removal can lose. */
  ghost predicate Exclusion(s: State) {
    LeasesExcludePruning(s) && LocksMatch(s) && forall p: Call :: Of(s, p).phase.Idle? ==> Of(s, p).paths == {}
  }

  lemma StepKeepsExclusion(s: State, step: Step, removal: Removal)
    requires Exclusion(s) && Enabled(s, step)
    ensures Exclusion(After(s, step, removal))
  {
    var t := After(s, step, removal);
    LeasesStep(s, step, removal);
    LocksStep(s, step, removal);
    forall q: Call | Of(t, q).phase.Idle? ensures Of(t, q).paths == {} {
      if !By(step, q) {
        OthersUnchanged(s, step, removal, q);
      }
    }
  }

  /** In every interleaving and for every order of removal, files first included: no lease is
      held while pruning, one call at a time installs a key, and nobody who could observe a
      root halfway through its removal exists. */
  lemma {:induction false} HalfwayIsUnobserved(states: seq<State>, steps: seq<Step>, removal: Removal, i: nat)
    requires Behaves(states, steps, removal) && i < |states|
    ensures LeasesExcludePruning(states[i]) && OneInstallerPerKey(states[i]) && Exclusion(states[i])
    ensures states[i].halfway.Some? ==> forall p: Call :: !HoldsLease(states[i], p) && Of(states[i], p).paths == {}
  {
    if i > 0 {
      HalfwayIsUnobserved(states, steps, removal, i - 1);
      StepKeepsExclusion(states[i - 1], steps[i - 1], removal);
    }
    forall p: Call | states[i].halfway.Some? ensures !HoldsLease(states[i], p) && Of(states[i], p).paths == {} {
      assert states[i].pruning;
    }
  }

  // ----- What an undisturbed call achieves -----

  /** A call gains a path exactly when it returns one: the root is complete, the key's lock is
      released and the lease stays. */
  lemma PathsAreHanded(s: State, step: Step, removal: Removal, p: Call, key: Key)
    requires Inv(s) && Enabled(s, step)
    ensures key in Of(After(s, step, removal), p).paths && key !in Of(s, p).paths ==>
              && At(s, key) == Root(Whole, true)
              && (step == FirstCheck(p, key) || (step in {SecondCheck(p), Return(p)} && Of(s, p).key == key))
              && Of(After(s, step, removal), p).phase.Leased?
              && (key in After(s, step, removal).locks ==> After(s, step, removal).locks[key] != p)
  {
    if !By(step, p) {
      OthersUnchanged(s, step, removal, p);
    }
    assert PhaseMatches(s, Of(s, p));
  }

  /** Locks are held by calls that install their key, and by no one else. */
  ghost predicate LocksAreHeld(s: State) {
    forall key :: key in s.locks ==> HoldsKey(s, s.locks[key], key)
  }

  lemma StepKeepsLocksHeld(s: State, step: Step, removal: Removal)
    requires LocksAreHeld(s) && LocksMatch(s) && Enabled(s, step)
    ensures LocksAreHeld(After(s, step, removal))
  {
    var t := After(s, step, removal);
    forall key | key in t.locks ensures HoldsKey(t, t.locks[key], key) {
      if By(step, t.locks[key]) {
      } else {
        OthersUnchanged(s, step, removal, t.locks[key]);
      }
    }
  }

  lemma {:induction false} LocksAreNeverLost(states: seq<State>, steps: seq<Step>, removal: Removal, i: nat)
    requires Behaves(states, steps, removal) && i < |states|
    ensures LocksAreHeld(states[i]) && LocksMatch(states[i])
  {
    if i > 0 {
      LocksAreNeverLost(states, steps, removal, i - 1);
      StepKeepsLocksHeld(states[i - 1], steps[i - 1], removal);
      LocksStep(states[i - 1], steps[i - 1], removal);
    }
  }

  /** From any state with the key unlocked, whatever earlier calls left of its root, a call
      with the lease gets its path by its own steps alone: at once from a complete root, and
      otherwise by clearing, staging and marking it. */
  lemma InstallSucceeds(s: State, p: Call, key: Key, removal: Removal) returns (t: State)
    requires Of(s, p).phase.Leased? && key !in s.locks && (At(s, key).complete ==> At(s, key).files == Whole)
    ensures Alone(s, if At(s, key).complete then [FirstCheck(p, key)] else InstallSteps(p, key), p, removal, t)
    ensures Of(t, p) == Process(Leased, "", Of(s, p).paths + {key}) && At(t, key) == Root(Whole, true)
    ensures key !in t.locks && forall other :: other != key ==> At(t, other) == At(s, other)
  {
    if At(s, key).complete {
      t := After(s, FirstCheck(p, key), removal);
      AloneNext(s, FirstCheck(p, key), [], p, removal, t);
    } else {
      var steps := InstallSteps(p, key);
      var begun := LocksAndClears(s, p, key, removal);
      t := StagesAndMarks(begun, p, key, removal);
      AloneJoins(s, steps[..4], begun, steps[4..], p, removal, t);
      assert steps[..4] + steps[4..] == steps;
    }
  }

  function InstallSteps(p: Call, key: Key): (steps: seq<Step>)
    ensures |steps| == 7
  {
    [FirstCheck(p, key), LockKey(p), SecondCheck(p), Clear(p), StageSucceeds(p), Mark(p), Return(p)]
  }

  /** The call's own steps, each possible in its turn, lead from one state to another. */
  ghost predicate Alone(s: State, steps: seq<Step>, p: Call, removal: Removal, t: State)
    decreases |steps|
  {
    if steps == [] then s == t
    else By(steps[0], p) && Enabled(s, steps[0]) && Alone(After(s, steps[0], removal), steps[1..], p, removal, t)
  }

  lemma AloneNext(s: State, step: Step, rest: seq<Step>, p: Call, removal: Removal, t: State)
    requires By(step, p) && Enabled(s, step) && Alone(After(s, step, removal), rest, p, removal, t)
    ensures Alone(s, [step] + rest, p, removal, t)
  {
    hide After, Enabled, By;
    assert ([step] + rest)[1..] == rest;
  }

  lemma {:induction false} AloneJoins(s: State, first: seq<Step>, m: State, second: seq<Step>, p: Call,
                                      removal: Removal, t: State)
    requires Alone(s, first, p, removal, m) && Alone(m, second, p, removal, t)
    ensures Alone(s, first + second, p, removal, t)
    decreases |first|
  {
    hide After, Enabled, By;
    if first == [] {
      assert first + second == second;
    } else {
      AloneJoins(After(s, first[0], removal), first[1..], m, second, p, removal, t);
      AloneNext(s, first[0], first[1..] + second, p, removal, t);
      assert first + second == [first[0]] + (first[1..] + second);
    }
  }

  lemma FirstCheckWaits(s: State, p: Call, key: Key, removal: Removal)
    requires Of(s, p).phase.Leased? && !At(s, key).complete
    ensures Enabled(s, FirstCheck(p, key))
    ensures var t := After(s, FirstCheck(p, key), removal);
            && Of(t, p) == Process(Waiting, key, Of(s, p).paths) && t.locks == s.locks
            && forall other :: At(t, other) == At(s, other)
  {}

  lemma LockKeyLocks(s: State, p: Call, removal: Removal)
    requires Of(s, p).phase.Waiting? && Of(s, p).key !in s.locks
    ensures Enabled(s, LockKey(p))
    ensures var t := After(s, LockKey(p), removal);
            && Of(t, p) == Of(s, p).(phase := Locked) && t.locks == s.locks[Of(s, p).key := p]
            && forall other :: At(t, other) == At(s, other)
  {}

  lemma SecondCheckClears(s: State, p: Call, removal: Removal)
    requires Of(s, p).phase.Locked? && !At(s, Of(s, p).key).complete
    ensures Enabled(s, SecondCheck(p))
    ensures var t := After(s, SecondCheck(p), removal);
            && Of(t, p) == Of(s, p).(phase := Clearing) && t.locks == s.locks
            && forall other :: At(t, other) == At(s, other)
  {}

  lemma ClearClears(s: State, p: Call, removal: Removal)
    requires Of(s, p).phase.Clearing?
    ensures Enabled(s, Clear(p))
    ensures var key, t := Of(s, p).key, After(s, Clear(p), removal);
            && Of(t, p) == Of(s, p).(phase := Writing) && At(t, key) == At(s, key).(files := Absent)
            && t.locks == s.locks && forall other :: other != key ==> At(t, other) == At(s, other)
  {}

  lemma LocksAndClears(s: State, p: Call, key: Key, removal: Removal) returns (t: State)
    requires Of(s, p).phase.Leased? && key !in s.locks && !At(s, key).complete
    ensures Alone(s, InstallSteps(p, key)[..4], p, removal, t)
    ensures Of(t, p) == Process(Writing, key, Of(s, p).paths) && At(t, key) == Root(Absent, false)
    ensures t.locks == s.locks[key := p] && forall other :: other != key ==> At(t, other) == At(s, other)
  {
    hide After, Enabled, By, At, Of;
    FirstCheckWaits(s, p, key, removal);
    var a := After(s, FirstCheck(p, key), removal);
    LockKeyLocks(a, p, removal);
    var b := After(a, LockKey(p), removal);
    SecondCheckClears(b, p, removal);
    var c := After(b, SecondCheck(p), removal);
    ClearClears(c, p, removal);
    t := After(c, Clear(p), removal);
    ByItself(p, key);
    assert Alone(t, [], p, removal, t);
    AloneNext(c, Clear(p), [], p, removal, t);
    AloneNext(b, SecondCheck(p), [Clear(p)] + [], p, removal, t);
    AloneNext(a, LockKey(p), [SecondCheck(p)] + ([Clear(p)] + []), p, removal, t);
    AloneNext(s, FirstCheck(p, key), [LockKey(p)] + ([SecondCheck(p)] + ([Clear(p)] + [])), p, removal, t);
    assert InstallSteps(p, key)[..4] == [FirstCheck(p, key)] + ([LockKey(p)] + ([SecondCheck(p)] + ([Clear(p)] + [])));
  }

  lemma ByItself(p: Call, key: Key)
    ensures forall i :: 0 <= i < 7 ==> By(InstallSteps(p, key)[i], p)
    ensures By(FirstCheck(p, key), p) && By(LockKey(p), p) && By(SecondCheck(p), p) && By(Clear(p), p)
    ensures By(StageSucceeds(p), p) && By(Mark(p), p) && By(Return(p), p)
  {}

  lemma StageSucceedsStages(s: State, p: Call, removal: Removal)
    requires Of(s, p).phase.Writing?
    ensures Enabled(s, StageSucceeds(p))
    ensures var key, t := Of(s, p).key, After(s, StageSucceeds(p), removal);
            && Of(t, p) == Of(s, p).(phase := Staged) && At(t, key) == At(s, key).(files := Whole)
            && t.locks == s.locks && forall other :: other != key ==> At(t, other) == At(s, other)
  {}

  lemma MarkMarks(s: State, p: Call, removal: Removal)
    requires Of(s, p).phase.Staged?
    ensures Enabled(s, Mark(p))
    ensures var key, t := Of(s, p).key, After(s, Mark(p), removal);
            && Of(t, p) == Of(s, p).(phase := Marked) && At(t, key) == At(s, key).(complete := true)
            && t.locks == s.locks && forall other :: other != key ==> At(t, other) == At(s, other)
  {}

  lemma ReturnHands(s: State, p: Call, removal: Removal)
    requires Of(s, p).phase.Marked?
    ensures Enabled(s, Return(p))
    ensures var key, t := Of(s, p).key, After(s, Return(p), removal);
            && Of(t, p) == Process(Leased, "", Of(s, p).paths + {key}) && t.roots == s.roots
            && (key in t.locks <==> key in s.locks && s.locks[key] != p)
            && forall other :: At(t, other) == At(s, other)
  {}

  lemma StagesAndMarks(s: State, p: Call, key: Key, removal: Removal) returns (t: State)
    requires Of(s, p).phase.Writing? && Of(s, p).key == key && At(s, key) == Root(Absent, false)
    requires key in s.locks && s.locks[key] == p
    ensures Alone(s, InstallSteps(p, key)[4..], p, removal, t)
    ensures Of(t, p) == Process(Leased, "", Of(s, p).paths + {key}) && At(t, key) == Root(Whole, true)
    ensures key !in t.locks && forall other :: other != key ==> At(t, other) == At(s, other)
  {
    hide After, Enabled, By, At, Of;
    StageSucceedsStages(s, p, removal);
    var a := After(s, StageSucceeds(p), removal);
    MarkMarks(a, p, removal);
    var b := After(a, Mark(p), removal);
    ReturnHands(b, p, removal);
    t := After(b, Return(p), removal);
    ByItself(p, key);
    assert Alone(t, [], p, removal, t);
    AloneNext(b, Return(p), [], p, removal, t);
    AloneNext(a, Mark(p), [Return(p)] + [], p, removal, t);
    AloneNext(s, StageSucceeds(p), [Mark(p)] + ([Return(p)] + []), p, removal, t);
    assert InstallSteps(p, key)[4..] == [StageSucceeds(p)] + ([Mark(p)] + ([Return(p)] + []));
  }

  /** Once no call holds the lease, pruning can start and take a root, and leases return. */
  lemma PruneSucceeds(s: State, key: Key, removal: Removal) returns (t: State)
    requires !s.pruning && s.halfway.None? && forall p: Call :: !HoldsLease(s, p)
    ensures Enabled(s, StartPrune)
    ensures var a := After(s, StartPrune, removal);
            && Enabled(a, StartRemoval(key)) && (forall p: Call :: !Enabled(a, Lease(p)))
            && var b := After(a, StartRemoval(key), removal);
               && (removal.AtOnce? <==> b.halfway.None?) && (removal != FilesFirst ==> !At(b, key).complete)
               && (b.halfway.Some? ==> Enabled(b, FinishRemoval))
               && t == After(if b.halfway.Some? then After(b, FinishRemoval, removal) else b, EndPrune, removal)
    ensures At(t, key) == Root(Absent, false) && !t.pruning && t.halfway.None?
    ensures t.processes == s.processes && t.locks == s.locks && forall p: Call :: Enabled(t, Lease(p))
    ensures forall other :: other != key ==> At(t, other) == At(s, other)
  {
    hide After, At;
    PruneStarts(s, key, removal);
    var a := After(s, StartPrune, removal);
    var b := After(a, StartRemoval(key), removal);
    RemovalEnds(b, key, removal);
    t := After(if b.halfway.Some? then After(b, FinishRemoval, removal) else b, EndPrune, removal);
    assert forall p: Call :: Of(t, p) == Of(s, p);
    assert forall p: Call :: !HoldsLease(s, p);
  }

  lemma PruneStarts(s: State, key: Key, removal: Removal)
    requires !s.pruning && s.halfway.None? && forall p: Call :: !HoldsLease(s, p)
    ensures Enabled(s, StartPrune)
    ensures var a := After(s, StartPrune, removal);
            && a.pruning && Enabled(a, StartRemoval(key)) && a.processes == s.processes && a.locks == s.locks
            && var b := After(a, StartRemoval(key), removal);
               && b.pruning && b.processes == s.processes && b.locks == s.locks
               && (b.halfway == if removal.AtOnce? then None else Some(key))
               && (removal.AtOnce? ==> At(b, key) == Root(Absent, false))
               && (removal != FilesFirst ==> !At(b, key).complete)
               && forall other :: other != key ==> At(b, other) == At(s, other)
  {}

  lemma RemovalEnds(b: State, key: Key, removal: Removal)
    requires b.pruning && b.halfway in {None, Some(key)} && (b.halfway.None? ==> At(b, key) == Root(Absent, false))
    ensures b.halfway.Some? ==> Enabled(b, FinishRemoval)
    ensures Enabled(if b.halfway.Some? then After(b, FinishRemoval, removal) else b, EndPrune)
    ensures var t := After(if b.halfway.Some? then After(b, FinishRemoval, removal) else b, EndPrune, removal);
            && At(t, key) == Root(Absent, false) && !t.pruning && t.halfway.None?
            && t.processes == b.processes && t.locks == b.locks
            && forall other :: other != key ==> At(t, other) == At(b, other)
  {}

  /** Every call may crash at any moment, and every step that can fail may fail. */
  lemma AnythingMayFail(s: State, p: Call, left: Staging, written: bool)
    ensures Enabled(s, Crash(p))
    ensures Of(s, p).phase.Leased? ==> Enabled(s, Release(p))
    ensures Of(s, p).phase.Waiting? ==> Enabled(s, LockFails(p))
    ensures Of(s, p).phase.Clearing? ==> Enabled(s, ClearFails(p, Part))
    ensures Of(s, p).phase.Writing? ==> Enabled(s, WriteSome(p)) && Enabled(s, StageFails(p, left))
    ensures Of(s, p).phase.Staged? ==> Enabled(s, MarkFails(p, written))
  {}

  /** A crash loses everything but the roots. */
  lemma CrashKeepsRoots(s: State, p: Call, removal: Removal)
    ensures var t := After(s, Crash(p), removal);
            Of(t, p) == IDLE && t.roots == s.roots && forall key :: key in t.locks ==> t.locks[key] != p
  {}

  /** A failure gives up the lock and keeps the lease and its paths. */
  lemma FailureGivesUp(s: State, step: Step, p: Call, removal: Removal)
    requires Enabled(s, step) && By(step, p)
    requires step.LockFails? || step.ClearFails? || step.StageFails? || step.MarkFails?
    ensures GaveUp(s, After(s, step, removal), p)
  {}

  ghost predicate GaveUp(s: State, t: State, p: Call) {
    && Of(t, p) == Of(s, p).(phase := Leased) && (forall key :: key in t.locks ==> t.locks[key] != p)
    && forall other :: other != Of(s, p).key ==> At(t, other) == At(s, other)
  }
}
