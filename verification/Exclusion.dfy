/** Several `run.sh` supervisors, their children and several builders around the
    profile locks. A flock belongs to an open file description: it ends when that is
    unlocked by hand, or when no process has it open any more. Children inherit the
    lock descriptors of their supervisor and keep them when it dies. */
module Exclusion {
  import opened Campaign

  /** The description a supervisor or a builder opened on the lock file of c. */
  datatype Description = SupervisorLock(who: nat, c: Profile) | BuilderLock(who: nat, c: Profile)

  /** A live child: the supervisor that launched it, the descriptions it inherited and
      the version of the profile tree it runs from. */
  datatype Child = Child(profile: Profile, parent: nat, fds: set<Description>, tree: nat)

  /** A builder works on a profile while it or a command of it has the lock open. */
  datatype Builder = Idle | Working(c: Profile)

  datatype System = System(
    supervisors: seq<Supervision>,
    builders: seq<Builder>,
    owner: map<Profile, Description>,   // who took each lock last and has not unlocked it
    live: map<Pid, Child>,
    trees: map<Profile, nat>)           // counts the deletions and stagings of each profile

  predicate Runs(s: Supervision) { !s.phase.Over? }

  ghost predicate Opened(y: System, d: Description) {
    match d
    case SupervisorLock(i, c) =>
      || (i < |y.supervisors| && Runs(y.supervisors[i]) && c in y.supervisors[i].k.locks)
      || (exists pid :: pid in y.live && d in y.live[pid].fds)
    case BuilderLock(b, c) => b < |y.builders| && y.builders[b] == Working(c)
  }

  /** Whether `flock -n` would get the lock of c. */
  ghost predicate Free(y: System, c: Profile) { c in y.owner ==> !Opened(y, y.owner[c]) }

  function Inherited(i: nat, locks: set<Profile>): set<Description> { set c | c in locks :: SupervisorLock(i, c) }

  ghost predicate SupervisorMove(y: System, i: nat, a: Action, z: System)
    requires i < |y.supervisors|
  {
    && |z.supervisors| == |y.supervisors| && Step(y.supervisors[i], a, z.supervisors[i])
    && z.supervisors == y.supervisors[i := z.supervisors[i]]
    && z.builders == y.builders && z.trees == y.trees
    && match a
       case TryLock(c, ok) =>
         && ok == Free(y, c) && z.live == y.live
         && z.owner == if ok then y.owner[c := SupervisorLock(i, c)] else y.owner
       case Launch(c, pid, _, _) =>
         && z.owner == y.owner && pid !in y.live
         && (forall j :: 0 <= j < |y.supervisors| ==> pid !in y.supervisors[j].k.configs)
         && z.live == y.live[pid := Child(c, i, Inherited(i, y.supervisors[i].k.locks), Count(y.trees, c))]
       case Exit(pid, _, _) => pid !in y.live && z.live == y.live && z.owner == y.owner
       case Unlock(c) =>
         && z.live == y.live
         && z.owner == if c in y.owner && y.owner[c] == SupervisorLock(i, c) then y.owner - {c} else y.owner
       case _ => z.live == y.live && z.owner == y.owner
  }

  ghost predicate Death(y: System, pid: Pid, z: System) { z == y.(live := y.live - {pid}) }

  /** `build_software`: take the lock, delete and stage the tree, close. */
  ghost predicate BuilderMove(y: System, b: nat, z: System)
    requires b < |y.builders|
  {
    match y.builders[b]
    case Idle =>
      exists c :: Free(y, c) && z == y.(builders := y.builders[b := Working(c)], owner := y.owner[c := BuilderLock(b, c)])
    case Working(c) =>
      || z == y.(trees := y.trees[c := Count(y.trees, c) + 1])
      || z == y.(builders := y.builders[b := Idle])
  }

  ghost predicate Next(y: System, z: System) {
    || (exists i, a :: 0 <= i < |y.supervisors| && SupervisorMove(y, i, a, z))
    || (exists pid :: Death(y, pid, z))
    || (exists b :: 0 <= b < |y.builders| && BuilderMove(y, b, z))
  }

  ghost predicate Init(y: System) {
    && (forall i :: 0 <= i < |y.supervisors| ==> Fresh(y.supervisors[i]))
    && (forall b :: 0 <= b < |y.builders| ==> y.builders[b] == Idle)
    && y.owner == map[] && y.live == map[]
  }

  /** A campaign at its start: distinct profiles to launch, nothing launched or locked. */
  predicate Fresh(s: Supervision) {
    s.phase.Starting? && Distinct(s.phase.todo) && s.k == EMPTY
  }

  // ---------------------------------------------------------------------
  // What every move keeps
  // ---------------------------------------------------------------------

  /** A running supervisor owns the locks it believes it has. */
  ghost predicate SupervisorOk(y: System, i: nat)
    requires i < |y.supervisors|
  {
    && Consistent(y.supervisors[i])
    && (Runs(y.supervisors[i]) ==>
          forall c :: c in y.supervisors[i].k.locks ==> c in y.owner && y.owner[c] == SupervisorLock(i, c))
  }

  /** A live child keeps its profile locked, is tracked as long as its supervisor
      runs, and runs from the tree it was launched from. */
  ghost predicate ChildOk(y: System, pid: Pid)
    requires pid in y.live
  {
    var child := y.live[pid];
    var c := child.profile;
    && child.parent < |y.supervisors|
    && c in y.owner && y.owner[c] == SupervisorLock(child.parent, c) && y.owner[c] in child.fds
    && (Runs(y.supervisors[child.parent]) ==>
          pid in y.supervisors[child.parent].k.configs && y.supervisors[child.parent].k.configs[pid] == c)
    && child.tree == Count(y.trees, c)
  }

  ghost predicate BuilderOk(y: System, b: nat)
    requires b < |y.builders|
  {
    y.builders[b].Working? ==>
      var c := y.builders[b].c;
      c in y.owner && y.owner[c] == BuilderLock(b, c)
  }

  ghost predicate Inv(y: System) {
    && (forall i :: 0 <= i < |y.supervisors| ==> SupervisorOk(y, i))
    && (forall pid :: pid in y.live ==> ChildOk(y, pid))
    && (forall b :: 0 <= b < |y.builders| ==> BuilderOk(y, b))
  }

  lemma LockedWhileAlive(y: System, pid: Pid)
    requires pid in y.live && ChildOk(y, pid)
    ensures !Free(y, y.live[pid].profile)
  {
    assert Opened(y, y.owner[y.live[pid].profile]);
  }

  lemma LockedWhileHeld(y: System, i: nat, c: Profile)
    requires i < |y.supervisors| && SupervisorOk(y, i) && Runs(y.supervisors[i]) && c in y.supervisors[i].k.locks
    ensures !Free(y, c)
  {
  }

  /** Nobody but the owner's supervisor has a live child of a locked profile. */
  lemma ChildOfOwner(y: System, i: nat, pid: Pid)
    requires i < |y.supervisors| && SupervisorOk(y, i) && Runs(y.supervisors[i])
    requires pid in y.live && ChildOk(y, pid)
    ensures y.live[pid].profile in y.supervisors[i].k.locks ==>
            y.live[pid].parent == i && Tracked(y.supervisors[i].k, y.live[pid].profile)
  {
  }

  lemma SupervisorMoveKeepsSupervisor(y: System, i: nat, a: Action, z: System, j: nat)
    requires i < |y.supervisors| && j < |y.supervisors| && Inv(y) && SupervisorMove(y, i, a, z)
    ensures SupervisorOk(z, j)
  {
    assert SupervisorOk(y, i) && SupervisorOk(y, j);
    if i == j { StepKeepsConsistent(y.supervisors[i], a, z.supervisors[i]); }
    hide Consistent, Inv;
    if Runs(y.supervisors[j]) {
      forall c | c in y.supervisors[j].k.locks ensures !Free(y, c) { LockedWhileHeld(y, j, c); }
    }
    hide Free;
  }

  lemma SupervisorMoveKeepsChild(y: System, i: nat, a: Action, z: System, pid: Pid)
    requires i < |y.supervisors| && Inv(y) && SupervisorMove(y, i, a, z) && pid in z.live
    ensures ChildOk(z, pid)
  {
    assert SupervisorOk(y, i);
    if pid in y.live {
      assert ChildOk(y, pid);
      LockedWhileAlive(y, pid);
      ChildOfOwner(y, i, pid);
    }
    hide Free, Inv, TrackedWhole;
  }

  lemma SupervisorMoveKeepsBuilder(y: System, i: nat, a: Action, z: System, b: nat)
    requires i < |y.supervisors| && b < |y.builders| && Inv(y) && SupervisorMove(y, i, a, z)
    ensures BuilderOk(z, b)
  {
    assert BuilderOk(y, b);
    hide Inv, Step;
    assert y.builders[b].Working? ==> !Free(y, y.builders[b].c);
    hide Free;
  }

  lemma DeathKeepsInv(y: System, pid: Pid, z: System)
    requires Inv(y) && Death(y, pid, z)
    ensures Inv(z)
  {
    hide Consistent;
    forall i | 0 <= i < |z.supervisors| ensures SupervisorOk(z, i) { assert SupervisorOk(y, i); }
    forall p | p in z.live ensures ChildOk(z, p) { assert ChildOk(y, p); }
    forall b | 0 <= b < |z.builders| ensures BuilderOk(z, b) { assert BuilderOk(y, b); }
  }

  lemma BuilderMoveKeepsInv(y: System, b: nat, z: System)
    requires b < |y.builders| && Inv(y) && BuilderMove(y, b, z)
    ensures Inv(z)
  {
    hide Consistent;
    assert BuilderOk(y, b);
    forall i | 0 <= i < |z.supervisors| ensures SupervisorOk(z, i) {
      assert SupervisorOk(y, i);
      if Runs(y.supervisors[i]) {
        forall c | c in y.supervisors[i].k.locks ensures !Free(y, c) { LockedWhileHeld(y, i, c); }
      }
    }
    forall pid | pid in z.live ensures ChildOk(z, pid) {
      assert ChildOk(y, pid);
      LockedWhileAlive(y, pid);
    }
    forall j | 0 <= j < |z.builders| ensures BuilderOk(z, j) {
      assert BuilderOk(y, j);
      assert y.builders[j].Working? ==> !Free(y, y.builders[j].c);
    }
  }

  lemma NextKeepsInv(y: System, z: System)
    requires Inv(y) && Next(y, z)
    ensures Inv(z)
  {
    hide SupervisorMove, SupervisorOk, ChildOk, BuilderOk, BuilderMove, Death;
    if i, a :| 0 <= i < |y.supervisors| && SupervisorMove(y, i, a, z) {
      assert |z.supervisors| == |y.supervisors| && z.builders == y.builders by { SameSizes(y, i, a, z); }
      forall j | 0 <= j < |z.supervisors| ensures SupervisorOk(z, j) { SupervisorMoveKeepsSupervisor(y, i, a, z, j); }
      forall pid | pid in z.live ensures ChildOk(z, pid) { SupervisorMoveKeepsChild(y, i, a, z, pid); }
      forall b | 0 <= b < |z.builders| ensures BuilderOk(z, b) { SupervisorMoveKeepsBuilder(y, i, a, z, b); }
    } else if pid :| Death(y, pid, z) {
      DeathKeepsInv(y, pid, z);
    } else {
      var b :| 0 <= b < |y.builders| && BuilderMove(y, b, z);
      BuilderMoveKeepsInv(y, b, z);
    }
  }

  lemma SameSizes(y: System, i: nat, a: Action, z: System)
    requires i < |y.supervisors| && SupervisorMove(y, i, a, z)
    ensures |z.supervisors| == |y.supervisors| && z.builders == y.builders
  {
  }

  lemma InitInv(y: System)
    requires Init(y)
    ensures Inv(y)
  {
    forall i | 0 <= i < |y.supervisors| ensures SupervisorOk(y, i) {
      var s := y.supervisors[i];
      assert Fresh(s);
      assert IsRun(s.phase.todo, [s], []);
      RunKeeps(s.phase.todo, [s], [], 0, 0);
    }
  }

  // ---------------------------------------------------------------------
  // Whole runs
  // ---------------------------------------------------------------------

  ghost predicate IsHistory(systems: seq<System>) {
    && systems != [] && Init(systems[0])
    && forall n :: 0 <= n < |systems| - 1 ==> Next(systems[n], systems[n + 1])
  }

  lemma {:induction false} HistoryInv(systems: seq<System>, n: nat)
    requires IsHistory(systems) && n < |systems|
    ensures Inv(systems[n])
  {
    hide Inv, Next, Init;
    if n == 0 {
      InitInv(systems[0]);
    } else {
      HistoryInv(systems, n - 1);
      NextKeepsInv(systems[n - 1], systems[n - 1 + 1]);
    }
  }

  /** Supervisor and builder exclusion, in every interleaving and whoever crashes: a
      live child's profile is locked against everybody, no builder works on it, and
      its tree is the one it was launched from; a running supervisor owns the lock of
      every child it tracks, and nobody else tracks or builds that profile. */
  lemma ProfilesExcluded(systems: seq<System>, n: nat, pid: Pid, b: nat)
    requires IsHistory(systems) && n < |systems|
    ensures pid in systems[n].live ==>
            var child := systems[n].live[pid];
            && !Free(systems[n], child.profile)
            && (b < |systems[n].builders| ==> systems[n].builders[b] != Working(child.profile))
            && child.tree == Count(systems[n].trees, child.profile)
  {
    hide IsHistory, Consistent;
    HistoryInv(systems, n);
    assert b < |systems[n].builders| ==> BuilderOk(systems[n], b);
    if pid in systems[n].live { LockedWhileAlive(systems[n], pid); }
  }

  lemma TrackedProfilesOwned(systems: seq<System>, n: nat, i: nat, j: nat, b: nat, p: Pid, q: Pid)
    requires IsHistory(systems) && n < |systems|
    requires i < |systems[n].supervisors| && j < |systems[n].supervisors|
    requires var y := systems[n];
             Runs(y.supervisors[i]) && Runs(y.supervisors[j])
             && p in y.supervisors[i].k.configs && q in y.supervisors[j].k.configs
    ensures var y := systems[n];
            var c := y.supervisors[i].k.configs[p];
            && c in y.owner && y.owner[c] == SupervisorLock(i, c) && !Free(y, c)
            && (b < |y.builders| ==> y.builders[b] != Working(c))
            && (y.supervisors[j].k.configs[q] == c ==> i == j && p == q)
  {
    hide IsHistory;
    HistoryInv(systems, n);
    var y := systems[n];
    assert SupervisorOk(y, i) && SupervisorOk(y, j) && (b < |y.builders| ==> BuilderOk(y, b));
    assert TrackedWhole(y.supervisors[i].k, p) && TrackedWhole(y.supervisors[j].k, q);
    LockedWhileHeld(y, i, y.supervisors[i].k.configs[p]);
  }

  // ---------------------------------------------------------------------
  // The builder script
  // ---------------------------------------------------------------------

  datatype BuildStep = Lock | Delete | Install | Stage | Close

  /** The builder's state behind some steps on the profile c. */
  function After(c: Profile, steps: seq<BuildStep>): Builder {
    if steps == [] then Idle
    else
      match steps[|steps| - 1]
      case Lock => Working(c)
      case Close => Idle
      case _ => After(c, steps[..|steps| - 1])
  }

  /** The profile tree is only touched while the builder has the lock. */
  ghost predicate Guarded(c: Profile, steps: seq<BuildStep>) {
    forall k :: 0 <= k < |steps| && steps[k] in {Delete, Install, Stage} ==> After(c, steps[..k]) == Working(c)
  }

  /** `build_software`, with a failing command ending the script: what it does to the
      profile tree, all of it under the lock, and when it touches nothing. */
  method BuildSoftware(c: Profile, valid: bool, lockFree: bool, rebuildDirectory: bool, buildDirectory: bool,
      installed: bool, staged: bool) returns (ok: bool, steps: seq<BuildStep>)
    ensures Guarded(c, steps) && After(c, steps) == Idle
    ensures ok == (valid && lockFree && (rebuildDirectory || installed) && (rebuildDirectory || buildDirectory ==> staged))
    ensures !(valid && lockFree) ==> steps == []
    ensures valid && lockFree ==>
            steps == [Lock] + (if rebuildDirectory then [Stage]
                               else [Delete] + (if !installed then [] else if buildDirectory then [Install, Stage]
                                                else [Install])) + [Close]
  {
    if !valid || !lockFree { return false, []; }
    steps := Perform(c, [], Lock);
    if rebuildDirectory {
      steps := Perform(c, steps, Stage);
      steps := Perform(c, steps, Close);
      return staged, steps;
    }
    steps := Perform(c, steps, Delete);
    ok := installed;
    if ok {
      steps := Perform(c, steps, Install);
      if buildDirectory {
        steps := Perform(c, steps, Stage);
        ok := staged;
      }
    }
    steps := Perform(c, steps, Close);
  }

  method Perform(c: Profile, steps: seq<BuildStep>, step: BuildStep) returns (more: seq<BuildStep>)
    requires Guarded(c, steps)
    requires step in {Delete, Install, Stage} ==> After(c, steps) == Working(c)
    ensures more == steps + [step] && Guarded(c, more)
    ensures After(c, more) == match step case Lock => Working(c) case Close => Idle case _ => After(c, steps)
  {
    more := steps + [step];
    assert more[..|steps|] == steps;
    assert forall k :: 0 <= k < |steps| ==> more[..k] == steps[..k];
  }
}
