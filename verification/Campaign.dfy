/** The state of one `run.sh` campaign, its steps, and its restart budget. */
module Campaign {
  import opened Wrappers

  type Profile = nat
  type Pid = nat

  datatype Signal = Term | Kill

  /** `logs/asan<profile>.log.<campaign>-<launch>`. */
  datatype LogPrefix = LogPrefix(profile: Profile, launch: nat)

  datatype Campaign = Campaign(
    pids: seq<Pid>,
    configs: map<Pid, Profile>,
    pidFiles: map<Pid, Profile>,
    startedAt: map<Pid, int>,
    stopSignals: map<Pid, Signal>,
    prefixes: map<Pid, LogPrefix>,
    launches: map<Profile, nat>,
    rapid: map<Profile, nat>,
    locks: set<Profile>)

  /** Where the script is: in the starting loop, between the polls of the
      supervision loop, between reaping a child and settling its profile, or out. */
  datatype Phase = Starting(todo: seq<Profile>) | Watching | Restarting(profile: Profile) | Over

  datatype Supervision = Supervision(k: Campaign, phase: Phase)

  const RAPID_RUNTIME := 60
  const RAPID_ATTEMPTS := 5

  /** `${counts[$c]:-0}`. */
  function Count(counts: map<Profile, nat>, c: Profile): nat { if c in counts then counts[c] else 0 }

  predicate Distinct(numbers: seq<nat>) {
    forall i, j :: 0 <= i < j < |numbers| ==> numbers[i] != numbers[j]
  }

  function Without(pids: seq<Pid>, pid: Pid): seq<Pid> {
    if pids == [] then []
    else if pids[0] == pid then Without(pids[1..], pid)
    else [pids[0]] + Without(pids[1..], pid)
  }

  lemma {:induction false} WithoutKeepsOthers(pids: seq<Pid>, pid: Pid, other: Pid)
    ensures other in Without(pids, pid) <==> other in pids && other != pid
  {
    if pids != [] {
      WithoutKeepsOthers(pids[1..], pid, other);
      assert pids == [pids[0]] + pids[1..];
    }
  }

  lemma {:induction false} WithoutDistinct(pids: seq<Pid>, pid: Pid)
    requires Distinct(pids)
    ensures Distinct(Without(pids, pid))
  {
    if pids != [] {
      WithoutDistinct(pids[1..], pid);
      WithoutKeepsOthers(pids[1..], pid, pids[0]);
    }
  }

  /** A child of profile c is launched; signal is what will stop it. */
  function Launched(k: Campaign, c: Profile, pid: Pid, now: int, signal: Signal): Campaign {
    var n := Count(k.launches, c) + 1;
    k.(pids := k.pids + [pid], configs := k.configs[pid := c], pidFiles := k.pidFiles[pid := c],
       startedAt := k.startedAt[pid := now], stopSignals := k.stopSignals[pid := signal],
       prefixes := k.prefixes[pid := LogPrefix(c, n)], launches := k.launches[c := n])
  }

  /** The rapid counter after an exit. */
  function Attempts(before: nat, runtime: int): nat {
    (if runtime >= RAPID_RUNTIME then 0 else before) + 1
  }

  /** A dead child of profile c is reaped after runtime seconds. */
  function Reaped(k: Campaign, pid: Pid, c: Profile, runtime: int): Campaign {
    k.(pids := Without(k.pids, pid), configs := k.configs - {pid}, pidFiles := k.pidFiles - {pid},
       startedAt := k.startedAt - {pid}, stopSignals := k.stopSignals - {pid}, prefixes := k.prefixes - {pid},
       rapid := k.rapid[c := Attempts(Count(k.rapid, c), runtime)])
  }

  function WithLock(k: Campaign, c: Profile): Campaign { k.(locks := k.locks + {c}) }

  function WithoutLock(k: Campaign, c: Profile): Campaign { k.(locks := k.locks - {c}) }

  ghost predicate Tracked(k: Campaign, c: Profile) { exists pid :: pid in k.configs && k.configs[pid] == c }

  datatype Action =
    | TryLock(c: Profile, ok: bool)                                // flock -n
    | Launch(c: Profile, pid: Pid, now: int, signal: Signal)
    | Exit(pid: Pid, c: Profile, runtime: int)
    | Unlock(c: Profile)                                           // flock -u and close
    | EndStart
    | Quit                                                         // exit, or a crash

  ghost predicate Step(s: Supervision, a: Action, t: Supervision) {
    match a
    case TryLock(c, ok) =>
      && s.phase.Starting? && s.phase.todo != [] && c == s.phase.todo[0] && c !in s.k.locks
      && t == if ok then s.(k := WithLock(s.k, c)) else s.(phase := Over)
    case Launch(c, pid, now, signal) =>
      && c in s.k.locks && pid !in s.k.configs
      && ((s.phase.Starting? && s.phase.todo != [] && c == s.phase.todo[0]
           && t == Supervision(Launched(s.k, c, pid, now, signal), Starting(s.phase.todo[1..])))
          || (s.phase == Restarting(c) && Count(s.k.rapid, c) <= RAPID_ATTEMPTS
              && t == Supervision(Launched(s.k, c, pid, now, signal), Watching)))
    case Exit(pid, c, runtime) =>
      && s.phase == Watching && pid in s.k.configs && s.k.configs[pid] == c
      && t == Supervision(Reaped(s.k, pid, c, runtime), Restarting(c))
    case Unlock(c) => s.phase == Restarting(c) && t == Supervision(WithoutLock(s.k, c), Watching)
    case EndStart => s.phase == Starting([]) && t == s.(phase := Watching)
    case Quit => s.phase != Over && t == s.(phase := Over)
  }

  // ---------------------------------------------------------------------
  // What every step keeps
  // ---------------------------------------------------------------------

  /** What the maps say of a pid: all or nothing, and all about one profile. */
  ghost predicate TrackedWhole(k: Campaign, pid: Pid) {
    && (pid in k.pids <==> pid in k.configs) && (pid in k.pidFiles <==> pid in k.configs)
    && (pid in k.startedAt <==> pid in k.configs) && (pid in k.stopSignals <==> pid in k.configs)
    && (pid in k.prefixes <==> pid in k.configs)
    && (pid in k.configs ==>
          var c := k.configs[pid];
          && k.pidFiles[pid] == c && k.prefixes[pid] == LogPrefix(c, Count(k.launches, c))
          && c in k.locks)
  }

  ghost predicate OnePerProfile(k: Campaign) {
    forall p, q :: p in k.configs && q in k.configs && k.configs[p] == k.configs[q] ==> p == q
  }

  ghost predicate Unlaunched(k: Campaign, c: Profile) {
    !Tracked(k, c) && Count(k.launches, c) == 0 && Count(k.rapid, c) == 0
  }

  ghost predicate PhaseFits(s: Supervision) {
    && (s.phase.Starting? ==>
          && Distinct(s.phase.todo)
          && (forall i :: 0 <= i < |s.phase.todo| ==> Unlaunched(s.k, s.phase.todo[i])))
    && (s.phase.Restarting? ==> s.phase.profile in s.k.locks && !Tracked(s.k, s.phase.profile))
  }

  ghost predicate Consistent(s: Supervision) {
    (forall pid :: TrackedWhole(s.k, pid)) && Distinct(s.k.pids) && OnePerProfile(s.k) && PhaseFits(s)
  }

  const EMPTY := Campaign([], map[], map[], map[], map[], map[], map[], map[], {})

  lemma TrackedAfterLaunch(k: Campaign, c: Profile, pid: Pid, now: int, signal: Signal, x: Profile)
    requires pid !in k.configs
    ensures Tracked(Launched(k, c, pid, now, signal), x) <==> x == c || Tracked(k, x)
  {
    var t := Launched(k, c, pid, now, signal);
    assert t.configs[pid] == c;
    if Tracked(k, x) {
      var p :| p in k.configs && k.configs[p] == x;
      assert p in t.configs && t.configs[p] == x;
    }
  }

  lemma TrackedAfterExit(k: Campaign, pid: Pid, c: Profile, runtime: int, x: Profile)
    requires OnePerProfile(k) && pid in k.configs && k.configs[pid] == c
    ensures Tracked(Reaped(k, pid, c, runtime), x) <==> x != c && Tracked(k, x)
  {
    if x != c && Tracked(k, x) {
      var p :| p in k.configs && k.configs[p] == x;
      assert p in Reaped(k, pid, c, runtime).configs;
    }
  }

  lemma StepKeepsWhole(s: Supervision, a: Action, t: Supervision, pid: Pid)
    requires Consistent(s) && Step(s, a, t)
    ensures TrackedWhole(t.k, pid)
  {
    assert TrackedWhole(s.k, pid);
    hide Without;
    match a {
      case Launch(c, child, _, _) =>
        TrackedAfterLaunch(s.k, c, child, a.now, a.signal, c);
        assert !Tracked(s.k, c);
      case Exit(child, c, runtime) => WithoutKeepsOthers(s.k.pids, child, pid);
      case Unlock(c) => assert !Tracked(s.k, c);
      case _ =>
    }
  }

  lemma StepKeepsPhase(s: Supervision, a: Action, t: Supervision)
    requires Consistent(s) && Step(s, a, t)
    ensures Distinct(t.k.pids) && OnePerProfile(t.k) && PhaseFits(t)
  {
    if a.Launch? { assert TrackedWhole(s.k, a.pid) && a.pid !in s.k.pids; }
    if a.Exit? {
      WithoutDistinct(s.k.pids, a.pid);
      assert TrackedWhole(s.k, a.pid) && a.c in s.k.locks;
    }
    hide TrackedWhole, Without;
    match a {
      case Launch(c, child, now, signal) =>
        forall x ensures Tracked(t.k, x) <==> x == c || Tracked(s.k, x) {
          TrackedAfterLaunch(s.k, c, child, now, signal, x);
        }
        assert !Tracked(s.k, c);
      case Exit(child, c, runtime) =>
        forall x ensures Tracked(t.k, x) <==> x != c && Tracked(s.k, x) {
          TrackedAfterExit(s.k, child, c, runtime, x);
        }
      case _ =>
    }
  }

  lemma StepKeepsConsistent(s: Supervision, a: Action, t: Supervision)
    requires Consistent(s) && Step(s, a, t)
    ensures Consistent(t)
  {
    StepKeepsPhase(s, a, t);
    hide Step, TrackedWhole;
    forall pid ensures TrackedWhole(t.k, pid) { StepKeepsWhole(s, a, t, pid); }
  }

  // ---------------------------------------------------------------------
  // Whole runs and the restart budget
  // ---------------------------------------------------------------------

  ghost predicate IsRun(selected: seq<Profile>, states: seq<Supervision>, actions: seq<Action>) {
    && |states| == |actions| + 1 && Distinct(selected)
    && states[0] == Supervision(EMPTY, Starting(selected))
    && forall i :: 0 <= i < |actions| ==> Step(states[i], actions[i], states[i + 1])
  }

  function Launches(actions: seq<Action>, c: Profile): nat {
    if actions == [] then 0
    else
      var last := actions[|actions| - 1];
      Launches(actions[..|actions| - 1], c) + One(last.Launch? && last.c == c)
  }

  function Exits(actions: seq<Action>, c: Profile): nat {
    if actions == [] then 0
    else
      var last := actions[|actions| - 1];
      Exits(actions[..|actions| - 1], c) + One(last.Exit? && last.c == c)
  }

  /** An exit of c at least a minute after its launch. */
  predicate IsLongExit(a: Action, c: Profile) { a.Exit? && a.c == c && a.runtime >= 60 }

  function LongExits(actions: seq<Action>, c: Profile): nat {
    if actions == [] then 0
    else
      var last := actions[|actions| - 1];
      LongExits(actions[..|actions| - 1], c) + One(IsLongExit(last, c))
  }

  /** The counters of a profile after so many launches, exits and long exits. */
  ghost predicate Budgeted(s: Supervision, c: Profile, launches: nat, exits: nat, long: nat) {
    var attempts := Count(s.k.rapid, c);
    && Count(s.k.launches, c) == launches && launches == exits + (if Tracked(s.k, c) then 1 else 0)
    && (Tracked(s.k, c) ==> attempts <= 5 && launches <= 1 + attempts + 5 * long)
    && (s.phase == Restarting(c) ==> launches <= attempts + 5 * long)
    && launches <= 6 + 5 * long && attempts <= 6
    && (attempts == 6 ==> s.phase == Restarting(c) || s.phase == Over || c !in s.k.locks)
  }

  lemma StepKeepsBudget(s: Supervision, a: Action, t: Supervision, c: Profile, launches: nat, exits: nat, long: nat)
    requires Consistent(s) && Step(s, a, t) && Budgeted(s, c, launches, exits, long)
    ensures Budgeted(t, c, launches + One(a.Launch? && a.c == c), exits + One(a.Exit? && a.c == c),
                     long + One(IsLongExit(a, c)))
  {
    if a.Launch? { TrackedAfterLaunch(s.k, a.c, a.pid, a.now, a.signal, c); }
    if a.Exit? {
      assert TrackedWhole(s.k, a.pid);
      TrackedAfterExit(s.k, a.pid, a.c, a.runtime, c);
      assert a.c == c ==> Tracked(s.k, c);
    }
    hide TrackedWhole, Without;
    assert Tracked(t.k, c) ==> a.Launch? || Tracked(s.k, c);
  }

  lemma {:induction false} RunKeeps(selected: seq<Profile>, states: seq<Supervision>, actions: seq<Action>,
      i: nat, c: Profile)
    requires IsRun(selected, states, actions) && i < |states|
    ensures Consistent(states[i])
    ensures var past := actions[..i];
            Budgeted(states[i], c, Launches(past, c), Exits(past, c), LongExits(past, c))
  {
    if i > 0 {
      RunKeeps(selected, states, actions, i - 1, c);
      hide Step, Consistent, Budgeted;
      StepKeepsConsistent(states[i - 1], actions[i - 1], states[i]);
      var past := actions[..i - 1];
      StepKeepsBudget(states[i - 1], actions[i - 1], states[i], c,
                      Launches(past, c), Exits(past, c), LongExits(past, c));
      assert actions[..i][..i - 1] == past;
    }
  }

  /** Action k is the last exit of c after at least a minute. */
  ghost predicate LastLong(past: seq<Action>, c: Profile, k: int) {
    && 0 <= k < |past| && IsLongExit(past[k], c)
    && forall j :: k < j < |past| ==> !IsLongExit(past[j], c)
  }

  /** The exits of c that have piled up: from its last long one on, that one included,
      and all of them when there is none. */
  ghost function Piled(past: seq<Action>, c: Profile): nat {
    if exists k :: LastLong(past, c, k) then
      var k :| LastLong(past, c, k);
      Exits(past[k..], c)
    else Exits(past, c)
  }

  lemma ExitsNext(past: seq<Action>, a: Action, c: Profile)
    ensures Exits(past + [a], c) == Exits(past, c) + One(a.Exit? && a.c == c)
  {
    assert (past + [a])[..|past|] == past;
  }

  /** A long exit starts a new pile, a short one is added to it. */
  lemma PiledNext(past: seq<Action>, a: Action, c: Profile)
    ensures Piled(past + [a], c) == if IsLongExit(a, c) then 1 else Piled(past, c) + One(a.Exit? && a.c == c)
  {
    var now := past + [a];
    if IsLongExit(a, c) {
      assert LastLong(now, c, |past|);
      assert forall k :: LastLong(now, c, k) ==> k == |past|;
      assert now[|past|..] == [] + [a];
      ExitsNext([], a, c);
    } else {
      forall k ensures LastLong(now, c, k) <==> LastLong(past, c, k) { LastLongNext(past, a, c, k); }
      hide Exits, IsLongExit;
      forall k | LastLong(past, c, k) ensures Exits(now[k..], c) == Exits(past[k..], c) + One(a.Exit? && a.c == c) {
        assert now[k..] == past[k..] + [a];
        ExitsNext(past[k..], a, c);
      }
      forall j, k | LastLong(past, c, j) && LastLong(past, c, k) ensures j == k {}
      ExitsNext(past, a, c);
    }
  }

  lemma LastLongNext(past: seq<Action>, a: Action, c: Profile, k: int)
    requires !IsLongExit(a, c)
    ensures LastLong(past + [a], c, k) <==> LastLong(past, c, k)
  {
    var now := past + [a];
    assert forall j :: 0 <= j < |past| ==> now[j] == past[j];
  }

  lemma StepPiles(s: Supervision, a: Action, t: Supervision, c: Profile)
    requires Step(s, a, t)
    ensures Count(t.k.rapid, c) == if IsLongExit(a, c) then 1 else Count(s.k.rapid, c) + One(a.Exit? && a.c == c)
  {
    hide Without;
  }

  lemma CounterAtMostSix(selected: seq<Profile>, states: seq<Supervision>, actions: seq<Action>, i: nat, c: Profile)
    requires IsRun(selected, states, actions) && i < |states|
    ensures Count(states[i].k.rapid, c) <= 6 && (states[i].phase == Restarting(c) ==> c in states[i].k.locks)
  {
    RunKeeps(selected, states, actions, i, c);
    hide TrackedWhole, IsRun;
  }

  lemma {:induction false} CounterPiles(selected: seq<Profile>, states: seq<Supervision>, actions: seq<Action>,
      i: nat, c: Profile)
    requires IsRun(selected, states, actions) && i < |states|
    ensures Count(states[i].k.rapid, c) == Piled(actions[..i], c)
  {
    hide Step, Piled;
    if i == 0 {
      NothingPiled(c);
    } else {
      CounterPiles(selected, states, actions, i - 1, c);
      assert Step(states[i - 1], actions[i - 1], states[i - 1 + 1]);
      StepPiles(states[i - 1], actions[i - 1], states[i], c);
      assert actions[..i] == actions[..i - 1] + [actions[i - 1]];
      PiledNext(actions[..i - 1], actions[i - 1], c);
    }
  }

  /** Over every run the counter of a profile is the number of its exits that have
      piled up, and at most six. */
  lemma CounterCounts(selected: seq<Profile>, states: seq<Supervision>, actions: seq<Action>, i: nat, c: Profile)
    requires IsRun(selected, states, actions) && i < |states|
    ensures Count(states[i].k.rapid, c) == Piled(actions[..i], c) <= 6
  {
    hide IsRun, Piled;
    CounterPiles(selected, states, actions, i, c);
    CounterAtMostSix(selected, states, actions, i, c);
  }

  lemma NothingPiled(c: Profile)
    ensures Piled([], c) == 0
  {
  }

  lemma RelaunchStep(s: Supervision, c: Profile, pid: Pid, now: int, signal: Signal)
    requires s.phase == Restarting(c) && c in s.k.locks && pid !in s.k.configs
    ensures var t := Supervision(Launched(s.k, c, pid, now, signal), Watching);
            Step(s, Launch(c, pid, now, signal), t) <==> Count(s.k.rapid, c) <= 5
  {
  }

  /** Behind an exit the profile may be launched again exactly when fewer than six exits
      have piled up; in particular when it lived at least a minute. */
  lemma RelaunchIffNotSix(selected: seq<Profile>, states: seq<Supervision>, actions: seq<Action>, i: nat,
      c: Profile, pid: Pid, now: int, signal: Signal)
    requires IsRun(selected, states, actions) && i < |states| && states[i].phase == Restarting(c)
    requires pid !in states[i].k.configs
    ensures var relaunched := Supervision(Launched(states[i].k, c, pid, now, signal), Watching);
            Step(states[i], Launch(c, pid, now, signal), relaunched) <==> Piled(actions[..i], c) < 6
    ensures i > 0 && IsLongExit(actions[i - 1], c) ==> Piled(actions[..i], c) == 1
  {
    CounterAtMostSix(selected, states, actions, i, c);
    CounterCounts(selected, states, actions, i, c);
    RelaunchStep(states[i], c, pid, now, signal);
    if i > 0 {
      assert actions[..i] == actions[..i - 1] + [actions[i - 1]] by { hide *; }
      PiledNext(actions[..i - 1], actions[i - 1], c);
    }
    hide Piled, Step, IsRun, Launched;
  }

  /** What is remembered of a running child is what its launch said. */
  ghost predicate LaunchedAt(actions: seq<Action>, k: Campaign, pid: Pid, n: int)
    requires pid in k.configs
  {
    && 0 <= n < |actions| && actions[n].Launch? && actions[n].pid == pid && actions[n].c == k.configs[pid]
    && pid in k.startedAt && k.startedAt[pid] == actions[n].now
    && pid in k.stopSignals && k.stopSignals[pid] == actions[n].signal
    && forall j :: n < j < |actions| ==> !(actions[j].Exit? && actions[j].pid == pid)
  }

  lemma {:induction false} RunRemembers(selected: seq<Profile>, states: seq<Supervision>, actions: seq<Action>,
      i: nat, pid: Pid)
    requires IsRun(selected, states, actions) && i < |states| && pid in states[i].k.configs
    ensures exists n :: LaunchedAt(actions[..i], states[i].k, pid, n)
  {
    var a := actions[i - 1];
    var (s, t) := (states[i - 1], states[i]);
    assert Step(s, a, states[i - 1 + 1]);
    hide Without;
    if a.Launch? && a.pid == pid {
      assert LaunchedAt(actions[..i], t.k, pid, i - 1);
    } else {
      assert pid in s.k.configs;
      RunRemembers(selected, states, actions, i - 1, pid);
      var n :| LaunchedAt(actions[..i - 1], s.k, pid, n);
      assert LaunchedAt(actions[..i], t.k, pid, n);
    }
  }

  /** Over every run: a profile is launched at most 6 times and 5 times more for each
      exit after at least 60 seconds; and if it never lived that long, it exits at
      most 6 times and is not running after the sixth. */
  lemma RestartBudget(selected: seq<Profile>, states: seq<Supervision>, actions: seq<Action>, i: nat, c: Profile)
    requires IsRun(selected, states, actions) && i < |states|
    ensures var past := actions[..i];
            && Launches(past, c) == Exits(past, c) + (if Tracked(states[i].k, c) then 1 else 0)
            && Launches(past, c) <= 6 + 5 * LongExits(past, c)
            && (LongExits(past, c) == 0 ==> Exits(past, c) <= 6)
            && (LongExits(past, c) == 0 && Exits(past, c) == 6 ==> !Tracked(states[i].k, c))
  {
    hide Launches, Exits, LongExits;
    RunKeeps(selected, states, actions, i, c);
  }

  lemma {:induction false} FreePid(used: set<Pid>) returns (pid: Pid)
    ensures forall p :: p in used ==> p < pid
  {
    if used == {} {
      pid := 0;
    } else {
      var p :| p in used;
      var rest := FreePid(used - {p});
      pid := Max(rest, p + 1);
      assert forall q :: q in used ==> q == p || q in used - {p};
    }
  }

  lemma NoWayBack(s: Supervision, a: Action, t: Supervision, c: Profile)
    requires Consistent(s) && Step(s, a, t) && Count(s.k.rapid, c) == 6
    requires !Tracked(s.k, c) && (s.phase == Restarting(c) || s.phase == Over || c !in s.k.locks)
    ensures Count(t.k.rapid, c) == 6 && !(a.Launch? && a.c == c)
  {
    if a.Exit? { assert Tracked(s.k, a.c); }
  }

  lemma {:induction false} SpentStays(selected: seq<Profile>, states: seq<Supervision>, actions: seq<Action>,
      i: nat, j: nat, c: Profile)
    requires IsRun(selected, states, actions) && i <= j < |states| && Count(states[i].k.rapid, c) == 6
    ensures Count(states[j].k.rapid, c) == 6 && !Tracked(states[j].k, c)
    ensures j < |actions| ==> !(actions[j].Launch? && actions[j].c == c)
    decreases j - i
  {
    hide Step, Consistent, Tracked;
    RunKeeps(selected, states, actions, i, c);
    if i < |actions| { NoWayBack(states[i], actions[i], states[i + 1], c); }
    if i < j { SpentStays(selected, states, actions, i + 1, j, c); }
  }

  /** Six exits that have piled up drop a profile: it has no child and is never launched
      again. */
  lemma BudgetDrops(selected: seq<Profile>, states: seq<Supervision>, actions: seq<Action>,
      i: nat, j: nat, c: Profile)
    requires IsRun(selected, states, actions) && i <= j < |states| && Piled(actions[..i], c) == 6
    ensures Piled(actions[..j], c) == 6 && !Tracked(states[j].k, c)
    ensures j < |actions| ==> !(actions[j].Launch? && actions[j].c == c)
  {
    hide Piled, IsRun, Tracked;
    CounterCounts(selected, states, actions, i, c);
    CounterCounts(selected, states, actions, j, c);
    SpentStays(selected, states, actions, i, j, c);
  }

  // ---------------------------------------------------------------------
  // The end of the supervision loop
  // ---------------------------------------------------------------------

  /** Only selected profiles are ever waited for, tracked or restarted. */
  ghost predicate Within(selected: seq<Profile>, s: Supervision, c: Profile) {
    (s.phase.Starting? && c in s.phase.todo) || Tracked(s.k, c) || s.phase == Restarting(c) ==> c in selected
  }

  lemma StepStaysWithin(selected: seq<Profile>, s: Supervision, a: Action, t: Supervision, c: Profile)
    requires Consistent(s) && Step(s, a, t) && Within(selected, s, c)
    ensures Within(selected, t, c)
  {
    hide Consistent, Without;
    match a {
      case Launch(x, pid, now, signal) => TrackedAfterLaunch(s.k, x, pid, now, signal, c);
      case Exit(pid, x, runtime) =>
        assert x == c ==> Tracked(s.k, c);
        assert Tracked(t.k, c) ==> Tracked(s.k, c);
      case _ => assert Tracked(t.k, c) == Tracked(s.k, c);
    }
  }

  lemma {:induction false} RunWithin(selected: seq<Profile>, states: seq<Supervision>, actions: seq<Action>,
      i: nat, c: Profile)
    requires IsRun(selected, states, actions) && i < |states|
    ensures Within(selected, states[i], c)
  {
    if i > 0 {
      RunWithin(selected, states, actions, i - 1, c);
      RunKeeps(selected, states, actions, i - 1, c);
      hide Step, Consistent, Within;
      StepStaysWithin(selected, states[i - 1], actions[i - 1], states[i], c);
    }
  }

  /** When every selected profile has used up its short-lived launches, or is not
      tracked for any other reason, fuzzer_pids is empty and the loop ends. */
  lemma LoopEnds(selected: seq<Profile>, states: seq<Supervision>, actions: seq<Action>, i: nat)
    requires IsRun(selected, states, actions) && i < |states|
    requires forall j :: 0 <= j < |selected| ==>
               || !Tracked(states[i].k, selected[j])
               || (LongExits(actions[..i], selected[j]) == 0 && Exits(actions[..i], selected[j]) >= 6)
    ensures states[i].k.pids == []
  {
    hide LongExits, Exits, IsRun;
    if states[i].k.pids != [] {
      var pid := states[i].k.pids[0];
      RunKeeps(selected, states, actions, i, 0);
      assert TrackedWhole(states[i].k, pid);
      var c := states[i].k.configs[pid];
      RunWithin(selected, states, actions, i, c);
      RestartBudget(selected, states, actions, i, c);
    }
  }

  function TotalExits(actions: seq<Action>): nat {
    if actions == [] then 0 else TotalExits(actions[..|actions| - 1]) + One(actions[|actions| - 1].Exit?)
  }

  /** The exits of several profiles together. */
  function ExitsOf(profiles: seq<Profile>, actions: seq<Action>): nat {
    if profiles == [] then 0 else Exits(actions, profiles[0]) + ExitsOf(profiles[1..], actions)
  }

  lemma {:induction false} OneMoreExit(profiles: seq<Profile>, actions: seq<Action>)
    requires Distinct(profiles) && actions != []
    ensures var last := actions[|actions| - 1];
            ExitsOf(profiles, actions)
            == ExitsOf(profiles, actions[..|actions| - 1]) + One(last.Exit? && last.c in profiles)
  {
    if profiles != [] {
      OneMoreExit(profiles[1..], actions);
      assert profiles == [profiles[0]] + profiles[1..];
    }
  }

  lemma {:induction false} NoExitsYet(profiles: seq<Profile>)
    ensures ExitsOf(profiles, []) == 0
  {
    if profiles != [] { NoExitsYet(profiles[1..]); }
  }

  /** All exits are exits of selected profiles. */
  lemma {:induction false} ExitsAreSelected(selected: seq<Profile>, states: seq<Supervision>, actions: seq<Action>, i: nat)
    requires IsRun(selected, states, actions) && i < |states|
    ensures TotalExits(actions[..i]) == ExitsOf(selected, actions[..i])
  {
    if i == 0 {
      NoExitsYet(selected);
    } else {
      ExitsAreSelected(selected, states, actions, i - 1);
      OneMoreExit(selected, actions[..i]);
      assert actions[..i][..i - 1] == actions[..i - 1];
      var last := actions[i - 1];
      RunWithin(selected, states, actions, i - 1, if last.Exit? then last.c else 0);
      assert Step(states[i - 1], last, states[i - 1 + 1]);
      assert last.Exit? ==> Tracked(states[i - 1].k, last.c);
    }
  }

  lemma {:induction false} AtMostSixEach(profiles: seq<Profile>, actions: seq<Action>)
    requires forall j :: 0 <= j < |profiles| ==> Exits(actions, profiles[j]) <= 6
    ensures ExitsOf(profiles, actions) <= 6 * |profiles|
  {
    hide Exits;
    if profiles != [] { AtMostSixEach(profiles[1..], actions); }
  }

  /** If every run is shorter than 60 s there are at most 6 exits per selected profile. */
  lemma ShortRunsAreFew(selected: seq<Profile>, states: seq<Supervision>, actions: seq<Action>, i: nat)
    requires IsRun(selected, states, actions) && i < |states|
    requires forall j :: 0 <= j < |selected| ==> LongExits(actions[..i], selected[j]) == 0
    ensures TotalExits(actions[..i]) <= 6 * |selected|
  {
    var past := actions[..i];
    hide Exits, LongExits, IsRun;
    ExitsAreSelected(selected, states, actions, i);
    forall j | 0 <= j < |selected| ensures Exits(past, selected[j]) <= 6 {
      RestartBudget(selected, states, actions, i, selected[j]);
    }
    AtMostSixEach(selected, past);
  }
}
