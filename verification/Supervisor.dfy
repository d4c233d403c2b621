/** The `run.sh` process: its variables, `run_fuzzer`, the locks, the supervision
    loop and `cleanup`. Ghost fields record the run it has made so far. */
module Supervisor {
  import opened Campaign

  /** What one `run_fuzzer` finds: the profile's files, flock -n, stop_previous, the
      archiving of old logs, the child's pid and start time, and its handle_term. */
  datatype Answers = Answers(valid: bool, staged: bool, lockFree: bool, previousStopped: bool, archived: bool,
                             pid: Pid, now: int, handlesTerm: bool)

  /** What `cleanup` finds of a child: whether kill() worked, its wait status, whether
      it left a sanitizer log, and whether run.pid still names it. */
  datatype Ending = Ending(delivered: bool, status: int, logged: bool, named: bool)

  /** The status a child that died of its stop signal has. */
  function StopStatus(signal: Signal): int { if signal.Term? then 72 else 137 }

  lemma HeldWhileRestarting(selected: seq<Profile>, states: seq<Supervision>, actions: seq<Action>, c: Profile)
    requires IsRun(selected, states, actions) && states[|actions|].phase == Restarting(c)
    ensures c in states[|actions|].k.locks
  {
    RunKeeps(selected, states, actions, |actions|, c);
  }

  /** Behind an exit the profile is relaunched, if its counter and the environment
      allow, or else given up and unlocked. */
  function Resettled(k: Campaign, c: Profile, fuzz: bool, answers: Answers): Campaign {
    if Count(k.rapid, c) <= RAPID_ATTEMPTS && answers.valid && answers.staged && answers.previousStopped then
      Launched(k, c, answers.pid, answers.now, if fuzz && answers.handlesTerm then Term else Kill)
    else WithoutLock(k, c)
  }

  function AfterExit(k: Campaign, pid: Pid, now: int, fuzz: bool, answers: Answers): Campaign
    requires pid in k.configs && pid in k.startedAt
  {
    var c := k.configs[pid];
    Resettled(Reaped(k, pid, c, now - k.startedAt[pid]), c, fuzz, answers)
  }

  lemma TrackedFacts(selected: seq<Profile>, states: seq<Supervision>, actions: seq<Action>, pid: Pid)
    requires IsRun(selected, states, actions)
    ensures var s := states[|actions|];
            TrackedWhole(s.k, pid) && Distinct(s.k.pids)
  {
    RunKeeps(selected, states, actions, |actions|, 0);
  }

  lemma ExitExtends(selected: seq<Profile>, states: seq<Supervision>, actions: seq<Action>, pid: Pid, runtime: int)
    requires IsRun(selected, states, actions)
    requires states[|actions|].phase == Watching && pid in states[|actions|].k.configs
    ensures var (k, c) := (states[|actions|].k, states[|actions|].k.configs[pid]);
            IsRun(selected, states + [Supervision(Reaped(k, pid, c, runtime), Restarting(c))],
                  actions + [Exit(pid, c, runtime)])
  {
    ExitStep(selected, states, actions, pid);
    hide Step, Reaped;
  }

  /** The counter behind an exit of pid at this time is what has piled up. */
  lemma PiledBehindExit(selected: seq<Profile>, states: seq<Supervision>, actions: seq<Action>, pid: Pid, runtime: int)
    requires IsRun(selected, states, actions)
    requires states[|actions|].phase == Watching && pid in states[|actions|].k.configs
    ensures var (k, c) := (states[|actions|].k, states[|actions|].k.configs[pid]);
            var past := actions + [Exit(pid, c, runtime)];
            && Count(Reaped(k, pid, c, runtime).rapid, c) == Piled(past, c) <= 6
            && (runtime >= 60 ==> Piled(past, c) == 1)
  {
    ExitExtends(selected, states, actions, pid, runtime);
    var (k, c) := (states[|actions|].k, states[|actions|].k.configs[pid]);
    var exit := Exit(pid, c, runtime);
    var (past, more) := (actions + [exit], states + [Supervision(Reaped(k, pid, c, runtime), Restarting(c))]);
    PiledNext(actions, exit, c);
    hide IsRun, Piled, Reaped;
    CounterCounts(selected, more, past, |past|, c);
    assert past[..|past|] == past;
  }

  lemma OnlyChild(selected: seq<Profile>, states: seq<Supervision>, actions: seq<Action>)
    requires IsRun(selected, states, actions)
    ensures OnePerProfile(states[|actions|].k)
  {
    RunKeeps(selected, states, actions, |actions|, 0);
  }

  /** After an exit the counter is what has piled up, and if the environment lets launches
      succeed the profile has a child again exactly when that is not six: always after
      at least a minute. */
  lemma CounterDecides(selected: seq<Profile>, states: seq<Supervision>, actions: seq<Action>,
      pid: Pid, now: int, fuzz: bool, answers: Answers)
    requires IsRun(selected, states, actions) && states[|actions|].phase == Watching
    requires var k := states[|actions|].k; pid in k.configs && pid in k.startedAt
    requires answers.pid !in states[|actions|].k.configs || answers.pid == pid
    ensures var (k, c) := (states[|actions|].k, states[|actions|].k.configs[pid]);
            var (t, runtime) := (AfterExit(k, pid, now, fuzz, answers), now - k.startedAt[pid]);
            var past := actions + [Exit(pid, c, runtime)];
            && Count(t.rapid, c) == Piled(past, c) <= 6 && (runtime >= 60 ==> Piled(past, c) == 1)
            && (Tracked(t, c) <==> Piled(past, c) != 6 && answers.valid && answers.staged && answers.previousStopped)
  {
    var (k, c) := (states[|actions|].k, states[|actions|].k.configs[pid]);
    OnlyChild(selected, states, actions);
    PiledBehindExit(selected, states, actions, pid, now - k.startedAt[pid]);
    hide IsRun, Piled, OnePerProfile;
    var reaped := Reaped(k, pid, c, now - k.startedAt[pid]);
    TrackedAfterExit(k, pid, c, now - k.startedAt[pid], c);
    TrackedAfterLaunch(reaped, c, answers.pid, answers.now, if fuzz && answers.handlesTerm then Term else Kill, c);
    hide Without;
    assert Tracked(WithoutLock(reaped, c), c) == Tracked(reaped, c);
  }

  lemma ExitStep(selected: seq<Profile>, states: seq<Supervision>, actions: seq<Action>, pid: Pid)
    requires IsRun(selected, states, actions)
    requires states[|actions|].phase == Watching && pid in states[|actions|].k.configs
    ensures pid in states[|actions|].k.startedAt
    ensures var (k, c) := (states[|actions|].k, states[|actions|].k.configs[pid]);
            forall runtime :: Step(states[|actions|], Exit(pid, c, runtime),
                                   Supervision(Reaped(k, pid, c, runtime), Restarting(c)))
  {
    TrackedFacts(selected, states, actions, pid);
  }

  lemma WholeRunBudget(selected: seq<Profile>, states: seq<Supervision>, actions: seq<Action>)
    requires IsRun(selected, states, actions)
    ensures forall c :: Count(states[|actions|].k.launches, c) <= 6 + 5 * LongExits(actions, c)
    ensures forall c :: Count(states[|actions|].k.rapid, c) == Piled(actions, c) <= 6
    ensures forall c :: LongExits(actions, c) == 0 ==> Exits(actions, c) <= 6
    ensures (forall c :: LongExits(actions, c) == 0) ==> TotalExits(actions) <= 6 * |selected|
  {
    assert actions[..|actions|] == actions;
    if forall c :: LongExits(actions, c) == 0 { ShortRunsAreFew(selected, states, actions, |actions|); }
    forall c ensures Count(states[|actions|].k.launches, c) <= 6 + 5 * LongExits(actions, c)
             ensures Count(states[|actions|].k.rapid, c) == Piled(actions, c) <= 6
             ensures LongExits(actions, c) == 0 ==> Exits(actions, c) <= 6 {
      CounterCounts(selected, states, actions, |actions|, c);
      RunKeeps(selected, states, actions, |actions|, c);
      RestartBudget(selected, states, actions, |actions|, c);
    }
  }

  lemma PrefixKept(selected: seq<Profile>, states: seq<Supervision>, actions: seq<Action>, pid: Pid)
    requires IsRun(selected, states, actions)
    ensures var k := states[|actions|].k;
            pid in k.pids ==>
              && pid in k.configs && pid in k.stopSignals && pid in k.prefixes
              && k.prefixes[pid] == LogPrefix(k.configs[pid], Count(k.launches, k.configs[pid]))
  {
    TrackedFacts(selected, states, actions, pid);
  }

  /** The child pid has been reaped in the run's actions from this point on. */
  ghost predicate ReapedSince(actions: seq<Action>, from: nat, pid: Pid) {
    exists i :: from <= i < |actions| && actions[i].Exit? && actions[i].pid == pid
  }

  lemma JustReaped(before: seq<Action>, exit: Action)
    requires exit.Exit?
    ensures before <= before + [exit] && ReapedSince(before + [exit], |before|, exit.pid)
  {
    assert (before + [exit])[|before|] == exit;
  }

  lemma StillReaped(sofar: seq<Action>, actions: seq<Action>, from: nat, pid: Pid)
    requires sofar <= actions
    ensures ReapedSince(sofar, from, pid) ==> ReapedSince(actions, from, pid)
  {
    if ReapedSince(sofar, from, pid) {
      var i :| from <= i < |sofar| && sofar[i].Exit? && sofar[i].pid == pid;
      assert actions[i] == sofar[i];
    }
  }

  lemma {:induction false} ExitsGrow(past: seq<Action>, actions: seq<Action>)
    requires past <= actions
    ensures TotalExits(past) <= TotalExits(actions)
  {
    if |past| < |actions| {
      ExitsGrow(past, actions[..|actions| - 1]);
    } else {
      assert past == actions;
    }
  }

  lemma ReapingCounts(past: seq<Action>, actions: seq<Action>, pid: Pid)
    requires past <= actions && ReapedSince(actions, |past|, pid)
    ensures TotalExits(past) < TotalExits(actions)
  {
    var i :| |past| <= i < |actions| && actions[i].Exit? && actions[i].pid == pid;
    ExitsGrow(past, actions[..i]);
    assert actions[..i + 1][..i] == actions[..i];
    ExitsGrow(actions[..i + 1], actions);
  }

  lemma EarlierToo(actions: seq<Action>, from: nat, later: nat, pid: Pid)
    requires from <= later && ReapedSince(actions, later, pid)
    ensures ReapedSince(actions, from, pid)
  {
  }

  /** A reaped child takes no other one with it. */
  lemma OthersStay(k: Campaign, pid: Pid, now: int, fuzz: bool, answers: Answers)
    requires pid in k.configs && pid in k.startedAt
    requires answers.pid !in k.configs || answers.pid == pid
    ensures var t := AfterExit(k, pid, now, fuzz, answers);
            forall p :: p in k.configs && p != pid ==> p in t.configs && t.configs[p] == k.configs[p]
  {
  }

  lemma StillTracked(k: Campaign, c: Profile, pid: Pid, now: int, signal: Signal, x: Profile)
    requires pid !in k.configs
    ensures Tracked(Launched(WithLock(k, c), c, pid, now, signal), x) <==> x == c || Tracked(k, x)
  {
    TrackedAfterLaunch(WithLock(k, c), c, pid, now, signal, x);
    assert Tracked(WithLock(k, c), x) <==> Tracked(k, x);
  }

  lemma LaunchStep(k: Campaign, stage: Phase, c: Profile, pid: Pid, now: int, signal: Signal)
    requires c in k.locks && pid !in k.configs
    requires (stage.Starting? && stage.todo != [] && stage.todo[0] == c)
             || (stage == Restarting(c) && Count(k.rapid, c) <= RAPID_ATTEMPTS)
    ensures Step(Supervision(k, stage), Launch(c, pid, now, signal),
                 Supervision(Launched(k, c, pid, now, signal),
                             if stage.Starting? then Starting(stage.todo[1..]) else Watching))
  {
  }

  class Supervisor {
    const fuzz: bool
    const logOutput: bool

    var fuzzerPids: seq<Pid>
    var fuzzerConfigs: map<Pid, Profile>
    var serverPidFiles: map<Pid, Profile>
    var fuzzerStartedAt: map<Pid, int>
    var fuzzerStopSignals: map<Pid, Signal>
    var fuzzerSanitizerPrefixes: map<Pid, LogPrefix>
    var launchCounts: map<Profile, nat>
    var rapidRestartCounts: map<Profile, nat>
    var configLockFds: map<Profile, nat>

    ghost const selected: seq<Profile>
    ghost var states: seq<Supervision>
    ghost var actions: seq<Action>

    function Now(): Campaign
      reads this
    {
      Campaign(fuzzerPids, fuzzerConfigs, serverPidFiles, fuzzerStartedAt, fuzzerStopSignals,
               fuzzerSanitizerPrefixes, launchCounts, rapidRestartCounts, configLockFds.Keys)
    }

    /** The fields are where the recorded run has led. */
    ghost predicate Valid()
      reads this
    {
      IsRun(selected, states, actions) && states[|actions|].k == Now()
    }

    ghost function Stage(): Phase
      reads this
    {
      if |actions| < |states| then states[|actions|].phase else Over
    }

    constructor (selectedConfigs: seq<Profile>, fuzz: bool, logOutput: bool)
      requires Distinct(selectedConfigs)
      ensures Valid() && Stage() == Starting(selectedConfigs) && Now() == EMPTY
      ensures selected == selectedConfigs && actions == []
    {
      this.fuzz, this.logOutput := fuzz, logOutput;
      fuzzerPids, fuzzerConfigs, serverPidFiles, fuzzerStartedAt := [], map[], map[], map[];
      fuzzerStopSignals, fuzzerSanitizerPrefixes := map[], map[];
      launchCounts, rapidRestartCounts, configLockFds := map[], map[], map[];
      selected, states, actions := selectedConfigs, [Supervision(EMPTY, Starting(selectedConfigs))], [];
    }

    ghost method Record(a: Action, phase: Phase)
      requires IsRun(selected, states, actions)
      requires Step(states[|actions|], a, Supervision(Now(), phase))
      modifies this`states, this`actions
      ensures Valid() && Stage() == phase && actions == old(actions) + [a]
    {
      states, actions := states + [Supervision(Now(), phase)], actions + [a];
    }

    /** `acquire_config_lock`. */
    method AcquireConfigLock(config: Profile, lockFree: bool) returns (ok: bool)
      requires Valid()
      requires config in configLockFds || (Stage().Starting? && Stage().todo != [] && Stage().todo[0] == config)
      modifies this`configLockFds, this`states, this`actions
      ensures Valid() && ok == (old(config in configLockFds) || lockFree) && old(actions) <= actions
      ensures Now() == if ok then WithLock(old(Now()), config) else old(Now())
      ensures Stage() == if ok then old(Stage()) else Over
    {
      if config in configLockFds {
        assert configLockFds.Keys + {config} == configLockFds.Keys;
        return true;
      }
      var descriptor: nat := *;
      if !lockFree {
        Record(TryLock(config, false), Over);
        return false;
      }
      configLockFds := configLockFds[config := descriptor];
      Record(TryLock(config, true), Stage());
      ok := true;
    }

    /** `release_config_lock`. */
    method ReleaseConfigLock(config: Profile)
      requires Valid() && Stage() == Restarting(config)
      modifies this`configLockFds, this`states, this`actions
      ensures Valid() && Stage() == Watching && Now() == WithoutLock(old(Now()), config) && old(actions) <= actions
    {
      if config in configLockFds {
        configLockFds := configLockFds - {config};
      } else {
        assert configLockFds.Keys - {config} == configLockFds.Keys;
      }
      Record(Unlock(config), Watching);
    }

    /** The bookkeeping of `run_fuzzer` around the fork. */
    method Enroll(config: Profile, pid: Pid, now: int, signal: Signal)
      modifies `launchCounts, `fuzzerPids, `fuzzerConfigs, `serverPidFiles, `fuzzerStartedAt,
               `fuzzerSanitizerPrefixes, `fuzzerStopSignals
      ensures Now() == Launched(old(Now()), config, pid, now, signal)
    {
      var launchNumber := Count(launchCounts, config) + 1;
      launchCounts := launchCounts[config := launchNumber];
      fuzzerPids := fuzzerPids + [pid];
      fuzzerConfigs := fuzzerConfigs[pid := config];
      serverPidFiles := serverPidFiles[pid := config];
      fuzzerStartedAt := fuzzerStartedAt[pid := now];
      fuzzerSanitizerPrefixes := fuzzerSanitizerPrefixes[pid := LogPrefix(config, launchNumber)];
      fuzzerStopSignals := fuzzerStopSignals[pid := signal];
    }

    /** `run_fuzzer`: whether the child was started, and if not, whether the lock was
        taken all the same. */
    method RunFuzzer(config: Profile, initial: bool, answers: Answers) returns (ok: bool)
      requires Valid() && answers.pid !in fuzzerConfigs
      requires if initial then Stage().Starting? && Stage().todo != [] && Stage().todo[0] == config
               else Stage() == Restarting(config) && Count(rapidRestartCounts, config) <= RAPID_ATTEMPTS
      modifies this
      ensures Valid() && old(actions) <= actions
      ensures var granted := answers.valid && answers.staged && (old(config in configLockFds) || answers.lockFree);
              var signal := if fuzz && answers.handlesTerm then Term else Kill;
              && ok == (granted && answers.previousStopped && (initial ==> answers.archived))
              && Now() == if ok then Launched(WithLock(old(Now()), config), config, answers.pid, answers.now, signal)
                          else if granted then WithLock(old(Now()), config)
                          else old(Now())
      ensures ok ==> Stage() == if initial then Starting(old(Stage()).todo[1..]) else Watching
      ensures !ok ==> Stage() == old(Stage()) || Stage() == Over
      ensures !ok && !initial ==> Stage() == old(Stage())
    {
      if !answers.valid || !answers.staged { return false; }
      if !initial { HeldWhileRestarting(selected, states, actions, config); }
      hide IsRun, Step, Launched;
      var locked := AcquireConfigLock(config, answers.lockFree);
      if !locked { return false; }
      if !answers.previousStopped { return false; }
      if initial && !answers.archived { return false; }
      ghost var before, stage := Now(), Stage();
      var signal := if fuzz && answers.handlesTerm then Term else Kill;
      Enroll(config, answers.pid, answers.now, signal);
      LaunchStep(before, stage, config, answers.pid, answers.now, signal);
      Record(Launch(config, answers.pid, answers.now, signal), if initial then Starting(stage.todo[1..]) else Watching);
      ok := true;
    }

    /** The dead child is forgotten and its profile's exit counted. */
    method Strike(pid: Pid, now: int) returns (config: Profile, restartCount: nat)
      requires pid in fuzzerConfigs && pid in fuzzerStartedAt
      modifies `fuzzerPids, `fuzzerConfigs, `serverPidFiles, `fuzzerStartedAt, `fuzzerStopSignals,
               `fuzzerSanitizerPrefixes, `rapidRestartCounts
      ensures config == old(fuzzerConfigs[pid]) && restartCount == Count(rapidRestartCounts, config)
      ensures restartCount
              == 1 + if now - old(fuzzerStartedAt[pid]) >= 60 then 0 else Count(old(rapidRestartCounts), config)
      ensures Now() == Reaped(old(Now()), pid, config, now - old(fuzzerStartedAt[pid]))
      ensures fuzzerConfigs == old(fuzzerConfigs) - {pid}
    {
      config := fuzzerConfigs[pid];
      var startedAt := fuzzerStartedAt[pid];
      fuzzerPids := Without(fuzzerPids, pid);
      fuzzerConfigs := fuzzerConfigs - {pid};
      serverPidFiles := serverPidFiles - {pid};
      fuzzerStartedAt := fuzzerStartedAt - {pid};
      fuzzerStopSignals := fuzzerStopSignals - {pid};
      fuzzerSanitizerPrefixes := fuzzerSanitizerPrefixes - {pid};

      var runtime := now - startedAt;
      restartCount := Count(rapidRestartCounts, config);
      if runtime >= RAPID_RUNTIME {
        restartCount := 0;
      }
      restartCount := restartCount + 1;
      rapidRestartCounts := rapidRestartCounts[config := restartCount];
    }

    /** Restart, or give up and unlock. */
    method Resettle(config: Profile, restartCount: nat, answers: Answers)
      requires Valid() && Stage() == Restarting(config) && restartCount == Count(rapidRestartCounts, config)
      requires answers.pid !in fuzzerConfigs
      modifies this
      ensures Valid() && Stage() == Watching && old(actions) <= actions
      ensures Now() == Resettled(old(Now()), config, fuzz, answers)
    {
      HeldWhileRestarting(selected, states, actions, config);
      hide IsRun, Step, Launched;
      assert WithLock(Now(), config) == Now();
      if restartCount <= RAPID_ATTEMPTS {
        var restarted := RunFuzzer(config, false, answers);
        if !restarted { ReleaseConfigLock(config); }
      } else {
        ReleaseConfigLock(config);
      }
    }

    /** The loop body for a child found dead: reap, count, and restart or give up. */
    method Reap(pid: Pid, now: int, answers: Answers)
      requires Valid() && Stage() == Watching && pid in fuzzerConfigs
      requires answers.pid !in fuzzerConfigs || answers.pid == pid
      modifies this
      ensures Valid() && Stage() == Watching
      ensures old(actions) <= actions && ReapedSince(actions, |old(actions)|, pid)
      ensures old(pid in fuzzerStartedAt) && Now() == AfterExit(old(Now()), pid, now, fuzz, answers)
      ensures var (config, runtime) := (old(fuzzerConfigs[pid]), now - old(fuzzerStartedAt[pid]));
              var past := old(actions) + [Exit(pid, config, runtime)];
              && past <= actions && (runtime >= 60 ==> Piled(past, config) == 1)
              && Count(rapidRestartCounts, config) == Piled(past, config) <= 6
              && (Tracked(Now(), config) <==>
                    Piled(past, config) != 6 && answers.valid && answers.staged && answers.previousStopped)
    {
      hide IsRun, Step, Resettled, Reaped, ReapedSince, Tracked, Piled;
      ExitStep(selected, states, actions, pid);
      CounterDecides(selected, states, actions, pid, now, fuzz, answers);
      ghost var runtime := now - fuzzerStartedAt[pid];
      var config, restartCount := Strike(pid, now);
      Record(Exit(pid, config, runtime), Restarting(config));
      ghost var sofar := actions;
      JustReaped(old(actions), Exit(pid, config, runtime));
      Resettle(config, restartCount, answers);
      StillReaped(sofar, actions, |old(actions)|, pid);
    }

    /** Any answers, but for a pid no tracked child has. */
    method Ask() returns (answers: Answers)
      ensures answers.pid !in fuzzerConfigs
    {
      answers := *;
      if answers.pid in fuzzerConfigs {
        ghost var free := FreePid(fuzzerConfigs.Keys);
        assert free !in fuzzerConfigs.Keys;
        var pid: Pid :| pid !in fuzzerConfigs;
        answers := answers.(pid := pid);
      }
    }

    /** One pass of the supervision loop over the children there are at its start:
        the dead ones are reaped, the others stay as they are. */
    method WatchOnce(dead: set<Pid>)
      requires Valid() && Stage() == Watching
      modifies this
      ensures Valid() && Stage() == Watching && old(actions) <= actions
      ensures forall pid :: old(pid in fuzzerPids) && pid in dead ==> ReapedSince(actions, |old(actions)|, pid)
      ensures forall pid :: old(pid in fuzzerConfigs) && pid !in dead ==>
                pid in fuzzerConfigs && fuzzerConfigs[pid] == old(fuzzerConfigs[pid])
    {
      var snapshot := fuzzerPids;
      ghost var k, from, past := Now(), |actions|, actions;
      forall pid ensures pid in fuzzerPids ==> pid in fuzzerConfigs { TrackedFacts(selected, states, actions, pid); }
      TrackedFacts(selected, states, actions, 0);
      hide IsRun, ReapedSince;
      for i := 0 to |snapshot|
        invariant Valid() && Stage() == Watching && past <= actions
        invariant forall j :: i <= j < |snapshot| ==> snapshot[j] in fuzzerConfigs
        invariant forall pid :: pid in snapshot[..i] && pid in dead ==> ReapedSince(actions, from, pid)
        invariant forall pid :: pid in k.configs && pid !in dead ==>
                    pid in fuzzerConfigs && fuzzerConfigs[pid] == k.configs[pid]
      {
        assert snapshot[..i + 1] == snapshot[..i] + [snapshot[i]];
        if snapshot[i] in dead {
          var now: int := *;
          var answers := Ask();
          ghost var before, sofar := Now(), actions;
          TrackedFacts(selected, states, actions, snapshot[i]);
          OthersStay(before, snapshot[i], now, fuzz, answers);
          Reap(snapshot[i], now, answers);
          forall pid { StillReaped(sofar, actions, from, pid); }
          EarlierToo(actions, from, |sofar|, snapshot[i]);
        }
      }
      assert snapshot[..|snapshot|] == snapshot;
    }

    /** The starting loop; a profile that cannot be started ends the campaign, and
        otherwise every selected profile has its child. */
    method StartAll(selectedConfigs: seq<Profile>) returns (ok: bool)
      requires Valid() && Stage() == Starting(selectedConfigs)
      modifies this
      ensures Valid() && Stage() == if ok then Watching else Over
      ensures ok ==> forall j :: 0 <= j < |selectedConfigs| ==> Tracked(Now(), selectedConfigs[j])
    {
      hide IsRun, Tracked, Launched;
      for i := 0 to |selectedConfigs|
        invariant Valid() && Stage() == Starting(selectedConfigs[i..])
        invariant forall j :: 0 <= j < i ==> Tracked(Now(), selectedConfigs[j])
      {
        var answers := Ask();
        ghost var signal := if fuzz && answers.handlesTerm then Term else Kill;
        forall x { StillTracked(Now(), selectedConfigs[i], answers.pid, answers.now, signal, x); }
        var started := RunFuzzer(selectedConfigs[i], true, answers);
        if !started {
          if Stage() != Over { Record(Quit, Over); }
          return false;
        }
      }
      Record(EndStart, Watching);
      ok := true;
    }

    /** The supervision loop, at most so many passes: how many were made, how many of them
        found a dead child, and how many children each left. It goes on while there are any. */
    method Watch(passes: nat) returns (done: nat, ghost busy: nat, ghost left: seq<nat>)
      requires Valid() && Stage() == Watching
      modifies this
      ensures Valid() && Stage() == Watching
      ensures done <= passes && (done < passes ==> fuzzerPids == [])
      ensures |left| == done && (done > 0 ==> left[done - 1] == |fuzzerPids|)
      ensures forall i :: 0 <= i < done - 1 ==> left[i] > 0
      ensures busy <= done && old(TotalExits(actions)) + busy <= TotalExits(actions)
    {
      done, busy, left := 0, 0, [];
      while done < passes
        invariant Valid() && Stage() == Watching && busy <= done <= passes
        invariant |left| == done && (done > 0 ==> left[done - 1] == |fuzzerPids|)
        invariant forall i :: 0 <= i < done ==> left[i] > 0
        invariant old(TotalExits(actions)) + busy <= TotalExits(actions)
      {
        var dead: set<Pid> := *;
        ghost var past := actions;
        if found :| found in fuzzerPids && found in dead {
          WatchOnce(dead);
          ReapingCounts(past, actions, found);
          busy := busy + 1;
        } else {
          WatchOnce(dead);
          ExitsGrow(past, actions);
        }
        done, left := done + 1, left + [|fuzzerPids|];
        if fuzzerPids == [] { break; }
      }
    }

    /** The whole script: start every selected profile, then watch until none is left
        or something else ends the campaign. */
    method Supervise(selectedConfigs: seq<Profile>, passes: nat) returns (started: bool, done: nat, ghost busy: nat)
      requires Valid() && Stage() == Starting(selectedConfigs) && selectedConfigs == selected
      modifies this
      ensures Valid() && Stage() == Over
      ensures forall c :: Count(launchCounts, c) <= 6 + 5 * LongExits(actions, c)
      ensures forall c :: Count(rapidRestartCounts, c) == Piled(actions, c) <= 6
      ensures forall c :: LongExits(actions, c) == 0 ==> Exits(actions, c) <= 6
      ensures started && done < passes ==> fuzzerPids == []
      ensures (forall c :: LongExits(actions, c) == 0) ==> TotalExits(actions) <= 6 * |selected|
      ensures started && busy == done && (forall c :: LongExits(actions, c) == 0) ==>
                done <= 6 * |selected| && (passes > 6 * |selected| ==> fuzzerPids == [])
    {
      hide IsRun, TotalExits, Piled;
      done, busy := 0, 0;
      started := StartAll(selectedConfigs);
      if started {
        ghost var left;
        done, busy, left := Watch(passes);
        ghost var past := actions;
        Record(Quit, Over);
        ExitsGrow(past, actions);
      }
      WholeRunBudget(selected, states, actions);
    }

    /** `cleanup`: every child gets its stop signal and, when the output is logged, a
        launch marker; a child is confirmed stopped when the signal went out, its
        status is that signal's and it left a log; run.pid goes while it is ours. */
    method Cleanup(ending: Pid -> Ending) returns (markers: seq<LogPrefix>, confirmed: set<Pid>, removed: set<Profile>)
      requires Valid()
      ensures |markers| == if fuzz && logOutput then |fuzzerPids| else 0
      ensures forall i :: 0 <= i < |markers| ==>
                && fuzzerPids[i] in fuzzerConfigs && var c := fuzzerConfigs[fuzzerPids[i]];
                && markers[i] == LogPrefix(c, Count(launchCounts, c))
      ensures forall pid :: pid in confirmed <==>
                && pid in fuzzerPids && fuzz && ending(pid).delivered && ending(pid).logged
                && pid in fuzzerStopSignals && ending(pid).status == if fuzzerStopSignals[pid] == Term then 72 else 137
      ensures forall c :: c in removed <==>
                exists pid :: pid in serverPidFiles && serverPidFiles[pid] == c && ending(pid).named
    {
      forall pid | pid in fuzzerPids
        ensures pid in fuzzerStopSignals && pid in fuzzerConfigs
        ensures pid in fuzzerSanitizerPrefixes && fuzzerSanitizerPrefixes[pid] == MarkerOf(pid) {
        PrefixKept(selected, states, actions, pid);
      }
      hide IsRun, TrackedWhole;
      var expected: map<Pid, int> := map[];
      markers := [];
      for i := 0 to |fuzzerPids|
        invariant |markers| == if fuzz && logOutput then i else 0
        invariant forall j :: 0 <= j < |markers| ==> markers[j] == MarkerOf(fuzzerPids[j])
        invariant forall pid :: pid in expected <==> fuzz && pid in fuzzerPids[..i] && ending(pid).delivered
        invariant forall pid :: pid in expected ==> expected[pid] == StopStatus(StopSignal(pid))
      {
        var pid := fuzzerPids[i];
        assert fuzzerPids[..i + 1] == fuzzerPids[..i] + [pid];
        if fuzz {
          if logOutput && pid in fuzzerConfigs && pid in fuzzerSanitizerPrefixes {
            markers := markers + [fuzzerSanitizerPrefixes[pid]];
          }
          if ending(pid).delivered {
            expected := expected[pid := StopStatus(StopSignal(pid))];
          }
        }
      }
      assert fuzzerPids[..|fuzzerPids|] == fuzzerPids;
      confirmed := ConfirmStops(expected, ending);
      removed := set pid | pid in serverPidFiles && ending(pid).named :: serverPidFiles[pid];
    }

    /** The children whose wait status is the expected one and that left a log. */
    method ConfirmStops(expected: map<Pid, int>, ending: Pid -> Ending) returns (confirmed: set<Pid>)
      ensures forall pid :: pid in confirmed <==>
                pid in fuzzerPids && pid in expected && ending(pid).status == expected[pid] && ending(pid).logged
    {
      confirmed := {};
      for i := 0 to |fuzzerPids|
        invariant forall pid :: pid in confirmed <==>
          pid in fuzzerPids[..i] && pid in expected && ending(pid).status == expected[pid] && ending(pid).logged
      {
        var pid := fuzzerPids[i];
        assert fuzzerPids[..i + 1] == fuzzerPids[..i] + [pid];
        if pid in expected && ending(pid).status == expected[pid] && ending(pid).logged {
          confirmed := confirmed + {pid};
        }
      }
      assert fuzzerPids[..|fuzzerPids|] == fuzzerPids;
    }

    /** The launch marker of a child. */
    ghost function MarkerOf(pid: Pid): LogPrefix
      reads this
    {
      var c := if pid in fuzzerConfigs then fuzzerConfigs[pid] else 0;
      LogPrefix(c, Count(launchCounts, c))
    }

    /** `${fuzzer_stop_signals[$pid]:-KILL}`. */
    function StopSignal(pid: Pid): Signal
      reads this
    {
      if pid in fuzzerStopSignals then fuzzerStopSignals[pid] else Kill
    }
  }
}
