/** The report over all sanitizer and error logs: which logs are counted as
    deliberate shutdowns and which findings are reported. */
module SanitizerReport {
  import opened Suppression
  import opened Wrappers

  ghost predicate GoodInput(logs: seq<SanitizerLog>, files: seq<ErrorLog>) {
    && (forall i :: 0 <= i < |logs| ==> WellNamed(logs[i]))
    && (forall f :: 0 <= f < |files| ==> WellFormed(files[f]))
  }

  // ---------------------------------------------------------------------
  // What the report should be
  // ---------------------------------------------------------------------

  /** The launches and pids whose exit is to be suppressed in the profile's log. */
  function Suppressible(logs: seq<SanitizerLog>, config: Option<string>): set<string> {
    if config.None? then {}
    else set log | log in logs && IsCandidate(log) && log.config == config.value :: log.launch.value + ":" + log.pid
  }

  /** The profile's error log has this libFuzzer exit behind this launch. */
  ghost predicate ExitSeen(files: seq<ErrorLog>, config: string, launch: string, pid: string) {
    exists f, k :: ExitAt(files, f, k, config, launch, pid)
  }

  ghost predicate ExitAt(files: seq<ErrorLog>, f: int, k: int, config: string, launch: string, pid: string) {
    && 0 <= f < |files| && 0 <= k < |files[f].lines| && files[f].config == Some(config)
    && files[f].lines[k] == Exit(pid) && LastLaunch(files[f].lines, k) == launch
  }

  /** The shutdown of a log is deliberate: a candidate, confirmed by its exit line. */
  ghost predicate Deliberate(files: seq<ErrorLog>, log: SanitizerLog) {
    IsCandidate(log) && ExitSeen(files, log.config, log.launch.value, log.pid)
  }

  /** The logs that are reported on, in order. */
  ghost function Reported(files: seq<ErrorLog>, logs: seq<SanitizerLog>): seq<SanitizerLog> {
    if logs == [] then []
    else
      var last := logs[|logs| - 1];
      Reported(files, logs[..|logs| - 1]) + if Deliberate(files, last) then [] else [last]
  }

  /** Line k of file f is a finding that is not withheld. */
  ghost predicate Shown(logs: seq<SanitizerLog>, files: seq<ErrorLog>, f: int, k: int, text: string) {
    && 0 <= f < |files| && 0 <= k < |files[f].lines|
    && IsFinding(files[f].lines[k]) && Text(files[f].lines[k]) == text
    && !Withheld(Suppressible(logs, files[f].config), files[f].lines, k)
  }

  // ---------------------------------------------------------------------
  // The script
  // ---------------------------------------------------------------------

  /** The candidate loop: an identity per log, and the set of them. */
  method CollectCandidates(logs: seq<SanitizerLog>) returns (identities: seq<string>, candidates: set<string>)
    ensures |identities| == |logs|
    ensures forall i :: 0 <= i < |logs| ==>
              identities[i] == if IsCandidate(logs[i]) then IdentityOf(logs[i]) else ""
    ensures candidates == Candidates(logs)
  {
    identities, candidates := [], {};
    for i := 0 to |logs|
      invariant |identities| == i
      invariant forall j :: 0 <= j < i ==> identities[j] == if IsCandidate(logs[j]) then IdentityOf(logs[j]) else ""
      invariant candidates == Candidates(logs[..i])
    {
      var log := logs[i];
      assert logs[..i + 1] == logs[..i] + [log];
      var identity := "";
      if IsCandidate(log) {
        identity := Identity(log.config, log.launch.value, log.pid);
        candidates := candidates + {identity};
      }
      identities := identities + [identity];
    }
    assert logs[..|logs|] == logs;
  }

  function IdentityOf(log: SanitizerLog): string
    requires IsCandidate(log)
  {
    Identity(log.config, log.launch.value, log.pid)
  }

  function Candidates(logs: seq<SanitizerLog>): set<string> {
    set log | log in logs && IsCandidate(log) :: IdentityOf(log)
  }

  /** The candidate keys of a profile, without its number. */
  function ShutdownPids(candidates: set<string>, config: Option<string>): set<string> {
    if config.None? then {}
    else set key | key in candidates && config.value + ":" <= key :: key[|config.value| + 1..]
  }

  lemma KeyOfProfile(log: SanitizerLog, config: string)
    requires WellNamed(log) && IsCandidate(log) && IsDigits(config)
    ensures config + ":" <= IdentityOf(log) <==> log.config == config
    ensures log.config == config ==> IdentityOf(log)[|config| + 1..] == log.launch.value + ":" + log.pid
  {
    var key := IdentityOf(log);
    var rest := log.launch.value + ":" + log.pid;
    assert key == log.config + ":" + rest;
    if config + ":" <= key {
      assert key == config + ":" + key[|config| + 1..];
      SplitAtColon(config, key[|config| + 1..], log.config, rest);
    }
  }

  lemma PidsAreSuppressible(logs: seq<SanitizerLog>, config: Option<string>)
    requires (forall i :: 0 <= i < |logs| ==> WellNamed(logs[i])) && (config.Some? ==> IsDigits(config.value))
    ensures ShutdownPids(Candidates(logs), config) == Suppressible(logs, config)
  {
    if config.Some? {
      var c := config.value;
      hide WellNamed, IsDigits, IdentityOf, IsCandidate;
      forall x | x in ShutdownPids(Candidates(logs), config) ensures x in Suppressible(logs, config) {
        var key :| key in Candidates(logs) && c + ":" <= key && x == key[|c| + 1..];
        var log :| log in logs && IsCandidate(log) && IdentityOf(log) == key;
        KeyOfProfile(log, c);
      }
      forall x | x in Suppressible(logs, config) ensures x in ShutdownPids(Candidates(logs), config) {
        var log :| log in logs && IsCandidate(log) && log.config == c && x == log.launch.value + ":" + log.pid;
        KeyOfProfile(log, c);
        assert IdentityOf(log) in Candidates(logs);
      }
    }
  }

  function ConfigId(file: ErrorLog): string { if file.config.Some? then file.config.value else "" }

  /** Everything the error logs print, one behind the other. */
  ghost function ScanAll(logs: seq<SanitizerLog>, files: seq<ErrorLog>): seq<string> {
    if files == [] then []
    else
      var last := files[|files| - 1];
      ScanAll(logs, files[..|files| - 1])
      + Scan(ConfigId(last), Suppressible(logs, last.config), last.lines, |last.lines|)
  }

  ghost predicate EmittedAt(logs: seq<SanitizerLog>, files: seq<ErrorLog>, f: int, k: int, s: string) {
    && 0 <= f < |files| && 0 <= k < |files[f].lines|
    && Emitted(ConfigId(files[f]), Suppressible(logs, files[f].config), files[f].lines, k) == Some(s)
  }

  lemma {:induction false} InScanAll(logs: seq<SanitizerLog>, files: seq<ErrorLog>, s: string)
    ensures s in ScanAll(logs, files) <==> exists f, k :: EmittedAt(logs, files, f, k, s)
  {
    hide Emitted, Scan, Suppressible;
    if files != [] {
      var n := |files| - 1;
      var (earlier, last) := (files[..n], files[n]);
      var (config, shutdown) := (ConfigId(last), Suppressible(logs, last.config));
      InScanAll(logs, earlier, s);
      InScan(config, shutdown, last.lines, |last.lines|, s);
      if s in ScanAll(logs, earlier) {
        var f, k :| EmittedAt(logs, earlier, f, k, s);
        assert EmittedAt(logs, files, f, k, s);
      }
      if s in Scan(config, shutdown, last.lines, |last.lines|) {
        var k :| 0 <= k < |last.lines| && Emitted(config, shutdown, last.lines, k) == Some(s);
        assert EmittedAt(logs, files, n, k, s);
      }
      if f, k :| EmittedAt(logs, files, f, k, s) {
        if f < n { assert EmittedAt(logs, earlier, f, k, s); }
      }
    }
  }

  /** A line with a candidate's identity is printed just when its exit is there. */
  lemma ConfirmedIffExitSeen(logs: seq<SanitizerLog>, files: seq<ErrorLog>, log: SanitizerLog)
    requires GoodInput(logs, files) && log in logs && IsCandidate(log)
    ensures (exists s :: s in ScanAll(logs, files) && ReadIdentity(s) == Some(IdentityOf(log)))
            <==> ExitSeen(files, log.config, log.launch.value, log.pid)
  {
    var id := IdentityOf(log);
    assert WellNamed(log);
    if ExitSeen(files, log.config, log.launch.value, log.pid) {
      var f, k :| ExitAt(files, f, k, log.config, log.launch.value, log.pid);
      var s := Tag() + " " + id;
      TagIsRead(log.config, log.launch.value, log.pid);
      MarkEmitted(logs, files, f, k, log);
      InScanAll(logs, files, s);
      assert ReadIdentity(s) == Some(IdentityOf(log));
    }
    if s :| s in ScanAll(logs, files) && ReadIdentity(s) == Some(id) {
      InScanAll(logs, files, s);
      var f, k :| EmittedAt(logs, files, f, k, s);
      MarkIsExit(logs, files, f, k, s, log);
    }
  }

  lemma MarkEmitted(logs: seq<SanitizerLog>, files: seq<ErrorLog>, f: int, k: int, log: SanitizerLog)
    requires log in logs && IsCandidate(log) && ExitAt(files, f, k, log.config, log.launch.value, log.pid)
    ensures EmittedAt(logs, files, f, k, Tag() + " " + IdentityOf(log))
  {
    hide Tag, LastLaunch, Withheld;
    assert log.launch.value + ":" + log.pid in Suppressible(logs, files[f].config);
  }

  lemma MarkIsExit(logs: seq<SanitizerLog>, files: seq<ErrorLog>, f: int, k: int, s: string, log: SanitizerLog)
    requires GoodInput(logs, files) && log in logs && IsCandidate(log) && WellNamed(log)
    requires EmittedAt(logs, files, f, k, s) && ReadIdentity(s) == Some(IdentityOf(log))
    ensures ExitAt(files, f, k, log.config, log.launch.value, log.pid)
  {
    hide Tag, ReadIdentity, LastLaunch, Withheld, Text, Identity, IdentityOf, IsCandidate, WellNamed;
    var file := files[f];
    assert WellFormed(file) && WellClassified(file.lines[k]);
    var launch := LastLaunch(file.lines, k);
    LastLaunchIsId(file, k);
    if ShutdownExit(Suppressible(logs, file.config), file.lines, k) {
      ExitIsMarked(file.config.value, launch, file.lines[k].pid, s, log);
    } else {
      OthersConfirmNothing(file.lines[k], log);
    }
  }

  lemma ExitIsMarked(c: string, l: string, p: string, s: string, log: SanitizerLog)
    requires IsDigits(c) && IsDigits(p) && (l == "" || IsLaunchId(l)) && s == Tag() + " " + Identity(c, l, p)
    requires IsCandidate(log) && WellNamed(log) && ReadIdentity(s) == Some(IdentityOf(log))
    ensures c == log.config && l == log.launch.value && p == log.pid
  {
    hide Tag, ReadIdentity;
    TagIsRead(c, l, p);
    IdentityParts(c, l, p, log.config, log.launch.value, log.pid);
  }

  /** Nothing the scan prints but a shutdown mark is read as a candidate's identity. */
  lemma OthersConfirmNothing(line: Line, log: SanitizerLog)
    requires IsFinding(line) && WellClassified(line) && IsCandidate(log) && WellNamed(log)
    ensures ReadIdentity(Text(line)) != Some(IdentityOf(log))
  {
    hide ReadIdentity;
    match line {
      case Exit(pid) => ExitIsNoMark(pid);
      case Deadly => DeadlyIsNoMark();
      case Finding(text) => FindingConfirmsNothing(text, log.config, log.launch.value, log.pid);
    }
  }

  lemma {:induction false} LastLaunchIsId(file: ErrorLog, k: nat)
    requires WellFormed(file) && k <= |file.lines|
    ensures LastLaunch(file.lines, k) == "" || IsLaunchId(LastLaunch(file.lines, k))
  {
    if k > 0 {
      assert WellClassified(file.lines[k - 1]);
      LastLaunchIsId(file, k - 1);
    }
  }

  lemma ExitIsNoMark(pid: string)
    ensures ReadIdentity(Text(Exit(pid))).None?
  {
    var s := Text(Exit(pid));
    assert s[0] == '=' && Word(s)[0] == '=' && Tag()[0] == '@';
  }

  lemma DeadlyIsNoMark()
    ensures ReadIdentity(DEADLY).None?
  {
    assert DEADLY[0] == 'A' && Word(DEADLY)[0] == 'A' && Tag()[0] == '@';
  }

  /** The loop over the error logs. */
  method ScanErrorLogs(ghost logs: seq<SanitizerLog>, files: seq<ErrorLog>, candidates: set<string>)
    returns (scan: seq<string>)
    requires GoodInput(logs, files) && candidates == Candidates(logs)
    ensures scan == ScanAll(logs, files)
  {
    hide Scan, Suppressible, Candidates;
    scan := [];
    for f := 0 to |files|
      invariant scan == ScanAll(logs, files[..f])
    {
      var file := files[f];
      assert WellFormed(file) && files[..f + 1][..f] == files[..f];
      PidsAreSuppressible(logs, file.config);
      var lines := Filter(ConfigId(file), ShutdownPids(candidates, file.config), file.lines);
      scan := scan + lines;
    }
    assert files[..|files|] == files;
  }

  /** The confirming loop. */
  method ReadMarks(scan: seq<string>) returns (confirmed: set<string>)
    ensures confirmed == Marks(scan)
  {
    hide ReadIdentity;
    confirmed := {};
    for i := 0 to |scan|
      invariant confirmed == Marks(scan[..i])
    {
      assert scan[..i + 1] == scan[..i] + [scan[i]];
      var identity := ReadIdentity(scan[i]);
      if identity.Some? {
        confirmed := confirmed + {identity.value};
      }
    }
    assert scan[..|scan|] == scan;
  }

  function Marks(scan: seq<string>): set<string> {
    set line | line in scan && ReadIdentity(line).Some? :: ReadIdentity(line).value
  }

  /** The partition loop. */
  method Partition(logs: seq<SanitizerLog>, ghost files: seq<ErrorLog>, identities: seq<string>, confirmed: set<string>)
    returns (shutdowns: nat, reported: seq<SanitizerLog>)
    requires GoodInput(logs, files) && |identities| == |logs| && confirmed == Marks(ScanAll(logs, files))
    requires forall i :: 0 <= i < |logs| ==> identities[i] == if IsCandidate(logs[i]) then IdentityOf(logs[i]) else ""
    ensures reported == Reported(files, logs) && shutdowns + |reported| == |logs|
  {
    hide ScanAll, Marks, Deliberate, IdentityOf, GoodInput, IsCandidate;
    shutdowns, reported := 0, [];
    for i := 0 to |logs|
      invariant reported == Reported(files, logs[..i]) && shutdowns + |reported| == i
    {
      assert logs[..i + 1][..i] == logs[..i];
      CountedIffDeliberate(logs, files, i, confirmed);
      if identities[i] != "" && identities[i] in confirmed {
        shutdowns := shutdowns + 1;
      } else {
        reported := reported + [logs[i]];
      }
    }
    assert logs[..|logs|] == logs;
  }

  lemma CountedIffDeliberate(logs: seq<SanitizerLog>, files: seq<ErrorLog>, i: nat,
      confirmed: set<string>)
    requires GoodInput(logs, files) && i < |logs| && confirmed == Marks(ScanAll(logs, files))
    ensures IsCandidate(logs[i]) ==>
            IdentityOf(logs[i]) != "" && (IdentityOf(logs[i]) in confirmed <==> Deliberate(files, logs[i]))
    ensures !IsCandidate(logs[i]) ==> !Deliberate(files, logs[i])
  {
    hide ReadIdentity, GoodInput;
    if IsCandidate(logs[i]) { ConfirmedIffExitSeen(logs, files, logs[i]); }
  }

  lemma FindingIffShown(logs: seq<SanitizerLog>, files: seq<ErrorLog>, text: string)
    ensures !Tagged(text) ==> (text in ScanAll(logs, files) <==> exists f, k :: Shown(logs, files, f, k, text))
  {
    hide ScanAll, Shown, EmittedAt, Tagged;
    InScanAll(logs, files, text);
    forall f, k ensures !Tagged(text) ==> (EmittedAt(logs, files, f, k, text) <==> Shown(logs, files, f, k, text)) {
      UntaggedIsShown(logs, files, f, k, text);
    }
  }

  lemma UntaggedIsShown(logs: seq<SanitizerLog>, files: seq<ErrorLog>, f: int, k: int, text: string)
    ensures !Tagged(text) ==> (EmittedAt(logs, files, f, k, text) <==> Shown(logs, files, f, k, text))
  {
    hide InTail, Text, LastLaunch, Suppressible, Identity, Tag;
  }

  /** The whole analysis. Every log is either counted as a deliberate shutdown or
      reported on, the former exactly when it is a candidate whose exit line stands
      behind its launch in the profile's error log; and a text is a finding exactly
      when some line of it is not withheld and it does not look like a mark. */
  method Process(logs: seq<SanitizerLog>, files: seq<ErrorLog>)
    returns (shutdowns: nat, reported: seq<SanitizerLog>, findings: set<string>)
    requires GoodInput(logs, files)
    ensures reported == Reported(files, logs) && shutdowns + |reported| == |logs|
    ensures forall text :: text in findings <==> !Tagged(text) && exists f, k :: Shown(logs, files, f, k, text)
  {
    hide ScanAll, Candidates, Marks, Reported, Shown, Tagged, Deliberate;
    var identities, candidates := CollectCandidates(logs);
    var scan := ScanErrorLogs(logs, files, candidates);
    var confirmed := ReadMarks(scan);
    findings := set line | line in scan && !Tagged(line);
    forall text { FindingIffShown(logs, files, text); }
    shutdowns, reported := Partition(logs, files, identities, confirmed);
  }

  // ---------------------------------------------------------------------
  // What counts as a deliberate shutdown, spelled out over the input
  // ---------------------------------------------------------------------

  /** The launch marker at j is the nearest before line k. */
  predicate NearestLaunch(lines: seq<Line>, j: int, k: int, id: string) {
    && 0 <= j < k <= |lines| && lines[j] == Launch(id)
    && forall m :: j < m < k ==> !lines[m].Launch?
  }

  /** The supervisor recorded a stop of this child, and its log shows the failed check of
      the exit callback and no other error. */
  predicate StoppedCleanly(log: SanitizerLog) {
    log.launch != None && log.stopRecorded && log.checkFailed && log.inExitCallback && log.fatal == false
  }

  /** Line k is the exit of a child with such a log, behind its launch. */
  ghost predicate ExitOf(file: ErrorLog, k: int, log: SanitizerLog) {
    && StoppedCleanly(log) && file.config == Some(log.config)
    && 0 <= k < |file.lines| && file.lines[k] == Exit(log.pid)
    && exists j :: NearestLaunch(file.lines, j, k, log.launch.value)
  }

  lemma {:induction false} LastLaunchIsNearest(lines: seq<Line>, k: nat, id: string)
    requires k <= |lines| && id != ""
    ensures LastLaunch(lines, k) == id <==> exists j :: NearestLaunch(lines, j, k, id)
  {
    if k > 0 {
      var n := k - 1;
      LastLaunchIsNearest(lines, n, id);
      if lines[n].Launch? {
        if lines[n].id == id { assert NearestLaunch(lines, n, k, id); }
      } else {
        if j :| NearestLaunch(lines, j, k, id) { assert NearestLaunch(lines, j, n, id); }
        if j :| NearestLaunch(lines, j, n, id) { assert NearestLaunch(lines, j, k, id); }
      }
    }
  }

  lemma ExitAtIsExitOf(files: seq<ErrorLog>, f: int, k: int, log: SanitizerLog)
    requires 0 <= f < |files| && WellNamed(log)
    ensures IsCandidate(log) && ExitAt(files, f, k, log.config, log.launch.value, log.pid) <==> ExitOf(files[f], k, log)
  {
    if log.launch.Some? && 0 <= k < |files[f].lines| {
      LastLaunchIsNearest(files[f].lines, k, log.launch.value);
    }
  }

  lemma {:induction false} InReported(files: seq<ErrorLog>, logs: seq<SanitizerLog>, log: SanitizerLog)
    ensures log in Reported(files, logs) <==> log in logs && !Deliberate(files, log)
  {
    hide Deliberate;
    if logs != [] {
      InReported(files, logs[..|logs| - 1], log);
      assert logs == logs[..|logs| - 1] + [logs[|logs| - 1]];
    }
  }

  /** A log is reported unless its child was stopped cleanly and its exit stands behind
      its launch; so one with another error, or whose stop was not recorded, always is. */
  lemma ReportedUnlessStopped(files: seq<ErrorLog>, logs: seq<SanitizerLog>, log: SanitizerLog)
    requires GoodInput(logs, files) && log in logs
    ensures log in Reported(files, logs) <==> !exists f, k :: 0 <= f < |files| && ExitOf(files[f], k, log)
    ensures log.fatal || !log.stopRecorded ==> log in Reported(files, logs)
  {
    assert WellNamed(log);
    InReported(files, logs, log);
    forall f, k | 0 <= f < |files|
      ensures IsCandidate(log) && ExitAt(files, f, k, log.config, log.launch.value, log.pid)
              <==> ExitOf(files[f], k, log) {
      ExitAtIsExitOf(files, f, k, log);
    }
    hide Reported, ExitOf, ExitAt, GoodInput, WellNamed;
    if Deliberate(files, log) {
      var f, k :| ExitAt(files, f, k, log.config, log.launch.value, log.pid);
      assert 0 <= f < |files| by { ExitInFile(files, f, k, log); }
      assert ExitOf(files[f], k, log);
    }
    if f, k :| 0 <= f < |files| && ExitOf(files[f], k, log) {
      assert ExitAt(files, f, k, log.config, log.launch.value, log.pid);
    }
    if log.fatal || !log.stopRecorded { assert !IsCandidate(log); }
  }

  lemma ExitInFile(files: seq<ErrorLog>, f: int, k: int, log: SanitizerLog)
    requires log.launch.Some? && ExitAt(files, f, k, log.config, log.launch.value, log.pid)
    ensures 0 <= f < |files|
  {
  }

  /** Line k is the exit of some child that was stopped cleanly. */
  ghost predicate StopsAt(logs: seq<SanitizerLog>, file: ErrorLog, k: int) {
    exists i :: 0 <= i < |logs| && ExitOf(file, k, logs[i])
  }

  lemma ShutdownIsStop(logs: seq<SanitizerLog>, file: ErrorLog, k: nat)
    requires (forall i :: 0 <= i < |logs| ==> WellNamed(logs[i])) && WellFormed(file) && k < |file.lines|
    ensures ShutdownExit(Suppressible(logs, file.config), file.lines, k) <==> StopsAt(logs, file, k)
  {
    var last := LastLaunch(file.lines, k);
    LastLaunchIsId(file, k);
    if ShutdownExit(Suppressible(logs, file.config), file.lines, k) {
      var log :| log in logs && IsCandidate(log) && log.config == file.config.value
                 && log.launch.value + ":" + log.pid == last + ":" + file.lines[k].pid;
      assert WellNamed(log);
      SplitAtColon(log.launch.value, log.pid, last, file.lines[k].pid);
      LastLaunchIsNearest(file.lines, k, last);
      assert ExitOf(file, k, log);
    }
    if i :| 0 <= i < |logs| && ExitOf(file, k, logs[i]) {
      var log := logs[i];
      assert WellNamed(log);
      LastLaunchIsNearest(file.lines, k, log.launch.value);
      assert log in logs && IsCandidate(log);
    }
  }

  /** Withheld are just those exits and the DEADLYSIGNAL lines right behind them. */
  lemma WithheldIffStop(logs: seq<SanitizerLog>, file: ErrorLog, k: nat)
    requires (forall i :: 0 <= i < |logs| ==> WellNamed(logs[i])) && WellFormed(file) && k < |file.lines|
    ensures Withheld(Suppressible(logs, file.config), file.lines, k) <==>
            || StopsAt(logs, file, k)
            || (file.lines[k] == Deadly
                && exists j :: 0 <= j < k && StopsAt(logs, file, j) && forall m :: j < m < k ==> file.lines[m] == Deadly)
  {
    forall j | 0 <= j <= k
      ensures ShutdownExit(Suppressible(logs, file.config), file.lines, j) <==> StopsAt(logs, file, j) {
      ShutdownIsStop(logs, file, j);
    }
    hide ShutdownExit, StopsAt, Suppressible, WellFormed, WellNamed;
  }

  /** A line is shown when it is a finding and no part of a clean stop; what is shown is
      the line itself. */
  lemma ShownMeans(logs: seq<SanitizerLog>, files: seq<ErrorLog>, f: nat, k: nat, text: string)
    requires GoodInput(logs, files) && f < |files| && k < |files[f].lines|
    ensures var (file, line) := (files[f], files[f].lines[k]);
            Shown(logs, files, f, k, text) <==>
            || line == Finding(text)
            || (line.Exit? && text == "==" + line.pid + "== ERROR: libFuzzer: fuzz target exited"
                && !StopsAt(logs, file, k))
            || (line == Deadly && text == "AddressSanitizer:DEADLYSIGNAL"
                && !exists j :: 0 <= j < k && StopsAt(logs, file, j) && forall m :: j < m < k ==> file.lines[m] == Deadly)
  {
    assert WellFormed(files[f]);
    WithheldIffStop(logs, files[f], k);
    var (file, line) := (files[f], files[f].lines[k]);
    if !line.Exit? { OnlyExitsStop(logs, file, k); }
    hide Withheld, StopsAt, Suppressible, WellFormed, WellNamed;
  }

  lemma OnlyExitsStop(logs: seq<SanitizerLog>, file: ErrorLog, k: nat)
    requires k < |file.lines| && !file.lines[k].Exit?
    ensures !StopsAt(logs, file, k)
  {
  }

  // ---------------------------------------------------------------------
  // Whether suppression is exact
  // ---------------------------------------------------------------------

  /** A finding line that itself begins with the tag is lost, though nothing says it
      belongs to a deliberate shutdown. */
  lemma TaggedFindingIsLost()
    ensures var text := "@@HARNESS_SHUTDOWN@@ ERROR: AddressSanitizer";
            && GoodInput([], [ErrorLog(Some("1"), [Finding(text)])])
            && Shown([], [ErrorLog(Some("1"), [Finding(text)])], 0, 0, text) && Tagged(text)
  {
    var text := Tag() + " " + Phrase(0);
    assert text == "@@HARNESS_SHUTDOWN@@ ERROR: AddressSanitizer";
    assert IsAt(text, Phrase(0), |Tag() + " "|);
    assert Contains(text, Phrase(0));
  }

  /** So the reported findings are exactly the lines not withheld if and only if no
      finding line begins with the tag. */
  lemma ExactUnlessTagged(logs: seq<SanitizerLog>, files: seq<ErrorLog>, findings: set<string>)
    requires forall text :: text in findings <==> !Tagged(text) && exists f, k :: Shown(logs, files, f, k, text)
    ensures (forall text :: text in findings <==> exists f, k :: Shown(logs, files, f, k, text))
            <==> !exists f, k :: LooksLikeMark(files, f, k)
  {
    hide Withheld, Tagged;
    if f, k :| LooksLikeMark(files, f, k) {
      var text := files[f].lines[k].text;
      FindingNeverWithheld(Suppressible(logs, files[f].config), files[f].lines, k);
      assert Shown(logs, files, f, k, text) && text !in findings;
    } else {
      forall f, k, text | Shown(logs, files, f, k, text) ensures !Tagged(text) {
        assert !LooksLikeMark(files, f, k);
        OnlyFindingsTagged(files[f].lines[k]);
      }
    }
  }

  ghost predicate LooksLikeMark(files: seq<ErrorLog>, f: int, k: int) {
    && 0 <= f < |files| && 0 <= k < |files[f].lines|
    && files[f].lines[k].Finding? && Tagged(files[f].lines[k].text)
  }

  lemma FindingNeverWithheld(shutdown: set<string>, lines: seq<Line>, k: nat)
    requires k < |lines| && lines[k].Finding?
    ensures !Withheld(shutdown, lines, k)
  {
  }

  lemma OnlyFindingsTagged(line: Line)
    requires IsFinding(line)
    ensures Tagged(Text(line)) ==> line.Finding?
  {
    assert (Tag() + " ")[0] == '@';
    if !line.Finding? { assert Text(line)[0] != '@'; }
  }
}
