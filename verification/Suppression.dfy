/** The suppression of deliberate shutdowns in the sanitizer report: which finding
    lines of the error logs are withheld and which sanitizer logs are counted apart. */
module Suppression {
  import Bytes
  import opened Wrappers

  function Tag(): string { "@@HARNESS_SHUTDOWN@@" }

  const DEADLY := "AddressSanitizer:DEADLYSIGNAL"

  /** The phrases that make a line a finding. */
  function Phrase(i: nat): string {
    if i == 0 then "ERROR: AddressSanitizer"
    else if i == 1 then "AddressSanitizer: CHECK failed"
    else if i == 2 then DEADLY
    else "ERROR: libFuzzer"
  }

  /** A line of an error log, by the awk pattern it matches. */
  datatype Line =
    | Launch(id: string)        // --- supervisor launch ID ---
    | Exit(pid: string)         // ==PID== ERROR: libFuzzer: fuzz target exited
    | Deadly                    // AddressSanitizer:DEADLYSIGNAL, alone
    | Summary                   // SUMMARY: libFuzzer: fuzz target exited
    | Finding(text: string)     // any other line with one of the phrases
    | Other

  predicate IsDigit(c: char) { '0' <= c <= '9' }

  predicate IsDigits(s: string) { s != [] && forall i :: 0 <= i < |s| ==> IsDigit(s[i]) }

  predicate IsLaunchId(s: string) {
    s != [] && forall i :: 0 <= i < |s| ==>
      IsDigit(s[i]) || 'a' <= s[i] <= 'z' || 'A' <= s[i] <= 'Z' || s[i] == '_' || s[i] == '-'
  }

  predicate IsAt(text: string, phrase: string, at: nat) {
    at + |phrase| <= |text| && text[at..at + |phrase|] == phrase
  }

  ghost predicate Contains(text: string, phrase: string) { exists at :: IsAt(text, phrase, at) }

  ghost predicate IsFindingText(text: string) { exists i: nat :: Contains(text, Phrase(i)) }

  /** What the line patterns ensure of a classified line. */
  ghost predicate WellClassified(line: Line) {
    match line
    case Launch(id) => IsLaunchId(id)
    case Exit(pid) => IsDigits(pid)
    case Finding(text) => IsFindingText(text)
    case _ => true
  }

  datatype ErrorLog = ErrorLog(config: Option<string>, lines: seq<Line>)

  ghost predicate WellFormed(log: ErrorLog) {
    && (log.config.Some? ==> IsDigits(log.config.value))
    && forall k :: 0 <= k < |log.lines| ==> WellClassified(log.lines[k])
  }

  /** A sanitizer log: its name's parts, and what `run.sh` and the log itself say. */
  datatype SanitizerLog = SanitizerLog(config: string, launch: Option<string>, pid: string,
    stopRecorded: bool, checkFailed: bool, inExitCallback: bool, fatal: bool)

  predicate WellNamed(log: SanitizerLog) {
    IsDigits(log.config) && IsDigits(log.pid) && (log.launch.Some? ==> IsLaunchId(log.launch.value))
  }

  predicate IsCandidate(log: SanitizerLog) {
    log.launch.Some? && log.stopRecorded && log.checkFailed && log.inExitCallback && !log.fatal
  }

  function Identity(config: string, launch: string, pid: string): string { config + ":" + launch + ":" + pid }

  // ---------------------------------------------------------------------
  // Which lines count as a deliberate shutdown
  // ---------------------------------------------------------------------

  /** The nearest launch marker before line k; "" when there is none. */
  function LastLaunch(lines: seq<Line>, k: nat): string
    requires k <= |lines|
  {
    if k == 0 then ""
    else if lines[k - 1].Launch? then lines[k - 1].id
    else LastLaunch(lines, k - 1)
  }

  /** Line k is a libFuzzer exit whose launch and pid are to be suppressed. */
  predicate ShutdownExit(shutdown: set<string>, lines: seq<Line>, k: nat)
    requires k < |lines|
  {
    lines[k].Exit? && LastLaunch(lines, k) + ":" + lines[k].pid in shutdown
  }

  /** Between a suppressed exit and line k there is nothing but DEADLYSIGNAL lines. */
  ghost predicate InTail(shutdown: set<string>, lines: seq<Line>, k: nat)
    requires k <= |lines|
  {
    exists j :: 0 <= j < k && ShutdownExit(shutdown, lines, j) && forall m :: j < m < k ==> lines[m].Deadly?
  }

  ghost predicate Withheld(shutdown: set<string>, lines: seq<Line>, k: nat)
    requires k < |lines|
  {
    ShutdownExit(shutdown, lines, k) || (lines[k].Deadly? && InTail(shutdown, lines, k))
  }

  predicate IsFinding(line: Line) { line.Exit? || line.Deadly? || line.Finding? }

  function Text(line: Line): string
    requires IsFinding(line)
  {
    match line
    case Exit(pid) => "==" + pid + "== ERROR: libFuzzer: fuzz target exited"
    case Deadly => DEADLY
    case Finding(text) => text
  }

  /** What line k adds to the scan. */
  ghost function Emitted(config: string, shutdown: set<string>, lines: seq<Line>, k: nat): Option<string>
    requires k < |lines|
  {
    if ShutdownExit(shutdown, lines, k) then
      Some(Tag() + " " + Identity(config, LastLaunch(lines, k), lines[k].pid))
    else if IsFinding(lines[k]) && !Withheld(shutdown, lines, k) then Some(Text(lines[k]))
    else None
  }

  ghost function Scan(config: string, shutdown: set<string>, lines: seq<Line>, n: nat): seq<string>
    requires n <= |lines|
  {
    if n == 0 then []
    else
      var emitted := Emitted(config, shutdown, lines, n - 1);
      Scan(config, shutdown, lines, n - 1) + if emitted.Some? then [emitted.value] else []
  }

  lemma {:induction false} InScan(config: string, shutdown: set<string>, lines: seq<Line>, n: nat, s: string)
    requires n <= |lines|
    ensures s in Scan(config, shutdown, lines, n) <==>
            exists k :: 0 <= k < n && Emitted(config, shutdown, lines, k) == Some(s)
  {
    hide Emitted;
    if n > 0 { InScan(config, shutdown, lines, n - 1, s); }
  }

  lemma TailGrows(shutdown: set<string>, lines: seq<Line>, k: nat)
    requires k < |lines|
    ensures InTail(shutdown, lines, k + 1) <==>
            ShutdownExit(shutdown, lines, k) || (lines[k].Deadly? && InTail(shutdown, lines, k))
  {
    hide ShutdownExit;
    if InTail(shutdown, lines, k + 1) {
      var j :| 0 <= j < k + 1 && ShutdownExit(shutdown, lines, j) && forall m :: j < m < k + 1 ==> lines[m].Deadly?;
      assert j < k ==> lines[k].Deadly?;
    }
  }

  /** The awk program over one error log: two variables, one pass. It withholds
      exactly the suppressed exits and the DEADLYSIGNAL runs behind them. */
  method Filter(config: string, shutdown: set<string>, lines: seq<Line>) returns (scan: seq<string>)
    ensures scan == Scan(config, shutdown, lines, |lines|)
  {
    scan := [];
    var launchId := "";
    var suppressShutdownTail := false;
    for k := 0 to |lines|
      invariant scan == Scan(config, shutdown, lines, k)
      invariant launchId == LastLaunch(lines, k)
      invariant suppressShutdownTail == InTail(shutdown, lines, k)
    {
      var line := lines[k];
      TailGrows(shutdown, lines, k);
      hide InTail;
      if line.Launch? {
        launchId := line.id;
        suppressShutdownTail := false;
      } else if line.Exit? && launchId + ":" + line.pid in shutdown {
        scan := scan + [Tag() + " " + Identity(config, launchId, line.pid)];
        suppressShutdownTail := true;
      } else if suppressShutdownTail && line.Deadly? {
      } else if suppressShutdownTail && line.Summary? {
        suppressShutdownTail := false;
      } else {
        suppressShutdownTail := false;
        if IsFinding(line) {
          scan := scan + [Text(line)];
        }
      }
    }
  }

  // ---------------------------------------------------------------------
  // Identities as strings
  // ---------------------------------------------------------------------

  predicate IsBlank(c: char) { c == ' ' || c == '\t' }

  predicate Blanks(s: string) { forall i :: 0 <= i < |s| ==> IsBlank(s[i]) }

  predicate NoColon(s: string) { forall i :: 0 <= i < |s| ==> s[i] != ':' }

  function SkipBlanks(s: string): (r: string)
    ensures |r| <= |s| && s[|s| - |r|..] == r && Blanks(s[..|s| - |r|])
    ensures r != [] ==> !IsBlank(r[0])
  {
    if s != [] && IsBlank(s[0]) then SkipBlanks(s[1..]) else s
  }

  function TrimEnd(s: string): (r: string)
    ensures r <= s && Blanks(s[|r|..])
    ensures r != [] ==> !IsBlank(r[|r| - 1])
  {
    if s != [] && IsBlank(s[|s| - 1]) then TrimEnd(s[..|s| - 1]) else s
  }

  function Word(s: string): (r: string)
    ensures r <= s && (forall i :: 0 <= i < |r| ==> !IsBlank(r[i]))
    ensures |r| < |s| ==> IsBlank(s[|r|])
  {
    if s == [] || IsBlank(s[0]) then [] else [s[0]] + Word(s[1..])
  }

  /** `read -r marker identity` and the test for the tag. */
  function ReadIdentity(line: string): Option<string> {
    var s := SkipBlanks(line);
    var marker := Word(s);
    if marker == Tag() then Some(TrimEnd(SkipBlanks(s[|marker|..]))) else None
  }

  /** `grep '^@@HARNESS_SHUTDOWN@@ '`. */
  predicate Tagged(line: string) { Tag() + " " <= line }

  lemma SplitAtColon(a: string, b: string, x: string, y: string)
    requires NoColon(a) && NoColon(x) && a + ":" + b == x + ":" + y
    ensures a == x && b == y
  {
    var s := a + ":" + b;
    assert s[|a|] == ':' && s[|x|] == ':';
    assert forall i :: 0 <= i < |a| ==> s[i] == a[i];
    assert forall i :: 0 <= i < |x| ==> s[i] == x[i];
    assert |a| == |x|;
    assert a == s[..|a|] && b == s[|a| + 1..] && y == s[|a| + 1..];
  }

  lemma IdentityParts(c: string, l: string, p: string, d: string, m: string, q: string)
    requires NoColon(c) && NoColon(d) && NoColon(l) && NoColon(m) && Identity(c, l, p) == Identity(d, m, q)
    ensures c == d && l == m && p == q
  {
    assert Identity(c, l, p) == c + ":" + (l + ":" + p) && Identity(d, m, q) == d + ":" + (m + ":" + q);
    SplitAtColon(c, l + ":" + p, d, m + ":" + q);
    SplitAtColon(l, p, m, q);
  }

  /** In a line around an identity the only colons are those of the identity. */
  lemma OnlyItsColons(before: string, c: string, l: string, p: string, after: string, x: nat)
    requires NoColon(before) && NoColon(after) && NoColon(c) && NoColon(l) && NoColon(p)
    requires x < |before + Identity(c, l, p) + after| && x != |before + c| && x != |before + c| + 1 + |l|
    ensures (before + Identity(c, l, p) + after)[x] != ':'
  {
    var (b, k) := (|before|, |before| + |c|);
    var s := before + Identity(c, l, p) + after;
    if x < b {
      assert s[x] == before[x];
    } else if x < k {
      assert s[x] == c[x - b];
    } else if x < k + 1 + |l| {
      assert s[x] == l[x - k - 1];
    } else if x < k + 2 + |l| + |p| {
      assert s[x] == p[x - k - 2 - |l|];
    } else {
      assert s[x] == after[x - k - 2 - |l| - |p|];
    }
  }

  /** A colon with no digit at either side does not occur around an identity. */
  lemma NotAround(s: string, x: nat, before: string, c: string, l: string, p: string, after: string)
    requires 0 < x < |s| - 1 && s[x] == ':' && !IsDigit(s[x - 1]) && !IsDigit(s[x + 1])
    requires NoColon(before) && NoColon(after) && IsDigits(c) && IsLaunchId(l) && IsDigits(p)
    ensures s != before + Identity(c, l, p) + after
  {
    var around := before + Identity(c, l, p) + after;
    var k := |before| + |c|;
    assert around[k - 1] == c[|c| - 1] && around[k + 1 + |l| + 1] == p[0];
    if x < |around| && x != k && x != k + 1 + |l| { OnlyItsColons(before, c, l, p, after, x); }
  }

  lemma PhraseColon(i: nat) returns (at: nat)
    ensures 0 < at < |Phrase(i)| - 1 && Phrase(i)[at] == ':'
    ensures !IsDigit(Phrase(i)[at - 1]) && !IsDigit(Phrase(i)[at + 1])
  {
    at := if i == 1 || i == 2 then 16 else 5;
  }

  lemma TagFacts()
    ensures Tag() != [] && NoColon(Tag()) && forall i :: 0 <= i < |Tag()| ==> !IsBlank(Tag()[i])
  {
  }

  lemma BlanksHaveNoColon(s: string)
    ensures Blanks(s) ==> NoColon(s)
  {
  }

  /** What `read` makes of a line is part of it, without colons around. */
  lemma ReadAround(line: string) returns (before: string, after: string)
    requires ReadIdentity(line).Some?
    ensures line == before + ReadIdentity(line).value + after && NoColon(before) && NoColon(after)
  {
    TagFacts();
    hide Tag, SkipBlanks, TrimEnd, Word, Blanks, NoColon;
    var s := SkipBlanks(line);
    var lead := line[..|line| - |s|];
    var rest := s[|Tag()|..];
    var t := SkipBlanks(rest);
    var gap := rest[..|rest| - |t|];
    var identity := TrimEnd(t);
    before, after := lead + Tag() + gap, t[|identity|..];
    BlanksHaveNoColon(lead);
    BlanksHaveNoColon(gap);
    BlanksHaveNoColon(after);
    NoColonInSum(lead, Tag());
    NoColonInSum(lead + Tag(), gap);
    SuffixSplit(line, s);
    PrefixSplit(s, Tag());
    SuffixSplit(rest, t);
    PrefixSplit(t, identity);
    Bytes.Assoc(gap, identity, after);
    Bytes.Assoc(Tag(), gap + identity, after);
    Bytes.Assoc(Tag(), gap, identity);
    Bytes.Assoc(lead, Tag() + gap + identity, after);
    Bytes.Assoc(lead, Tag() + gap, identity);
    Bytes.Assoc(lead, Tag(), gap);
  }

  lemma SuffixSplit(s: string, t: string)
    requires |t| <= |s| && s[|s| - |t|..] == t
    ensures s == s[..|s| - |t|] + t
  {
  }

  lemma PrefixSplit(s: string, t: string)
    requires t <= s
    ensures s == t + s[|t|..]
  {
  }

  lemma NoColonInSum(a: string, b: string)
    requires NoColon(a) && NoColon(b)
    ensures NoColon(a + b)
  {
  }

  /** A finding line is never taken for the confirmation of a shutdown. */
  lemma FindingConfirmsNothing(text: string, c: string, l: string, p: string)
    requires IsFindingText(text) && IsDigits(c) && IsLaunchId(l) && IsDigits(p)
    ensures ReadIdentity(text) != Some(Identity(c, l, p))
  {
    var i: nat :| Contains(text, Phrase(i));
    var at: nat :| IsAt(text, Phrase(i), at);
    var colon := PhraseColon(i);
    var phrase := text[at..at + |Phrase(i)|];
    assert phrase[colon] == text[at + colon] && phrase[colon - 1] == text[at + colon - 1]
           && phrase[colon + 1] == text[at + colon + 1];
    hide ReadIdentity, Identity, Phrase, IsDigits, IsLaunchId;
    if ReadIdentity(text).Some? {
      var before, after := ReadAround(text);
      NotAround(text, at + colon, before, c, l, p, after);
    }
  }

  lemma TagIsRead(c: string, l: string, p: string)
    requires IsDigits(c) && IsDigits(p)
    ensures ReadIdentity(Tag() + " " + Identity(c, l, p)) == Some(Identity(c, l, p))
  {
    var identity := Identity(c, l, p);
    assert identity[0] == c[0] && identity[|identity| - 1] == p[|p| - 1];
    TagFacts();
    hide Identity, Tag, SkipBlanks, TrimEnd, Word;
    var line := Tag() + (" " + identity);
    SkipNone(line);
    WordOf(Tag(), " " + identity);
    PrefixDrops(Tag(), " " + identity);
    SkipOne(identity);
    Bytes.Assoc(Tag(), " ", identity);
  }

  lemma SkipNone(s: string)
    requires s != [] && !IsBlank(s[0])
    ensures SkipBlanks(s) == s
  {
  }

  lemma SkipOne(s: string)
    requires s != [] && !IsBlank(s[0]) && !IsBlank(s[|s| - 1])
    ensures TrimEnd(SkipBlanks(" " + s)) == s
  {
    assert (" " + s)[1..] == s;
  }

  lemma PrefixDrops(a: string, b: string)
    ensures (a + b)[|a|..] == b
  {
  }

  lemma {:induction false} WordOf(word: string, rest: string)
    requires forall i :: 0 <= i < |word| ==> !IsBlank(word[i])
    requires rest != [] && IsBlank(rest[0])
    ensures Word(word + rest) == word
  {
    if word == [] {
      assert word + rest == rest;
    } else {
      assert (word + rest)[1..] == word[1..] + rest;
      WordOf(word[1..], rest);
    }
  }
}
