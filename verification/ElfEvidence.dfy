/** The evidence `check_build.py` gathers from one ELF file and what it concludes. */
module ElfEvidence {
  import opened Wrappers

  /** How a symbol table entry uses its name. */
  datatype Use = Defined | WeaklyWanted | Wanted

  /** A line of readelf's output, by the patterns it matches. */
  datatype Line =
    | FileHeader
    | RelocatableType
    | Section(name: string, nonempty: bool, runtime: bool)   // runtime: flagged A or X
    | Symbol(name: string, use: Use)                         // without FILE and SECTION entries
    | OtherLine

  datatype Reason = Definition | WeakReference

  datatype Evidence = Evidence(references: set<string>, otherSymbols: map<string, Reason>,
                               sections: set<string>, symbolsPresent: bool)

  datatype Parsed = Inspected(evidence: Evidence) | RustMetadata | NotOneFile | LtoObject

  // ---------------------------------------------------------------------
  // parse_elf
  // ---------------------------------------------------------------------

  function SectionsOf(lines: seq<Line>): set<string> {
    set line | line in lines && line.Section? && line.nonempty :: line.name
  }

  predicate Uses(lines: seq<Line>, name: string, use: Use) { Symbol(name, use) in lines }

  function NamesUsed(lines: seq<Line>, use: Use): set<string> {
    set line | line in lines && line.Symbol? && line.use == use :: line.name
  }

  /** A definition anywhere outranks any weak reference. */
  function OthersOf(lines: seq<Line>): map<string, Reason> {
    map name | name in NamesUsed(lines, Defined) + NamesUsed(lines, WeaklyWanted) ::
      if Uses(lines, name, Defined) then Definition else WeakReference
  }

  predicate IsSymbolTable(name: string) { name == ".symtab" }

  predicate HasLto(sections: set<string>) { exists name :: name in sections && ".gnu.lto_" <= name }

  predicate HasRustMetadata(sections: set<string>) { ".rmeta" in sections || ".rmeta-link" in sections }

  predicate HasRuntimeSections(lines: seq<Line>) {
    exists line :: line in lines && line.Section? && line.nonempty && line.runtime
  }

  predicate HasSymbolTable(lines: seq<Line>) {
    exists line :: line in lines && line.Section? && IsSymbolTable(line.name)
  }

  /** What one file's lines prove, in whatever order they come. */
  function Reading(lines: seq<Line>): Parsed {
    var sections := SectionsOf(lines);
    if multiset(lines)[FileHeader] != 1 then NotOneFile
    else if HasLto(sections) then LtoObject
    else if RelocatableType in lines && !HasRuntimeSections(lines) && HasRustMetadata(sections)
    then RustMetadata
    else Inspected(Evidence(NamesUsed(lines, Wanted), OthersOf(lines), sections, HasSymbolTable(lines)))
  }

  /** Reordering the lines changes nothing. */
  lemma OrderIrrelevant(lines: seq<Line>, reordered: seq<Line>)
    requires multiset(lines) == multiset(reordered)
    ensures Reading(lines) == Reading(reordered)
  {
    forall line ensures line in lines <==> line in reordered {
      assert line in lines <==> line in multiset(lines);
      assert line in reordered <==> line in multiset(reordered);
    }
    assert SectionsOf(lines) == SectionsOf(reordered);
    forall use ensures NamesUsed(lines, use) == NamesUsed(reordered, use) {}
    assert OthersOf(lines) == OthersOf(reordered);
  }

  /** What the result says of the lines, case by case. */
  lemma ReadingMeans(lines: seq<Line>)
    ensures var r := Reading(lines);
            && (r == NotOneFile <==> multiset(lines)[FileHeader] != 1)
            && (r == LtoObject <==> r != NotOneFile && exists s, x :: Section(s, true, x) in lines && ".gnu.lto_" <= s)
            && (r == RustMetadata <==>
                  && r != NotOneFile && r != LtoObject && RelocatableType in lines
                  && (forall s :: Section(s, true, true) !in lines)
                  && exists x :: Section(".rmeta", true, x) in lines || Section(".rmeta-link", true, x) in lines)
            && (r.Inspected? <==> r != NotOneFile && r != LtoObject && r != RustMetadata)
  {
    forall s ensures s in SectionsOf(lines) <==> exists x :: Section(s, true, x) in lines { SectionIn(lines, s); }
    assert HasRuntimeSections(lines) <==> exists s :: Section(s, true, true) in lines by {
      if line :| line in lines && line.Section? && line.nonempty && line.runtime {
        assert line == Section(line.name, true, true);
      }
    }
    hide SectionsOf, HasRuntimeSections, OthersOf, NamesUsed, HasSymbolTable;
    if s :| s in SectionsOf(lines) && ".gnu.lto_" <= s {
      var x :| Section(s, true, x) in lines;
      assert Section(s, true, x) in lines && ".gnu.lto_" <= s;
    }
    if s, x :| Section(s, true, x) in lines && ".gnu.lto_" <= s { assert s in SectionsOf(lines); }
  }

  lemma SectionIn(lines: seq<Line>, s: string)
    ensures s in SectionsOf(lines) <==> exists x :: Section(s, true, x) in lines
  {
    if s in SectionsOf(lines) {
      var line :| line in lines && line.Section? && line.nonempty && line.name == s;
      assert line == Section(s, true, line.runtime);
    }
  }

  /** And what evidence it gathers: a name is a reference when some line wants it, another
      symbol when one defines or weakly wants it, and a definition when one defines it. */
  lemma EvidenceMeans(lines: seq<Line>, n: string)
    requires Reading(lines).Inspected?
    ensures var e := Reading(lines).evidence;
            && (n in e.references <==> Symbol(n, Wanted) in lines)
            && (n in e.otherSymbols <==> Symbol(n, Defined) in lines || Symbol(n, WeaklyWanted) in lines)
            && (n in e.otherSymbols ==> (e.otherSymbols[n] == Definition <==> Symbol(n, Defined) in lines))
            && (n in e.sections <==> exists x :: Section(n, true, x) in lines)
            && (e.symbolsPresent <==> exists b, x :: Section(".symtab", b, x) in lines)
  {
    forall use ensures n in NamesUsed(lines, use) <==> Symbol(n, use) in lines { NameIn(lines, n, use); }
    SectionIn(lines, n);
    if HasSymbolTable(lines) {
      var line :| line in lines && line.Section? && IsSymbolTable(line.name);
      assert line == Section(".symtab", line.nonempty, line.runtime);
    }
    hide SectionsOf, NamesUsed, HasRuntimeSections, HasLto, HasRustMetadata;
  }

  lemma NameIn(lines: seq<Line>, n: string, use: Use)
    ensures n in NamesUsed(lines, use) <==> Symbol(n, use) in lines
  {
    if n in NamesUsed(lines, use) {
      var line :| line in lines && line.Symbol? && line.use == use && line.name == n;
      assert line == Symbol(n, use);
    }
  }

  lemma NextSymbol(before: seq<Line>, name: string, use: Use)
    ensures var now := before + [Symbol(name, use)];
            && NamesUsed(now, Wanted) == NamesUsed(before, Wanted) + (if use == Wanted then {name} else {})
            && SectionsOf(now) == SectionsOf(before)
            && OthersOf(now) ==
               if use == Defined then OthersOf(before)[name := Definition]
               else if use == WeaklyWanted && name !in OthersOf(before) then OthersOf(before)[name := WeakReference]
               else OthersOf(before)
  {
    var now := before + [Symbol(name, use)];
    forall u ensures NamesUsed(now, u) == NamesUsed(before, u) + (if u == use then {name} else {}) {
      NamesGrow(before, name, use, u);
    }
    assert SectionsOf(now) == SectionsOf(before);
    forall n ensures Uses(now, n, Defined) <==> Uses(before, n, Defined) || (n == name && use == Defined) {}
    forall n ensures n in NamesUsed(before, Defined) <==> Uses(before, n, Defined) {}
    hide NamesUsed, Uses, SectionsOf;
  }

  lemma NamesGrow(before: seq<Line>, name: string, use: Use, u: Use)
    ensures NamesUsed(before + [Symbol(name, use)], u) == NamesUsed(before, u) + (if u == use then {name} else {})
  {
  }

  lemma NextOther(before: seq<Line>, line: Line)
    requires !line.Symbol?
    ensures var now := before + [line];
            && (forall use :: NamesUsed(now, use) == NamesUsed(before, use)) && OthersOf(now) == OthersOf(before)
            && SectionsOf(now) == SectionsOf(before) + (if line.Section? && line.nonempty then {line.name} else {})
  {
    var now := before + [line];
    forall use ensures NamesUsed(now, use) == NamesUsed(before, use) {}
    assert SectionsOf(now) == SectionsOf(before) + (if line.Section? && line.nonempty then {line.name} else {});
    forall n ensures Uses(now, n, Defined) <==> Uses(before, n, Defined) {}
    hide NamesUsed, Uses, SectionsOf;
  }

  lemma NextFlags(before: seq<Line>, line: Line)
    ensures var now := before + [line];
            && multiset(now)[FileHeader] == multiset(before)[FileHeader] + (if line == FileHeader then 1 else 0)
            && (RelocatableType in now <==> RelocatableType in before || line == RelocatableType)
            && (HasRuntimeSections(now) <==>
                  HasRuntimeSections(before) || (line.Section? && line.nonempty && line.runtime))
            && (HasSymbolTable(now) <==> HasSymbolTable(before) || (line.Section? && IsSymbolTable(line.name)))
  {
    var now := before + [line];
    assert forall l :: l in now <==> l in before || l == line;
    assert line in now;
  }

  /** What the loop variables of `parse_elf` hold behind some lines. */
  ghost predicate Gathered(lines: seq<Line>, references: set<string>, otherSymbols: map<string, Reason>,
      sections: set<string>, headers: nat, symtabs: nat, hasRuntimeSections: bool, relocatable: bool)
  {
    && references == NamesUsed(lines, Wanted) && otherSymbols == OthersOf(lines) && sections == SectionsOf(lines)
    && headers == multiset(lines)[FileHeader] && (symtabs > 0 <==> HasSymbolTable(lines))
    && hasRuntimeSections == HasRuntimeSections(lines) && relocatable == (RelocatableType in lines)
  }

  lemma GatherSymbol(before: seq<Line>, name: string, use: Use, references: set<string>,
      otherSymbols: map<string, Reason>, sections: set<string>, headers: nat, symtabs: nat, runtime: bool, rel: bool)
    requires Gathered(before, references, otherSymbols, sections, headers, symtabs, runtime, rel)
    ensures var now := before + [Symbol(name, use)];
            match use
            case Wanted => Gathered(now, references + {name}, otherSymbols, sections, headers, symtabs, runtime, rel)
            case Defined =>
              Gathered(now, references, otherSymbols[name := Definition], sections, headers, symtabs, runtime, rel)
            case WeaklyWanted =>
              if name in otherSymbols then Gathered(now, references, otherSymbols, sections, headers, symtabs, runtime, rel)
              else Gathered(now, references, otherSymbols[name := WeakReference], sections, headers, symtabs, runtime, rel)
  {
    hide NamesUsed, SectionsOf, OthersOf, HasRuntimeSections, HasSymbolTable;
    NextSymbol(before, name, use);
    NextFlags(before, Symbol(name, use));
  }

  lemma GatherOther(before: seq<Line>, line: Line, references: set<string>,
      otherSymbols: map<string, Reason>, sections: set<string>, headers: nat, symtabs: nat, runtime: bool, rel: bool)
    requires Gathered(before, references, otherSymbols, sections, headers, symtabs, runtime, rel) && !line.Symbol?
    ensures var now := before + [line];
            match line
            case FileHeader => Gathered(now, references, otherSymbols, sections, headers + 1, symtabs, runtime, rel)
            case RelocatableType => Gathered(now, references, otherSymbols, sections, headers, symtabs, runtime, true)
            case OtherLine => Gathered(now, references, otherSymbols, sections, headers, symtabs, runtime, rel)
            case Section(name, nonempty, flagged) =>
              var more := if IsSymbolTable(name) then symtabs + 1 else symtabs;
              if nonempty then
                Gathered(now, references, otherSymbols, sections + {name}, headers, more, runtime || flagged, rel)
              else Gathered(now, references, otherSymbols, sections, headers, more, runtime, rel)
  {
    hide NamesUsed, SectionsOf, OthersOf, HasRuntimeSections, HasSymbolTable;
    NextOther(before, line);
    NextFlags(before, line);
  }

  /** `parse_elf`: one pass, with the branches in its order. */
  method ParseElf(lines: seq<Line>) returns (r: Parsed)
    ensures r == Reading(lines)
  {
    var references, sections: set<string> := {}, {};
    var otherSymbols: map<string, Reason> := map[];
    var headers, symtabs: nat := 0, 0;
    var hasRuntimeSections, relocatable := false, false;
    assert OthersOf([]) == map[];
    assert Gathered(lines[..0], references, otherSymbols, sections, headers, symtabs, hasRuntimeSections, relocatable);
    hide Gathered, IsSymbolTable;
    for i := 0 to |lines|
      invariant Gathered(lines[..i], references, otherSymbols, sections, headers, symtabs, hasRuntimeSections, relocatable)
    {
      var line := lines[i];
      assert lines[..i + 1] == lines[..i] + [line];
      if line.Symbol? {
        GatherSymbol(lines[..i], line.name, line.use, references, otherSymbols, sections, headers, symtabs,
                     hasRuntimeSections, relocatable);
      } else {
        GatherOther(lines[..i], line, references, otherSymbols, sections, headers, symtabs,
                    hasRuntimeSections, relocatable);
      }
      match line {
        case FileHeader => headers := headers + 1;
        case RelocatableType => relocatable := true;
        case Section(name, nonempty, runtime) =>
          if IsSymbolTable(name) { symtabs := symtabs + 1; }
          if nonempty {
            sections := sections + {name};
            hasRuntimeSections := hasRuntimeSections || runtime;
          }
        case Symbol(name, use) =>
          if use == Defined {
            otherSymbols := otherSymbols[name := Definition];
          } else if use == WeaklyWanted {
            if name !in otherSymbols { otherSymbols := otherSymbols[name := WeakReference]; }
          } else {
            references := references + {name};
          }
        case OtherLine =>
      }
    }
    assert lines[..|lines|] == lines;
    Concluded(lines, references, otherSymbols, sections, headers, symtabs, hasRuntimeSections, relocatable);
    hide Reading;
    if headers != 1 { return NotOneFile; }
    if HasLto(sections) { return LtoObject; }
    if relocatable && !hasRuntimeSections && HasRustMetadata(sections) { return RustMetadata; }
    r := Inspected(Evidence(references, otherSymbols, sections, symtabs > 0));
  }

  lemma Concluded(lines: seq<Line>, references: set<string>, otherSymbols: map<string, Reason>,
      sections: set<string>, headers: nat, symtabs: nat, runtime: bool, rel: bool)
    requires Gathered(lines, references, otherSymbols, sections, headers, symtabs, runtime, rel)
    ensures Reading(lines) ==
            if headers != 1 then NotOneFile
            else if HasLto(sections) then LtoObject
            else if rel && !runtime && HasRustMetadata(sections) then RustMetadata
            else Inspected(Evidence(references, otherSymbols, sections, symtabs > 0))
  {
    hide NamesUsed, SectionsOf, OthersOf, HasRuntimeSections, HasSymbolTable;
  }

  // ---------------------------------------------------------------------
  // detect
  // ---------------------------------------------------------------------

  datatype State = Found | SymbolOnly | NotSeen | Unknown

  /** A check's patterns, as the names they match whole; only libfuzzer's driver counts
      as found when it is merely defined. */
  datatype Rule = Rule(symbol: string -> bool, section: string -> bool, driver: bool)

  datatype Proof = InSection(name: string) | ByReference(name: string) | ByOther(name: string, reason: Reason)

  /** Python's order of strings. */
  predicate AtMost(a: string, b: string) {
    a == [] || (b != [] && (a[0] < b[0] || (a[0] == b[0] && AtMost(a[1..], b[1..]))))
  }

  lemma {:induction false} AtMostTotal(a: string, b: string)
    ensures AtMost(a, b) || AtMost(b, a)
    ensures AtMost(a, b) && AtMost(b, a) ==> a == b
  {
    if a != [] && b != [] && a[0] == b[0] {
      AtMostTotal(a[1..], b[1..]);
      assert a == [a[0]] + a[1..] && b == [b[0]] + b[1..];
    }
  }

  lemma {:induction false} AtMostTransitive(a: string, b: string, c: string)
    requires AtMost(a, b) && AtMost(b, c)
    ensures AtMost(a, c)
  {
    if a != [] && b != [] && c != [] && a[0] == b[0] == c[0] { AtMostTransitive(a[1..], b[1..], c[1..]); }
  }

  /** A string comes first when it is a prefix, or smaller where they first differ. */
  lemma {:induction false} AtMostMeans(a: string, b: string)
    ensures AtMost(a, b) <==> a <= b || exists k :: Differs(a, b, k) && a[k] < b[k]
  {
    if a != [] && b != [] && a[0] == b[0] {
      AtMostMeans(a[1..], b[1..]);
      assert a <= b <==> a[1..] <= b[1..] by { assert a == [a[0]] + a[1..] && b == [b[0]] + b[1..]; }
      if k :| Differs(a, b, k) && a[k] < b[k] { assert Differs(a[1..], b[1..], k - 1); }
      if k :| Differs(a[1..], b[1..], k) && a[1..][k] < b[1..][k] { assert Differs(a, b, k + 1); }
    } else if a != [] && b != [] {
      assert Differs(a, b, 0);
    }
  }

  /** Where two strings first differ. */
  predicate Differs(a: string, b: string, k: int) {
    0 <= k < |a| && k < |b| && a[k] != b[k] && forall i :: 0 <= i < k ==> a[i] == b[i]
  }

  /** `sorted(names)[0]` is this name. */
  ghost predicate IsLeast(name: string, names: set<string>) {
    name in names && forall other :: other in names ==> AtMost(name, other)
  }

  method Least(names: set<string>) returns (least: string)
    requires names != {}
    ensures IsLeast(least, names)
  {
    least :| least in names;
    var rest := names - {least};
    AtMostTotal(least, least);
    while rest != {}
      invariant rest <= names && IsLeast(least, names - rest)
      decreases |rest|
    {
      var name :| name in rest;
      AtMostTotal(least, name);
      AtMostTotal(name, name);
      if !AtMost(least, name) {
        forall other | other in names - rest ensures AtMost(name, other) { AtMostTransitive(name, least, other); }
        least := name;
      }
      rest := rest - {name};
    }
    assert names - {} == names;
  }

  function SectionMatches(rule: Rule, e: Evidence): set<string> { set n | n in e.sections && rule.section(n) }

  function ReferenceMatches(rule: Rule, e: Evidence): set<string> { set n | n in e.references && rule.symbol(n) }

  function OtherMatches(rule: Rule, e: Evidence): set<string> { set n | n in e.otherSymbols && rule.symbol(n) }

  /** The state a check reports of the evidence. */
  ghost function StateOf(rule: Rule, e: Evidence): State {
    if SectionMatches(rule, e) != {} || ReferenceMatches(rule, e) != {} then Found
    else if OtherMatches(rule, e) != {} then
      if rule.driver && exists n :: IsLeast(n, OtherMatches(rule, e)) && e.otherSymbols[n] == Definition then Found
      else SymbolOnly
    else if e.symbolsPresent then NotSeen
    else Unknown
  }

  /** The evidence shows what the check looks for: a section, a reference, or, for the
      driver, a definition that is the first of the other names that match. */
  ghost predicate Shows(rule: Rule, e: Evidence) {
    || (exists n :: n in e.sections && rule.section(n))
    || (exists n :: n in e.references && rule.symbol(n))
    || (rule.driver && exists n :: n in e.otherSymbols && rule.symbol(n) && e.otherSymbols[n] == Definition
                                   && forall m :: m in e.otherSymbols && rule.symbol(m) ==> AtMost(n, m))
  }

  /** Nothing in the evidence has anything to do with the check. */
  ghost predicate Untouched(rule: Rule, e: Evidence) {
    && (forall n :: n in e.sections ==> !rule.section(n))
    && (forall n :: n in e.references ==> !rule.symbol(n))
    && (forall n :: n in e.otherSymbols ==> !rule.symbol(n))
  }

  /** The states, in terms of the names alone: absence is only concluded from a symbol
      table. */
  lemma StateMeans(rule: Rule, e: Evidence)
    ensures StateOf(rule, e) == Found <==> Shows(rule, e)
    ensures StateOf(rule, e) == NotSeen <==> Untouched(rule, e) && e.symbolsPresent
    ensures StateOf(rule, e) == Unknown <==> Untouched(rule, e) && !e.symbolsPresent
    ensures StateOf(rule, e) == SymbolOnly <==> !Shows(rule, e) && !Untouched(rule, e)
  {
    forall n ensures n in SectionMatches(rule, e) <==> n in e.sections && rule.section(n) {}
    forall n ensures n in ReferenceMatches(rule, e) <==> n in e.references && rule.symbol(n) {}
    forall n ensures n in OtherMatches(rule, e) <==> n in e.otherSymbols && rule.symbol(n) {}
    hide SectionMatches, ReferenceMatches, OtherMatches;
    assert OtherMatches(rule, e) != {} <==> exists n :: n in OtherMatches(rule, e);
    if n :| n in e.sections && rule.section(n) { assert n in SectionMatches(rule, e); }
    if n :| n in e.references && rule.symbol(n) { assert n in ReferenceMatches(rule, e); }
    if n :| n in e.otherSymbols && rule.symbol(n) && e.otherSymbols[n] == Definition
            && forall m :: m in e.otherSymbols && rule.symbol(m) ==> AtMost(n, m) {
      assert IsLeast(n, OtherMatches(rule, e));
    }
  }

  /** `detect`: the state, and the first name in order that proves it. */
  method Detect(rule: Rule, e: Evidence) returns (state: State, proof: Option<Proof>)
    ensures state == StateOf(rule, e)
    ensures proof.Some? && proof.value.InSection? ==> IsLeast(proof.value.name, SectionMatches(rule, e))
    ensures proof.Some? && proof.value.ByReference? ==>
              SectionMatches(rule, e) == {} && IsLeast(proof.value.name, ReferenceMatches(rule, e))
    ensures proof.Some? && proof.value.ByOther? ==>
              && SectionMatches(rule, e) == {} && ReferenceMatches(rule, e) == {}
              && IsLeast(proof.value.name, OtherMatches(rule, e))
              && proof.value.reason == e.otherSymbols[proof.value.name]
    ensures proof.None? <==> state == NotSeen || state == Unknown
  {
    var matches := SectionMatches(rule, e);
    if matches != {} {
      var name := Least(matches);
      return Found, Some(InSection(name));
    }
    matches := ReferenceMatches(rule, e);
    if matches != {} {
      var name := Least(matches);
      return Found, Some(ByReference(name));
    }
    matches := OtherMatches(rule, e);
    if matches != {} {
      var name := Least(matches);
      var reason := e.otherSymbols[name];
      state := if rule.driver && reason == Definition then Found else SymbolOnly;
      forall n | IsLeast(n, matches) ensures n == name { AtMostTotal(n, name); }
      return state, Some(ByOther(name, reason));
    }
    state := if e.symbolsPresent then NotSeen else Unknown;
    proof := None;
  }

  /** One file has at least the evidence of another; definitions stay definitions. */
  ghost predicate Richer(e: Evidence, f: Evidence) {
    && e.references <= f.references && e.sections <= f.sections && (e.symbolsPresent ==> f.symbolsPresent)
    && forall n :: n in e.otherSymbols ==>
         n in f.otherSymbols && (e.otherSymbols[n] == Definition ==> f.otherSymbols[n] == Definition)
  }

  /** The pattern of the check that a definition satisfies is a single name. */
  ghost predicate DriverIsOneName(rule: Rule) {
    rule.driver ==> forall m, n :: rule.symbol(m) && rule.symbol(n) ==> m == n
  }

  lemma {:induction false} OnlyName(rule: Rule, e: Evidence, n: string)
    requires rule.driver && DriverIsOneName(rule) && n in OtherMatches(rule, e)
    ensures IsLeast(n, OtherMatches(rule, e))
  {
    AtMostTotal(n, n);
  }

  /** More evidence never takes back what a check has found, and a check that sees
      nothing in it has seen nothing in less, conclusively if there is a symbol table. */
  lemma MoreEvidence(rule: Rule, e: Evidence, f: Evidence)
    requires Richer(e, f) && DriverIsOneName(rule)
    ensures StateOf(rule, e) == Found ==> StateOf(rule, f) == Found
    ensures StateOf(rule, f) == NotSeen ==> StateOf(rule, e) == if e.symbolsPresent then NotSeen else Unknown
    ensures StateOf(rule, f) == Unknown ==> StateOf(rule, e) == Unknown
  {
    forall n | n in SectionMatches(rule, e) ensures n in SectionMatches(rule, f) {}
    forall n | n in ReferenceMatches(rule, e) ensures n in ReferenceMatches(rule, f) {}
    forall n | n in OtherMatches(rule, e) ensures n in OtherMatches(rule, f) {}
    if rule.driver {
      if n :| IsLeast(n, OtherMatches(rule, e)) && e.otherSymbols[n] == Definition { OnlyName(rule, f, n); }
    }
  }

  /** A file with all the lines of another has at least its evidence, and every check
      found in the one is found in the other. */
  lemma MoreLines(rule: Rule, lines: seq<Line>, more: seq<Line>)
    requires multiset(lines) <= multiset(more) && Reading(lines).Inspected? && Reading(more).Inspected?
    requires DriverIsOneName(rule)
    ensures var (e, f) := (Reading(lines).evidence, Reading(more).evidence);
            && Richer(e, f) && (StateOf(rule, e) == Found ==> StateOf(rule, f) == Found)
            && (StateOf(rule, f) == NotSeen ==> StateOf(rule, e) == if e.symbolsPresent then NotSeen else Unknown)
            && (StateOf(rule, f) == Unknown ==> StateOf(rule, e) == Unknown)
  {
    forall line | line in lines ensures line in more {
      assert line in multiset(lines);
      assert line in multiset(more);
    }
    forall n, use | n in NamesUsed(lines, use) ensures n in NamesUsed(more, use) {}
    forall n ensures Uses(lines, n, Defined) ==> Uses(more, n, Defined) {}
    forall n | n in SectionsOf(lines) ensures n in SectionsOf(more) {}
    assert HasSymbolTable(lines) ==> HasSymbolTable(more);
    assert Richer(Reading(lines).evidence, Reading(more).evidence) by {
      hide NamesUsed, Uses, SectionsOf, HasSymbolTable, HasRuntimeSections;
    }
    MoreEvidence(rule, Reading(lines).evidence, Reading(more).evidence);
  }
}
