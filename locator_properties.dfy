/**
 * What the locator promises: how a candidate string is read as a version,
 * and how the two discovery loops reconcile their candidates into one list
 * of runtimes without duplicates.
 */
module LocatorProperties {
  import opened Wrappers
  import opened DotNetVersion
  import opened NetCoreFrameworkLocator

  // ---------------------------------------------------------------------
  // Reading a version from a candidate string
  // ---------------------------------------------------------------------

  lemma VersionCharIsDotOrDigit(c: char)
    ensures IsVersionChar(c) <==> c == '.' || IsDigit(c)
  {
  }

  /** A string of dots and digits is read up to its end. */
  lemma {:induction false} JoinedDigitsAreVersionChars(parts: seq<string>)
    requires |parts| >= 1
    requires forall i :: 0 <= i < |parts| ==> AllDigits(parts[i])
    ensures AllVersionChars(Join(parts))
    decreases |parts|
  {
    forall c | IsDigit(c) || c == '.' ensures IsVersionChar(c) {
      VersionCharIsDotOrDigit(c);
    }
    if |parts| > 1 {
      JoinedDigitsAreVersionChars(parts[1..]);
      var s := parts[0] + "." + Join(parts[1..]);
      forall i | 0 <= i < |s| ensures IsVersionChar(s[i]) {
        if i < |parts[0]| {
          assert s[i] == parts[0][i];
        } else if i > |parts[0]| {
          assert s[i] == Join(parts[1..])[i - |parts[0]| - 1];
        }
      }
    }
  }

  /**
   * Only the leading run of dots and digits matters: whatever follows the
   * first other character is ignored ("6.0.21-preview" reads as "6.0.21").
   */
  lemma VersionFromStringIgnoresSuffix(prefix: string, rest: string)
    requires AllVersionChars(prefix)
    requires rest == [] || !IsVersionChar(rest[0])
    ensures VersionPrefix(prefix + rest) == prefix
    ensures VersionFromString(prefix + rest) == VersionFromString(prefix)
  {
    var text := prefix + rest;
    assert text[..|prefix|] == prefix;
    assert rest != [] ==> text[|prefix|] == rest[0];
    ScannedPrefixIsVersionPrefix(text, |prefix|);
    assert prefix[..|prefix|] == prefix;
    ScannedPrefixIsVersionPrefix(prefix, |prefix|);
  }

  /**
   * A successful read keeps Major and Minor and drops Build and Revision:
   * "6.0.21" and "6.0.21.4", with or without a trailing tag, give 6.0.
   */
  lemma VersionFromStringTruncates(text: string, components: seq<nat>, rest: string)
    requires 2 <= |components| <= 4
    requires forall i :: 0 <= i < |components| ==> components[i] <= Int32MaxValue
    requires rest == [] || !IsVersionChar(rest[0])
    requires text == FormatComponents(components) + rest
    ensures VersionFromString(text) == Some(Version(components[0], components[1]))
  {
    JoinedDigitsAreVersionChars(ComponentStrings(components));
    VersionFromStringIgnoresSuffix(FormatComponents(components), rest);
    VersionFromStringIgnoresSuffix(FormatComponents(components), []);
    assert FormatComponents(components) + [] == FormatComponents(components);
    ParseFormattedComponents(components);
  }

  /** A candidate that does not start with a dot or a digit never gives a version ("abc"). */
  lemma VersionFromStringRejectsNonNumeric(text: string)
    requires text == [] || !IsVersionChar(text[0])
    ensures VersionFromString(text) == None
  {
    assert VersionPrefix(text) == [];
    assert Split([]) == [[]];
  }

  /** A major or minor that does not fit an Int32 makes the read fail. */
  lemma VersionFromStringRejectsOverflow(components: seq<nat>, k: nat, rest: string)
    requires 2 <= |components| && k < |components|
    requires components[k] > Int32MaxValue
    requires rest == [] || !IsVersionChar(rest[0])
    ensures VersionFromString(FormatComponents(components) + rest) == None
  {
    JoinedDigitsAreVersionChars(ComponentStrings(components));
    VersionFromStringIgnoresSuffix(FormatComponents(components), rest);
    ParseRejectsOverflow(components, k);
  }

  /** A version with a single component, or with more than four, is not read. */
  lemma VersionFromStringRejectsComponentCount(components: seq<nat>, rest: string)
    requires |components| == 1 || |components| > 4
    requires rest == [] || !IsVersionChar(rest[0])
    ensures VersionFromString(FormatComponents(components) + rest) == None
  {
    JoinedDigitsAreVersionChars(ComponentStrings(components));
    VersionFromStringIgnoresSuffix(FormatComponents(components), rest);
    ParseRejectsComponentCount(components);
  }

  /**
   * Reading, cutting to Major.Minor, printing that and reading it again
   * gives the same version.
   */
  lemma VersionFromStringIdempotent(text: string, v: Version)
    requires VersionFromString(text) == Some(v)
    ensures VersionFromString(Format(v)) == Some(v)
  {
    assert Format(v) + [] == Format(v);
    VersionFromStringTruncates(Format(v), [v.major, v.minor], []);
  }

  /** 6.0.21 prints as "6.0.21". */
  lemma PrintsPatchVersion()
    ensures FormatComponents([6, 0, 21]) == "6.0.21"
  {
    var a, b, c := "6", "0", "21";
    assert NatToString(21) == c;
    assert ComponentStrings([6, 0, 21]) == [a, b, c];
    assert Join([c]) == c;
    assert [b, c][1..] == [c];
    assert Join([b, c]) == b + "." + c;
    assert [a, b, c][1..] == [b, c];
    assert Join([a, b, c]) == a + "." + (b + "." + c);
  }

  lemma ScenarioPreviewTag()
    ensures VersionFromString("6.0.21-preview") == Some(Version(6, 0))
  {
    PrintsPatchVersion();
    assert "6.0.21" + "-preview" == "6.0.21-preview";
    VersionFromStringTruncates("6.0.21-preview", [6, 0, 21], "-preview");
  }

  lemma ScenarioNotAVersion()
    ensures VersionFromString("abc") == None
  {
    VersionFromStringRejectsNonNumeric("abc");
  }

  lemma ScenarioTwoComponents()
    ensures VersionFromString("8.1") == Some(Version(8, 1))
  {
    assert FormatComponents([8, 1]) == "8.1";
    assert "8.1" + [] == "8.1";
    VersionFromStringTruncates("8.1", [8, 1], []);
  }

  // ---------------------------------------------------------------------
  // The runtime-list filter
  // ---------------------------------------------------------------------

  /**
   * The filter keeps exactly the lines that start with
   * "Microsoft.NETCore.App " and yields what follows that prefix; the
   * literal offset 22 is the prefix's length.
   */
  lemma {:induction false} RuntimeListCandidatesExactly(lines: seq<string>)
    ensures |RuntimeListPrefix| == VersionStart
    ensures forall c :: c in RuntimeListCandidates(lines) <==>
      exists i :: 0 <= i < |lines| && IsRuntimeLine(lines[i], c)
    decreases |lines|
  {
    if lines != [] {
      var init := lines[..|lines| - 1];
      var last := lines[|lines| - 1];
      RuntimeListCandidatesExactly(init);
      forall c ensures c in RuntimeListCandidates(lines) <==> exists i :: 0 <= i < |lines| && IsRuntimeLine(lines[i], c) {
        if c in RuntimeListCandidates(lines) {
          if c in RuntimeListCandidates(init) {
            var i :| 0 <= i < |init| && IsRuntimeLine(init[i], c);
            assert lines[i] == init[i];
          } else {
            assert IsRuntimeLine(lines[|lines| - 1], c);
          }
        }
        if exists i :: 0 <= i < |lines| && IsRuntimeLine(lines[i], c) {
          var i :| 0 <= i < |lines| && IsRuntimeLine(lines[i], c);
          if i < |init| {
            assert init[i] == lines[i];
          } else {
            LineEntryIsCandidate(last, c);
          }
        }
      }
    }
  }

  lemma LineEntryIsCandidate(line: string, c: string)
    requires IsRuntimeLine(line, c)
    ensures RuntimeListEntry(line) == Some(c)
  {
    assert line[..|RuntimeListPrefix|] == RuntimeListPrefix;
    assert RuntimeListEntry(line).value == (RuntimeListPrefix + c)[VersionStart..];
  }

  /** Entry `k` of `entries` is the text after the prefix on line `lineIndex[k]`. */
  predicate EntriesAt(lines: seq<string>, entries: seq<string>, lineIndex: seq<nat>) {
    && |lineIndex| == |entries|
    && forall k :: 0 <= k < |lineIndex| ==>
         lineIndex[k] < |lines| && IsRuntimeLine(lines[lineIndex[k]], entries[k])
  }

  predicate StrictlyIncreasing(lineIndex: seq<nat>) {
    forall k, l :: 0 <= k < l < |lineIndex| ==> lineIndex[k] < lineIndex[l]
  }

  /** Every line that starts with the prefix is among `lineIndex`. */
  predicate CoversRuntimeLines(lines: seq<string>, lineIndex: seq<nat>) {
    forall i :: 0 <= i < |lines| && StartsWith(lines[i], RuntimeListPrefix) ==> i in lineIndex
  }

  /** A last line that does not start with the prefix adds no entry. */
  lemma SkipLine(lines: seq<string>, entries: seq<string>, lineIndex: seq<nat>)
    requires lines != []
    requires EntriesAt(lines[..|lines| - 1], entries, lineIndex) && CoversRuntimeLines(lines[..|lines| - 1], lineIndex)
    requires !StartsWith(lines[|lines| - 1], RuntimeListPrefix)
    ensures EntriesAt(lines, entries, lineIndex) && CoversRuntimeLines(lines, lineIndex)
  {
    var init := lines[..|lines| - 1];
    forall k | 0 <= k < |lineIndex| ensures lineIndex[k] < |lines| && IsRuntimeLine(lines[lineIndex[k]], entries[k]) {
      assert init[lineIndex[k]] == lines[lineIndex[k]];
    }
    forall i | 0 <= i < |lines| && StartsWith(lines[i], RuntimeListPrefix) ensures i in lineIndex {
      assert i < |init| && init[i] == lines[i];
    }
  }

  /** A last line that starts with the prefix adds its entry, at its own index, after all earlier ones. */
  lemma TakeLine(lines: seq<string>, entries: seq<string>, lineIndex: seq<nat>, entry: string)
    requires lines != []
    requires EntriesAt(lines[..|lines| - 1], entries, lineIndex) && StrictlyIncreasing(lineIndex)
    requires CoversRuntimeLines(lines[..|lines| - 1], lineIndex)
    requires IsRuntimeLine(lines[|lines| - 1], entry)
    ensures EntriesAt(lines, entries + [entry], lineIndex + [|lines| - 1])
    ensures StrictlyIncreasing(lineIndex + [|lines| - 1])
    ensures CoversRuntimeLines(lines, lineIndex + [|lines| - 1])
  {
    var init, idx, out := lines[..|lines| - 1], lineIndex + [|lines| - 1], entries + [entry];
    forall k | 0 <= k < |idx| ensures idx[k] < |lines| && IsRuntimeLine(lines[idx[k]], out[k]) {
      if k < |lineIndex| {
        assert idx[k] == lineIndex[k] && out[k] == entries[k] && init[lineIndex[k]] == lines[lineIndex[k]];
      }
    }
    forall k, l | 0 <= k < l < |idx| ensures idx[k] < idx[l] {
      assert idx[k] == lineIndex[k] < |init|;
    }
    forall i | 0 <= i < |lines| && StartsWith(lines[i], RuntimeListPrefix) ensures i in idx {
      if i < |init| {
        assert init[i] == lines[i] && i in lineIndex;
      }
    }
  }

  /**
   * The entries come in the order of their lines, one per matching line,
   * repeats included: `lineIndex` gives each entry's line, strictly
   * increasing, and every line that starts with the prefix has its entry.
   */
  lemma {:induction false} RuntimeListCandidatesInLineOrder(lines: seq<string>) returns (lineIndex: seq<nat>)
    ensures EntriesAt(lines, RuntimeListCandidates(lines), lineIndex)
    ensures StrictlyIncreasing(lineIndex)
    ensures CoversRuntimeLines(lines, lineIndex)
    decreases |lines|
  {
    if lines == [] {
      lineIndex := [];
    } else {
      var n := |lines| - 1;
      var init := lines[..n];
      var before := RuntimeListCandidatesInLineOrder(init);
      match RuntimeListEntry(lines[n])
      case None =>
        assert RuntimeListCandidates(lines) == RuntimeListCandidates(init);
        SkipLine(lines, RuntimeListCandidates(init), before);
        lineIndex := before;
      case Some(c) =>
        assert RuntimeListCandidates(lines) == RuntimeListCandidates(init) + [c];
        TakeLine(lines, RuntimeListCandidates(init), before, c);
        lineIndex := before + [n];
    }
  }

  // ---------------------------------------------------------------------
  // Reconciling the two sources
  // ---------------------------------------------------------------------

  /** The versions the candidates give, in order, repetitions and unsupported ones included. */
  function Parsed(candidates: seq<string>): (vs: seq<Version>)
    decreases |candidates|
  {
    if candidates == [] then []
    else
      var init := Parsed(candidates[..|candidates| - 1]);
      match VersionFromString(candidates[|candidates| - 1])
      case None => init
      case Some(v) => init + [v]
  }

  /** Some candidate reads as `v`. */
  predicate SomeCandidateReads(candidates: seq<string>, v: Version) {
    exists c :: c in candidates && VersionFromString(c) == Some(v)
  }

  /** Parsed holds a version exactly when some candidate reads as it. */
  lemma {:induction false} ParsedMembers(candidates: seq<string>, v: Version)
    ensures v in Parsed(candidates) <==> SomeCandidateReads(candidates, v)
    decreases |candidates|
  {
    if candidates != [] {
      var n := |candidates| - 1;
      var init, last := candidates[..n], candidates[n];
      ParsedMembers(init, v);
      assert candidates == init + [last];
      assert v in Parsed(candidates) <==> v in Parsed(init) || VersionFromString(last) == Some(v);
      assert forall c :: c in candidates <==> c in init || c == last;
    }
  }

  /** The position of the first occurrence of `x` in `s`. */
  function FirstIndex<T(==)>(s: seq<T>, x: T): (i: nat)
    requires x in s
    ensures i < |s| && s[i] == x
    ensures forall j :: 0 <= j < i ==> s[j] != x
  {
    if s[0] == x then 0 else FirstIndex(s[1..], x) + 1
  }

  /** Extending a sequence keeps the first occurrence of what it already held. */
  lemma FirstIndexInPrefix<T>(s: seq<T>, t: seq<T>, x: T)
    requires s <= t && x in s
    ensures x in t && FirstIndex(t, x) == FirstIndex(s, x)
  {
    assert t[FirstIndex(s, x)] == x;
  }

  /** A value appended for the first time first occurs at the end. */
  lemma FirstIndexOfAppended<T>(s: seq<T>, x: T)
    requires x !in s
    ensures x in s + [x] && FirstIndex(s + [x], x) == |s|
  {
    assert (s + [x])[|s|] == x;
    assert forall j :: 0 <= j < |s| ==> (s + [x])[j] == s[j];
  }

  /** The invariant both loops keep over `alreadyFound` and what has been yielded. */
  predicate Consistent(d: Discovery) {
    && (forall i, j :: 0 <= i < j < |d.alreadyFound| ==> d.alreadyFound[i] != d.alreadyFound[j])
    && (forall k :: 0 <= k < |d.frameworks| ==> d.frameworks[k].runtime == NetCore && d.frameworks[k].version in d.alreadyFound)
    && (forall i, j :: 0 <= i < j < |d.frameworks| ==> d.frameworks[i].version != d.frameworks[j].version)
  }

  lemma StepConsistent(d: Discovery, candidate: string, checkCeiling: bool)
    requires Consistent(d)
    ensures Consistent(Step(d, candidate, checkCeiling))
  {
    var d' := Step(d, candidate, checkCeiling);
    if d'.alreadyFound != d.alreadyFound {
      var v := VersionFromString(candidate).value;
      assert v !in d.alreadyFound;
      forall k | 0 <= k < |d'.frameworks| ensures d'.frameworks[k].version in d'.alreadyFound {
        if k < |d.frameworks| {
          assert d'.frameworks[k] == d.frameworks[k];
        }
      }
    }
  }

  lemma {:induction false} PassConsistent(d: Discovery, candidates: seq<string>, checkCeiling: bool)
    requires Consistent(d)
    ensures Consistent(Pass(d, candidates, checkCeiling))
    decreases |candidates|
  {
    if candidates != [] {
      var init := candidates[..|candidates| - 1];
      PassConsistent(d, init, checkCeiling);
      StepConsistent(Pass(d, init, checkCeiling), candidates[|candidates| - 1], checkCeiling);
    }
  }

  /**
   * After a loop `alreadyFound` holds only what it held before and versions
   * the loop read; if the loop ran to the end, it holds every version read.
   */
  lemma {:induction false} PassFound(d: Discovery, candidates: seq<string>, checkCeiling: bool, v: Version)
    requires d.unknown.None?
    ensures v in Pass(d, candidates, checkCeiling).alreadyFound ==> v in d.alreadyFound || v in Parsed(candidates)
    ensures Pass(d, candidates, checkCeiling).unknown.None? ==>
      (v in Pass(d, candidates, checkCeiling).alreadyFound <==> v in d.alreadyFound || v in Parsed(candidates))
    decreases |candidates|
  {
    if candidates != [] {
      PassFound(d, candidates[..|candidates| - 1], checkCeiling, v);
    }
  }

  /**
   * `v` may be yielded by a loop over `candidates` that started from `d`:
   * read from those candidates, not found before, with a known CLR version
   * and, in the directory loop, within the ceiling.
   */
  predicate NewFromSource(d: Discovery, candidates: seq<string>, checkCeiling: bool, v: Version) {
    && v in Parsed(candidates)
    && v !in d.alreadyFound
    && ClrVersionKnown(v)
    && (checkCeiling ==> v.major <= MaxSupportedMajor)
  }

  /** What a loop yields is new and read from its own candidates. */
  lemma {:induction false} PassYieldsOnlyNew(d: Discovery, candidates: seq<string>, checkCeiling: bool)
    ensures forall k :: |d.frameworks| <= k < |Pass(d, candidates, checkCeiling).frameworks| ==>
      NewFromSource(d, candidates, checkCeiling, Pass(d, candidates, checkCeiling).frameworks[k].version)
    decreases |candidates|
  {
    if candidates != [] {
      var init := candidates[..|candidates| - 1];
      var x := candidates[|candidates| - 1];
      var q := Pass(d, init, checkCeiling);
      var p := Pass(d, candidates, checkCeiling);
      assert p == Step(q, x, checkCeiling);
      PassYieldsOnlyNew(d, init, checkCeiling);
      assert Parsed(init) <= Parsed(candidates);
      forall k | |d.frameworks| <= k < |p.frameworks|
        ensures NewFromSource(d, candidates, checkCeiling, p.frameworks[k].version)
      {
        if k < |q.frameworks| {
          assert p.frameworks[k] == q.frameworks[k];
          assert NewFromSource(d, init, checkCeiling, q.frameworks[k].version);
        } else {
          var v := VersionFromString(x).value;
          assert p.frameworks[k].version == v;
          assert v !in q.alreadyFound;
          assert Parsed(candidates) == Parsed(init) + [v];
        }
      }
    }
  }

  /**
   * A loop that runs to the end yields every version its candidates give
   * that was not found before, except, in the directory loop, those above
   * the ceiling.
   */
  lemma {:induction false} PassYieldsAllNew(d: Discovery, candidates: seq<string>, checkCeiling: bool, v: Version)
    requires d.unknown.None? && Pass(d, candidates, checkCeiling).unknown.None?
    requires v in Parsed(candidates) && v !in d.alreadyFound
    requires !checkCeiling || v.major <= MaxSupportedMajor
    ensures RuntimeFramework(NetCore, v) in Pass(d, candidates, checkCeiling).frameworks
    decreases |candidates|
  {
    var init := candidates[..|candidates| - 1];
    var q := Pass(d, init, checkCeiling);
    if v in Parsed(init) {
      PassYieldsAllNew(d, init, checkCeiling, v);
    } else {
      PassFound(d, init, checkCeiling, v);
    }
  }

  /** The loop would throw on `v`: new, past any ceiling check, and unknown to the constructor. */
  predicate ThrowsOn(d: Discovery, checkCeiling: bool, v: Version) {
    v !in d.alreadyFound && (!checkCeiling || v.major <= MaxSupportedMajor) && !ClrVersionKnown(v)
  }

  /**
   * A loop ends in an exception exactly when one of its candidates gives a
   * version it has not found before and whose runtime cannot be constructed;
   * the exception is for such a version.
   */
  lemma {:induction false} PassThrows(d: Discovery, candidates: seq<string>, checkCeiling: bool)
    requires d.unknown.None?
    ensures Pass(d, candidates, checkCeiling).unknown.Some? <==>
      exists v :: v in Parsed(candidates) && ThrowsOn(d, checkCeiling, v)
    ensures Pass(d, candidates, checkCeiling).unknown.Some? ==>
      Pass(d, candidates, checkCeiling).unknown.value in Parsed(candidates)
      && ThrowsOn(d, checkCeiling, Pass(d, candidates, checkCeiling).unknown.value)
    decreases |candidates|
  {
    if candidates != [] {
      var init := candidates[..|candidates| - 1];
      var x := candidates[|candidates| - 1];
      var q := Pass(d, init, checkCeiling);
      var p := Pass(d, candidates, checkCeiling);
      assert p == Step(q, x, checkCeiling);
      PassThrows(d, init, checkCeiling);
      var px := VersionFromString(x);
      assert Parsed(candidates) == if px.Some? then Parsed(init) + [px.value] else Parsed(init);
      if q.unknown.Some? {
        assert p == q;
        var v :| v in Parsed(init) && ThrowsOn(d, checkCeiling, v);
        assert v in Parsed(candidates);
      } else if p.unknown.Some? {
        var v := p.unknown.value;
        assert px == Some(v) && v !in q.alreadyFound;
        assert ThrowsOn(d, checkCeiling, v);
        assert v in Parsed(candidates);
      } else {
        forall v | v in Parsed(candidates) ensures !ThrowsOn(d, checkCeiling, v) {
          if v !in Parsed(init) {
            assert px == Some(v);
            PassFound(d, init, checkCeiling, v);
            assert ThrowsOn(d, checkCeiling, v) ==> Step(q, x, checkCeiling).unknown == Some(v);
          }
        }
      }
    }
  }

  /**
   * From position `from` on, the runtimes in `fs` come from `source`, in
   * the order of their first occurrence there.
   */
  predicate InFirstOccurrenceOrder(fs: seq<RuntimeFramework>, from: nat, source: seq<Version>)
  {
    && (forall k :: from <= k < |fs| ==> fs[k].version in source)
    && (forall k, l :: from <= k < l < |fs| ==>
          FirstIndex(source, fs[k].version) < FirstIndex(source, fs[l].version))
  }

  /** Growing the source at its end keeps the order of what it already held. */
  lemma OrderKeptWhenSourceGrows(fs: seq<RuntimeFramework>, from: nat, before: seq<Version>, after: seq<Version>)
    requires before <= after
    requires InFirstOccurrenceOrder(fs, from, before)
    ensures InFirstOccurrenceOrder(fs, from, after)
  {
    forall x | x in before ensures x in after && FirstIndex(after, x) == FirstIndex(before, x) {
      FirstIndexInPrefix(before, after, x);
    }
  }

  /** A runtime for a version new to the source goes after every runtime already read from it. */
  lemma OrderKeptWhenAppending(fs: seq<RuntimeFramework>, from: nat, before: seq<Version>, f: RuntimeFramework)
    requires InFirstOccurrenceOrder(fs, from, before)
    requires forall k :: from <= k < |fs| ==> fs[k].version in before
    requires f.version !in before
    ensures InFirstOccurrenceOrder(fs + [f], from, before + [f.version])
  {
    var after, gs := before + [f.version], fs + [f];
    FirstIndexOfAppended(before, f.version);
    forall x | x in before ensures x in after && FirstIndex(after, x) == FirstIndex(before, x) {
      FirstIndexInPrefix(before, after, x);
    }
    forall k | from <= k < |gs| ensures gs[k].version in after {
      if k < |fs| {
        assert gs[k] == fs[k];
      }
    }
    forall k, l | from <= k < l < |gs|
      ensures FirstIndex(after, gs[k].version) < FirstIndex(after, gs[l].version)
    {
      assert gs[k] == fs[k];
      if l < |fs| {
        assert gs[l] == fs[l];
      }
    }
  }

  /**
   * A loop yields its versions in the order in which its candidates first
   * give them.
   */
  lemma {:induction false} PassYieldsInFirstOccurrenceOrder(d: Discovery, candidates: seq<string>, checkCeiling: bool)
    requires d.unknown.None?
    ensures InFirstOccurrenceOrder(Pass(d, candidates, checkCeiling).frameworks, |d.frameworks|, Parsed(candidates))
    decreases |candidates|
  {
    if candidates != [] {
      var init := candidates[..|candidates| - 1];
      var x := candidates[|candidates| - 1];
      var q := Pass(d, init, checkCeiling);
      var p := Pass(d, candidates, checkCeiling);
      assert p == Step(q, x, checkCeiling);
      var before, after := Parsed(init), Parsed(candidates);
      PassYieldsInFirstOccurrenceOrder(d, init, checkCeiling);
      if |p.frameworks| == |q.frameworks| {
        assert p.frameworks == q.frameworks;
        assert before <= after;
        OrderKeptWhenSourceGrows(q.frameworks, |d.frameworks|, before, after);
      } else {
        var f := p.frameworks[|q.frameworks|];
        assert p.frameworks == q.frameworks + [f];
        assert VersionFromString(x) == Some(f.version) && f.version !in q.alreadyFound;
        assert after == before + [f.version];
        PassFound(d, init, checkCeiling, f.version);
        PassYieldsOnlyNew(d, init, checkCeiling);
        assert forall k :: |d.frameworks| <= k < |q.frameworks| ==> NewFromSource(d, init, checkCeiling, q.frameworks[k].version);
        OrderKeptWhenAppending(q.frameworks, |d.frameworks|, before, f);
      }
    }
  }

  // ---------------------------------------------------------------------
  // What enumerating FindDotNetCoreFrameworks gives
  // ---------------------------------------------------------------------

  /** After the directory loop, `alreadyFound` holds exactly the versions the directory names give. */
  lemma DirectoryPassFound(runtimeDirectories: seq<string>, v: Version)
    ensures v in Pass(NothingFound, runtimeDirectories, true).alreadyFound <==> v in Parsed(runtimeDirectories)
  {
    PassFound(NothingFound, runtimeDirectories, true, v);
  }

  /** No two runtimes yielded share a version, and every one is a .NET Core runtime. */
  lemma DiscoverNoDuplicates(runtimeDirectories: seq<string>, listCandidates: seq<string>)
    ensures var out := Discover(runtimeDirectories, listCandidates).yielded;
      forall i, j :: 0 <= i < j < |out| ==> out[i].version != out[j].version
    ensures var out := Discover(runtimeDirectories, listCandidates).yielded;
      forall k :: 0 <= k < |out| ==> out[k].runtime == NetCore
  {
    var afterDirectories := Pass(NothingFound, runtimeDirectories, true);
    PassConsistent(NothingFound, runtimeDirectories, true);
    PassConsistent(afterDirectories, listCandidates, false);
  }

  /**
   * The directory results come first, each read from a directory name and
   * within the ceiling; the runtime-list results follow, each read from the
   * list and none of them a version any directory name gave.
   */
  lemma DiscoverSourceOrder(runtimeDirectories: seq<string>, listCandidates: seq<string>)
    ensures DirectoryResults(runtimeDirectories) <= Discover(runtimeDirectories, listCandidates).yielded
    ensures var fromDirectories := DirectoryResults(runtimeDirectories);
      forall k :: 0 <= k < |fromDirectories| ==>
        fromDirectories[k].version in Parsed(runtimeDirectories) && fromDirectories[k].version.major <= MaxSupportedMajor
    ensures var out := Discover(runtimeDirectories, listCandidates).yielded;
      forall k :: |DirectoryResults(runtimeDirectories)| <= k < |out| ==>
        out[k].version in Parsed(listCandidates) && out[k].version !in Parsed(runtimeDirectories)
  {
    var afterDirectories := Pass(NothingFound, runtimeDirectories, true);
    var afterList := Pass(afterDirectories, listCandidates, false);
    assert DirectoryResults(runtimeDirectories) == afterDirectories.frameworks;
    assert Discover(runtimeDirectories, listCandidates).yielded == afterList.frameworks;
    PassYieldsOnlyNew(NothingFound, runtimeDirectories, true);
    PassYieldsOnlyNew(afterDirectories, listCandidates, false);
    forall k | |afterDirectories.frameworks| <= k < |afterList.frameworks|
      ensures afterList.frameworks[k].version !in Parsed(runtimeDirectories)
    {
      assert NewFromSource(afterDirectories, listCandidates, false, afterList.frameworks[k].version);
      DirectoryPassFound(runtimeDirectories, afterList.frameworks[k].version);
    }
  }

  /** The directory results come in the order the directory names first give them. */
  lemma DiscoverDirectoryOrder(runtimeDirectories: seq<string>)
    ensures InFirstOccurrenceOrder(DirectoryResults(runtimeDirectories), 0, Parsed(runtimeDirectories))
  {
    assert DirectoryResults(runtimeDirectories) == Pass(NothingFound, runtimeDirectories, true).frameworks;
    PassYieldsInFirstOccurrenceOrder(NothingFound, runtimeDirectories, true);
  }

  /** The runtime-list results come in the order the list first gives them. */
  lemma DiscoverRuntimeListOrder(runtimeDirectories: seq<string>, listCandidates: seq<string>)
    ensures InFirstOccurrenceOrder(Discover(runtimeDirectories, listCandidates).yielded,
      |DirectoryResults(runtimeDirectories)|, Parsed(listCandidates))
  {
    var afterDirectories := Pass(NothingFound, runtimeDirectories, true);
    assert DirectoryResults(runtimeDirectories) == afterDirectories.frameworks;
    assert Discover(runtimeDirectories, listCandidates).yielded == Pass(afterDirectories, listCandidates, false).frameworks;
    PassYieldsInFirstOccurrenceOrder(afterDirectories, listCandidates, false);
  }

  /**
   * A version some directory name gives with Major above 7 is never
   * yielded: the directory loop skips it, and since it is already in
   * `alreadyFound`, the runtime-list loop skips it too.
   */
  lemma DiscoverDirectoryCeiling(runtimeDirectories: seq<string>, listCandidates: seq<string>, v: Version)
    requires v in Parsed(runtimeDirectories) && v.major > MaxSupportedMajor
    ensures forall f :: f in Discover(runtimeDirectories, listCandidates).yielded ==> f.version != v
    ensures Discover(runtimeDirectories, listCandidates).thrownFor != Some(v)
  {
    DiscoverSourceOrder(runtimeDirectories, listCandidates);
    var afterDirectories := Pass(NothingFound, runtimeDirectories, true);
    DirectoryPassFound(runtimeDirectories, v);
    PassThrows(afterDirectories, listCandidates, false);
    var out := Discover(runtimeDirectories, listCandidates).yielded;
    var fromDirectories := DirectoryResults(runtimeDirectories);
    forall f | f in out ensures f.version != v {
      var k :| 0 <= k < |out| && out[k] == f;
      if k < |fromDirectories| {
        assert out[k] == fromDirectories[k];
      }
    }
  }

  /** Every version a directory name gives within the ceiling is yielded. */
  lemma DiscoverDirectoryComplete(runtimeDirectories: seq<string>, listCandidates: seq<string>, v: Version)
    requires v in Parsed(runtimeDirectories) && v.major <= MaxSupportedMajor
    ensures RuntimeFramework(NetCore, v) in DirectoryResults(runtimeDirectories)
    ensures RuntimeFramework(NetCore, v) in Discover(runtimeDirectories, listCandidates).yielded
  {
    PassYieldsAllNew(NothingFound, runtimeDirectories, true, v);
  }

  /**
   * An enumeration that ends without an exception yields every version the
   * runtime list gives that no directory name gave.
   */
  lemma DiscoverRuntimeListComplete(runtimeDirectories: seq<string>, listCandidates: seq<string>, v: Version)
    requires Discover(runtimeDirectories, listCandidates).thrownFor.None?
    requires v in Parsed(listCandidates) && v !in Parsed(runtimeDirectories)
    ensures RuntimeFramework(NetCore, v) in Discover(runtimeDirectories, listCandidates).yielded
  {
    DirectoryPassFound(runtimeDirectories, v);
    PassYieldsAllNew(Pass(NothingFound, runtimeDirectories, true), listCandidates, false, v);
  }

  /**
   * The runtime-list loop has no ceiling: a version with Major above 7
   * that only the runtime list gives is not skipped but reaches the
   * `RuntimeFramework` constructor, and the enumeration throws. It throws
   * exactly when the list gives such a version, and for one of them.
   */
  lemma DiscoverRuntimeListHasNoCeiling(runtimeDirectories: seq<string>, listCandidates: seq<string>)
    ensures Discover(runtimeDirectories, listCandidates).thrownFor.Some? <==>
      exists v :: v in Parsed(listCandidates) && v !in Parsed(runtimeDirectories) && v.major > MaxSupportedMajor
    ensures var thrown := Discover(runtimeDirectories, listCandidates).thrownFor;
      thrown.Some? ==>
        thrown.value in Parsed(listCandidates) && thrown.value !in Parsed(runtimeDirectories)
        && thrown.value.major > MaxSupportedMajor
  {
    var afterDirectories := Pass(NothingFound, runtimeDirectories, true);
    PassThrows(afterDirectories, listCandidates, false);
    forall v ensures v in afterDirectories.alreadyFound <==> v in Parsed(runtimeDirectories) {
      DirectoryPassFound(runtimeDirectories, v);
    }
  }

  /**
   * "8.1" from a directory is skipped; "8.1" from the runtime list alone
   * makes the enumeration throw; from both it is skipped.
   */
  lemma ScenarioUnsupportedMajor()
    ensures Discover(["8.1"], []) == Enumeration([], None)
    ensures Discover([], ["8.1"]) == Enumeration([], Some(Version(8, 1)))
    ensures Discover(["8.1"], ["8.1"]) == Enumeration([], None)
  {
    ScenarioTwoComponents();
    assert ["8.1"][..0] == [];
  }

  lemma ReadsAsMajorMinor(text: string, major: nat, minor: nat, patch: nat)
    requires major < 10 && minor < 10 && patch < 10
    requires text == [DigitChar(major), '.', DigitChar(minor), '.', DigitChar(patch)]
    ensures VersionFromString(text) == Some(Version(major, minor))
  {
    var a, b, c := [DigitChar(major)], [DigitChar(minor)], [DigitChar(patch)];
    assert ComponentStrings([major, minor, patch]) == [a, b, c];
    assert Join([c]) == c;
    assert [b, c][1..] == [c];
    assert Join([b, c]) == b + "." + c;
    assert [a, b, c][1..] == [b, c];
    assert Join([a, b, c]) == a + "." + (b + "." + c);
    assert FormatComponents([major, minor, patch]) == text;
    assert text + [] == text;
    VersionFromStringTruncates(text, [major, minor, patch], []);
  }

  /** A candidate giving a new version within the ceiling adds it and yields its runtime. */
  lemma StepYields(d: Discovery, candidate: string, v: Version, checkCeiling: bool)
    requires d.unknown.None? && VersionFromString(candidate) == Some(v)
    requires v !in d.alreadyFound && v.major <= MaxSupportedMajor
    ensures Step(d, candidate, checkCeiling) ==
      Discovery(d.alreadyFound + [v], d.frameworks + [RuntimeFramework(NetCore, v)], None)
  {
  }

  /** A candidate giving a version already found changes nothing. */
  lemma StepSkipsFound(d: Discovery, candidate: string, v: Version, checkCeiling: bool)
    requires VersionFromString(candidate) == Some(v) && v in d.alreadyFound
    ensures Step(d, candidate, checkCeiling) == d
  {
  }

  /** Directory names reading as 6.0, 7.0 and 6.0 again give 6.0 then 7.0. */
  lemma RepeatedMinorDirectories(first: string, second: string, third: string)
    requires VersionFromString(first) == Some(Version(6, 0))
    requires VersionFromString(second) == Some(Version(7, 0))
    requires VersionFromString(third) == Some(Version(6, 0))
    ensures Discover([first, second, third], []) ==
      Enumeration([RuntimeFramework(NetCore, Version(6, 0)), RuntimeFramework(NetCore, Version(7, 0))], None)
  {
    var v6, v7 := Version(6, 0), Version(7, 0);
    var names := [first, second, third];
    assert names[..2] == [first, second];
    assert names[..2][..1] == [first];
    assert names[..2][..1][..0] == [];
    var d1 := Pass(NothingFound, names[..2][..1], true);
    assert Pass(NothingFound, names[..2][..1][..0], true) == NothingFound;
    assert d1 == Step(Pass(NothingFound, names[..2][..1][..0], true), first, true);
    StepYields(NothingFound, first, v6, true);
    assert d1 == Discovery([v6], [RuntimeFramework(NetCore, v6)], None);
    var d2 := Pass(NothingFound, names[..2], true);
    assert d2 == Step(d1, second, true);
    StepYields(d1, second, v7, true);
    assert d2 == Discovery([v6, v7], [RuntimeFramework(NetCore, v6), RuntimeFramework(NetCore, v7)], None);
    assert Pass(NothingFound, names, true) == Step(d2, third, true);
    StepSkipsFound(d2, third, v6, true);
  }

  /** Several patch directories of one release give that release once, where it first appears. */
  lemma ScenarioRepeatedMinor()
    ensures Discover(["6.0.1", "7.0.0", "6.0.2"], []) ==
      Enumeration([RuntimeFramework(NetCore, Version(6, 0)), RuntimeFramework(NetCore, Version(7, 0))], None)
  {
    ReadsAsMajorMinor("6.0.1", 6, 0, 1);
    ReadsAsMajorMinor("7.0.0", 7, 0, 0);
    ReadsAsMajorMinor("6.0.2", 6, 0, 2);
    RepeatedMinorDirectories("6.0.1", "7.0.0", "6.0.2");
  }
}
