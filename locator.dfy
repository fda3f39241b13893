/**
 * Discovery of installed .NET Core runtimes (NUnit engine,
 * `NetCoreFrameworkLocator`). Two sources feed it: the names of the
 * sub-directories of `shared/Microsoft.NETCore.App` under the dotnet install
 * directory, and the lines `dotnet --list-runtimes` prints. Both arrive here
 * as sequences of strings; reading the disk and running the process are not
 * part of this model.
 */
module NetCoreFrameworkLocator {
  import opened Wrappers
  import opened DotNetVersion

  /** The characters the version scan accepts. */
  const VersionChars: string := ".0123456789"

  /** Runtimes whose major version is above this are not yet supported (issue #1223). */
  const MaxSupportedMajor: nat := 7

  /** The start of a `dotnet --list-runtimes` line that names a .NET Core runtime. */
  const RuntimeListPrefix: string := "Microsoft.NETCore.App "

  /** Where the version starts in such a line: written as a literal in the locator. */
  const VersionStart: nat := 22

  /** A version as the locator keeps it: Major and Minor only. */
  datatype Version = Version(major: nat, minor: nat)

  /**
   * The engine's runtime kinds. This locator only ever produces NetCore; the
   * other kinds belong to locators that are not part of this model.
   */
  datatype RuntimeType = NetCore | OtherRuntime

  datatype RuntimeFramework = RuntimeFramework(runtime: RuntimeType, version: Version)

  /** `Version.ToString(2)`: "major.minor". */
  function Format(v: Version): string {
    FormatComponents([v.major, v.minor])
  }

  predicate IsVersionChar(c: char) {
    c in VersionChars
  }

  predicate AllVersionChars(s: string) {
    forall i :: 0 <= i < |s| ==> IsVersionChar(s[i])
  }

  /** The longest prefix of `text` made only of dots and digits. */
  function VersionPrefix(text: string): (p: string)
    ensures |p| <= |text| && p == text[..|p|]
    ensures AllVersionChars(p)
    ensures |p| == |text| || !IsVersionChar(text[|p|])
  {
    if text == [] || !IsVersionChar(text[0]) then []
    else
      var rest := VersionPrefix(text[1..]);
      assert forall i :: 1 <= i <= |rest| ==> ([text[0]] + rest)[i] == text[i];
      [text[0]] + rest
  }

  /**
   * What `TryGetVersionFromString` yields: the version of the scanned
   * prefix, cut to Major and Minor, or None where the constructor throws.
   */
  function VersionFromString(text: string): (r: Option<Version>)
    ensures r.Some? ==> r.value.major <= Int32MaxValue && r.value.minor <= Int32MaxValue
  {
    match ParseVersion(VersionPrefix(text))
    case None => None
    case Some(full) => Some(Version(full.major, full.minor))
  }

  /**
   * `TryGetVersionFromString`: count the leading dots and digits, construct
   * a `System.Version` from them and keep its Major and Minor. On failure
   * the out-parameter is `new Version()`, that is 0.0.
   */
  method TryGetVersionFromString(text: string) returns (ok: bool, newVersion: Version)
    ensures ok <==> VersionFromString(text).Some?
    ensures ok ==> newVersion == VersionFromString(text).value
    ensures !ok ==> newVersion == Version(0, 0)
  {
    var len := 0;
    while len < |text|
      invariant 0 <= len <= |text|
      invariant AllVersionChars(text[..len])
    {
      if IsVersionChar(text[len]) {
        len := len + 1;
      } else {
        break;
      }
    }
    ScannedPrefixIsVersionPrefix(text, len);

    var fullVersion := ParseVersion(text[..len]);
    if fullVersion.Some? {
      newVersion := Version(fullVersion.value.major, fullVersion.value.minor);
      ok := true;
    } else {
      newVersion := Version(0, 0);
      ok := false;
    }
  }

  /** Any scan that stops at the first other character finds exactly VersionPrefix. */
  lemma {:induction false} ScannedPrefixIsVersionPrefix(text: string, len: nat)
    requires len <= |text|
    requires AllVersionChars(text[..len])
    requires len == |text| || !IsVersionChar(text[len])
    ensures VersionPrefix(text) == text[..len]
    decreases len
  {
    if len > 0 {
      assert text[..len][0] == text[0];
      assert text[1..][..len - 1] == text[..len][1..];
      ScannedPrefixIsVersionPrefix(text[1..], len - 1);
      assert text[..len] == [text[0]] + text[1..][..len - 1];
    } else if text != [] {
      assert !IsVersionChar(text[0]);
    }
  }

  predicate StartsWith(line: string, prefix: string) {
    |prefix| <= |line| && line[..|prefix|] == prefix
  }

  /**
   * The filter of `GetRuntimeList` applied to one output line: the text
   * after the prefix when the line starts with it.
   */
  function RuntimeListEntry(line: string): (r: Option<string>)
    ensures r.Some? <==> StartsWith(line, RuntimeListPrefix)
    ensures r.Some? ==> line == RuntimeListPrefix + r.value
  {
    if StartsWith(line, RuntimeListPrefix) then
      assert line == line[..VersionStart] + line[VersionStart..];
      Some(line[VersionStart..])
    else None
  }

  /** `line` is a runtime-list line naming a .NET Core runtime whose version text is `candidate`. */
  predicate IsRuntimeLine(line: string, candidate: string) {
    line == RuntimeListPrefix + candidate
  }

  /** Some line of `lines` is a runtime-list line with version text `candidate`. */
  predicate NamedIn(lines: seq<string>, candidate: string) {
    exists i :: 0 <= i < |lines| && IsRuntimeLine(lines[i], candidate)
  }

  /** The version candidates `GetRuntimeList` yields for the given output lines, in order. */
  function RuntimeListCandidates(lines: seq<string>): (candidates: seq<string>)
    ensures |candidates| <= |lines|
    ensures forall k :: 0 <= k < |candidates| ==> NamedIn(lines, candidates[k])
    decreases |lines|
  {
    if lines == [] then []
    else
      var init := RuntimeListCandidates(lines[..|lines| - 1]);
      assert forall c :: NamedIn(lines[..|lines| - 1], c) ==> NamedIn(lines, c) by {
        forall c | NamedIn(lines[..|lines| - 1], c) ensures NamedIn(lines, c) {
          var i :| 0 <= i < |lines| - 1 && IsRuntimeLine(lines[..|lines| - 1][i], c);
          assert lines[i] == lines[..|lines| - 1][i];
        }
      }
      match RuntimeListEntry(lines[|lines| - 1])
      case None => init
      case Some(candidate) =>
        assert IsRuntimeLine(lines[|lines| - 1], candidate);
        init + [candidate]
  }

  /**
   * `GetRuntimeList` after the process has been started (or not): when the
   * start fails nothing is yielded; otherwise the lines are read in order
   * and the ones naming a .NET Core runtime give their version text.
   */
  method GetRuntimeList(started: bool, output: seq<string>) returns (candidates: seq<string>)
    ensures !started ==> candidates == []
    ensures started ==> candidates == RuntimeListCandidates(output)
  {
    candidates := [];
    if !started {
      return;
    }
    var i := 0;
    while i < |output|
      invariant 0 <= i <= |output|
      invariant candidates == RuntimeListCandidates(output[..i])
    {
      var line := output[i];
      assert output[..i + 1][..i] == output[..i];
      if StartsWith(line, RuntimeListPrefix) {
        candidates := candidates + [line[VersionStart..]];
      }
      i := i + 1;
    }
    assert output[..i] == output;
  }

  /**
   * Whether `new RuntimeFramework(RuntimeType.NetCore, v)` succeeds. The
   * constructor looks up the CLR version that goes with `v` and throws for a
   * version it does not know; the comment at the ceiling check names every
   * version past .NET 7 as such. `RuntimeFramework` itself is not part of
   * this model, so the known versions are taken to be exactly those with
   * Major at most 7.
   */
  predicate ClrVersionKnown(v: Version) {
    v.major <= MaxSupportedMajor
  }

  /**
   * The state `FindDotNetCoreFrameworks` builds up: the versions seen so
   * far, what it has yielded, and the version whose `RuntimeFramework`
   * construction threw, once that has happened (the enumeration then ends).
   */
  datatype Discovery = Discovery(alreadyFound: seq<Version>, frameworks: seq<RuntimeFramework>, unknown: Option<Version>)

  const NothingFound := Discovery([], [], None)

  /**
   * One iteration of either loop of `FindDotNetCoreFrameworks`. Only the
   * directory loop applies the major-version ceiling (`checkCeiling`); in
   * both loops a version is added to `alreadyFound` before that check, and
   * the `RuntimeFramework` is constructed only after it.
   */
  function Step(d: Discovery, candidate: string, checkCeiling: bool): (r: Discovery)
    ensures d.alreadyFound <= r.alreadyFound && d.frameworks <= r.frameworks
    ensures |r.frameworks| <= |d.frameworks| + 1
    ensures d.unknown.Some? ==> r == d
    ensures r.unknown.Some? ==> r.unknown == d.unknown || !ClrVersionKnown(r.unknown.value)
    ensures checkCeiling && d.unknown.None? ==> r.unknown.None?
    ensures checkCeiling ==> forall k :: |d.frameworks| <= k < |r.frameworks| ==>
      r.frameworks[k].version.major <= MaxSupportedMajor
  {
    if d.unknown.Some? then d
    else
      match VersionFromString(candidate)
      case None => d
      case Some(v) =>
        if v in d.alreadyFound then d
        else if checkCeiling && v.major > MaxSupportedMajor then
          Discovery(d.alreadyFound + [v], d.frameworks, None)
        else if ClrVersionKnown(v) then
          Discovery(d.alreadyFound + [v], d.frameworks + [RuntimeFramework(NetCore, v)], None)
        else
          Discovery(d.alreadyFound + [v], d.frameworks, Some(v))
  }

  /** A whole loop of `FindDotNetCoreFrameworks` over the candidates of one source. */
  function Pass(d: Discovery, candidates: seq<string>, checkCeiling: bool): (r: Discovery)
    ensures d.alreadyFound <= r.alreadyFound && d.frameworks <= r.frameworks
    ensures |r.frameworks| <= |d.frameworks| + |candidates|
    ensures d.unknown.Some? ==> r == d
    ensures r.unknown.Some? ==> r.unknown == d.unknown || !ClrVersionKnown(r.unknown.value)
    ensures checkCeiling && d.unknown.None? ==> r.unknown.None?
    ensures checkCeiling ==> forall k :: |d.frameworks| <= k < |r.frameworks| ==>
      r.frameworks[k].version.major <= MaxSupportedMajor
    decreases |candidates|
  {
    if candidates == [] then d
    else
      var q := Pass(d, candidates[..|candidates| - 1], checkCeiling);
      var r := Step(q, candidates[|candidates| - 1], checkCeiling);
      assert forall k :: |d.frameworks| <= k < |q.frameworks| ==> r.frameworks[k] == q.frameworks[k];
      r
  }

  /** Once a construction has thrown, the rest of the candidates change nothing. */
  lemma {:induction false} PassAfterThrow(d: Discovery, candidates: seq<string>, checkCeiling: bool, m: nat)
    requires m <= |candidates|
    requires Pass(d, candidates[..m], checkCeiling).unknown.Some?
    ensures Pass(d, candidates, checkCeiling) == Pass(d, candidates[..m], checkCeiling)
    decreases |candidates|
  {
    if m < |candidates| {
      var init := candidates[..|candidates| - 1];
      assert init[..m] == candidates[..m];
      PassAfterThrow(d, init, checkCeiling, m);
    } else {
      assert candidates[..m] == candidates;
    }
  }

  /** What the directory loop yields: never a runtime past the ceiling, and it never throws. */
  function DirectoryResults(runtimeDirectories: seq<string>): (frameworks: seq<RuntimeFramework>)
    ensures |frameworks| <= |runtimeDirectories|
    ensures forall k :: 0 <= k < |frameworks| ==> frameworks[k].version.major <= MaxSupportedMajor
    ensures Pass(NothingFound, runtimeDirectories, true).unknown.None?
  {
    Pass(NothingFound, runtimeDirectories, true).frameworks
  }

  /**
   * The runtimes an enumeration of `FindDotNetCoreFrameworks` yields, and
   * the version whose `RuntimeFramework` construction threw after them, if
   * any.
   */
  datatype Enumeration = Enumeration(yielded: seq<RuntimeFramework>, thrownFor: Option<Version>)

  /** Enumerating `FindDotNetCoreFrameworks`: the directory loop, then the runtime-list loop. */
  function Discover(runtimeDirectories: seq<string>, listCandidates: seq<string>): (r: Enumeration)
    ensures DirectoryResults(runtimeDirectories) <= r.yielded
    ensures |r.yielded| <= |runtimeDirectories| + |listCandidates|
    ensures r.thrownFor.Some? ==> !ClrVersionKnown(r.thrownFor.value)
  {
    var d := Pass(Pass(NothingFound, runtimeDirectories, true), listCandidates, false);
    Enumeration(d.frameworks, d.unknown)
  }

  /**
   * `FindDotNetCoreFrameworks`, with the directory names and the outcome of
   * starting `dotnet --list-runtimes` given as inputs. What it yields is
   * collected into `frameworks`; `thrownFor` is the version whose
   * `RuntimeFramework` construction threw and ended the enumeration.
   */
  method FindDotNetCoreFrameworks(runtimeDirectories: seq<string>, listStarted: bool, listOutput: seq<string>)
    returns (frameworks: seq<RuntimeFramework>, thrownFor: Option<Version>)
    ensures Enumeration(frameworks, thrownFor)
      == Discover(runtimeDirectories, if listStarted then RuntimeListCandidates(listOutput) else [])
    ensures !listStarted ==> frameworks == DirectoryResults(runtimeDirectories) && thrownFor == None
  {
    var alreadyFound: seq<Version> := [];
    frameworks := [];
    thrownFor := None;

    var i := 0;
    while i < |runtimeDirectories|
      invariant 0 <= i <= |runtimeDirectories|
      invariant Discovery(alreadyFound, frameworks, None) == Pass(NothingFound, runtimeDirectories[..i], true)
    {
      assert runtimeDirectories[..i + 1][..i] == runtimeDirectories[..i];
      assert Pass(NothingFound, runtimeDirectories[..i + 1], true)
        == Step(Pass(NothingFound, runtimeDirectories[..i], true), runtimeDirectories[i], true);
      var ok, newVersion := TryGetVersionFromString(runtimeDirectories[i]);
      if ok && newVersion !in alreadyFound {
        alreadyFound := alreadyFound + [newVersion];
        if newVersion.major <= MaxSupportedMajor {
          frameworks := frameworks + [RuntimeFramework(NetCore, newVersion)];
        }
      }
      i := i + 1;
    }
    assert runtimeDirectories[..i] == runtimeDirectories;
    ghost var afterDirectories := Discovery(alreadyFound, frameworks, None);

    var lines := GetRuntimeList(listStarted, listOutput);
    var j := 0;
    while j < |lines|
      invariant 0 <= j <= |lines|
      invariant Discovery(alreadyFound, frameworks, None) == Pass(afterDirectories, lines[..j], false)
    {
      assert lines[..j + 1][..j] == lines[..j];
      assert Pass(afterDirectories, lines[..j + 1], false) == Step(Pass(afterDirectories, lines[..j], false), lines[j], false);
      var ok, newVersion := TryGetVersionFromString(lines[j]);
      if ok && newVersion !in alreadyFound {
        alreadyFound := alreadyFound + [newVersion];
        if !ClrVersionKnown(newVersion) {
          // The constructor throws: the enumeration ends with this exception.
          thrownFor := Some(newVersion);
          PassAfterThrow(afterDirectories, lines, false, j + 1);
          return;
        }
        frameworks := frameworks + [RuntimeFramework(NetCore, newVersion)];
      }
      j := j + 1;
    }
    assert lines[..j] == lines;
  }
}
